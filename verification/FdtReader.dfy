// What a reader of the pointer tree sees, and the kernel's own two lookups.
module FdtReader {
  import opened Words
  import opened FdtFormat
  import opened FdtParser
  import opened FdtStream
  import opened FdtBuild
  import opened FdtRoundTrip

  // ---- Reading back ----

  // Following pointers from `a` spells out t: slots in order up to the first NULL, after the
  // first `lead` child slots. No layout is assumed.
  predicate Reads(blob: Blob, s: Store, a: nat, lead: nat, t: Tree)
    decreases t
  {
    && a in s.nodes && CStrAt(blob, s.nodes[a].name, t.name)
    && |s.nodes[a].properties| == SLOTS && |s.nodes[a].children| == SLOTS
    && |t.props| <= SLOTS && lead + |t.children| <= SLOTS
    && (forall i | 0 <= i < SLOTS :: s.nodes[a].properties[i] != 0 <==> i < |t.props|)
    && (forall i | 0 <= i < |t.props| :: PropHeld(blob, s, s.nodes[a].properties[i], t.props[i]))
    && (forall i | lead <= i < SLOTS :: s.nodes[a].children[i] != 0 <==> i - lead < |t.children|)
    && (forall i | 0 <= i < |t.children| :: Reads(blob, s, s.nodes[a].children[lead + i], 0, t.children[i]))
  }

  // The tree with everything past the slots cut away.
  function Keep(t: Tree, room: nat): (k: Tree)
    decreases t
  {
    var n := if |t.children| < room then |t.children| else room;
    Tree(t.name, t.props[..Kept(|t.props|)],
         seq(n, i requires 0 <= i < n => Keep(t.children[i], SLOTS)))
  }

  predicate WithinCaps(t: Tree, room: nat)
    decreases t
  {
    |t.props| <= SLOTS && |t.children| <= room && forall i | 0 <= i < |t.children| :: WithinCaps(t.children[i], SLOTS)
  }

  // The whole tree is kept exactly when it is within the caps.
  lemma {:induction false} KeepIff(t: Tree, room: nat)
    ensures Keep(t, room) == t <==> WithinCaps(t, room)
    decreases t
  {
    var k := Keep(t, room);
    forall i | 0 <= i < |t.children|
      ensures Keep(t.children[i], SLOTS) == t.children[i] <==> WithinCaps(t.children[i], SLOTS)
    {
      KeepIff(t.children[i], SLOTS);
    }
    if WithinCaps(t, room) {
      assert k.children == t.children && k.props == t.props;
    } else if k == t {
      assert |k.props| == |t.props| && |k.children| == |t.children|;
      assert forall i | 0 <= i < |t.children| :: k.children[i] == Keep(t.children[i], SLOTS);
    }
  }

  // The i-th tree of a forest starts at the i-th address.
  lemma {:induction false} ForestAt(blob: Blob, s: Store, base: nat, parent: nat, ts: seq<Tree>, i: nat)
    requires ForestHolds(blob, s, base, parent, ts) && i < |ts|
    ensures Holds(blob, s, Addrs(base, ts)[i], parent, [], ts[i])
    decreases i
  {
    if i > 0 { ForestAt(blob, s, base + Size(ts[0]), parent, ts[1..], i - 1); }
  }

  lemma {:induction false} HoldsReads(blob: Blob, s: Store, a: nat, parent: nat, lead: seq<nat>, t: Tree)
    requires Holds(blob, s, a, parent, lead, t) && a > 0 && |lead| <= SLOTS
    ensures Reads(blob, s, a, |lead|, Keep(t, SLOTS - |lead|))
    decreases t
  {
    hide PropHeld, CStrAt, Holds;
    var k := Keep(t, SLOTS - |lead|);
    var node := NodeOf(blob, s, a, parent, lead, t);
    forall i | 0 <= i < |k.props| ensures PropHeld(blob, s, node.properties[i], k.props[i]) {
      assert PropHeld(blob, s, a + NODE_SIZE + PROP_SIZE * (0 + i), t.props[i]);
    }
    forall i | 0 <= i < |k.children| ensures Reads(blob, s, node.children[|lead| + i], 0, k.children[i]) {
      ForestAt(blob, s, KidsAt(a, t), a, t.children, i);
      var b := Addrs(KidsAt(a, t), t.children)[i];
      assert b in Addrs(KidsAt(a, t), t.children);
      assert node.children[|lead| + i] == b;
      HoldsReads(blob, s, b, a, [], t.children[i]);
    }
    forall i | |lead| <= i < SLOTS ensures node.children[i] != 0 <==> i - |lead| < |k.children| {
      if i - |lead| < |k.children| {
        assert node.children[i] in Addrs(KidsAt(a, t), t.children);
      }
    }
  }

  lemma NodeOf(blob: Blob, s: Store, a: nat, parent: nat, lead: seq<nat>, t: Tree) returns (n: Node)
    requires Holds(blob, s, a, parent, lead, t)
    ensures a in s.nodes && n == s.nodes[a] && CStrAt(blob, n.name, t.name)
    ensures n.properties == Slots(PropAddrs(a + NODE_SIZE, |t.props|)) && PropsHeld(blob, s, a + NODE_SIZE, t.props, 0)
    ensures n.children == Slots(lead + Addrs(KidsAt(a, t), t.children))
    ensures ForestHolds(blob, s, KidsAt(a, t), a, t.children)
  {
    n := s.nodes[a];
  }

  lemma SlotCount(slots: seq<nat>, lead: nat, a: nat, b: nat)
    requires lead + a <= |slots| && lead + b <= |slots|
    requires forall i | lead <= i < |slots| :: slots[i] != 0 <==> i - lead < a
    requires forall i | lead <= i < |slots| :: slots[i] != 0 <==> i - lead < b
    ensures a == b
  {
    var least := if a < b then a else b;
    if lead + least < |slots| {
      assert slots[lead + least] != 0 <==> least < a;
    }
  }

  // A pointer tree spells out one tree only.
  lemma {:induction false} ReadsUnique(blob: Blob, s: Store, a: nat, lead: nat, t: Tree, u: Tree)
    requires Reads(blob, s, a, lead, t) && Reads(blob, s, a, lead, u)
    ensures t == u
    decreases t
  {
    var n := s.nodes[a];
    CStrUnique(blob, n.name, t.name, u.name);
    SlotCount(n.properties, 0, |t.props|, |u.props|);
    forall i | 0 <= i < |t.props| ensures t.props[i] == u.props[i] {
      CStrUnique(blob, s.properties[n.properties[i]].name, t.props[i].name, u.props[i].name);
    }
    SlotCount(n.children, lead, |t.children|, |u.children|);
    forall i | 0 <= i < |t.children| ensures t.children[i] == u.children[i] {
      ReadsUnique(blob, s, n.children[lead + i], 0, t.children[i], u.children[i]);
    }
    assert t.props == u.props && t.children == u.children;
  }

  // The root's first child slot points back to the root.
  predicate ReadsRoot(blob: Blob, s: Store, t: Tree) {
    Reads(blob, s, s.root, 1, t) && s.nodes[s.root].children[0] == s.root
  }

  // The round trip as a reader sees it: names, values, children and order come back, with at most
  // 15 children under the root and 16 of anything elsewhere; the tree itself comes back exactly
  // when it is within those caps.
  lemma ReadBack(blob: Blob, t: Tree, table: Strings, es: seq<Event>, limit: nat, s: Store)
    requires Image(blob, t, table, es) && Wf(s, limit) && LoopBound(blob) > LastToken(es, 0)
    requires s.cursor + Size(t) < limit
    ensures var r := ParseBlob(blob, limit, s);
            && r.Ok? && ReadsRoot(blob, r.store, Keep(t, SLOTS - 1))
            && (ReadsRoot(blob, r.store, t) <==> WithinCaps(t, SLOTS - 1))
  {
    hide ParseBlob, LoopBound, Size, Reads, Keep, Holds;
    RoundTrip(blob, t, table, es, limit, s);
    CursorPositive(s, limit);
    var r := ParseBlob(blob, limit, s).store;
    HoldsReads(blob, r, s.cursor, 0, [s.cursor], t);
    var n := NodeOf(blob, r, s.cursor, 0, [s.cursor], t);
    KeepIff(t, SLOTS - 1);
    if ReadsRoot(blob, r, t) { ReadsUnique(blob, r, r.root, 1, t, Keep(t, SLOTS - 1)); }
  }

  // ---- Heap use ----

  function Nodes(t: Tree): (r: nat) {
    1 + ForestNodes(t.children)
  }

  function ForestNodes(ts: seq<Tree>): (r: nat) {
    if ts == [] then 0 else Nodes(ts[0]) + ForestNodes(ts[1..])
  }

  function StoredProps(t: Tree): (r: nat) {
    Kept(|t.props|) + ForestStoredProps(t.children)
  }

  function ForestStoredProps(ts: seq<Tree>): (r: nat) {
    if ts == [] then 0 else StoredProps(ts[0]) + ForestStoredProps(ts[1..])
  }

  // 272 bytes a node, linked or not, and 24 bytes a stored property; eight-byte alignment is kept.
  lemma {:induction false} SizeCounts(t: Tree)
    ensures Size(t) == 272 * Nodes(t) + 24 * StoredProps(t) && Size(t) % 8 == 0
    decreases t, 0
  {
    ForestSizeCounts(t.children);
  }

  lemma {:induction false} ForestSizeCounts(ts: seq<Tree>)
    ensures ForestSize(ts) == NODE_SIZE * ForestNodes(ts) + PROP_SIZE * ForestStoredProps(ts) && ForestSize(ts) % 8 == 0
    decreases ts, 1
  {
    if ts != [] {
      SizeCounts(ts[0]);
      ForestSizeCounts(ts[1..]);
    }
  }

  // ---- The loop bound ----

  // The unswapped size reaches at least as far as the real one exactly when the field's bytes,
  // read from the back, are not below the bytes read from the front.
  lemma SwappedBound(blob: Blob)
    requires HasHeader(blob)
    ensures LoopBound(blob) >= Read32(blob, 36) <==>
            blob[39] > blob[36] || (blob[39] == blob[36] && blob[38] >= blob[37])
  {
    SwappedDigitsBelow(blob[36], blob[37], blob[38], blob[39]);
  }

  lemma SwappedDigitsBelow(a: int, b: int, c: int, d: int)
    requires 0 <= a < 256 && 0 <= b < 256 && 0 <= c < 256 && 0 <= d < 256
    ensures FromDigits(a, b, c, d) >= FromDigits(d, c, b, a) <==> d > a || (d == a && c >= b)
  {
  }

  // ---- Lookups ----

  // memory@80000000 and reg
  const MEMORY_NAME: seq<Byte> := [109, 101, 109, 111, 114, 121, 64, 56, 48, 48, 48, 48, 48, 48, 48]
  const REG_NAME: seq<Byte> := [114, 101, 103]

  datatype Lookup = Found(address: nat) | NotFound | Crash

  function FindChild(blob: Blob, s: Store, slots: seq<nat>, name: seq<Byte>): (r: Lookup)
    ensures r.Found? ==> r.address in slots && r.address in s.nodes
    ensures r.Found? ==> StrCmp(blob, s.nodes[r.address].name, name + [0], 0) == Some(0)
  {
    if slots == [] then NotFound
    else if slots[0] !in s.nodes then Crash
    else
      match StrCmp(blob, s.nodes[slots[0]].name, name + [0], 0)
      case None => Crash
      case Some(c) => if c == 0 then Found(slots[0]) else FindChild(blob, s, slots[1..], name)
  }

  function FindProperty(blob: Blob, s: Store, slots: seq<nat>, name: seq<Byte>): (r: Lookup)
    ensures r.Found? ==> r.address in slots && r.address in s.properties
    ensures r.Found? ==> StrCmp(blob, s.properties[r.address].name, name + [0], 0) == Some(0)
  {
    if slots == [] then NotFound
    else if slots[0] !in s.properties then Crash
    else
      match StrCmp(blob, s.properties[slots[0]].name, name + [0], 0)
      case None => Crash
      case Some(c) => if c == 0 then Found(slots[0]) else FindProperty(blob, s, slots[1..], name)
  }

  // fdt_FindNodeByName under the root, then the "reg" property, then its fourth word.
  function MemorySize(blob: Blob, s: Store): (r: Option<nat>) {
    if s.root !in s.nodes then None
    else
      match FindChild(blob, s, s.nodes[s.root].children, MEMORY_NAME)
      case Crash => None
      case NotFound => Some(0)
      case Found(a) =>
        match FindProperty(blob, s, s.nodes[a].properties, REG_NAME)
        case Crash => None
        case NotFound => Some(0)
        case Found(p) =>
          WordAt(blob, s.properties[p].value + 12)
  }

  // The lookup in any memory: it passes slots whose names differ; the first other one is the answer,
  // or the crash when it is no node or its name runs out of the blob.
  lemma {:induction false} FindChildMeans(blob: Blob, s: Store, slots: seq<nat>, name: seq<Byte>) returns (k: nat)
    ensures k <= |slots|
    ensures forall l | 0 <= l < k :: slots[l] in s.nodes && Differs(blob, s.nodes[slots[l]].name, name)
    ensures k < |slots| && slots[k] in s.nodes ==> !Differs(blob, s.nodes[slots[k]].name, name)
    ensures FindChild(blob, s, slots, name) ==
            if k == |slots| then NotFound
            else if slots[k] !in s.nodes || StrCmp(blob, s.nodes[slots[k]].name, name + [0], 0) == None then Crash
            else Found(slots[k])
    decreases |slots|
  {
    hide StrCmp;
    k := 0;
    if slots != [] && slots[0] in s.nodes && Differs(blob, s.nodes[slots[0]].name, name) {
      k := FindChildMeans(blob, s, slots[1..], name);
      k := k + 1;
    }
  }

  lemma {:induction false} FindPropertyMeans(blob: Blob, s: Store, slots: seq<nat>, name: seq<Byte>) returns (k: nat)
    ensures k <= |slots|
    ensures forall l | 0 <= l < k :: slots[l] in s.properties && Differs(blob, s.properties[slots[l]].name, name)
    ensures k < |slots| && slots[k] in s.properties ==> !Differs(blob, s.properties[slots[k]].name, name)
    ensures FindProperty(blob, s, slots, name) ==
            if k == |slots| then NotFound
            else if slots[k] !in s.properties || StrCmp(blob, s.properties[slots[k]].name, name + [0], 0) == None
            then Crash
            else Found(slots[k])
    decreases |slots|
  {
    hide StrCmp;
    k := 0;
    if slots != [] && slots[0] in s.properties && Differs(blob, s.properties[slots[0]].name, name) {
      k := FindPropertyMeans(blob, s, slots[1..], name);
      k := k + 1;
    }
  }

  predicate Differs(blob: Blob, at: nat, name: seq<Byte>) {
    StrCmp(blob, at, name + [0], 0).Some? && StrCmp(blob, at, name + [0], 0) != Some(0)
  }

  // No size without a root node, when a lookup crashes, or when the word lies outside the blob.
  lemma NoSizeIff(blob: Blob, s: Store)
    ensures MemorySize(blob, s).None? <==>
            || s.root !in s.nodes
            || var f := FindChild(blob, s, s.nodes[s.root].children, MEMORY_NAME);
               f.Crash? || (f.Found? && var p := FindProperty(blob, s, s.nodes[f.address].properties, REG_NAME);
                                        p.Crash? || (p.Found? && s.properties[p.address].value + 16 > |blob|))
  {
    hide FindChild, FindProperty, Read32;
  }

  // Index of the first element with a name, or the length.
  function FirstTree(ts: seq<Tree>, name: seq<Byte>): (i: nat)
    ensures i <= |ts|
    ensures forall k | 0 <= k < i :: ts[k].name != name
    ensures i < |ts| ==> ts[i].name == name
  {
    if ts == [] || ts[0].name == name then 0 else 1 + FirstTree(ts[1..], name)
  }

  function FirstProp(ps: seq<Prop>, name: seq<Byte>): (i: nat)
    ensures i <= |ps|
    ensures forall k | 0 <= k < i :: ps[k].name != name
    ensures i < |ps| ==> ps[i].name == name
  {
    if ps == [] || ps[0].name == name then 0 else 1 + FirstProp(ps[1..], name)
  }

  // The slots name the trees, and end in NULLs.
  predicate SlotsRead(blob: Blob, s: Store, slots: seq<nat>, ts: seq<Tree>) {
    && |ts| <= |slots|
    && (forall i | 0 <= i < |ts| :: Reads(blob, s, slots[i], 0, ts[i]))
    && (forall i | |ts| <= i < |slots| :: slots[i] == 0)
  }

  lemma {:induction false} FindChildFirst(blob: Blob, s: Store, slots: seq<nat>, ts: seq<Tree>, name: seq<Byte>)
    requires SlotsRead(blob, s, slots, ts) && 0 !in name && 0 !in s.nodes
    ensures var i := FirstTree(ts, name);
            FindChild(blob, s, slots, name) ==
            if i < |ts| then Found(slots[i]) else if |ts| < |slots| then Crash else NotFound
    decreases |slots|
  {
    if ts != [] {
      assert Reads(blob, s, slots[0], 0, ts[0]);
      StrCmpZero(blob, s.nodes[slots[0]].name, ts[0].name, name + [0], 0, name);
      FindChildFirst(blob, s, slots[1..], ts[1..], name);
    }
  }

  predicate SlotsHold(blob: Blob, s: Store, slots: seq<nat>, ps: seq<Prop>) {
    && |ps| <= |slots|
    && (forall i | 0 <= i < |ps| :: PropHeld(blob, s, slots[i], ps[i]))
    && (forall i | |ps| <= i < |slots| :: slots[i] == 0)
  }

  lemma {:induction false} FindPropertyFirst(blob: Blob, s: Store, slots: seq<nat>, ps: seq<Prop>, name: seq<Byte>)
    requires SlotsHold(blob, s, slots, ps) && 0 !in name && 0 !in s.properties
    ensures var i := FirstProp(ps, name);
            FindProperty(blob, s, slots, name) ==
            if i < |ps| then Found(slots[i]) else if |ps| < |slots| then Crash else NotFound
    decreases |slots|
  {
    if ps != [] {
      assert PropHeld(blob, s, slots[0], ps[0]);
      StrCmpZero(blob, s.properties[slots[0]].name, ps[0].name, name + [0], 0, name);
      FindPropertyFirst(blob, s, slots[1..], ps[1..], name);
    }
  }

  // A 64-bit big-endian cell pair.
  function Be64At(v: seq<Byte>, at: nat): (r: nat)
    requires at + 8 <= |v|
  {
    Read32(v, at) * WORD32 + Read32(v, at + 4)
  }

  // What the tree says about the memory size. Known(None): the kernel follows a NULL pointer.
  // Beyond: the memory node's "reg" holds less than two address cells and two size cells.
  datatype Report = Known(size: Option<nat>) | Beyond(value: seq<Byte>)

  function SizeInTree(t: Tree): (r: Report) {
    var i := FirstTree(t.children, MEMORY_NAME);
    if i == |t.children| then Known(if i == SLOTS - 1 then Some(0) else None)
    else
      var c := t.children[i];
      var k := FirstProp(c.props, REG_NAME);
      if k == |c.props| then Known(if k == SLOTS then Some(0) else None)
      else if |c.props[k].value| < 16 then Beyond(c.props[k].value)
      else Known(Some(Be64At(c.props[k].value, 8) % WORD32))
  }

  // A value that is too short is read past its end, at the place in the blob that the stored
  // property points to.
  ghost predicate Reports(blob: Blob, s: Store, r: Report) {
    match r
    case Known(size) => MemorySize(blob, s) == size
    case Beyond(v) =>
      exists p: nat ::
        PropHeld(blob, s, p, Prop(REG_NAME, v)) && MemorySize(blob, s) == WordAt(blob, s.properties[p].value + 12)
  }

  function WordAt(blob: Blob, at: nat): (r: Option<nat>) {
    if at + 4 <= |blob| then Some(Read32(blob, at)) else None
  }

  // The reported memory size, for every tree read back at the root: the first region's size modulo
  // 2^32; zero only when every slot is taken by other names; a NULL pointer is followed when the
  // node, or its property, is missing and a slot is free; a short property is read past its end.
  lemma MemorySizeOfTree(blob: Blob, s: Store, t: Tree)
    requires ReadsRoot(blob, s, t) && t.name == [] && 0 !in s.nodes && 0 !in s.properties
    ensures Reports(blob, s, SizeInTree(t))
    ensures MemorySize(blob, s).Some? ==> MemorySize(blob, s).value < WORD32
  {
    hide Read32, Reads, Be64At, FindChild, FindProperty, StrCmp, Reflects;
    FindMemory(blob, s, t);
    var i := FirstTree(t.children, MEMORY_NAME);
    if i < |t.children| {
      RegOfChild(blob, s, FindChild(blob, s, s.nodes[s.root].children, MEMORY_NAME).address, t.children[i]);
    }
  }

  lemma FindMemory(blob: Blob, s: Store, t: Tree)
    requires ReadsRoot(blob, s, t) && t.name == [] && 0 !in s.nodes
    ensures var i := FirstTree(t.children, MEMORY_NAME);
            var f := FindChild(blob, s, s.nodes[s.root].children, MEMORY_NAME);
            && s.root in s.nodes
            && if i < |t.children| then f.Found? && Reads(blob, s, f.address, 0, t.children[i])
               else f == if i == SLOTS - 1 then NotFound else Crash
  {
    var slots := s.nodes[s.root].children;
    StrCmpZero(blob, s.nodes[s.root].name, [], MEMORY_NAME + [0], 0, MEMORY_NAME);
    forall i | 0 <= i < |t.children| ensures Reads(blob, s, slots[1..][i], 0, t.children[i]) {
      assert slots[1..][i] == slots[1 + i];
    }
    FindChildFirst(blob, s, slots[1..], t.children, MEMORY_NAME);
  }

  lemma RegOfChild(blob: Blob, s: Store, a: nat, c: Tree)
    requires Reads(blob, s, a, 0, c) && 0 !in s.properties
    ensures var k := FirstProp(c.props, REG_NAME);
            var f := FindProperty(blob, s, s.nodes[a].properties, REG_NAME);
            if k < |c.props|
            then && f.Found? && f.address in s.properties
                 && PropHeld(blob, s, f.address, Prop(REG_NAME, c.props[k].value))
                 && (|c.props[k].value| >= 16 ==>
                       WordAt(blob, s.properties[f.address].value + 12) == Some(Be64At(c.props[k].value, 8) % WORD32))
            else f == if k == SLOTS then NotFound else Crash
  {
    hide Read32, Reflects, Be64At, StrCmp, CStrAt, FindProperty, WordAt;
    var slots := s.nodes[a].properties;
    FindPropertyFirst(blob, s, slots, c.props, REG_NAME);
    var k := FirstProp(c.props, REG_NAME);
    if k < |c.props| {
      var p := c.props[k];
      assert PropHeld(blob, s, slots[k], p);
      RegWord(blob, s.properties[slots[k]], p);
    }
  }

  lemma RegWord(blob: Blob, r: Property, p: Prop)
    requires Reflects(blob, r, p)
    ensures |p.value| >= 16 ==> WordAt(blob, r.value + 12) == Some(Be64At(p.value, 8) % WORD32)
  {
    hide Read32;
    if |p.value| >= 16 { SameWord(blob, r.value, p.value, 12); }
  }

  lemma SameWord(blob: Blob, at: nat, v: seq<Byte>, i: nat)
    requires HoldsAt(blob, at, v) && i + 4 <= |v|
    ensures at + i + 4 <= |blob| && Read32(blob, at + i) == Read32(v, i)
  {
    var w := blob[at..at + |v|];
    assert w[i] == blob[at + i] && w[i + 1] == blob[at + i + 1] && w[i + 2] == blob[at + i + 2]
           && w[i + 3] == blob[at + i + 3];
  }

  // From bytes to bytes: what srv_fdt_GetMemorySize reports after parsing an encoded tree.
  lemma MemorySizeOfBlob(blob: Blob, t: Tree, table: Strings, es: seq<Event>, limit: nat, s: Store)
    requires Image(blob, t, table, es) && Wf(s, limit) && LoopBound(blob) > LastToken(es, 0)
    requires s.cursor + Size(t) < limit
    ensures var r := ParseBlob(blob, limit, s);
            && r.Ok? && Reports(blob, r.store, SizeInTree(Keep(t, SLOTS - 1)))
            && (MemorySize(blob, r.store).Some? ==> MemorySize(blob, r.store).value < WORD32)
  {
    hide ParseBlob, LoopBound, Size, MemorySize, SizeInTree, Reports;
    RoundTrip(blob, t, table, es, limit, s);
    ReadBack(blob, t, table, es, limit, s);
    MemorySizeOfTree(blob, ParseBlob(blob, limit, s).store, Keep(t, SLOTS - 1));
  }
}
