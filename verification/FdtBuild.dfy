// From actions to the heap: the exact memory image a well-formed tree leaves behind.
module FdtBuild {
  import opened Words
  import opened FdtFormat
  import opened FdtParser
  import opened FdtStream

  // ---- Layout ----

  function Kept(n: nat): (k: nat) {
    if n < SLOTS then n else SLOTS
  }

  // Sixteen slots: the first sixteen addresses, then NULLs.
  function Slots(addrs: seq<nat>): (s: seq<nat>)
    ensures |s| == SLOTS
  {
    seq(SLOTS, i => if 0 <= i < |addrs| then addrs[i] else 0)
  }

  // The heap bytes a tree takes: its node, the properties it stores, and every descendant,
  // linked or not.
  function Size(t: Tree): (n: nat)
    ensures n >= NODE_SIZE
  {
    NODE_SIZE + PROP_SIZE * Kept(|t.props|) + ForestSize(t.children)
  }

  function ForestSize(ts: seq<Tree>): (r: nat) {
    if ts == [] then 0 else Size(ts[0]) + ForestSize(ts[1..])
  }

  function KidsAt(a: nat, t: Tree): (r: nat) {
    a + NODE_SIZE + PROP_SIZE * Kept(|t.props|)
  }

  function PropAddrs(base: nat, n: nat): (addrs: seq<nat>) {
    seq(n, i requires i >= 0 => base + PROP_SIZE * i)
  }

  function Addrs(base: nat, ts: seq<Tree>): (addrs: seq<nat>)
    ensures |addrs| == |ts|
    ensures base > 0 ==> forall a | a in addrs :: a > 0
    decreases ts
  {
    if ts == [] then [] else [base] + Addrs(base + Size(ts[0]), ts[1..])
  }

  predicate Reflects(blob: Blob, r: Property, p: Prop) {
    r.length == |p.value| && HoldsAt(blob, r.value, p.value) && CStrAt(blob, r.name, p.name)
  }

  predicate PropHeld(blob: Blob, s: Store, at: nat, p: Prop) {
    at in s.properties && Reflects(blob, s.properties[at], p)
  }

  predicate PropsHeld(blob: Blob, s: Store, base: nat, ps: seq<Prop>, from: nat) {
    forall i {:trigger ps[i]} | 0 <= i < |ps| && from + i < SLOTS ::
      PropHeld(blob, s, base + PROP_SIZE * (from + i), ps[i])
  }

  // The node at `a` and all below it stand for t; `lead` are the addresses in the first child slots.
  predicate Holds(blob: Blob, s: Store, a: nat, parent: nat, lead: seq<nat>, t: Tree)
    decreases t, 0
  {
    && a in s.nodes
    && s.nodes[a].parent == parent
    && CStrAt(blob, s.nodes[a].name, t.name)
    && s.nodes[a].properties == Slots(PropAddrs(a + NODE_SIZE, |t.props|))
    && PropsHeld(blob, s, a + NODE_SIZE, t.props, 0)
    && s.nodes[a].children == Slots(lead + Addrs(KidsAt(a, t), t.children))
    && ForestHolds(blob, s, KidsAt(a, t), a, t.children)
  }

  predicate ForestHolds(blob: Blob, s: Store, base: nat, parent: nat, ts: seq<Tree>)
    decreases ts, 1
  {
    ts == [] ||
    (Holds(blob, s, base, parent, [], ts[0]) && ForestHolds(blob, s, base + Size(ts[0]), parent, ts[1..]))
  }

  // ---- Assumptions ----

  // Every node lies below the cursor, and NULL is not one.
  predicate Wf(s: Store, limit: nat) {
    && 0 < s.cursor < limit
    && limit + NODE_SIZE <= WORD64
    && (forall a | a in s.nodes :: 0 < a < s.cursor)
    && (forall a | a in s.properties :: 0 < a < s.cursor)
  }

  predicate TableOk(blob: Blob, strings: nat, table: Strings) {
    forall name | name in table :: table[name] < WORD32 && CStrAt(blob, (strings + table[name]) % WORD32, name)
  }

  // ---- Frames ----

  // Nothing is lost, and of the old nodes only p changes, in its slots.
  predicate Frame(s: Store, s': Store, p: nat) {
    && (forall a | a in s.nodes && a != p :: a in s'.nodes && s'.nodes[a] == s.nodes[a])
    && (p in s.nodes ==> p in s'.nodes && s'.nodes[p].parent == s.nodes[p].parent
                         && s'.nodes[p].name == s.nodes[p].name)
    && (forall a | a in s.properties :: a in s'.properties && s'.properties[a] == s.properties[a])
  }

  lemma {:induction false} HoldsFrame(
      blob: Blob, s: Store, s': Store, p: nat, a: nat, parent: nat, lead: seq<nat>, t: Tree)
    requires Holds(blob, s, a, parent, lead, t) && Frame(s, s', p) && p < a
    ensures Holds(blob, s', a, parent, lead, t)
    decreases t, 0
  {
    ForestFrame(blob, s, s', p, KidsAt(a, t), a, t.children);
  }

  lemma {:induction false} ForestFrame(blob: Blob, s: Store, s': Store, p: nat, base: nat, parent: nat, ts: seq<Tree>)
    requires ForestHolds(blob, s, base, parent, ts) && Frame(s, s', p) && p < base
    ensures ForestHolds(blob, s', base, parent, ts)
    decreases ts, 1
  {
    if ts != [] {
      HoldsFrame(blob, s, s', p, base, parent, [], ts[0]);
      ForestFrame(blob, s, s', p, base + Size(ts[0]), parent, ts[1..]);
    }
  }

  // ---- Slots ----

  lemma {:induction false} FirstFreeAt(slots: seq<nat>, k: nat)
    requires k <= |slots| && (forall i | 0 <= i < k :: slots[i] != 0) && (k < |slots| ==> slots[k] == 0)
    ensures FirstFree(slots) == k
  {
    var i := FirstFree(slots);
    assert i >= k && !(k < i);
  }

  lemma FirstFreeSlot(addrs: seq<nat>)
    requires forall a | a in addrs :: a > 0
    ensures FirstFree(Slots(addrs)) == Kept(|addrs|)
  {
    forall i | 0 <= i < Kept(|addrs|) ensures Slots(addrs)[i] != 0 {
      assert addrs[i] in addrs;
    }
    FirstFreeAt(Slots(addrs), Kept(|addrs|));
  }

  lemma FilledSlots(addrs: seq<nat>, a: nat)
    requires forall x | x in addrs :: x > 0
    ensures Filled(Slots(addrs), a) == Slots(addrs + [a])
  {
    FirstFreeSlot(addrs);
  }

  // ---- Properties ----

  lemma PropSlot(base: nat, k: nat)
    requires base > 0
    ensures FirstFree(Slots(PropAddrs(base, k))) == Kept(k)
    ensures k < SLOTS ==> Slots(PropAddrs(base, k))[k := base + PROP_SIZE * k] == Slots(PropAddrs(base, k + 1))
    ensures k >= SLOTS ==> Slots(PropAddrs(base, k)) == Slots(PropAddrs(base, k + 1))
  {
    FirstFreeSlot(PropAddrs(base, k));
  }

  function PropBytes(k: nat, n: nat): (r: nat) {
    PROP_SIZE * (Kept(k + n) - Kept(k))
  }

  predicate PropsBuilt(blob: Blob, s: Store, s': Store, base: nat, k: nat, ps: seq<Prop>) {
    && s.current in s.nodes
    && s' == s.(cursor := s.cursor + PropBytes(k, |ps|), properties := s'.properties,
                nodes := s.nodes[s.current := s.nodes[s.current].(properties := Slots(PropAddrs(base, k + |ps|)))])
    && (forall a | a in s.properties :: a in s'.properties && s'.properties[a] == s.properties[a])
    && (forall a | a in s'.properties :: a in s.properties || 0 < a < s'.cursor)
    && PropsHeld(blob, s', base, ps, k)
  }

  lemma AttachReflects(blob: Blob, strings: nat, table: Strings, a: Action, p: Prop)
    requires Means(blob, strings, a, Attr(Offset(table, p.name), p.value)) && PropsOk([p], table)
    requires TableOk(blob, strings, table)
    ensures a.Attach? && Reflects(blob, a.property, p)
  {
    assert p in [p];
  }

  // One property: stored in the next free slot while there is one, dropped after that.
  lemma BuildProp(blob: Blob, strings: nat, table: Strings, limit: nat, s: Store, a: Action, p: Prop, base: nat, k: nat)
    requires Means(blob, strings, a, Attr(Offset(table, p.name), p.value)) && PropsOk([p], table)
    requires TableOk(blob, strings, table)
    requires Wf(s, limit) && s.current in s.nodes
    requires base > 0 && s.nodes[s.current].properties == Slots(PropAddrs(base, k))
    requires s.cursor == base + PROP_SIZE * Kept(k)
    ensures var r := Apply(a, s, limit);
            if s.cursor + PropBytes(k, 1) < limit
            then r.Ok? && PropsBuilt(blob, s, r.store, base, k, [p])
            else r.Panic?
  {
    hide Slots, PropAddrs, FirstFree, TableOk, Reflects, Means;
    AttachReflects(blob, strings, table, a, p);
    PropSlot(base, k);
    if k >= SLOTS {
      var node := s.nodes[s.current];
      assert node == node.(properties := Slots(PropAddrs(base, k + 1)));
      assert s.nodes == s.nodes[s.current := node];
    }
  }

  lemma BuildNoProps(blob: Blob, s: Store, base: nat, k: nat)
    requires s.current in s.nodes && s.nodes[s.current].properties == Slots(PropAddrs(base, k))
    ensures PropsBuilt(blob, s, s, base, k, [])
  {
    assert s.nodes == s.nodes[s.current := s.nodes[s.current].(properties := Slots(PropAddrs(base, k)))];
  }

  lemma PropsCons(blob: Blob, s: Store, s1: Store, s2: Store, base: nat, k: nat, ps: seq<Prop>)
    requires ps != [] && PropsBuilt(blob, s, s1, base, k, [ps[0]]) && PropsBuilt(blob, s1, s2, base, k + 1, ps[1..])
    requires s.cursor == base + PROP_SIZE * Kept(k)
    ensures PropsBuilt(blob, s, s2, base, k, ps)
  {
    assert |ps| == 1 + |ps[1..]| && k + |ps| == k + 1 + |ps[1..]|;
    assert s2.nodes == s.nodes[s.current := s.nodes[s.current].(properties := Slots(PropAddrs(base, k + |ps|)))];
    forall i | 0 <= i < |ps| && k + i < SLOTS ensures PropHeld(blob, s2, base + PROP_SIZE * (k + i), ps[i]) {
      if i == 0 {
        assert PropHeld(blob, s1, base + PROP_SIZE * (k + 0), [ps[0]][0]);
      } else {
        assert ps[i] == ps[1..][i - 1] && k + i == k + 1 + (i - 1);
      }
    }
  }

  lemma {:induction false} BuildProps(
      blob: Blob, strings: nat, table: Strings, limit: nat, s: Store,
      acts: seq<Action>, ps: seq<Prop>, base: nat, k: nat)
    requires AllMean(blob, strings, acts, Attrs(ps, table)) && PropsOk(ps, table) && TableOk(blob, strings, table)
    requires Wf(s, limit) && s.current in s.nodes
    requires base > 0 && s.nodes[s.current].properties == Slots(PropAddrs(base, k))
    requires s.cursor == base + PROP_SIZE * Kept(k)
    ensures var r := Fold(acts, s, limit);
            if s.cursor + PropBytes(k, |ps|) < limit
            then r.Ok? && PropsBuilt(blob, s, r.store, base, k, ps)
            else r.Panic?
    decreases |ps|
  {
    hide Apply, Means, TableOk, Slots, PropAddrs, PropsHeld;
    if ps == [] {
      BuildNoProps(blob, s, base, k);
    } else {
      MeanTail(blob, strings, acts, Attrs(ps, table));
      BuildProp(blob, strings, table, limit, s, acts[0], ps[0], base, k);
      if s.cursor + PropBytes(k, 1) < limit {
        var s1 := Apply(acts[0], s, limit).store;
        BuildProps(blob, strings, table, limit, s1, acts[1..], ps[1..], base, k + 1);
        assert PropBytes(k, |ps|) == PropBytes(k, 1) + PropBytes(k + 1, |ps[1..]|);
        if s.cursor + PropBytes(k, |ps|) < limit {
          PropsCons(blob, s, s1, Fold(acts, s, limit).store, base, k, ps);
        }
      }
    }
  }

  lemma MeanTail(blob: Blob, strings: nat, acts: seq<Action>, es: seq<Event>)
    requires AllMean(blob, strings, acts, es) && es != []
    ensures Means(blob, strings, acts[0], es[0]) && AllMean(blob, strings, acts[1..], es[1..])
  {
  }

  // ---- Trees ----

  // The run took `size` bytes, left node p current, and filled its child slots with addrs.
  predicate Grown(s: Store, s': Store, p: nat, addrs: seq<nat>, size: nat, limit: nat) {
    && s'.cursor == s.cursor + size && s'.current == p && s'.root == s.root
    && Wf(s', limit) && Frame(s, s', p)
    && p in s.nodes && p in s'.nodes && s'.nodes[p] == s.nodes[p].(children := Slots(addrs))
  }

  lemma {:induction false} BuildForest(
      blob: Blob, strings: nat, table: Strings, limit: nat, s: Store, acts: seq<Action>, ts: seq<Tree>, addrs: seq<nat>)
    requires AllMean(blob, strings, acts, ForestEvents(ts, table)) && InnerAllOk(ts, table)
    requires TableOk(blob, strings, table)
    requires Wf(s, limit) && s.current in s.nodes
    requires s.nodes[s.current].children == Slots(addrs) && forall a | a in addrs :: a > 0
    ensures var r := Fold(acts, s, limit);
            if s.cursor + ForestSize(ts) < limit
            then && r.Ok? && Grown(s, r.store, s.current, addrs + Addrs(s.cursor, ts), ForestSize(ts), limit)
                 && ForestHolds(blob, r.store, s.cursor, s.current, ts)
            else r.Panic?
    decreases ts, 1
  {
    hide Apply, Means, TableOk, Slots, Wf, Frame, Holds, Grown, InnerOk, Events, Size;
    if ts == [] {
      assert addrs + Addrs(s.cursor, ts) == addrs;
      NothingGrown(s, limit, addrs);
    } else {
      var n := |Events(ts[0], table)|;
      var a, b := acts[..n], acts[n..];
      MeanSplit(blob, strings, acts, Events(ts[0], table), ForestEvents(ts[1..], table));
      FoldAppend(a, b, s, limit);
      assert a + b == acts;
      BuildTree(blob, strings, table, limit, s, a, ts[0], addrs);
      if s.cursor + Size(ts[0]) < limit {
        var s1 := Fold(a, s, limit).store;
        var addrs1 := addrs + [s.cursor];
        GrownFacts(s, s1, s.current, addrs1, Size(ts[0]), limit);
        CursorPositive(s, limit);
        BuildForest(blob, strings, table, limit, s1, b, ts[1..], addrs1);
        if s.cursor + ForestSize(ts) < limit {
          var s2 := Fold(b, s1, limit).store;
          CurrentBelow(s, limit);
          GrownFacts(s1, s2, s.current, addrs1 + Addrs(s1.cursor, ts[1..]), ForestSize(ts[1..]), limit);
          HoldsFrame(blob, s1, s2, s.current, s.cursor, s.current, [], ts[0]);
          assert addrs1 + Addrs(s1.cursor, ts[1..]) == addrs + Addrs(s.cursor, ts);
          GrownTrans(s, s1, s2, s.current, addrs1, addrs + Addrs(s.cursor, ts),
                     Size(ts[0]), ForestSize(ts[1..]), limit);
        }
      }
    }
  }

  lemma {:induction false} BuildTree(
      blob: Blob, strings: nat, table: Strings, limit: nat, s: Store, acts: seq<Action>, t: Tree, addrs: seq<nat>)
    requires AllMean(blob, strings, acts, Events(t, table)) && InnerOk(t, table) && TableOk(blob, strings, table)
    requires Wf(s, limit) && s.current in s.nodes
    requires s.nodes[s.current].children == Slots(addrs) && forall a | a in addrs :: a > 0
    ensures var r := Fold(acts, s, limit);
            if s.cursor + Size(t) < limit
            then && r.Ok? && Grown(s, r.store, s.current, addrs + [s.cursor], Size(t), limit)
                 && Holds(blob, r.store, s.cursor, s.current, [], t)
            else r.Panic?
    decreases t, 0
  {
    hide Slots, TableOk, Holds, Frame, Wf, Grown, Apply, Means;
    var body := acts[1..|acts| - 1];
    TreeSplit(blob, strings, table, acts, t);
    FoldAppend([acts[0]] + body, [acts[|acts| - 1]], s, limit);
    FoldAppend([acts[0]], body, s, limit);
    assert acts == [acts[0]] + body + [acts[|acts| - 1]];
    OpenInner(blob, strings, limit, s, acts[0], t.name, addrs);
    FoldOne(acts[0], s, limit);
    if s.cursor + NODE_SIZE < limit {
      var s1 := Apply(acts[0], s, limit).store;
      BuildBody(blob, strings, table, limit, s1, body, t, s.current, []);
      if s.cursor + Size(t) < limit {
        var s2 := Fold(body, s1, limit).store;
        FoldOne(acts[|acts| - 1], s2, limit);
        CloseInner(blob, strings, limit, s, s1, s2, acts[|acts| - 1], addrs + [s.cursor], Size(t), t);
      }
    }
  }

  // What lies between a node's BEGIN_NODE and its END_NODE.
  lemma {:induction false} BuildBody(
      blob: Blob, strings: nat, table: Strings, limit: nat, s: Store,
      acts: seq<Action>, t: Tree, parent: nat, lead: seq<nat>)
    requires AllMean(blob, strings, acts, Attrs(t.props, table) + ForestEvents(t.children, table))
    requires PropsOk(t.props, table) && InnerAllOk(t.children, table) && TableOk(blob, strings, table)
    requires Wf(s, limit) && Opened(blob, s, parent, lead, t.name)
    ensures var r := Fold(acts, s, limit);
            if s.current + Size(t) < limit
            then && r.Ok? && r.store.cursor == s.current + Size(t) && r.store.current == s.current
                 && r.store.root == s.root
                 && Wf(r.store, limit) && Frame(s, r.store, s.current)
                 && Holds(blob, r.store, s.current, parent, lead, t)
            else r.Panic?
    decreases t.children, 2
  {
    hide Apply, Means, TableOk, Slots, Frame, Wf, PropAddrs, PropsHeld;
    var n := |t.props|;
    var a, b := acts[..n], acts[n..];
    MeanSplit(blob, strings, acts, Attrs(t.props, table), ForestEvents(t.children, table));
    FoldAppend(a, b, s, limit);
    assert a + b == acts;
    OpenedNoProps(blob, s, limit, parent, lead, t.name);
    BuildProps(blob, strings, table, limit, s, a, t.props, s.current + NODE_SIZE, 0);
    if s.cursor + PropBytes(0, n) < limit {
      var s1 := Fold(a, s, limit).store;
      PropsFrame(blob, s, s1, limit, s.current + NODE_SIZE, t.props);
      BuildForest(blob, strings, table, limit, s1, b, t.children, lead);
      if s.current + Size(t) < limit {
        BodyHolds(blob, s, s1, Fold(b, s1, limit).store, limit, t, parent, lead);
      }
    }
  }

  // The state right after a BEGIN_NODE: a fresh current node at the end of the heap.
  predicate Opened(blob: Blob, s: Store, parent: nat, lead: seq<nat>, name: seq<Byte>) {
    && s.current in s.nodes && s.cursor == s.current + NODE_SIZE
    && s.nodes[s.current].parent == parent && CStrAt(blob, s.nodes[s.current].name, name)
    && s.nodes[s.current].children == Slots(lead) && s.nodes[s.current].properties == Slots([])
    && (forall a | a in lead :: a > 0)
    && (forall a | a in s.properties :: a < s.current)
  }

  lemma OpenedNoProps(blob: Blob, s: Store, limit: nat, parent: nat, lead: seq<nat>, name: seq<Byte>)
    requires Opened(blob, s, parent, lead, name) && Wf(s, limit)
    ensures s.nodes[s.current].properties == Slots(PropAddrs(s.current + NODE_SIZE, 0)) && s.current > 0
  {
    assert PropAddrs(s.current + NODE_SIZE, 0) == [];
  }

  lemma PropsFrame(blob: Blob, s: Store, s1: Store, limit: nat, base: nat, ps: seq<Prop>)
    requires Wf(s, limit) && PropsBuilt(blob, s, s1, base, 0, ps) && s1.cursor < limit
    ensures Wf(s1, limit) && Frame(s, s1, s.current)
  {
  }

  lemma BodyHolds(blob: Blob, s: Store, s1: Store, s2: Store, limit: nat, t: Tree, parent: nat, lead: seq<nat>)
    requires Opened(blob, s, parent, lead, t.name) && PropsBuilt(blob, s, s1, s.current + NODE_SIZE, 0, t.props)
    requires Frame(s, s1, s.current)
    requires Grown(s1, s2, s.current, lead + Addrs(s1.cursor, t.children), ForestSize(t.children), limit)
    requires ForestHolds(blob, s2, s1.cursor, s.current, t.children)
    ensures Frame(s, s2, s.current) && Holds(blob, s2, s.current, parent, lead, t)
  {
    hide ForestHolds, CStrAt, HoldsAt;
    assert s1.cursor == KidsAt(s.current, t);
    FrameTrans(s, s1, s2, s.current);
    forall i | 0 <= i < |t.props| && 0 + i < SLOTS
      ensures PropHeld(blob, s2, s.current + NODE_SIZE + PROP_SIZE * (0 + i), t.props[i])
    {
      assert PropHeld(blob, s1, s.current + NODE_SIZE + PROP_SIZE * (0 + i), t.props[i]);
    }
  }

  lemma OpenInner(blob: Blob, strings: nat, limit: nat, s: Store, a: Action, name: seq<Byte>, addrs: seq<nat>)
    requires Wf(s, limit) && s.current in s.nodes && Means(blob, strings, a, Begin(name)) && name != []
    requires s.nodes[s.current].children == Slots(addrs) && forall x | x in addrs :: x > 0
    ensures var r := Apply(a, s, limit);
            if s.cursor + NODE_SIZE < limit
            then && r.Ok? && Wf(r.store, limit) && Opened(blob, r.store, s.current, [], name)
                 && r.store.current == s.cursor
                 && r.store.root == s.root && Frame(s, r.store, s.current) && s.current in r.store.nodes
                 && r.store.nodes[s.current] == s.nodes[s.current].(children := Slots(addrs + [s.cursor]))
            else r.Panic?
  {
    FilledSlots(addrs, s.cursor);
    BlankSlots();
  }

  lemma BlankSlots()
    ensures seq(SLOTS, i => 0) == Slots([])
  {
  }

  lemma CloseInner(
      blob: Blob, strings: nat, limit: nat, s: Store, s1: Store,
      s2: Store, a: Action, addrs: seq<nat>, size: nat, t: Tree)
    requires Means(blob, strings, a, End) && Wf(s, limit) && Wf(s2, limit)
    requires s.current in s.nodes && s1.current == s.cursor && s1.root == s.root && Frame(s, s1, s.current)
    requires s.current in s1.nodes && s1.nodes[s.current] == s.nodes[s.current].(children := Slots(addrs))
    requires s2.cursor == s.cursor + size && s2.current == s1.current && s2.root == s1.root && Frame(s1, s2, s1.current)
    requires Holds(blob, s2, s.cursor, s.current, [], t)
    ensures var r := Apply(a, s2, limit);
            && r.Ok? && Grown(s, r.store, s.current, addrs, size, limit)
            && Holds(blob, r.store, s.cursor, s.current, [], t)
  {
    var s3 := Apply(a, s2, limit).store;
    assert s3 == s2.(current := s.current);
    SameMemory(blob, s2, s3, s.cursor, s.current, t);
  }

  lemma SameMemory(blob: Blob, s: Store, s': Store, a: nat, parent: nat, t: Tree)
    requires Holds(blob, s, a, parent, [], t) && s'.nodes == s.nodes && s'.properties == s.properties && a > 0
    ensures Holds(blob, s', a, parent, [], t)
  {
    HoldsFrame(blob, s, s', 0, a, parent, [], t);
  }

  lemma TreeSplit(blob: Blob, strings: nat, table: Strings, acts: seq<Action>, t: Tree)
    requires AllMean(blob, strings, acts, Events(t, table))
    ensures |acts| >= 2
    ensures Means(blob, strings, acts[0], Begin(t.name)) && Means(blob, strings, acts[|acts| - 1], End)
    ensures AllMean(blob, strings, acts[1..|acts| - 1], Attrs(t.props, table) + ForestEvents(t.children, table))
  {
    hide Means;
    var es := Events(t, table);
    var body := Attrs(t.props, table) + ForestEvents(t.children, table);
    assert es == [Begin(t.name)] + body + [End];
    forall i | 0 <= i < |body| ensures Means(blob, strings, acts[1..|acts| - 1][i], body[i]) {
      assert es[i + 1] == body[i];
    }
  }

  lemma MeanSplit(blob: Blob, strings: nat, acts: seq<Action>, es: seq<Event>, fs: seq<Event>)
    requires AllMean(blob, strings, acts, es + fs)
    ensures AllMean(blob, strings, acts[..|es|], es) && AllMean(blob, strings, acts[|es|..], fs)
  {
    hide Means;
    forall i | 0 <= i < |fs| ensures Means(blob, strings, acts[|es|..][i], fs[i]) {
      assert (es + fs)[|es| + i] == fs[i];
    }
    forall i | 0 <= i < |es| ensures Means(blob, strings, acts[..|es|][i], es[i]) {
      assert (es + fs)[i] == es[i];
    }
  }

  lemma FoldOne(a: Action, s: Store, limit: nat)
    ensures Fold([a], s, limit) == Apply(a, s, limit)
  {
    match Apply(a, s, limit)
    case Ok(s') => assert Fold([], s', limit) == Ok(s');
    case Panic =>
    case Fault =>
  }

  lemma GrownFacts(s: Store, s': Store, p: nat, addrs: seq<nat>, size: nat, limit: nat)
    requires Grown(s, s', p, addrs, size, limit)
    ensures s'.cursor == s.cursor + size && s'.current == p && Wf(s', limit) && Frame(s, s', p)
    ensures p in s'.nodes && s'.nodes[p].children == Slots(addrs)
  {
  }

  lemma NothingGrown(s: Store, limit: nat, addrs: seq<nat>)
    requires Wf(s, limit) && s.current in s.nodes && s.nodes[s.current].children == Slots(addrs)
    ensures Grown(s, s, s.current, addrs, 0, limit) && s.cursor < limit
  {
  }

  lemma CursorPositive(s: Store, limit: nat)
    requires Wf(s, limit)
    ensures s.cursor > 0
  {
  }

  lemma CurrentBelow(s: Store, limit: nat)
    requires Wf(s, limit) && s.current in s.nodes
    ensures s.current < s.cursor
  {
  }

  lemma FrameTrans(s: Store, s1: Store, s2: Store, p: nat)
    requires Frame(s, s1, p) && Frame(s1, s2, p)
    ensures Frame(s, s2, p)
  {
  }

  lemma GrownTrans(
      s: Store, s1: Store, s2: Store, p: nat, addrs1: seq<nat>, addrs2: seq<nat>, n1: nat, n2: nat, limit: nat)
    requires Grown(s, s1, p, addrs1, n1, limit) && Grown(s1, s2, p, addrs2, n2, limit)
    ensures Grown(s, s2, p, addrs2, n1 + n2, limit)
  {
    FrameTrans(s, s1, s2, p);
  }
}
