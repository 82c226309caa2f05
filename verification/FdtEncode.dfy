// Writing a tree as a devicetree blob (sections 5.2 to 5.5 of the Devicetree Specification v0.4),
// and reading it back.
module FdtEncode {
  import opened Words
  import opened FdtFormat
  import opened FdtParser
  import opened FdtStream
  import opened FdtBuild
  import opened FdtChain
  import opened FdtRoundTrip
  import opened FdtReader

  // ---- Strings block ----

  function StringsBlock(names: seq<seq<Byte>>): (r: seq<Byte>) {
    if names == [] then [] else StringsBlock(names[..|names| - 1]) + names[|names| - 1] + [0]
  }

  // Each name's offset is that of its last copy.
  function StringsTable(names: seq<seq<Byte>>): (table: Strings)
    ensures forall n :: n in table <==> n in names
  {
    if names == [] then map[]
    else
      var rest := names[..|names| - 1];
      assert names == rest + [names[|names| - 1]];
      StringsTable(rest)[names[|names| - 1] := |StringsBlock(rest)|]
  }

  lemma CStrLonger(m: seq<Byte>, at: nat, s: seq<Byte>, more: seq<Byte>)
    requires CStrAt(m, at, s)
    ensures CStrAt(m + more, at, s)
  {
    assert (m + more)[at..at + |s|] == m[at..at + |s|];
  }

  lemma {:induction false} TableReads(names: seq<seq<Byte>>, name: seq<Byte>)
    requires name in names && forall n | n in names :: 0 !in n
    ensures CStrAt(StringsBlock(names), StringsTable(names)[name], name)
    decreases |names|
  {
    var rest, last := names[..|names| - 1], names[|names| - 1];
    assert names == rest + [last];
    var block := StringsBlock(rest);
    if name == last {
      assert StringsBlock(names)[|block|..|block| + |last|] == last;
    } else {
      TableReads(rest, name);
      CStrLonger(block, StringsTable(rest)[name], name, last + [0]);
      assert StringsBlock(names) == block + (last + [0]);
    }
  }

  // ---- Trees ----

  function PropNames(t: Tree): (r: seq<seq<Byte>>) {
    seq(|t.props|, i requires 0 <= i < |t.props| => t.props[i].name) + ForestPropNames(t.children)
  }

  function ForestPropNames(ts: seq<Tree>): (r: seq<seq<Byte>>) {
    if ts == [] then [] else PropNames(ts[0]) + ForestPropNames(ts[1..])
  }

  // No NUL in a name, property values of 32-bit length, and a name on every node but the root.
  predicate Writable(t: Tree)
    decreases t, 0
  {
    t.name == [] && PropsWritable(t.props) && AllInnerWritable(t.children)
  }

  predicate InnerWritable(t: Tree)
    decreases t, 0
  {
    t.name != [] && 0 !in t.name && PropsWritable(t.props) && AllInnerWritable(t.children)
  }

  predicate AllInnerWritable(ts: seq<Tree>)
    decreases ts, 1
  {
    ts == [] || (InnerWritable(ts[0]) && AllInnerWritable(ts[1..]))
  }

  predicate PropsWritable(ps: seq<Prop>) {
    forall p | p in ps :: 0 !in p.name && |p.value| < WORD32
  }

  lemma NodePropsInTable(t: Tree, table: Strings)
    requires PropsWritable(t.props) && forall n | n in PropNames(t) :: n in table
    ensures PropsOk(t.props, table)
  {
    forall p | p in t.props ensures p.name in table {
      var i: nat :| i < |t.props| && t.props[i] == p;
      assert PropNames(t)[i] == p.name;
    }
  }

  lemma {:induction false} PropsInTable(t: Tree, table: Strings)
    requires InnerWritable(t) && forall n | n in PropNames(t) :: n in table
    ensures InnerOk(t, table)
    decreases t, 0
  {
    NodePropsInTable(t, table);
    ForestInTable(t.children, table);
  }

  lemma {:induction false} ForestInTable(ts: seq<Tree>, table: Strings)
    requires AllInnerWritable(ts) && forall n | n in ForestPropNames(ts) :: n in table
    ensures InnerAllOk(ts, table)
    decreases ts, 1
  {
    if ts != [] {
      PropsInTable(ts[0], table);
      ForestInTable(ts[1..], table);
    }
  }

  lemma {:induction false} NamesWritable(t: Tree, n: seq<Byte>)
    requires PropsWritable(t.props) && AllInnerWritable(t.children) && n in PropNames(t)
    ensures 0 !in n
    decreases t, 0
  {
    if n in ForestPropNames(t.children) {
      ForestNamesWritable(t.children, n);
    } else {
      var i: nat :| i < |PropNames(t)| && PropNames(t)[i] == n;
      assert t.props[i] in t.props;
    }
  }

  lemma {:induction false} ForestNamesWritable(ts: seq<Tree>, n: seq<Byte>)
    requires AllInnerWritable(ts) && n in ForestPropNames(ts)
    ensures 0 !in n
    decreases ts, 1
  {
    if n in PropNames(ts[0]) { NamesWritable(ts[0], n); } else { ForestNamesWritable(ts[1..], n); }
  }

  // ---- The blob ----

  const STRUCT_AT: nat := 56

  // Header, an empty memory reservation block, structure block, strings block.
  function Header(total: nat, structSize: nat, stringsSize: nat): (s: seq<Byte>)
    ensures |s| == 40
  {
    Be32(MAGIC) + Be32(total) + Be32(STRUCT_AT) + Be32(STRUCT_AT + structSize) + Be32(40) +
    Be32(17) + Be32(16) + Be32(0) + Be32(stringsSize) + Be32(structSize)
  }

  function StructBlock(es: seq<Event>): (r: seq<Byte>) {
    EncodedAll(es) + Be32(END)
  }

  // The tree's blob, with its tokens, and any NOPs between them, given as a stream.
  function Dtb(t: Tree, es: seq<Event>): (s: seq<Byte>)
    ensures |s| == STRUCT_AT + |StructBlock(es)| + |StringsBlock(PropNames(t))|
  {
    var structure, strings := StructBlock(es), StringsBlock(PropNames(t));
    Header(STRUCT_AT + |structure| + |strings|, |structure|, |strings|) + Zeros(16) + structure + strings
  }

  lemma HeaderWords(total: nat, structSize: nat, stringsSize: nat, rest: seq<Byte>)
    requires total < WORD32 && STRUCT_AT + structSize < WORD32 && 40 + |rest| <= WORD32
    ensures var b: Blob := Header(total, structSize, stringsSize) + rest;
            && Read32(b, 0) == MAGIC && Read32(b, 4) == total && StructAt(b) == STRUCT_AT
            && StringsAt(b) == STRUCT_AT + structSize && Read32(b, 36) == structSize
  {
    hide Be32, Read32;
    var h := Header(total, structSize, stringsSize);
    var b: Blob := h + rest;
    assert b[0..4] == h[0..4] == Be32(MAGIC);
    Read32OfBe32(b, 0, MAGIC);
    assert b[4..8] == h[4..8] == Be32(total);
    Read32OfBe32(b, 4, total);
    assert b[8..12] == h[8..12] == Be32(STRUCT_AT);
    Read32OfBe32(b, 8, STRUCT_AT);
    assert b[12..16] == h[12..16] == Be32(STRUCT_AT + structSize);
    Read32OfBe32(b, 12, STRUCT_AT + structSize);
    assert b[36..40] == h[36..40] == Be32(structSize);
    Read32OfBe32(b, 36, structSize);
  }

  lemma DtbHeader(t: Tree, es: seq<Event>)
    requires |Dtb(t, es)| < WORD32
    ensures var b: Blob := Dtb(t, es);
            && Read32(b, 0) == MAGIC && Read32(b, 4) == |b| && StructAt(b) == STRUCT_AT
            && StringsAt(b) == STRUCT_AT + |StructBlock(es)| && Read32(b, 36) == |StructBlock(es)|
  {
    hide Header, StringsBlock, PropNames, StructBlock, Read32, Zeros, Be32;
    var structure, strings := StructBlock(es), StringsBlock(PropNames(t));
    var blob: Blob := Dtb(t, es);
    assert blob == Header(|blob|, |structure|, |strings|) + (Zeros(16) + structure + strings);
    HeaderWords(|blob|, |structure|, |strings|, Zeros(16) + structure + strings);
  }

  lemma DtbHoldsStruct(t: Tree, es: seq<Event>)
    requires |Dtb(t, es)| < WORD32
    ensures HoldsAt(Dtb(t, es), STRUCT_AT, StructBlock(es))
  {
    hide Header, StringsBlock, PropNames, StructBlock, Zeros;
  }

  lemma DtbHoldsName(t: Tree, es: seq<Event>, name: seq<Byte>)
    requires Writable(t) && |Dtb(t, es)| < WORD32 && name in StringsTable(PropNames(t))
    ensures var o := StringsTable(PropNames(t))[name];
            o < WORD32 && CStrAt(Dtb(t, es), (STRUCT_AT + |StructBlock(es)| + o) % WORD32, name)
  {
    hide Header, StringsBlock, StringsTable, PropNames, StructBlock, Zeros, CStrAt;
    var names := PropNames(t);
    var structure, strings := StructBlock(es), StringsBlock(names);
    var o := StringsTable(names)[name];
    forall n | n in names ensures 0 !in n { NamesWritable(t, n); }
    TableReads(names, name);
    var front := Header(|Dtb(t, es)|, |structure|, |strings|) + Zeros(16) + structure;
    assert Dtb(t, es) == front + strings && |front| == STRUCT_AT + |structure|;
    CStrShifted(front, strings, o, name);
    CStrInside(Dtb(t, es), |front| + o, name);
    Unwrapped(|front| + o, |Dtb(t, es)|);
  }

  lemma CStrInside(m: seq<Byte>, at: nat, s: seq<Byte>)
    requires CStrAt(m, at, s)
    ensures at < |m|
  {
  }

  // Every writable tree's blob is an image of it, with a correct header.
  lemma DtbIsImage(t: Tree, es: seq<Event>)
    requires Writable(t) && WithoutNops(es) == Events(t, StringsTable(PropNames(t))) && |Dtb(t, es)| < WORD32
    ensures Image(Dtb(t, es), t, StringsTable(PropNames(t)), es)
    ensures Read32(Dtb(t, es), 4) == |Dtb(t, es)| && Read32(Dtb(t, es), 36) == |StructBlock(es)|
  {
    hide Dtb, StringsBlock, StringsTable, PropNames, Events, WithoutNops;
    hide Read32, InnerAllOk, HoldsAt, CStrAt, Be32, EncodedAll;
    var table := StringsTable(PropNames(t));
    DtbHeader(t, es);
    DtbHoldsStruct(t, es);
    NodePropsInTable(t, table);
    RootInTable(t, table);
    forall name | name in table
      ensures table[name] < WORD32 && CStrAt(Dtb(t, es), (StringsAt(Dtb(t, es)) + table[name]) % WORD32, name)
    {
      DtbHoldsName(t, es, name);
    }
  }

  lemma RootInTable(t: Tree, table: Strings)
    requires Writable(t) && forall n | n in PropNames(t) :: n in table
    ensures InnerAllOk(t.children, table)
  {
    ForestInTable(t.children, table);
  }

  lemma CStrShifted(front: seq<Byte>, m: seq<Byte>, at: nat, s: seq<Byte>)
    requires CStrAt(m, at, s)
    ensures CStrAt(front + m, |front| + at, s)
  {
    assert (front + m)[|front| + at..|front| + at + |s|] == m[at..at + |s|];
  }

  lemma Unwrapped(a: nat, size: nat)
    requires a < size < WORD32
    ensures a % WORD32 == a
  {
  }

  // Reading back what was written: for every writable tree and every placing of NOPs, parsing the
  // blob into a heap with room leaves a pointer tree that spells out exactly what the slots keep,
  // which is the tree itself exactly within the caps; the condition on the header's size field is
  // the unswapped loop bound.
  lemma ReadsWhatIsWritten(t: Tree, es: seq<Event>, limit: nat, s: Store, u: Tree)
    requires Writable(t) && |Dtb(t, es)| < WORD32
    requires WithoutNops(es) == Events(t, StringsTable(PropNames(t)))
    requires Wf(s, limit) && s.cursor + Size(t) < limit && LoopBound(Dtb(t, es)) > LastToken(es, 0)
    ensures var r := ParseBlob(Dtb(t, es), limit, s);
            && r.Ok? && (ReadsRoot(Dtb(t, es), r.store, u) <==> u == Keep(t, SLOTS - 1))
            && (Keep(t, SLOTS - 1) == t <==> WithinCaps(t, SLOTS - 1))
  {
    hide Dtb, Writable, WithinCaps, ParseBlob, LoopBound, WithoutNops, Size;
    hide Reads, Keep, Wf, StringsTable, PropNames, Image, Events;
    DtbIsImage(t, es);
    ReadBack(Dtb(t, es), t, StringsTable(PropNames(t)), es, limit, s);
    var r := ParseBlob(Dtb(t, es), limit, s).store;
    if ReadsRoot(Dtb(t, es), r, u) {
      ReadsUnique(Dtb(t, es), r, r.root, 1, Keep(t, SLOTS - 1), u);
    }
    KeepIff(t, SLOTS - 1);
  }

  // ---- The size field ----

  lemma {:induction false} LastTokenInside(es: seq<Event>, at: nat)
    requires WithoutNops(es) != []
    ensures LastToken(es, at) < at + |EncodedAll(es)|
    decreases |es|
  {
    hide Encoded;
    if WithoutNops(es[1..]) != [] { LastTokenInside(es[1..], at + |Encoded(es[0])|); }
  }

  // The loop reaches the root's END_NODE whenever the size field of the written header, taken
  // byte by byte from the back, is not below itself taken from the front.
  lemma SizeFieldSuffices(t: Tree, es: seq<Event>)
    requires WithoutNops(es) == Events(t, StringsTable(PropNames(t))) && |Dtb(t, es)| < WORD32
    requires var b := Dtb(t, es); b[39] > b[36] || (b[39] == b[36] && b[38] >= b[37])
    ensures LoopBound(Dtb(t, es)) > LastToken(es, 0)
  {
    hide Dtb, Events, StringsTable, PropNames, LoopBound, Read32, WithoutNops, EncodedAll, LastToken;
    DtbHeader(t, es);
    SwappedBound(Dtb(t, es));
    LastTokenInside(es, 0);
  }

  // Every structure block shorter than 65536 bytes is parsed to its end.
  lemma ShortBlocksComplete(t: Tree, es: seq<Event>)
    requires WithoutNops(es) == Events(t, StringsTable(PropNames(t))) && |Dtb(t, es)| < WORD32
    requires |StructBlock(es)| < 65536
    ensures LoopBound(Dtb(t, es)) > LastToken(es, 0)
  {
    hide Dtb, Events, StringsTable, PropNames, LoopBound, WithoutNops, StructBlock, LastToken;
    DtbHeader(t, es);
    SizeFieldSuffices(t, es);
  }

  // ---- Trees written without NOPs ----

  function PlainEvents(t: Tree): (es: seq<Event>) {
    Events(t, StringsTable(PropNames(t)))
  }

  function PlainDtb(t: Tree): (blob: seq<Byte>) {
    Dtb(t, PlainEvents(t))
  }

  // The bytes of a tree's tokens.
  function TokenBytes(t: Tree): (n: nat)
    decreases t, 0
  {
    8 + |Padded(t.name + [0])| + AttrBytes(t.props) + ForestBytes(t.children)
  }

  function ForestBytes(ts: seq<Tree>): (n: nat)
    decreases ts, 1
  {
    if ts == [] then 0 else TokenBytes(ts[0]) + ForestBytes(ts[1..])
  }

  function AttrBytes(ps: seq<Prop>): (n: nat) {
    if ps == [] then 0 else 12 + |Padded(ps[0].value)| + AttrBytes(ps[1..])
  }

  lemma {:induction false} EncodedAppend(a: seq<Event>, b: seq<Event>)
    ensures EncodedAll(a + b) == EncodedAll(a) + EncodedAll(b)
  {
    hide Encoded;
    if a == [] {
      assert a + b == b;
    } else {
      assert (a + b)[1..] == a[1..] + b;
      EncodedAppend(a[1..], b);
    }
  }

  lemma {:induction false} AttrsEncoded(ps: seq<Prop>, table: Strings)
    ensures |EncodedAll(Attrs(ps, table))| == AttrBytes(ps)
    decreases |ps|
  {
    hide Padded, Be32;
    if ps != [] {
      AttrsEncoded(ps[1..], table);
      assert Attrs(ps, table)[1..] == Attrs(ps[1..], table);
    }
  }

  lemma {:induction false} TreeEncoded(t: Tree, table: Strings)
    ensures |EncodedAll(Events(t, table))| == TokenBytes(t)
    decreases t, 0
  {
    hide Padded, Be32;
    var a, b, c := [Begin(t.name)], Attrs(t.props, table), ForestEvents(t.children, table);
    AttrsEncoded(t.props, table);
    ForestEncoded(t.children, table);
    EncodedAppend(a + b + c, [End]);
    EncodedAppend(a + b, c);
    EncodedAppend(a, b);
    assert a[1..] == [] && [End][1..] == [];
  }

  lemma {:induction false} ForestEncoded(ts: seq<Tree>, table: Strings)
    ensures |EncodedAll(ForestEvents(ts, table))| == ForestBytes(ts)
    decreases ts, 1
  {
    hide EncodedAll, Events, TokenBytes;
    if ts == [] {
      assert |EncodedAll([])| == 0 by { NothingEncoded(); }
    } else {
      TreeEncoded(ts[0], table);
      ForestEncoded(ts[1..], table);
      EncodedAppend(Events(ts[0], table), ForestEvents(ts[1..], table));
    }
  }

  lemma NothingEncoded()
    ensures EncodedAll([]) == []
  {
  }

  lemma {:induction false} NoneDropped(es: seq<Event>)
    requires forall e | e in es :: !e.Nop?
    ensures WithoutNops(es) == es
  {
    if es != [] {
      assert es[0] in es && forall e | e in es[1..] :: e in es;
      NoneDropped(es[1..]);
    }
  }

  lemma PlainHasNoNops(t: Tree)
    requires Writable(t)
    ensures WithoutNops(PlainEvents(t)) == PlainEvents(t)
  {
    hide StringsTable, PropNames, WithoutNops, InnerAllOk, AllInnerWritable;
    var table := StringsTable(PropNames(t));
    RootInTable(t, table);
    forall e | e in Events(t, table) ensures !e.Nop? {
      if e != Begin([]) { TreeTokensNamed(t, table, e); }
    }
    NoneDropped(Events(t, table));
  }

  // A tree of less than 65532 bytes of tokens, written without NOPs: an image that parses to its end.
  lemma PlainIsImage(t: Tree)
    requires Writable(t) && TokenBytes(t) + 4 < 65536 && |PlainDtb(t)| < WORD32
    ensures Image(PlainDtb(t), t, StringsTable(PropNames(t)), PlainEvents(t))
    ensures LoopBound(PlainDtb(t)) > LastToken(PlainEvents(t), 0)
    ensures Read32(PlainDtb(t), 4) == |PlainDtb(t)|
  {
    hide Dtb, Writable, Events, StringsTable, PropNames, LoopBound, LastToken, Image, Read32;
    PlainHasNoNops(t);
    TreeEncoded(t, StringsTable(PropNames(t)));
    DtbIsImage(t, PlainEvents(t));
    ShortBlocksComplete(t, PlainEvents(t));
  }

  // ---- Where the caps, the lookups and the loop bound bite ----

  // n childless nodes.
  function Leaves(n: nat): (ts: seq<Tree>)
    requires n < 64
    ensures |ts| == n
  {
    if n == 0 then [] else [Tree([0x40 + n], [], [])] + Leaves(n - 1)
  }

  lemma {:induction false} LeavesPlain(n: nat)
    requires n < 64
    ensures AllInnerWritable(Leaves(n)) && ForestBytes(Leaves(n)) == 12 * n
    ensures ForestPropNames(Leaves(n)) == [] && ForestSize(Leaves(n)) == NODE_SIZE * n
  {
    if n > 0 {
      LeavesPlain(n - 1);
      var leaf := Tree([0x40 + n], [], []);
      assert Leaves(n)[0] == leaf && Leaves(n)[1..] == Leaves(n - 1);
      assert InnerWritable(leaf) && TokenBytes(leaf) == 12 && PropNames(leaf) == [] && Size(leaf) == NODE_SIZE;
    }
  }

  function SixteenChildren(): (t: Tree) {
    Tree([], [], Leaves(16))
  }

  lemma SixteenWritable()
    ensures var t := SixteenChildren();
            && Writable(t) && TokenBytes(t) == 204 && Size(t) == 17 * NODE_SIZE && StringsBlock(PropNames(t)) == []
            && !WithinCaps(t, 15) && |Keep(t, 15).children| == 15
  {
    hide Leaves;
    LeavesPlain(16);
    assert PropNames(SixteenChildren()) == [];
  }

  // A root with sixteen children loses the last: 15 of its slots are left.
  lemma SixteenthChildLost(limit: nat, s: Store)
    requires Wf(s, limit) && s.cursor + 17 * NODE_SIZE < limit
    ensures |PlainDtb(SixteenChildren())| == 264
    ensures var t, blob := SixteenChildren(), PlainDtb(SixteenChildren());
            var r := ParseBlob(blob, limit, s);
            && r.Ok? && ReadsRoot(blob, r.store, Keep(t, 15)) && |Keep(t, 15).children| == 15
            && !ReadsRoot(blob, r.store, t)
  {
    hide PlainDtb, PlainEvents, Writable, StringsTable, PropNames, LoopBound, LastToken, Image, Size, ParseBlob, Wf;
    hide ReadsRoot, SixteenChildren, Keep, WithinCaps, StringsBlock, TokenBytes;
    var t := SixteenChildren();
    SixteenWritable();
    PlainSize(t);
    PlainIsImage(t);
    ReadBack(PlainDtb(t), t, StringsTable(PropNames(t)), PlainEvents(t), limit, s);
  }

  lemma PlainSize(t: Tree)
    ensures |PlainDtb(t)| == STRUCT_AT + TokenBytes(t) + 4 + |StringsBlock(PropNames(t))|
  {
    hide Events, StringsTable, PropNames, TokenBytes;
    TreeEncoded(t, StringsTable(PropNames(t)));
  }

  // A root without children, and one whose memory node has no properties: looking for the
  // memory size follows a NULL pointer.
  function NoMemory(): (t: Tree) {
    Tree([], [], [])
  }

  function NoReg(): (t: Tree) {
    Tree([], [], [Tree(MEMORY_NAME, [], [])])
  }

  lemma NoMemoryWritable()
    ensures var t := NoMemory();
            && Writable(t) && TokenBytes(t) == 12 && Size(t) == NODE_SIZE && StringsBlock(PropNames(t)) == []
            && SizeInTree(Keep(t, 15)) == Known(None)
  {
  }

  lemma NoRegWritable()
    ensures var t := NoReg();
            Writable(t) && TokenBytes(t) == 36 && Size(t) == 2 * NODE_SIZE && StringsBlock(PropNames(t)) == []
  {
    hide MEMORY_NAME;
    var t := NoReg();
    var m := t.children[0];
    assert t.children[1..] == [] && PropNames(m) == [];
    assert ForestPropNames(t.children) == PropNames(m) + ForestPropNames([]) == [];
    assert PropNames(t) == [];
    MemoryNameBytes();
    assert InnerWritable(m) && TokenBytes(m) == 24 && Size(m) == NODE_SIZE;
  }

  lemma MemoryNameBytes()
    ensures MEMORY_NAME != [] && 0 !in MEMORY_NAME && |Padded(MEMORY_NAME + [0])| == 16
  {
  }

  lemma NoRegSize()
    ensures SizeInTree(Keep(NoReg(), 15)) == Known(None)
  {
    hide MEMORY_NAME;
    var t := NoReg();
    KeepIff(t, 15);
    assert FirstTree(t.children, MEMORY_NAME) == 0;
  }

  lemma NullFollowed(limit: nat, s: Store, t: Tree)
    requires Wf(s, limit) && s.cursor + 2 * NODE_SIZE < limit && (t == NoMemory() || t == NoReg())
    ensures |PlainDtb(t)| < WORD32 && HasHeader(PlainDtb(t))
    ensures var r := ParseBlob(PlainDtb(t), limit, s); r.Ok? && MemorySize(PlainDtb(t), r.store) == None
  {
    hide PlainDtb, PlainEvents, Writable, StringsTable, PropNames, LoopBound, LastToken, Size, ParseBlob, Wf;
    hide SizeInTree, NoMemory, NoReg, Keep, StringsBlock, TokenBytes, MemorySize;
    NoMemoryWritable();
    NoRegWritable();
    NoRegSize();
    PlainSize(t);
    PlainIsImage(t);
    MemorySizeOfBlob(PlainDtb(t), t, StringsTable(PropNames(t)), PlainEvents(t), limit, s);
  }

  // A tree whose one property is 65508 bytes long.
  function LongProperty(): (t: Tree) {
    Tree([], [Prop([0x61], Zeros(65508))], [])
  }

  lemma LongWritable()
    ensures var t := LongProperty();
            Writable(t) && TokenBytes(t) == 65532 && |StringsBlock(PropNames(t))| == 2
  {
    hide Zeros;
    GapReachesBoundary(65508);
    var t := LongProperty();
    assert t.props[1..] == [] && PropNames(t) == [[0x61]];
    assert StringsBlock([[0x61]]) == StringsBlock([]) + [0x61] + [0];
  }

  // Its structure block is 65536 bytes long, and with the correct header of its blob the loop stops
  // after 256: however large the heap, the root is never closed.
  lemma LongPropertyCutShort(limit: nat, s: Store)
    requires Wf(s, limit) && s.cursor + NODE_SIZE + PROP_SIZE < limit
    ensures var t, blob := LongProperty(), PlainDtb(LongProperty());
            && |blob| == 65594 && Read32(blob, 36) == 65536 && LoopBound(blob) == 256
            && var r := ParseBlob(blob, limit, s);
               && r.Ok? && r.store.root == r.store.current == s.cursor
               && r.store.cursor == s.cursor + NODE_SIZE + PROP_SIZE
  {
    hide PlainDtb, PlainEvents, Writable, StringsTable, PropNames, LoopBound, Image, ParseBlob, Wf, Fold, Located;
    hide LongProperty, StringsBlock, TokenBytes, Read32;
    var t := LongProperty();
    var es, table := PlainEvents(t), StringsTable(PropNames(t));
    LongWritable();
    PlainSize(t);
    PlainHasNoNops(t);
    LongHeader();
    ImageParse(PlainDtb(t), t, table, es, limit, s);
    LongTokens(StructAt(PlainDtb(t)), StringsAt(PlainDtb(t)), limit, s);
  }

  lemma LongHeader()
    requires |PlainDtb(LongProperty())| == 65594 && TokenBytes(LongProperty()) == 65532
    requires Writable(LongProperty()) && WithoutNops(PlainEvents(LongProperty())) == PlainEvents(LongProperty())
    ensures var t := LongProperty();
            && Image(PlainDtb(t), t, StringsTable(PropNames(t)), PlainEvents(t))
            && Read32(PlainDtb(t), 36) == 65536 && LoopBound(PlainDtb(t)) == 256
  {
    hide Dtb, Writable, Events, StringsTable, PropNames, Image, LongProperty, TokenBytes, Read32, LoopBound;
    hide EncodedAll, WithoutNops, Be32;
    var t := LongProperty();
    TreeEncoded(t, StringsTable(PropNames(t)));
    DtbIsImage(t, PlainEvents(t));
    SwappedLength(PlainDtb(t));
  }

  lemma SwappedLength(blob: Blob)
    requires HasHeader(blob) && Read32(blob, 36) == 65536
    ensures LoopBound(blob) == 256
  {
  }

  // Two tokens start below offset 256.
  lemma LongTokens(base: nat, strings: nat, limit: nat, s: Store)
    requires Wf(s, limit) && s.cursor + NODE_SIZE + PROP_SIZE < limit
    ensures var es := PlainEvents(LongProperty());
            var r := Fold(Located(es, base, strings, 0)[..Reached(es, 0, 256)], s.(current := 0), limit);
            r.Ok? && r.store.root == r.store.current == s.cursor && r.store.cursor == s.cursor + NODE_SIZE + PROP_SIZE
  {
    hide Zeros, Be32;
    var t := LongProperty();
    var table := StringsTable(PropNames(t));
    var p := t.props[0];
    var attr := Attr(Offset(table, p.name), p.value);
    var es := PlainEvents(t);
    assert t.props[1..] == [] && Attrs(t.props, table) == [attr] + Attrs([], table);
    assert t.name == [] && ForestEvents(t.children, table) == [];
    assert es == [Begin([])] + [attr] + [] + [End];
    assert es[1..] == [attr, End] && es[1..][1..] == [End];
    assert |Encoded(Begin([]))| == 8 && |Encoded(attr)| >= 65508;
    assert Reached(es, 0, 256) == 2;
    var acts := Located(es, base, strings, 0);
    var a, b := acts[0], acts[1];
    assert Located(es[1..], base, strings, 8)[0] == ActionOf(attr, base, strings, 8) == b;
    assert acts[..2] == [a, b] && [a, b][1..] == [b] && [b][1..] == [];
    OpenAttach(a, b, limit, s);
  }

  // A root opened and given one property.
  lemma OpenAttach(a: Action, b: Action, limit: nat, s: Store)
    requires Wf(s, limit) && s.cursor + NODE_SIZE + PROP_SIZE < limit && a.Open? && a.isRoot && b.Attach?
    ensures var r := Fold([a, b], s.(current := 0), limit);
            r.Ok? && r.store.root == r.store.current == s.cursor && r.store.cursor == s.cursor + NODE_SIZE + PROP_SIZE
  {
    hide Filled;
    var s1 := Apply(a, s.(current := 0), limit).store;
    assert s1.nodes[s.cursor].properties == Blank(0, a.nameAt).properties;
    assert FirstFree(s1.nodes[s.cursor].properties) == 0;
    assert [a, b][1..] == [b] && [b][1..] == [];
    assert Fold([], Apply(b, s1, limit).store, limit).Ok?;
  }
}
