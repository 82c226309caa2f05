// fdt_ParseTree and the state it builds (kernel/drivers/fdt/fdt.c).
module FdtParser {
  import opened Words
  import opened FdtFormat
  import EternalHeap

  const SLOTS: nat := 16
  const NODE_SIZE: nat := 272
  const PROP_SIZE: nat := 24

  // Heap pointers are addresses, with 0 for NULL; pointers into the blob are blob offsets.
  datatype Node = Node(parent: nat, children: seq<nat>, properties: seq<nat>, name: nat)
  datatype Property = Property(name: nat, value: nat, length: nat)

  datatype Store = Store(
    cursor: nat, nodes: map<nat, Node>, properties: map<nat, Property>, root: nat, current: nat)

  // Panic: the eternal heap is exhausted. Fault: a NULL node is used, or memory past the blob is read.
  datatype Outcome = Ok(store: Store) | Panic | Fault

  // What one loop iteration asks for.
  datatype Action = Open(nameAt: nat, isRoot: bool) | Close | Attach(property: Property) | Skip | Stop

  // fdt_AlignToNextWord, in 64-bit arithmetic.
  function AlignToNextWord(value: nat): (r: nat) {
    Wrap64(value + Wrap64(4 - value) % 4)
  }

  lemma GapOfWrap(value: nat)
    requires value <= WORD32
    ensures Wrap64(4 - value) % 4 == Gap(value)
  {
    hide Gap;
    GapReachesBoundary(value);
    var gap := Gap(value);
    var up := (value + gap) / 4;
    assert value + gap == 4 * up;
    WrapFour(value);
    if value > 4 {
      Remainder(Wrap64(4 - value), 0x4000_0000_0000_0001 - up, gap);
    } else {
      Remainder(4 - value, 1 - up, gap);
    }
  }

  lemma WrapFour(value: nat)
    requires value <= WORD32
    ensures Wrap64(4 - value) == if value > 4 then WORD64 + 4 - value else 4 - value
  {
  }

  lemma Remainder(n: nat, k: int, r: nat)
    requires n == 4 * k + r && r < 4
    ensures n % 4 == r
  {
  }

  // Rounding up to a multiple of four, for every length that occurs.
  lemma AlignRoundsUp(value: nat)
    requires value <= WORD32
    ensures AlignToNextWord(value) == value + Gap(value)
  {
    GapOfWrap(value);
  }

  // The blob: a memory region no longer than its 32-bit total size can say.
  type Blob = b: seq<Byte> | |b| <= WORD32

  // Token, and the operands that go with it, at `at` in the structure block that starts at `base`.
  function Decode(blob: Blob, base: nat, strings: nat, at: nat): (r: Option<(Action, nat)>)
    ensures r.Some? ==> r.value.1 >= at + 4
  {
    if base + at + 4 > |blob| then None
    else
      var token := Read32(blob, base + at);
      var next := at + 4;
      if token == BEGIN_NODE then
        match StrLen(blob, base + next)
        case None => None
        case Some(n) =>
          Some((Open(base + next, n == 0), next + AlignToNextWord(n)))
      else if token == END_NODE then Some((Close, next))
      else if token == PROP then
        if base + next + 8 > |blob| then None
        else
          var len, nameoff := Read32(blob, base + next), Read32(blob, base + next + 4);
          Some((Attach(Property((strings + nameoff) % WORD32, base + next + 8, len)),
                next + (8 + AlignToNextWord(len))))
      else if token == END then Some((Stop, next))
      else Some((Skip, next))
  }

  // Which word asks for what; every other word is passed over.
  lemma DecodeKinds(blob: Blob, base: nat, strings: nat, at: nat)
    requires Decode(blob, base, strings, at).Some?
    ensures base + at + 4 <= |blob|
    ensures var (action, next), word := Decode(blob, base, strings, at).value, Read32(blob, base + at);
            && (action.Open? <==> word == 1) && (action.Close? <==> word == 2) && (action.Attach? <==> word == 3)
            && (action.Stop? <==> word == 9) && (action.Skip? <==> word !in [1, 2, 3, 9])
            && (!action.Open? && !action.Attach? ==> next == at + 4)
  {
    hide Read32, StrLen, AlignToNextWord;
  }

  // A token cannot be read exactly when it, the NUL of its name, or its two operands are not in the blob.
  lemma DecodeRunsOut(blob: Blob, base: nat, strings: nat, at: nat)
    ensures Decode(blob, base, strings, at).None? <==>
            || base + at + 4 > |blob|
            || (Read32(blob, base + at) == 1 && forall k | base + at + 4 <= k < |blob| :: blob[k] != 0)
            || (Read32(blob, base + at) == 3 && base + at + 12 > |blob|)
  {
    hide Read32, AlignToNextWord, CStrAt;
    if base + at + 4 <= |blob| {
      StrLenMeans(blob, base + at + 4);
      var n := StrLen(blob, base + at + 4);
      if n.Some? { NulThere(blob, base + at + 4, n.value); }
    }
  }

  lemma NulThere(m: seq<Byte>, at: nat, n: nat)
    requires at + n <= |m| && CStrAt(m, at, m[at..at + n])
    ensures at + n < |m| && m[at + n] == 0
  {
  }

  // The sizes of the two records: pointers of eight bytes, and a length padded to eight.
  lemma RecordSizes()
    ensures NODE_SIZE == 8 + 8 * 16 + 8 * 16 + 8 && PROP_SIZE == 8 + 8 + 8 && SLOTS == 16
  {
  }

  // Index of the first free slot, or the number of slots.
  function FirstFree(slots: seq<nat>): (i: nat)
    ensures i <= |slots|
    ensures forall k | 0 <= k < i :: slots[k] != 0
    ensures i < |slots| ==> slots[i] == 0
  {
    if slots == [] || slots[0] == 0 then 0 else 1 + FirstFree(slots[1..])
  }

  function Filled(slots: seq<nat>, p: nat): (r: seq<nat>)
    ensures |r| == |slots|
  {
    var i := FirstFree(slots);
    if i < |slots| then slots[i := p] else slots
  }

  function Blank(parent: nat, name: nat): (r: Node) {
    Node(parent, seq(SLOTS, i => 0), seq(SLOTS, i => 0), name)
  }

  function Apply(a: Action, s: Store, limit: nat): (r: Outcome) {
    match a
    case Open(nameAt, isRoot) =>
      var next := EternalHeap.Bump(s.cursor, limit, NODE_SIZE);
      if next.None? then Panic
      else
        var n := s.cursor;
        var nodes := s.nodes[n := Blank(if isRoot then 0 else s.current, nameAt)];
        var into := if isRoot then n else s.current;
        if into !in nodes then Fault
        else
          var nodes' := nodes[into := nodes[into].(children := Filled(nodes[into].children, n))];
          Ok(s.(cursor := next.value, nodes := nodes', root := if isRoot then n else s.root, current := n))
    case Close =>
      if s.current !in s.nodes then Fault else Ok(s.(current := s.nodes[s.current].parent))
    case Attach(property) =>
      if s.current !in s.nodes then Fault
      else
        var node := s.nodes[s.current];
        var i := FirstFree(node.properties);
        if i >= |node.properties| then Ok(s)
        else
          var next := EternalHeap.Bump(s.cursor, limit, PROP_SIZE);
          if next.None? then Panic
          else Ok(s.(cursor := next.value,
                     properties := s.properties[s.cursor := property],
                     nodes := s.nodes[s.current := node.(properties := node.properties[i := s.cursor])]))
    case Skip => Ok(s)
    case Stop => Ok(s)
  }

  // A node without a name becomes the root wherever it stands, and its own first child; a node with
  // a name gets the current one as its parent and goes to its first free child slot, if any.
  lemma NodeOpened(nameAt: nat, isRoot: bool, s: Store, limit: nat)
    requires Apply(Open(nameAt, isRoot), s, limit).Ok?
    ensures var r, n := Apply(Open(nameAt, isRoot), s, limit).store, s.cursor;
            && n in r.nodes && r.current == n && r.nodes[n].name == nameAt && r.properties == s.properties
            && (isRoot ==> r.root == n && r.nodes[n].parent == 0 && r.nodes[n].children[0] == n)
            && (!isRoot ==> r.root == s.root && r.nodes[n].parent == s.current)
            && (forall a | a in s.nodes && a != n && (isRoot || a != s.current) ::
                  a in r.nodes && r.nodes[a] == s.nodes[a])
            && (!isRoot && s.current != n ==>
                  var slots, i := s.nodes[s.current].children, FirstFree(s.nodes[s.current].children);
                  s.current in r.nodes && r.nodes[s.current] == s.nodes[s.current].(
                                            children := if i < |slots| then slots[i := n] else slots))
  {
  }

  // Outside any node only a root can be opened: everything else uses NULL.
  lemma NothingOutside(a: Action, s: Store, limit: nat)
    requires s.current !in s.nodes && s.cursor != s.current && (a.Close? || a.Attach? || (a.Open? && !a.isRoot))
    requires a.Open? ==> EternalHeap.Bump(s.cursor, limit, NODE_SIZE).Some?
    ensures Apply(a, s, limit) == Fault
  {
  }

  // The whole parse from offset `at`, with the loop bound the header holds.
  function Parse(blob: Blob, base: nat, strings: nat, bound: nat, limit: nat, at: nat, s: Store): (r: Outcome)
    decreases bound - at
  {
    if at >= bound then Ok(s)
    else
      match Decode(blob, base, strings, at)
      case None => Fault
      case Some((action, next)) =>
        if action.Stop? then Ok(s)
        else
          match Apply(action, s, limit)
          case Ok(s') => Parse(blob, base, strings, bound, limit, next, s')
          case Panic => Panic
          case Fault => Fault
  }

  // Reading on outside the blob is a fault.
  lemma ParseRunsOut(
      blob: Blob, base: nat, strings: nat, bound: nat, limit: nat, at: nat, s: Store)
    requires at < bound && Decode(blob, base, strings, at).None?
    ensures Parse(blob, base, strings, bound, limit, at, s) == Fault
  {
    hide Decode;
  }

  function Fold(acts: seq<Action>, s: Store, limit: nat): (r: Outcome) {
    if acts == [] then Ok(s)
    else
      match Apply(acts[0], s, limit)
      case Ok(s') => Fold(acts[1..], s', limit)
      case Panic => Panic
      case Fault => Fault
  }

  lemma {:induction false} FoldAppend(a: seq<Action>, b: seq<Action>, s: Store, limit: nat)
    ensures Fold(a + b, s, limit) ==
            match Fold(a, s, limit) case Ok(s') => Fold(b, s', limit) case Panic => Panic case Fault => Fault
  {
    if a == [] {
      assert a + b == b;
    } else {
      assert (a + b)[1..] == a[1..] + b;
      match Apply(a[0], s, limit)
      case Ok(s') => FoldAppend(a[1..], b, s', limit);
      case Panic =>
      case Fault =>
    }
  }
}
