// The flattened devicetree structure block, as section 5.4 of the Devicetree Specification v0.4
// lays it out: trees, their token streams, and the bytes of a stream.
module FdtFormat {
  import opened Words

  datatype Prop = Prop(name: seq<Byte>, value: seq<Byte>)
  datatype Tree = Tree(name: seq<Byte>, props: seq<Prop>, children: seq<Tree>)

  datatype Event = Begin(name: seq<Byte>) | Attr(nameoff: nat, value: seq<Byte>) | End | Nop

  // Offsets of property names in the strings block.
  type Strings = map<seq<Byte>, nat>

  function Offset(table: Strings, name: seq<Byte>): (r: nat) {
    if name in table then table[name] else 0
  }

  // ---- Trees as token streams ----

  function Events(t: Tree, table: Strings): (es: seq<Event>)
    ensures |es| >= 2
  {
    [Begin(t.name)] + Attrs(t.props, table) + ForestEvents(t.children, table) + [End]
  }

  function Attrs(ps: seq<Prop>, table: Strings): (es: seq<Event>)
    ensures |es| == |ps|
  {
    if ps == [] then [] else [Attr(Offset(table, ps[0].name), ps[0].value)] + Attrs(ps[1..], table)
  }

  function ForestEvents(ts: seq<Tree>, table: Strings): (r: seq<Event>) {
    if ts == [] then [] else Events(ts[0], table) + ForestEvents(ts[1..], table)
  }

  function WithoutNops(es: seq<Event>): (r: seq<Event>) {
    if es == [] then []
    else if es[0].Nop? then WithoutNops(es[1..])
    else [es[0]] + WithoutNops(es[1..])
  }

  // ---- Bytes ----

  const BEGIN_NODE: nat := 1
  const END_NODE: nat := 2
  const PROP: nat := 3
  const NOP: nat := 4
  const END: nat := 9

  function Zeros(n: nat): (s: seq<Byte>)
    ensures |s| == n
  {
    seq(n, i => 0)
  }

  // From n to the next multiple of four.
  function Gap(n: nat): (g: nat)
    ensures g < 4
  {
    if n >= 4 then Gap(n - 4) else if n == 0 then 0 else 4 - n
  }

  lemma {:induction false} GapReachesBoundary(n: nat)
    ensures (n + Gap(n)) % 4 == 0 && (Gap(n) == 0 <==> n % 4 == 0)
  {
    if n >= 4 { GapReachesBoundary(n - 4); }
  }

  lemma {:induction false} GapAfter(n: nat)
    ensures Gap(n + 1) == if Gap(n) == 0 then 3 else Gap(n) - 1
  {
    if n >= 4 { GapAfter(n - 4); }
  }

  // Zero bytes up to the next four-byte boundary.
  function Padded(s: seq<Byte>): (p: seq<Byte>)
    ensures |s| <= |p| < |s| + 4
  {
    s + Zeros(Gap(|s|))
  }

  // A node name carries its NUL before it is padded (section 5.4.1).
  function Encoded(e: Event): (s: seq<Byte>)
    ensures |s| >= 4
  {
    match e
    case Begin(name) => Be32(BEGIN_NODE) + Padded(name + [0])
    case Attr(nameoff, value) => Be32(PROP) + Be32(|value|) + Be32(nameoff) + Padded(value)
    case End => Be32(END_NODE)
    case Nop => Be32(NOP)
  }

  function EncodedAll(es: seq<Event>): (r: seq<Byte>) {
    if es == [] then [] else Encoded(es[0]) + EncodedAll(es[1..])
  }

  predicate Encodable(e: Event) {
    match e
    case Begin(name) => 0 !in name
    case Attr(nameoff, value) => nameoff < WORD32 && |value| < WORD32
    case End => true
    case Nop => true
  }

  // The bytes of each token, as section 5.4.1 gives them.
  lemma EncodedBytes(e: Event)
    ensures Be32(END) == [0, 0, 0, 9]
    ensures match e
            case Begin(name) => exists k :: 1 <= k <= 4 && Encoded(e) == [0, 0, 0, 1] + name + Zeros(k)
            case Attr(nameoff, value) =>
              exists k :: 0 <= k <= 3 && Encoded(e) == [0, 0, 0, 3] + Be32(|value|) + Be32(nameoff) + value + Zeros(k)
            case End => Encoded(e) == [0, 0, 0, 2]
            case Nop => Encoded(e) == [0, 0, 0, 4]
    ensures |Encoded(e)| % 4 == 0
  {
    hide Be32, Gap;
    Be32Is(BEGIN_NODE, 0, 0, 0, 1);
    Be32Is(END_NODE, 0, 0, 0, 2);
    Be32Is(PROP, 0, 0, 0, 3);
    Be32Is(NOP, 0, 0, 0, 4);
    Be32Is(END, 0, 0, 0, 9);
    match e
    case Begin(name) =>
      var k := Gap(|name + [0]|) + 1;
      GapReachesBoundary(|name + [0]|);
      assert Encoded(e) == [0, 0, 0, 1] + name + Zeros(k);
    case Attr(nameoff, value) =>
      GapReachesBoundary(|value|);
      assert Encoded(e) == [0, 0, 0, 3] + Be32(|value|) + Be32(nameoff) + value + Zeros(Gap(|value|));
    case End =>
    case Nop =>
  }

  // ---- Well-formed trees ----

  predicate PropsOk(ps: seq<Prop>, table: Strings) {
    forall p | p in ps :: p.name in table && |p.value| < WORD32
  }

  // The root's name is empty; every other name is not, and no name holds a NUL.
  predicate RootOk(t: Tree, table: Strings) {
    t.name == [] && PropsOk(t.props, table) && InnerAllOk(t.children, table)
  }

  predicate InnerOk(t: Tree, table: Strings) {
    t.name != [] && 0 !in t.name && PropsOk(t.props, table) && InnerAllOk(t.children, table)
  }

  predicate InnerAllOk(ts: seq<Tree>, table: Strings) {
    ts == [] || (InnerOk(ts[0], table) && InnerAllOk(ts[1..], table))
  }

  lemma AttrsAt(ps: seq<Prop>, table: Strings, i: nat)
    requires i < |ps|
    ensures Attrs(ps, table)[i] == Attr(Offset(table, ps[i].name), ps[i].value)
  {
    if i > 0 { AttrsAt(ps[1..], table, i - 1); }
  }
}
