// From bytes to actions: what the parser reads on an encoded token stream.
module FdtStream {
  import opened Words
  import opened FdtFormat
  import opened FdtParser

  // The iteration's offset stays a multiple of four.
  lemma OffsetsStayAligned(blob: Blob, base: nat, strings: nat, at: nat)
    requires at % 4 == 0 && Decode(blob, base, strings, at).Some?
    ensures var next := Decode(blob, base, strings, at).value.1; next % 4 == 0 && next >= at + 4
  {
    hide Read32, StrLen, AlignToNextWord, Gap;
    var token, next := Read32(blob, base + at), at + 4;
    if token == BEGIN_NODE {
      PaddedAligned(next, StrLen(blob, base + next).value);
    } else if token == PROP {
      PaddedAligned(next + 8, Read32(blob, base + next));
    } else {
      MultipleOfFour(at, 4);
    }
  }

  lemma PaddedAligned(at: nat, length: nat)
    requires at % 4 == 0 && length <= WORD32
    ensures (at + AlignToNextWord(length)) % 4 == 0
  {
    hide AlignToNextWord, Gap;
    AlignRoundsUp(length);
    GapReachesBoundary(length);
    MultipleOfFour(at, length + Gap(length));
  }

  lemma MultipleOfFour(a: nat, b: nat)
    requires a % 4 == 0 && b % 4 == 0
    ensures (a + b) % 4 == 0
  {
  }

  // One iteration: where the next token is read, and in which state. No value when the loop ends.
  function NextVisit(
      blob: Blob, base: nat, strings: nat, bound: nat, limit: nat, at: nat, s: Store): (r: Option<(nat, Store)>)
    ensures r.Some? ==> at + 4 <= r.value.0 < bound
  {
    match Decode(blob, base, strings, at)
    case None => None
    case Some((action, next)) =>
      if action.Stop? || next >= bound then None
      else
        match Apply(action, s, limit)
        case Ok(s') => Some((next, s'))
        case Panic => None
        case Fault => None
  }

  // The offsets at which the loop of fdt_ParseTree reads a token, and the states it does so in.
  function Visits(
      blob: Blob, base: nat, strings: nat, bound: nat, limit: nat, at: nat, s: Store): (visits: seq<(nat, Store)>)
    requires at < bound
    ensures visits != [] && visits[0] == (at, s)
    decreases bound - at
  {
    match NextVisit(blob, base, strings, bound, limit, at, s)
    case None => [(at, s)]
    case Some((next, s')) => [(at, s)] + Visits(blob, base, strings, bound, limit, next, s')
  }

  // They are the parser's own: from each of them on, the parse goes as it does from the start, and
  // at the last one it ends.
  lemma {:induction false} VisitsAreParsed(
      blob: Blob, base: nat, strings: nat, bound: nat, limit: nat, at: nat, s: Store)
    requires at < bound
    ensures var v := Visits(blob, base, strings, bound, limit, at, s);
            && (forall i | 0 <= i < |v| ::
                  Parse(blob, base, strings, bound, limit, v[i].0, v[i].1) ==
                  Parse(blob, base, strings, bound, limit, at, s))
            && (forall i | 0 < i < |v| ::
                  NextVisit(blob, base, strings, bound, limit, v[i - 1].0, v[i - 1].1) == Some(v[i]))
            && NextVisit(blob, base, strings, bound, limit, v[|v| - 1].0, v[|v| - 1].1) == None
    decreases bound - at
  {
    hide Decode, Apply;
    match NextVisit(blob, base, strings, bound, limit, at, s)
    case None =>
    case Some((next, s')) =>
      VisitsAreParsed(blob, base, strings, bound, limit, next, s');
  }

  // Multiples of four below the bound, each at least four more than the one before.
  predicate Steady(visits: seq<(nat, Store)>, bound: nat) {
    && (forall i | 0 <= i < |visits| :: visits[i].0 % 4 == 0 && visits[i].0 < bound)
    && (forall i | 0 < i < |visits| :: visits[i].0 >= visits[i - 1].0 + 4)
  }

  lemma SteadyCons(visit: (nat, Store), rest: seq<(nat, Store)>, bound: nat)
    requires visit.0 % 4 == 0 && Steady(rest, bound) && rest != [] && visit.0 + 4 <= rest[0].0
    ensures Steady([visit] + rest, bound)
  {
  }

  // The offsets are so whatever the blob holds.
  lemma {:induction false} OffsetsAligned(
      blob: Blob, base: nat, strings: nat, bound: nat, limit: nat, at: nat, s: Store)
    requires at < bound && at % 4 == 0
    ensures Steady(Visits(blob, base, strings, bound, limit, at, s), bound)
    decreases bound - at
  {
    hide NextVisit;
    NextAligned(blob, base, strings, bound, limit, at, s);
    match NextVisit(blob, base, strings, bound, limit, at, s)
    case None =>
    case Some((next, s')) =>
      OffsetsAligned(blob, base, strings, bound, limit, next, s');
      SteadyCons((at, s), Visits(blob, base, strings, bound, limit, next, s'), bound);
  }

  lemma NextAligned(blob: Blob, base: nat, strings: nat, bound: nat, limit: nat, at: nat, s: Store)
    requires at % 4 == 0
    ensures var next := NextVisit(blob, base, strings, bound, limit, at, s); next.Some? ==> next.value.0 % 4 == 0
  {
    hide Decode, Apply;
    if Decode(blob, base, strings, at).Some? { OffsetsStayAligned(blob, base, strings, at); }
  }

  function ActionOf(e: Event, base: nat, strings: nat, at: nat): (r: Action) {
    match e
    case Begin(name) => Open(base + at + 4, name == [])
    case Attr(nameoff, value) => Attach(Property((strings + nameoff) % WORD32, base + at + 12, |value|))
    case End => Close
    case Nop => Skip
  }

  predicate HoldsAt(blob: Blob, at: nat, s: seq<Byte>) {
    at + |s| <= |blob| && blob[at..at + |s|] == s
  }

  lemma HoldsSplit(blob: Blob, at: nat, s: seq<Byte>, t: seq<Byte>)
    requires HoldsAt(blob, at, s + t)
    ensures HoldsAt(blob, at, s) && HoldsAt(blob, at + |s|, t)
  {
    var w := blob[at..at + |s + t|];
    assert w[..|s|] == s && w[|s|..] == t;
    assert blob[at..at + |s|] == w[..|s|];
    assert blob[at + |s|..at + |s| + |t|] == w[|s|..];
  }

  // Padding after a name and its NUL: one whole zero word when the name's length is a
  // multiple of four, what fdt_AlignToNextWord skips otherwise.
  lemma NamePadding(name: seq<Byte>)
    requires |name| < WORD32
    ensures Padded(name + [0]) == name + ([0] + Zeros(Gap(|name| + 1)))
    ensures Gap(|name|) == 0 ==> [0] + Zeros(Gap(|name| + 1)) == Zeros(4)
    ensures Gap(|name|) != 0 ==> |Padded(name + [0])| == AlignToNextWord(|name|)
  {
    hide AlignToNextWord, Gap;
    AlignRoundsUp(|name|);
    GapAfter(|name|);
  }

  lemma NameAt(blob: Blob, at: nat, name: seq<Byte>)
    requires HoldsAt(blob, at, Padded(name + [0])) && 0 !in name
    ensures CStrAt(blob, at, name) && StrLen(blob, at) == Some(|name|)
    ensures Gap(|name|) == 0 ==> |Padded(name + [0])| == |name| + 4 && HoldsAt(blob, at + |name|, Zeros(4))
    ensures Gap(|name|) != 0 ==> |Padded(name + [0])| == AlignToNextWord(|name|)
  {
    hide AlignToNextWord, StrLen, Padded, Zeros, Gap;
    NamePadding(name);
    var gap := Zeros(Gap(|name| + 1));
    HoldsSplit(blob, at, name, [0] + gap);
    HoldsSplit(blob, at + |name|, [0], gap);
    assert blob[at + |name|] == blob[at + |name|..at + |name| + 1][0];
    StrLenOf(blob, at, name);
  }

  lemma ZeroWord()
    ensures Zeros(4) == Be32(0)
  {
  }

  // One iteration on an encoded token acts on it; it ends where the token's bytes end, or
  // four bytes early, on a zero word, when a name's length is a multiple of four.
  lemma DecodeEvent(blob: Blob, base: nat, strings: nat, at: nat, e: Event)
    requires Encodable(e) && HoldsAt(blob, base + at, Encoded(e))
    ensures var d := Decode(blob, base, strings, at);
            var after := at + |Encoded(e)|;
            && d.Some? && d.value.0 == ActionOf(e, base, strings, at)
            && if e.Begin? && |e.name| % 4 == 0
               then d.value.1 == after - 4 && Decode(blob, base, strings, after - 4) == Some((Skip, after))
               else d.value.1 == after
  {
    hide Read32, AlignToNextWord, StrLen, Be32, Gap;
    match e
    case Begin(name) =>
      DecodeBegin(blob, base, strings, at, name);
    case Attr(nameoff, value) =>
      DecodeAttr(blob, base, strings, at, nameoff, value);
    case End =>
      Read32OfBe32(blob, base + at, END_NODE);
    case Nop =>
      Read32OfBe32(blob, base + at, NOP);
  }

  lemma DecodeBegin(blob: Blob, base: nat, strings: nat, at: nat, name: seq<Byte>)
    requires 0 !in name && HoldsAt(blob, base + at, Encoded(Begin(name)))
    ensures var d := Decode(blob, base, strings, at);
            var after := at + |Encoded(Begin(name))|;
            && d.Some? && d.value.0 == ActionOf(Begin(name), base, strings, at)
            && if |name| % 4 == 0
               then d.value.1 == after - 4 && Decode(blob, base, strings, after - 4) == Some((Skip, after))
               else d.value.1 == after
  {
    hide Read32, AlignToNextWord, StrLen, Be32, Gap, Padded, Zeros, CStrAt;
    HoldsSplit(blob, base + at, Be32(BEGIN_NODE), Padded(name + [0]));
    Read32OfBe32(blob, base + at, BEGIN_NODE);
    NameAt(blob, base + at + 4, name);
    AlignRoundsUp(|name|);
    GapReachesBoundary(|name|);
    if |name| % 4 == 0 {
      ZeroWord();
      ZeroSkipped(blob, base, strings, at + 4 + |name|);
    }
  }

  lemma ZeroSkipped(blob: Blob, base: nat, strings: nat, at: nat)
    requires HoldsAt(blob, base + at, Be32(0))
    ensures Decode(blob, base, strings, at) == Some((Skip, at + 4))
  {
    hide Read32, Be32;
    Read32OfBe32(blob, base + at, 0);
  }

  lemma DecodeAttr(blob: Blob, base: nat, strings: nat, at: nat, nameoff: nat, value: seq<Byte>)
    requires Encodable(Attr(nameoff, value)) && HoldsAt(blob, base + at, Encoded(Attr(nameoff, value)))
    ensures Decode(blob, base, strings, at) ==
            Some((ActionOf(Attr(nameoff, value), base, strings, at), at + |Encoded(Attr(nameoff, value))|))
    ensures HoldsAt(blob, base + at + 12, value)
  {
    hide Read32, AlignToNextWord, StrLen, Be32;
    var gap := Zeros(Gap(|value|));
    var tail := Be32(nameoff) + (value + gap);
    assert Encoded(Attr(nameoff, value)) == Be32(PROP) + (Be32(|value|) + tail);
    HoldsSplit(blob, base + at, Be32(PROP), Be32(|value|) + tail);
    HoldsSplit(blob, base + at + 4, Be32(|value|), tail);
    HoldsSplit(blob, base + at + 8, Be32(nameoff), value + gap);
    HoldsSplit(blob, base + at + 12, value, gap);
    Read32OfBe32(blob, base + at, PROP);
    Read32OfBe32(blob, base + at + 4, |value|);
    Read32OfBe32(blob, base + at + 8, nameoff);
    AlignRoundsUp(|value|);
  }

  // Resynchronisation: wherever the loop bound falls, a token is acted on and parsing goes on
  // at the offset the specification's padding gives, for every name length.
  lemma Resync(blob: Blob, base: nat, strings: nat, bound: nat, limit: nat, at: nat, s: Store, e: Event)
    requires Encodable(e) && HoldsAt(blob, base + at, Encoded(e))
    ensures Parse(blob, base, strings, bound, limit, at, s) ==
            if at >= bound then Ok(s)
            else match Apply(ActionOf(e, base, strings, at), s, limit)
                 case Ok(s') => Parse(blob, base, strings, bound, limit, at + |Encoded(e)|, s')
                 case Panic => Panic
                 case Fault => Fault
  {
    hide Decode, Apply, Encoded, ActionOf;
    DecodeEvent(blob, base, strings, at, e);
    NeverStops(e, base, strings, at);
    if at < bound {
      match Apply(ActionOf(e, base, strings, at), s, limit)
      case Ok(s') => SkipIsIdle(s', limit);
      case Panic =>
      case Fault =>
    }
  }

  lemma NeverStops(e: Event, base: nat, strings: nat, at: nat)
    ensures !ActionOf(e, base, strings, at).Stop?
  {
  }

  lemma SkipIsIdle(s: Store, limit: nat)
    ensures Apply(Skip, s, limit) == Ok(s)
  {
  }

  lemma ParseEnd(blob: Blob, base: nat, strings: nat, bound: nat, limit: nat, at: nat, s: Store)
    requires HoldsAt(blob, base + at, Be32(END))
    ensures Parse(blob, base, strings, bound, limit, at, s) == Ok(s)
  {
    hide Read32;
    Read32OfBe32(blob, base + at, END);
  }

  predicate AllEncodable(es: seq<Event>) {
    es == [] || (Encodable(es[0]) && AllEncodable(es[1..]))
  }

  // The actions of a stream that starts at offset `at`.
  function Located(es: seq<Event>, base: nat, strings: nat, at: nat): (acts: seq<Action>)
    ensures |acts| == |es|
  {
    if es == [] then []
    else [ActionOf(es[0], base, strings, at)] + Located(es[1..], base, strings, at + |Encoded(es[0])|)
  }

  // How many tokens start below the loop bound.
  function Reached(es: seq<Event>, at: nat, bound: nat): (n: nat)
    ensures n <= |es|
  {
    if es == [] || at >= bound then 0 else 1 + Reached(es[1..], at + |Encoded(es[0])|, bound)
  }

  // Parsing an encoded stream applies, in order, the actions of the tokens below the bound.
  lemma {:induction false} ParseIsFold(
      blob: Blob, base: nat, strings: nat, bound: nat, limit: nat, at: nat, s: Store, es: seq<Event>)
    requires AllEncodable(es) && HoldsAt(blob, base + at, EncodedAll(es) + Be32(END))
    ensures Parse(blob, base, strings, bound, limit, at, s) ==
            Fold(Located(es, base, strings, at)[..Reached(es, at, bound)], s, limit)
    decreases |es|
  {
    hide Decode, Apply, Encoded, ActionOf, Parse, Read32;
    if es == [] {
      HoldsSplit(blob, base + at, [], Be32(END));
      ParseEnd(blob, base, strings, bound, limit, at, s);
    } else {
      var head, rest := Encoded(es[0]), EncodedAll(es[1..]) + Be32(END);
      assert EncodedAll(es) + Be32(END) == head + rest;
      HoldsSplit(blob, base + at, head, rest);
      assert base + at + |head| == base + (at + |head|);
      Resync(blob, base, strings, bound, limit, at, s, es[0]);
      if at < bound {
        var n := Reached(es, at, bound);
        var acts := Located(es, base, strings, at);
        assert acts[..n][0] == ActionOf(es[0], base, strings, at);
        assert acts[..n][1..] == Located(es[1..], base, strings, at + |head|)[..n - 1];
        match Apply(acts[0], s, limit)
        case Ok(s') => ParseIsFold(blob, base, strings, bound, limit, at + |head|, s', es[1..]);
        case Panic =>
        case Fault =>
      }
    }
  }

  // ---- NOPs ----

  function Live(acts: seq<Action>): (r: seq<Action>) {
    if acts == [] then [] else if acts[0].Skip? then Live(acts[1..]) else [acts[0]] + Live(acts[1..])
  }

  lemma {:induction false} FoldLive(acts: seq<Action>, s: Store, limit: nat)
    ensures Fold(acts, s, limit) == Fold(Live(acts), s, limit)
  {
    if acts != [] {
      match Apply(acts[0], s, limit)
      case Ok(s') =>
        FoldLive(acts[1..], s', limit);
        assert !acts[0].Skip? ==> Live(acts)[1..] == Live(acts[1..]);
      case Panic =>
      case Fault =>
    }
  }

  // The action does what the token says, with operands read from the blob.
  predicate Means(blob: Blob, strings: nat, a: Action, e: Event) {
    match e
    case Begin(name) => a.Open? && a.isRoot == (name == []) && CStrAt(blob, a.nameAt, name)
    case Attr(nameoff, value) =>
      && a.Attach? && a.property.length == |value| && a.property.name == (strings + nameoff) % WORD32
      && HoldsAt(blob, a.property.value, value)
    case End => a.Close?
    case Nop => a.Skip?
  }

  predicate AllMean(blob: Blob, strings: nat, acts: seq<Action>, es: seq<Event>) {
    |acts| == |es| && forall i | 0 <= i < |es| :: Means(blob, strings, acts[i], es[i])
  }

  lemma {:induction false} LocatedMeans(blob: Blob, base: nat, strings: nat, at: nat, es: seq<Event>, rest: seq<Byte>)
    requires AllEncodable(es) && HoldsAt(blob, base + at, EncodedAll(es) + rest)
    ensures AllMean(blob, strings, Located(es, base, strings, at), es)
    decreases |es|
  {
    hide Means, ActionOf, Encoded;
    if es != [] {
      var head := Encoded(es[0]);
      assert EncodedAll(es) + rest == head + (EncodedAll(es[1..]) + rest);
      HoldsSplit(blob, base + at, head, EncodedAll(es[1..]) + rest);
      assert base + at + |head| == base + (at + |head|);
      LocatedMeans(blob, base, strings, at + |head|, es[1..], rest);
      ActionMeans(blob, base, strings, at, es[0]);
    }
  }

  lemma {:induction false} LiveMeans(blob: Blob, base: nat, strings: nat, at: nat, es: seq<Event>, rest: seq<Byte>)
    requires AllEncodable(es) && HoldsAt(blob, base + at, EncodedAll(es) + rest)
    ensures AllMean(blob, strings, Live(Located(es, base, strings, at)), WithoutNops(es))
    decreases |es|
  {
    hide Means, ActionOf, Encoded;
    if es != [] {
      var head := Encoded(es[0]);
      var acts := Located(es, base, strings, at);
      assert EncodedAll(es) + rest == head + (EncodedAll(es[1..]) + rest);
      HoldsSplit(blob, base + at, head, EncodedAll(es[1..]) + rest);
      assert base + at + |head| == base + (at + |head|);
      LiveMeans(blob, base, strings, at + |head|, es[1..], rest);
      assert acts[1..] == Located(es[1..], base, strings, at + |head|);
      ActionMeans(blob, base, strings, at, es[0]);
    }
  }

  lemma ActionMeans(blob: Blob, base: nat, strings: nat, at: nat, e: Event)
    requires Encodable(e) && HoldsAt(blob, base + at, Encoded(e))
    ensures Means(blob, strings, ActionOf(e, base, strings, at), e)
    ensures ActionOf(e, base, strings, at).Skip? <==> e.Nop?
  {
    hide Be32;
    match e
    case Begin(name) =>
      HoldsSplit(blob, base + at, Be32(BEGIN_NODE), Padded(name + [0]));
      NameAt(blob, base + at + 4, name);
    case Attr(nameoff, value) =>
      DecodeAttr(blob, base, strings, at, nameoff, value);
    case End =>
    case Nop =>
  }
}
