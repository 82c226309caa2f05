// The byte-level round trip of srv_fdt_Init, with the exact loop bound and heap it needs.
module FdtRoundTrip {
  import opened Words
  import opened FdtFormat
  import opened FdtParser
  import opened FdtStream
  import opened FdtBuild
  import opened FdtChain

  // ---- The root ----

  lemma OpenRoot(blob: Blob, strings: nat, limit: nat, s: Store, a: Action)
    requires Wf(s, limit) && Means(blob, strings, a, Begin([]))
    ensures var r := Apply(a, s, limit);
            if s.cursor + NODE_SIZE < limit
            then && r.Ok? && Wf(r.store, limit) && Opened(blob, r.store, 0, [s.cursor], [])
                 && r.store.current == s.cursor && r.store.root == s.cursor
            else r.Panic?
  {
    BlankSlots();
    FilledSlots([], s.cursor);
    assert [] + [s.cursor] == [s.cursor];
  }

  lemma BuildRoot(blob: Blob, strings: nat, table: Strings, limit: nat, s: Store, acts: seq<Action>, t: Tree)
    requires AllMean(blob, strings, acts, Events(t, table)) && RootOk(t, table) && TableOk(blob, strings, table)
    requires Wf(s, limit)
    ensures var r := Fold(acts, s, limit);
            if s.cursor + Size(t) < limit
            then && r.Ok? && r.store.cursor == s.cursor + Size(t) && r.store.current == 0 && r.store.root == s.cursor
                 && Wf(r.store, limit) && Holds(blob, r.store, s.cursor, 0, [s.cursor], t)
            else r.Panic?
  {
    hide TableOk, Holds, Frame, Wf, Apply, Means, Opened, Events;
    var body := acts[1..|acts| - 1];
    TreeSplit(blob, strings, table, acts, t);
    FoldAppend([acts[0]] + body, [acts[|acts| - 1]], s, limit);
    FoldAppend([acts[0]], body, s, limit);
    assert acts == [acts[0]] + body + [acts[|acts| - 1]];
    OpenRoot(blob, strings, limit, s, acts[0]);
    FoldOne(acts[0], s, limit);
    if s.cursor + NODE_SIZE < limit {
      var s1 := Apply(acts[0], s, limit).store;
      BuildBody(blob, strings, table, limit, s1, body, t, 0, [s.cursor]);
      if s.cursor + Size(t) < limit {
        var s2 := Fold(body, s1, limit).store;
        FoldOne(acts[|acts| - 1], s2, limit);
        CloseRoot(blob, strings, limit, s2, acts[|acts| - 1], t);
      }
    }
  }

  lemma CloseRoot(blob: Blob, strings: nat, limit: nat, s: Store, a: Action, t: Tree)
    requires Means(blob, strings, a, End) && Wf(s, limit) && Holds(blob, s, s.current, 0, [s.current], t)
    ensures Apply(a, s, limit) == Ok(s.(current := 0)) && Wf(s.(current := 0), limit)
    ensures Holds(blob, s.(current := 0), s.current, 0, [s.current], t)
  {
    HoldsFrame(blob, s, s.(current := 0), 0, s.current, 0, [s.current], t);
  }

  // ---- The header (section 5.2) ----

  const MAGIC: nat := 0xD00D_FEED

  predicate HasHeader(blob: Blob) {
    |blob| >= 40
  }

  function StructAt(blob: Blob): (r: nat)
    requires HasHeader(blob)
  {
    Read32(blob, 8)
  }

  function StringsAt(blob: Blob): (r: nat)
    requires HasHeader(blob)
  {
    Read32(blob, 12)
  }

  // size_dt_struct as the loop compares it: without the byte swap.
  function LoopBound(blob: Blob): (r: nat)
    requires HasHeader(blob)
  {
    Load32(blob, 36)
  }

  function ParseBlob(blob: Blob, limit: nat, s: Store): (r: Outcome)
    requires HasHeader(blob)
  {
    Parse(blob, StructAt(blob), StringsAt(blob), LoopBound(blob), limit, 0, s.(current := 0))
  }

  // The blob encodes the tree: a header, a structure block with NOPs between any tokens, and
  // strings at the offsets the table gives.
  predicate Image(blob: Blob, t: Tree, table: Strings, es: seq<Event>) {
    && HasHeader(blob) && Read32(blob, 0) == MAGIC
    && RootOk(t, table) && TableOk(blob, StringsAt(blob), table)
    && WithoutNops(es) == Events(t, table)
    && HoldsAt(blob, StructAt(blob), EncodedAll(es) + Be32(END))
  }

  // ---- NOPs and the loop bound ----

  // Offset of the last token that is not a NOP.
  function LastToken(es: seq<Event>, at: nat): (o: nat)
    requires WithoutNops(es) != []
    ensures o >= at
  {
    if WithoutNops(es[1..]) == [] then at else LastToken(es[1..], at + |Encoded(es[0])|)
  }

  // How many tokens other than NOPs start below the loop bound.
  function TokensBelow(es: seq<Event>, at: nat, bound: nat): (n: nat) {
    if es == [] || at >= bound then 0
    else (if es[0].Nop? then 0 else 1) + TokensBelow(es[1..], at + |Encoded(es[0])|, bound)
  }

  lemma {:induction false} LiveBelowCount(es: seq<Event>, base: nat, strings: nat, at: nat, bound: nat)
    ensures |Live(Located(es, base, strings, at)[..Reached(es, at, bound)])| == TokensBelow(es, at, bound)
    decreases |es|
  {
    hide Encoded, ActionOf;
    var acts, n := Located(es, base, strings, at), Reached(es, at, bound);
    if n == 0 {
      assert acts[..0] == [];
    } else {
      var at1 := at + |Encoded(es[0])|;
      SkipIsNop(es[0], base, strings, at);
      LiveBelowCount(es[1..], base, strings, at1, bound);
      assert acts[..n][1..] == Located(es[1..], base, strings, at1)[..n - 1];
    }
  }

  lemma {:induction false} NothingLive(es: seq<Event>, base: nat, strings: nat, at: nat, n: nat)
    requires WithoutNops(es) == [] && n <= |es|
    ensures Live(Located(es, base, strings, at)[..n]) == []
    decreases |es|
  {
    hide Encoded, ActionOf;
    var acts := Located(es, base, strings, at)[..n];
    if n > 0 {
      var at1 := at + |Encoded(es[0])|;
      SkipIsNop(es[0], base, strings, at);
      NothingLive(es[1..], base, strings, at1, n - 1);
      assert acts[0] == ActionOf(es[0], base, strings, at);
      assert acts[1..] == Located(es[1..], base, strings, at1)[..n - 1];
    }
  }

  // The tokens below the bound are all that count, exactly when the bound passes the last one;
  // otherwise they are a proper prefix.
  lemma {:induction false} LiveBelow(es: seq<Event>, base: nat, strings: nat, at: nat, bound: nat)
    requires WithoutNops(es) != []
    ensures var acts := Located(es, base, strings, at);
            var got := Live(acts[..Reached(es, at, bound)]);
            && got <= Live(acts)
            && (bound > LastToken(es, at) <==> got == Live(acts))
    decreases |es|
  {
    hide Encoded, ActionOf;
    var acts := Located(es, base, strings, at);
    var n := Reached(es, at, bound);
    var at1 := at + |Encoded(es[0])|;
    SkipIsNop(es[0], base, strings, at);
    assert acts[1..] == Located(es[1..], base, strings, at1);
    if n == 0 {
      LiveCount(es, base, strings, at);
      assert acts[..0] == [];
    } else {
      assert acts[..n][0] == acts[0] && acts[..n][1..] == acts[1..][..n - 1];
      if WithoutNops(es[1..]) == [] {
        NothingLive(es[1..], base, strings, at1, n - 1);
        NothingLive(es[1..], base, strings, at1, |es| - 1);
        assert acts[1..][..|es| - 1] == acts[1..];
      } else {
        LiveBelow(es[1..], base, strings, at1, bound);
      }
    }
  }

  lemma SkipIsNop(e: Event, base: nat, strings: nat, at: nat)
    ensures ActionOf(e, base, strings, at).Skip? <==> e.Nop?
  {
  }

  lemma {:induction false} LiveCount(es: seq<Event>, base: nat, strings: nat, at: nat)
    ensures |Live(Located(es, base, strings, at))| == |WithoutNops(es)|
    decreases |es|
  {
    if es != [] {
      LiveCount(es[1..], base, strings, at + |Encoded(es[0])|);
      assert Located(es, base, strings, at)[1..] == Located(es[1..], base, strings, at + |Encoded(es[0])|);
    }
  }

  lemma {:induction false} NopsEncodable(es: seq<Event>)
    requires AllEncodable(WithoutNops(es))
    ensures AllEncodable(es)
    decreases |es|
  {
    if es != [] {
      if !es[0].Nop? { assert WithoutNops(es)[1..] == WithoutNops(es[1..]); }
      NopsEncodable(es[1..]);
    }
  }

  lemma {:induction false} EncodableAppend(a: seq<Event>, b: seq<Event>)
    requires AllEncodable(a) && AllEncodable(b)
    ensures AllEncodable(a + b)
  {
    if a == [] { assert a + b == b; } else { assert (a + b)[1..] == a[1..] + b; EncodableAppend(a[1..], b); }
  }

  lemma {:induction false} TreeEncodable(t: Tree, table: Strings)
    requires 0 !in t.name && PropsOk(t.props, table) && InnerAllOk(t.children, table)
    requires forall name | name in table :: table[name] < WORD32
    ensures AllEncodable(Events(t, table))
    decreases t, 0
  {
    var a, b, c := [Begin(t.name)], Attrs(t.props, table), ForestEvents(t.children, table);
    assert a[1..] == [] && AllEncodable(a) && [End][1..] == [] && AllEncodable([End]);
    AttrsEncodable(t.props, table);
    ForestEncodable(t.children, table);
    EncodableAppend(a, b);
    EncodableAppend(a + b, c);
    EncodableAppend(a + b + c, [End]);
  }

  lemma {:induction false} ForestEncodable(ts: seq<Tree>, table: Strings)
    requires InnerAllOk(ts, table) && forall name | name in table :: table[name] < WORD32
    ensures AllEncodable(ForestEvents(ts, table))
    decreases ts, 1
  {
    if ts != [] {
      TreeEncodable(ts[0], table);
      ForestEncodable(ts[1..], table);
      EncodableAppend(Events(ts[0], table), ForestEvents(ts[1..], table));
    }
  }

  lemma {:induction false} AttrsEncodable(ps: seq<Prop>, table: Strings)
    requires PropsOk(ps, table) && forall name | name in table :: table[name] < WORD32
    ensures AllEncodable(Attrs(ps, table))
    decreases |ps|
  {
    if ps != [] {
      assert ps[0] in ps && forall p | p in ps[1..] :: p in ps;
      AttrsEncodable(ps[1..], table);
      assert Attrs(ps, table)[1..] == Attrs(ps[1..], table);
    }
  }

  // ---- The theorems ----

  // Parsing an image is folding the actions of the tokens below the loop bound.
  lemma ImageParse(blob: Blob, t: Tree, table: Strings, es: seq<Event>, limit: nat, s: Store)
    requires Image(blob, t, table, es)
    ensures AllEncodable(es)
    ensures ParseBlob(blob, limit, s) ==
            Fold(Located(es, StructAt(blob), StringsAt(blob), 0)[..Reached(es, 0, LoopBound(blob))],
                 s.(current := 0), limit)
  {
    hide Parse, Fold, Read32, Load32, Events;
    TreeEncodable(t, table);
    NopsEncodable(es);
    ParseIsFold(blob, StructAt(blob), StringsAt(blob), LoopBound(blob), limit, 0, s.(current := 0), es);
  }

  // That is a prefix of the tree's own actions.
  lemma ImageFold(
      blob: Blob, t: Tree, table: Strings, es: seq<Event>, limit: nat, s: Store)
    returns (acts: seq<Action>, n: nat)
    requires Image(blob, t, table, es)
    ensures AllMean(blob, StringsAt(blob), acts, Events(t, table)) && |acts| == |Events(t, table)|
    ensures n <= |acts| && (n == |acts| <==> LoopBound(blob) > LastToken(es, 0))
    ensures n == TokensBelow(es, 0, LoopBound(blob))
    ensures ParseBlob(blob, limit, s) == Fold(acts[..n], s.(current := 0), limit)
  {
    hide ParseBlob, Fold, AllMean, Read32, Load32, Events;
    var base, strings, bound := StructAt(blob), StringsAt(blob), LoopBound(blob);
    ImageParse(blob, t, table, es, limit, s);
    var all := Located(es, base, strings, 0);
    acts := Live(all);
    FoldLive(all[..Reached(es, 0, bound)], s.(current := 0), limit);
    LiveMeans(blob, base, strings, 0, es, Be32(END));
    LiveBelow(es, base, strings, 0, bound);
    LiveBelowCount(es, base, strings, 0, bound);
    var got := Live(all[..Reached(es, 0, bound)]);
    n := |got|;
    assert acts[..n] == got;
    LiveCount(es, base, strings, 0);
  }

  // The round trip. Whenever the loop bound passes the root's END_NODE, an encoded tree is
  // rebuilt in the heap, node by node, and the parent chain is empty at the end; the heap
  // panics exactly when the tree's bytes do not fit.
  lemma RoundTrip(blob: Blob, t: Tree, table: Strings, es: seq<Event>, limit: nat, s: Store)
    requires Image(blob, t, table, es) && Wf(s, limit) && LoopBound(blob) > LastToken(es, 0)
    ensures var r := ParseBlob(blob, limit, s);
            if s.cursor + Size(t) < limit
            then && r.Ok? && r.store.cursor == s.cursor + Size(t) && r.store.root == s.cursor && r.store.current == 0
                 && Wf(r.store, limit) && Holds(blob, r.store, s.cursor, 0, [s.cursor], t)
            else r.Panic?
  {
    hide Fold, AllMean, Holds, ParseBlob, Events, LoopBound;
    var acts, n := ImageFold(blob, t, table, es, limit, s);
    assert acts[..n] == acts;
    BuildRoot(blob, StringsAt(blob), table, limit, s.(current := 0), acts, t);
  }

  // The root is closed again exactly when the bound passes its END_NODE; with room for the whole
  // tree the parse ends in either case.
  lemma CompleteIff(blob: Blob, t: Tree, table: Strings, es: seq<Event>, limit: nat, s: Store)
    requires Image(blob, t, table, es) && Wf(s, limit) && s.root == 0
    ensures var r := ParseBlob(blob, limit, s);
            && !r.Fault? && (s.cursor + Size(t) < limit ==> r.Ok?)
            && (r.Ok? ==> (r.store.root != 0 && r.store.current == 0 <==> LoopBound(blob) > LastToken(es, 0)))
  {
    hide AllMean, ParseBlob, Linked, Read32, Load32, LoopBound, Holds, Size;
    var acts, n := ImageFold(blob, t, table, es, limit, s);
    var events, s0 := Events(t, table), s.(current := 0);
    PrefixEnds(blob, StringsAt(blob), table, limit, s0, acts, n, t);
    TreeNested(t, table, [], []);
    assert events + [] == events;
    PrefixNested(events, n, 0);
    MeanPrefix(blob, StringsAt(blob), acts, events, n);
    NothingOpen(blob, s0.nodes);
    ParentChain(blob, StringsAt(blob), limit, s0, acts[..n], events[..n], []);
    if n == |events| {
      RoundTrip(blob, t, table, es, limit, s);
    } else if n > 0 {
      if OpenNames(events[..n], []) == [] {
        InsideOpen(events, n, []);
        NamedInside(t, table, n);
        assert false;
      }
      if Fold(acts[..n], s0, limit).Ok? {
        OpenSomewhere(blob, StringsAt(blob), limit, s0, acts[..n], events[..n]);
      }
    } else {
      assert acts[..n] == [];
    }
  }

  // A tree that fits does not exhaust the heap half-way.
  lemma PrefixEnds(blob: Blob, strings: nat, table: Strings, limit: nat, s: Store, acts: seq<Action>, n: nat, t: Tree)
    requires AllMean(blob, strings, acts, Events(t, table)) && RootOk(t, table) && TableOk(blob, strings, table)
    requires Wf(s, limit) && n <= |acts|
    ensures s.cursor + Size(t) < limit ==> Fold(acts[..n], s, limit).Ok?
  {
    hide AllMean, TableOk, Fold, Holds, RootOk, Wf;
    BuildRoot(blob, strings, table, limit, s, acts, t);
    FoldAppend(acts[..n], acts[n..], s, limit);
    assert acts[..n] + acts[n..] == acts;
  }

  lemma NothingOpen(blob: Blob, nodes: map<nat, Node>)
    ensures Linked(blob, nodes, 0, [])
  {
  }

  lemma OpenSomewhere(blob: Blob, strings: nat, limit: nat, s: Store, acts: seq<Action>, es: seq<Event>)
    requires Fold(acts, s, limit).Ok? && OpenNames(es, []) != []
    requires Linked(blob, Fold(acts, s, limit).store.nodes, Fold(acts, s, limit).store.current, OpenNames(es, []))
    ensures Fold(acts, s, limit).store.current != 0
  {
  }

  lemma MeanPrefix(blob: Blob, strings: nat, acts: seq<Action>, es: seq<Event>, n: nat)
    requires AllMean(blob, strings, acts, es) && n <= |es|
    ensures AllMean(blob, strings, acts[..n], es[..n])
  {
    hide Means;
  }

  lemma NamedInside(t: Tree, table: Strings, n: nat)
    requires RootOk(t, table) && 0 < n < |Events(t, table)|
    ensures Events(t, table)[n] != Begin([]) && !Events(t, table)[n].Nop?
  {
    var e := Events(t, table)[n];
    if e in Attrs(t.props, table) {
      AttrIsAttr(t.props, table, e);
    } else if e in ForestEvents(t.children, table) {
      InnerTokensNamed(t.children, table, e);
    } else {
      assert Events(t, table) == [Begin(t.name)] + (Attrs(t.props, table) + ForestEvents(t.children, table)) + [End];
    }
  }
}
