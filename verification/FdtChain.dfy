// Parent links: on a well-nested token stream they spell out the open nodes.
module FdtChain {
  import opened Words
  import opened FdtFormat
  import opened FdtParser
  import opened FdtStream
  import opened FdtBuild

  // The names of the open nodes, innermost first, after a stream.
  function OpenNames(es: seq<Event>, open: seq<seq<Byte>>): (r: seq<seq<Byte>>) {
    if es == [] then open
    else
      match es[0]
      case Begin(name) => OpenNames(es[1..], [name] + open)
      case End => OpenNames(es[1..], if open == [] then [] else open[1..])
      case Attr(_, _) => OpenNames(es[1..], open)
      case Nop => OpenNames(es[1..], open)
  }

  // Only a root, at depth 0, has an empty name; properties and END_NODEs lie inside a node.
  predicate WellNested(es: seq<Event>, depth: nat) {
    es == [] ||
    match es[0]
    case Begin(name) => (name == [] <==> depth == 0) && WellNested(es[1..], depth + 1)
    case End => depth > 0 && WellNested(es[1..], depth - 1)
    case Attr(_, _) => depth > 0 && WellNested(es[1..], depth)
    case Nop => WellNested(es[1..], depth)
  }

  // Following parent links from `a` meets exactly the nodes named `open`, each at a lower
  // address than the one before, and then NULL.
  predicate Linked(blob: Blob, nodes: map<nat, Node>, a: nat, open: seq<seq<Byte>>) {
    if open == [] then a == 0
    else a in nodes && nodes[a].parent < a && CStrAt(blob, nodes[a].name, open[0])
         && Linked(blob, nodes, nodes[a].parent, open[1..])
  }

  // Links and names are all that matters, and only below `a`.
  lemma {:induction false} LinkedFrame(
      blob: Blob, nodes: map<nat, Node>, nodes': map<nat, Node>, a: nat, open: seq<seq<Byte>>)
    requires Linked(blob, nodes, a, open)
    requires forall b | b in nodes && b <= a ::
        b in nodes' && nodes'[b].parent == nodes[b].parent && nodes'[b].name == nodes[b].name
    ensures Linked(blob, nodes', a, open)
    decreases |open|
  {
    if open != [] { LinkedFrame(blob, nodes, nodes', nodes[a].parent, open[1..]); }
  }

  // No action changes an old node's parent or name.
  lemma LinksKept(blob: Blob, strings: nat, limit: nat, s: Store, a: Action, s': Store)
    requires Wf(s, limit) && Apply(a, s, limit) == Ok(s')
    ensures Wf(s', limit)
    ensures forall b | b in s.nodes ::
        b in s'.nodes && s'.nodes[b].parent == s.nodes[b].parent && s'.nodes[b].name == s.nodes[b].name
  {
    hide FirstFree, Filled;
  }

  lemma StepLinked(blob: Blob, strings: nat, limit: nat, s: Store, a: Action, e: Event, open: seq<seq<Byte>>)
    requires Means(blob, strings, a, e) && WellNested([e], |open|)
    requires Wf(s, limit) && Linked(blob, s.nodes, s.current, open)
    ensures var r := Apply(a, s, limit);
            && !r.Fault?
            && (r.Ok? ==> Wf(r.store, limit) && Linked(blob, r.store.nodes, r.store.current, OpenNames([e], open)))
  {
    hide CStrAt, FirstFree, Filled, HoldsAt;
    match Apply(a, s, limit)
    case Ok(s') =>
      LinksKept(blob, strings, limit, s, a, s');
      LinkedFrame(blob, s.nodes, s'.nodes, s.current, open);
      match e {
        case Begin(name) =>
          assert OpenNames([e], open) == [name] + open;
        case End =>
          assert OpenNames([e], open) == open[1..];
        case _ =>
          assert OpenNames([e], open) == open;
      }
    case _ =>
  }

  lemma WellNestedHead(e: Event, es: seq<Event>, depth: nat)
    requires es != [] && e == es[0] && WellNested(es, depth)
    ensures WellNested([e], depth)
  {
  }

  // In every state the parser reaches on a well-nested stream, the parent chain of the current
  // node is the list of open nodes; no NULL node is ever used.
  lemma {:induction false} ParentChain(
      blob: Blob, strings: nat, limit: nat, s: Store, acts: seq<Action>, es: seq<Event>, open: seq<seq<Byte>>)
    requires AllMean(blob, strings, acts, es) && WellNested(es, |open|)
    requires Wf(s, limit) && Linked(blob, s.nodes, s.current, open)
    ensures var r := Fold(acts, s, limit);
            && !r.Fault?
            && (r.Ok? ==> Wf(r.store, limit) && Linked(blob, r.store.nodes, r.store.current, OpenNames(es, open)))
    decreases |es|
  {
    hide Means, Apply, Linked, Wf;
    if es != [] {
      MeanTail(blob, strings, acts, es);
      WellNestedHead(es[0], es, |open|);
      StepLinked(blob, strings, limit, s, acts[0], es[0], open);
      var open1 := OpenNames([es[0]], open);
      OpenOne(es, open);
      match Apply(acts[0], s, limit)
      case Ok(s1) => ParentChain(blob, strings, limit, s1, acts[1..], es[1..], open1);
      case Panic =>
      case Fault =>
    }
  }

  // From bytes: whatever blob holds the encoded stream and wherever the loop bound falls, the
  // parent chain is the list of nodes opened by the tokens below the bound and not yet closed.
  lemma ChainOfBytes(
      blob: Blob, base: nat, strings: nat, bound: nat, limit: nat, at: nat, s: Store, es: seq<Event>,
      open: seq<seq<Byte>>)
    requires AllEncodable(es) && HoldsAt(blob, base + at, EncodedAll(es) + Be32(END)) && WellNested(es, |open|)
    requires Wf(s, limit) && Linked(blob, s.nodes, s.current, open)
    ensures var r := Parse(blob, base, strings, bound, limit, at, s);
            && !r.Fault?
            && (r.Ok? ==>
                  && Wf(r.store, limit)
                  && Linked(blob, r.store.nodes, r.store.current, OpenNames(es[..Reached(es, at, bound)], open)))
  {
    hide Parse, Fold, Linked, Wf, Means, Be32, EncodedAll, AllEncodable, Located, WellNested, OpenNames;
    var n := Reached(es, at, bound);
    ParseIsFold(blob, base, strings, bound, limit, at, s, es);
    LocatedMeans(blob, base, strings, at, es, Be32(END));
    PrefixNested(es, n, |open|);
    ParentChain(blob, strings, limit, s, Located(es, base, strings, at)[..n], es[..n], open);
  }

  lemma OpenOne(es: seq<Event>, open: seq<seq<Byte>>)
    requires es != [] && WellNested(es, |open|)
    ensures var open1 := OpenNames([es[0]], open);
            OpenNames(es[1..], open1) == OpenNames(es, open) && WellNested(es[1..], |open1|)
  {
    assert [es[0]][1..] == [];
  }

  // ---- Trees are well nested ----

  lemma {:induction false} PrefixNested(es: seq<Event>, n: nat, depth: nat)
    requires n <= |es| && WellNested(es, depth)
    ensures WellNested(es[..n], depth)
    decreases n
  {
    if n > 0 {
      assert es[..n][1..] == es[1..][..n - 1];
      match es[0]
      case Begin(name) => PrefixNested(es[1..], n - 1, depth + 1);
      case End => PrefixNested(es[1..], n - 1, depth - 1);
      case Attr(_, _) => PrefixNested(es[1..], n - 1, depth);
      case Nop => PrefixNested(es[1..], n - 1, depth);
    }
  }

  lemma {:induction false} TreeNested(t: Tree, table: Strings, rest: seq<Event>, open: seq<seq<Byte>>)
    requires if open == [] then RootOk(t, table) else InnerOk(t, table)
    requires WellNested(rest, |open|)
    ensures WellNested(Events(t, table) + rest, |open|)
    ensures OpenNames(Events(t, table) + rest, open) == OpenNames(rest, open)
    decreases t, 0
  {
    hide WellNested, OpenNames;
    var inner := [t.name] + open;
    var end := [End] + rest;
    var kids := ForestEvents(t.children, table) + end;
    EndNested(rest, t.name, open);
    ForestNested(t.children, table, end, inner);
    AttrsNested(t.props, table, kids, inner);
    BeginNested(t.name, Attrs(t.props, table) + kids, open);
    assert Events(t, table) + rest == [Begin(t.name)] + (Attrs(t.props, table) + kids);
  }

  lemma BeginNested(name: seq<Byte>, es: seq<Event>, open: seq<seq<Byte>>)
    requires (name == [] <==> open == []) && WellNested(es, |open| + 1)
    ensures WellNested([Begin(name)] + es, |open|)
    ensures OpenNames([Begin(name)] + es, open) == OpenNames(es, [name] + open)
  {
    assert ([Begin(name)] + es)[1..] == es;
  }

  lemma EndNested(es: seq<Event>, name: seq<Byte>, open: seq<seq<Byte>>)
    requires WellNested(es, |open|)
    ensures WellNested([End] + es, |[name] + open|)
    ensures OpenNames([End] + es, [name] + open) == OpenNames(es, open)
  {
    assert ([End] + es)[1..] == es && ([name] + open)[1..] == open;
  }

  lemma {:induction false} ForestNested(ts: seq<Tree>, table: Strings, rest: seq<Event>, open: seq<seq<Byte>>)
    requires InnerAllOk(ts, table) && open != [] && WellNested(rest, |open|)
    ensures WellNested(ForestEvents(ts, table) + rest, |open|)
    ensures OpenNames(ForestEvents(ts, table) + rest, open) == OpenNames(rest, open)
    decreases ts, 1
  {
    if ts == [] {
      assert ForestEvents(ts, table) + rest == rest;
    } else {
      ForestNested(ts[1..], table, rest, open);
      TreeNested(ts[0], table, ForestEvents(ts[1..], table) + rest, open);
      assert ForestEvents(ts, table) + rest == Events(ts[0], table) + (ForestEvents(ts[1..], table) + rest);
    }
  }

  lemma AttrNested(e: Event, es: seq<Event>, open: seq<seq<Byte>>)
    requires e.Attr? && open != [] && WellNested(es, |open|)
    ensures WellNested([e] + es, |open|)
    ensures OpenNames([e] + es, open) == OpenNames(es, open)
  {
    assert ([e] + es)[1..] == es;
  }

  lemma {:induction false} AttrsNested(ps: seq<Prop>, table: Strings, rest: seq<Event>, open: seq<seq<Byte>>)
    requires open != [] && WellNested(rest, |open|)
    ensures WellNested(Attrs(ps, table) + rest, |open|)
    ensures OpenNames(Attrs(ps, table) + rest, open) == OpenNames(rest, open)
    decreases |ps|
  {
    hide WellNested, OpenNames;
    if ps == [] {
      assert Attrs(ps, table) + rest == rest;
    } else {
      var e := Attr(Offset(table, ps[0].name), ps[0].value);
      AttrsNested(ps[1..], table, rest, open);
      AttrNested(e, Attrs(ps[1..], table) + rest, open);
      assert Attrs(ps, table) + rest == [e] + (Attrs(ps[1..], table) + rest);
    }
  }

  // Between its first and its last token a tree always has an open node.
  lemma {:induction false} InsideOpen(es: seq<Event>, n: nat, open: seq<seq<Byte>>)
    requires n < |es| && WellNested(es, |open|)
    requires OpenNames(es[..n], open) == []
    ensures es[n] == Begin([]) || es[n].Nop?
    decreases n
  {
    if n > 0 {
      OpenOne(es, open);
      var open1 := OpenNames([es[0]], open);
      assert es[..n][1..] == es[1..][..n - 1] && es[..n][0] == es[0];
      PrefixNested(es, n, |open|);
      OpenOne(es[..n], open);
      InsideOpen(es[1..], n - 1, open1);
    }
  }

  lemma {:induction false} InnerTokensNamed(ts: seq<Tree>, table: Strings, e: Event)
    requires InnerAllOk(ts, table) && e in ForestEvents(ts, table)
    ensures e != Begin([]) && !e.Nop?
    decreases ts
  {
    if e in Events(ts[0], table) {
      TreeTokensNamed(ts[0], table, e);
    } else {
      InnerTokensNamed(ts[1..], table, e);
    }
  }

  lemma {:induction false} TreeTokensNamed(t: Tree, table: Strings, e: Event)
    requires InnerAllOk(t.children, table) && e in Events(t, table) && (e == Begin(t.name) ==> t.name != [])
    ensures e != Begin([]) && !e.Nop?
    decreases t
  {
    if e in Attrs(t.props, table) {
      AttrIsAttr(t.props, table, e);
    } else if e in ForestEvents(t.children, table) {
      InnerTokensNamed(t.children, table, e);
    }
  }

  lemma AttrIsAttr(ps: seq<Prop>, table: Strings, e: Event)
    requires e in Attrs(ps, table)
    ensures e.Attr?
  {
    if e in Attrs(ps[1..], table) { AttrIsAttr(ps[1..], table, e); }
  }
}
