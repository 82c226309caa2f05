// What a parse leaves behind when the loop bound cuts it short (kernel/drivers/fdt/fdt.c, line 185).
module FdtCut {
  import opened FdtFormat
  import opened FdtParser
  import opened FdtStream
  import opened FdtBuild
  import opened FdtRoundTrip
  import opened FdtReader

  // ---- Trees cut short ----

  // How many tokens a tree is written with.
  function Tokens(t: Tree): (n: nat)
    ensures n >= 2
    decreases t, 0
  {
    2 + |t.props| + ForestTokens(t.children)
  }

  function ForestTokens(ts: seq<Tree>): (n: nat)
    decreases ts, 1
  {
    if ts == [] then 0 else Tokens(ts[0]) + ForestTokens(ts[1..])
  }

  // The part of the tree that its first n tokens give; CutTokens says what that means.
  function Cut(t: Tree, n: nat): (c: Tree)
    requires n > 0
    decreases t, 0
  {
    if n - 1 <= |t.props| then Tree(t.name, t.props[..n - 1], [])
    else Tree(t.name, t.props, CutForest(t.children, n - 1 - |t.props|))
  }

  function CutForest(ts: seq<Tree>, n: nat): (cs: seq<Tree>)
    decreases ts, 1
  {
    if ts == [] || n == 0 then []
    else if n >= Tokens(ts[0]) then [ts[0]] + CutForest(ts[1..], n - Tokens(ts[0]))
    else [Cut(ts[0], n)]
  }

  lemma {:induction false} TreeTokens(t: Tree, table: Strings)
    ensures |Events(t, table)| == Tokens(t)
    decreases t, 0
  {
    ForestTokenCount(t.children, table);
  }

  lemma {:induction false} ForestTokenCount(ts: seq<Tree>, table: Strings)
    ensures |ForestEvents(ts, table)| == ForestTokens(ts)
    decreases ts, 1
  {
    hide Events, Tokens;
    if ts != [] {
      TreeTokens(ts[0], table);
      ForestTokenCount(ts[1..], table);
    }
  }

  lemma {:induction false} ForestWhole(ts: seq<Tree>, n: nat)
    requires n >= ForestTokens(ts)
    ensures CutForest(ts, n) == ts
    decreases |ts|
  {
    if ts != [] {
      ForestWhole(ts[1..], n - Tokens(ts[0]));
      assert ts == [ts[0]] + ts[1..];
    }
  }

  // All tokens, with or without the last END_NODE, give the whole tree.
  lemma CutWhole(t: Tree, n: nat)
    requires n >= Tokens(t) - 1
    ensures Cut(t, n) == t
  {
    ForestWhole(t.children, n - 1 - |t.props|);
    assert t.props[..|t.props|] == t.props;
    if n - 1 == |t.props| { NoTokens(t.children); }
  }

  lemma NoTokens(ts: seq<Tree>)
    requires ForestTokens(ts) == 0
    ensures ts == []
  {
  }

  function Ends(d: nat): (es: seq<Event>) {
    seq(d, i => End)
  }

  lemma {:induction false} AttrsPrefix(ps: seq<Prop>, table: Strings, n: nat)
    requires n <= |ps|
    ensures Attrs(ps[..n], table) == Attrs(ps, table)[..n]
    decreases n
  {
    if n > 0 {
      AttrsPrefix(ps[1..], table, n - 1);
      assert ps[..n][1..] == ps[1..][..n - 1];
    }
  }

  // The tokens of the part are the first n tokens of the tree, and END_NODEs for what is open.
  lemma {:induction false} CutTokens(t: Tree, table: Strings, n: nat) returns (d: nat)
    requires 0 < n <= Tokens(t)
    ensures n <= |Events(t, table)|
    ensures Events(Cut(t, n), table) == Events(t, table)[..n] + Ends(d)
    decreases t, 0
  {
    hide Tokens, Cut, Events;
    TreeTokens(t, table);
    if n == Tokens(t) {
      CutWhole(t, n);
      d := 0;
    } else if n - 1 <= |t.props| {
      CutInProps(t, table, n);
      d := 1;
    } else {
      CutInChildren(t, table, n);
      var d' := ForestCutTokens(t.children, table, n - 1 - |t.props|);
      d := d' + 1;
      assert Ends(d) == Ends(d') + [End];
    }
  }

  lemma CutInProps(t: Tree, table: Strings, n: nat)
    requires 0 < n && n - 1 <= |t.props|
    ensures n <= |Events(t, table)| && Events(Cut(t, n), table) == Events(t, table)[..n] + Ends(1)
  {
    hide Attrs;
    AttrsPrefix(t.props, table, n - 1);
    assert Ends(1) == [End];
    var attrs := Attrs(t.props, table);
    assert Events(t, table) == ([Begin(t.name)] + attrs) + (ForestEvents(t.children, table) + [End]);
    assert ([Begin(t.name)] + attrs)[..n] == [Begin(t.name)] + attrs[..n - 1];
  }

  lemma CutInChildren(t: Tree, table: Strings, n: nat)
    requires |t.props| < n - 1 && n < Tokens(t)
    ensures n - 1 - |t.props| <= ForestTokens(t.children) == |ForestEvents(t.children, table)|
    ensures n <= |Events(t, table)|
    ensures Events(t, table)[..n] ==
            [Begin(t.name)] + Attrs(t.props, table) + ForestEvents(t.children, table)[..n - 1 - |t.props|]
    ensures Events(Cut(t, n), table) ==
            [Begin(t.name)] + Attrs(t.props, table) +
            ForestEvents(CutForest(t.children, n - 1 - |t.props|), table) + [End]
  {
    hide Attrs, ForestEvents, ForestTokens, CutForest;
    ForestTokenCount(t.children, table);
    var front := [Begin(t.name)] + Attrs(t.props, table);
    assert Events(t, table) == front + (ForestEvents(t.children, table) + [End]);
  }

  lemma {:induction false} ForestCutTokens(ts: seq<Tree>, table: Strings, n: nat) returns (d: nat)
    requires n <= ForestTokens(ts)
    ensures n <= |ForestEvents(ts, table)|
    ensures ForestEvents(CutForest(ts, n), table) == ForestEvents(ts, table)[..n] + Ends(d)
    decreases ts, 1
  {
    hide Tokens, Events, Cut;
    ForestTokenCount(ts, table);
    d := 0;
    if ts != [] && n > 0 {
      var first, rest := Events(ts[0], table), ForestEvents(ts[1..], table);
      TreeTokens(ts[0], table);
      assert ForestEvents(ts, table) == first + rest;
      if n >= |first| {
        d := ForestCutTokens(ts[1..], table, n - |first|);
        var cs := CutForest(ts[1..], n - |first|);
        assert ([ts[0]] + cs)[1..] == cs;
        assert (first + rest)[..n] == first + rest[..n - |first|];
      } else {
        d := CutTokens(ts[0], table, n);
        assert [Cut(ts[0], n)][1..] == [];
        assert (first + rest)[..n] == first[..n];
      }
    }
  }

  lemma {:induction false} CutInnerOk(t: Tree, table: Strings, n: nat)
    requires n > 0 && PropsOk(t.props, table) && InnerAllOk(t.children, table)
    ensures Cut(t, n).name == t.name && PropsOk(Cut(t, n).props, table) && InnerAllOk(Cut(t, n).children, table)
    decreases t, 0
  {
    if n - 1 > |t.props| { CutForestOk(t.children, table, n - 1 - |t.props|); }
  }

  lemma {:induction false} CutForestOk(ts: seq<Tree>, table: Strings, n: nat)
    requires InnerAllOk(ts, table)
    ensures InnerAllOk(CutForest(ts, n), table)
    decreases ts, 1
  {
    hide Cut, Tokens;
    if ts != [] && n > 0 {
      if n >= Tokens(ts[0]) {
        CutForestOk(ts[1..], table, n - Tokens(ts[0]));
        assert ([ts[0]] + CutForest(ts[1..], n - Tokens(ts[0])))[1..] == CutForest(ts[1..], n - Tokens(ts[0]));
      } else {
        CutInnerOk(ts[0], table, n);
        assert [Cut(ts[0], n)][1..] == [];
      }
    }
  }

  // ---- The heap after a parse cut short ----

  function Closes(d: nat): (acts: seq<Action>) {
    seq(d, i => Close)
  }

  // Closing nodes moves the current node and nothing else.
  lemma {:induction false} ClosesKeep(d: nat, s: Store, limit: nat)
    ensures var r := Fold(Closes(d), s, limit);
            !r.Panic? && (r.Ok? ==> r.store == s.(current := r.store.current))
  {
    if d > 0 {
      assert Closes(d)[1..] == Closes(d - 1);
      match Apply(Close, s, limit)
      case Ok(s') => ClosesKeep(d - 1, s', limit);
      case Panic =>
      case Fault =>
    }
  }

  // With the current node forgotten, the first n actions of a tree leave the image of its part.
  lemma CutBuild(
      blob: Blob, strings: nat, table: Strings, limit: nat, s: Store, acts: seq<Action>, t: Tree, n: nat)
    requires AllMean(blob, strings, acts, Events(t, table)) && RootOk(t, table) && TableOk(blob, strings, table)
    requires Wf(s, limit) && 0 < n <= |acts|
    ensures var r := Fold(acts[..n], s, limit);
            if s.cursor + Size(Cut(t, n)) < limit
            then && r.Ok? && r.store.cursor == s.cursor + Size(Cut(t, n)) && r.store.root == s.cursor
                 && Wf(r.store, limit) && Holds(blob, r.store, s.cursor, 0, [s.cursor], Cut(t, n))
            else r.Panic?
  {
    hide AllMean, TableOk, Holds, Fold, Wf, Cut, Events, Size;
    TreeTokens(t, table);
    CursorPositive(s, limit);
    MeanLength(blob, strings, acts, Events(t, table));
    var d := CutTokens(t, table, n);
    CutInnerOk(t, table, n);
    CutMeans(blob, strings, acts, Events(t, table), n, d);
    BuildRoot(blob, strings, table, limit, s, acts[..n] + Closes(d), Cut(t, n));
    FoldAppend(acts[..n], Closes(d), s, limit);
    match Fold(acts[..n], s, limit)
    case Ok(s1) =>
      ClosesKeep(d, s1, limit);
      var r := Fold(Closes(d), s1, limit);
      if r.Ok? { CurrentIsFree(blob, r.store, s1, limit, s.cursor, Cut(t, n)); }
    case Panic =>
    case Fault =>
  }

  lemma MeanLength(blob: Blob, strings: nat, acts: seq<Action>, es: seq<Event>)
    requires AllMean(blob, strings, acts, es)
    ensures |acts| == |es|
  {
  }

  lemma CutMeans(blob: Blob, strings: nat, acts: seq<Action>, es: seq<Event>, n: nat, d: nat)
    requires AllMean(blob, strings, acts, es) && n <= |es|
    ensures AllMean(blob, strings, acts[..n] + Closes(d), es[..n] + Ends(d))
  {
  }

  lemma CurrentIsFree(blob: Blob, s: Store, s': Store, limit: nat, a: nat, t: Tree)
    requires s == s'.(current := s.current) && Wf(s, limit) && Holds(blob, s, a, 0, [a], t) && a > 0
    ensures Wf(s', limit) && Holds(blob, s', a, 0, [a], t)
  {
    HoldsFrame(blob, s, s', 0, a, 0, [a], t);
  }

  // ---- The theorems ----

  // The tree that is left, for a loop bound that passes at least the root's BEGIN_NODE.
  function Left(blob: Blob, t: Tree, es: seq<Event>): (c: Tree)
    requires HasHeader(blob) && TokensBelow(es, 0, LoopBound(blob)) > 0
  {
    Cut(t, TokensBelow(es, 0, LoopBound(blob)))
  }

  // Wherever the loop bound falls, the parse leaves the image of what the tokens below it give;
  // the heap panics exactly when that does not fit.
  lemma ParseLeaves(blob: Blob, t: Tree, table: Strings, es: seq<Event>, limit: nat, s: Store)
    requires Image(blob, t, table, es) && Wf(s, limit)
    ensures TokensBelow(es, 0, LoopBound(blob)) == 0 ==> ParseBlob(blob, limit, s) == Ok(s.(current := 0))
    ensures TokensBelow(es, 0, LoopBound(blob)) > 0 ==>
              var r, left := ParseBlob(blob, limit, s), Left(blob, t, es);
              if s.cursor + Size(left) < limit
              then && r.Ok? && r.store.cursor == s.cursor + Size(left) && r.store.root == s.cursor
                   && Wf(r.store, limit) && Holds(blob, r.store, s.cursor, 0, [s.cursor], left)
              else r.Panic?
  {
    hide AllMean, Holds, ParseBlob, Events, LoopBound, TokensBelow, Size, Cut;
    var acts, n := ImageFold(blob, t, table, es, limit, s);
    if n > 0 {
      CutBuild(blob, StringsAt(blob), table, limit, s.(current := 0), acts, t, n);
    } else {
      assert acts[..0] == [];
    }
  }

  // A bound past the last token leaves the whole tree.
  lemma AllLeft(blob: Blob, t: Tree, table: Strings, es: seq<Event>)
    requires Image(blob, t, table, es) && LoopBound(blob) > LastToken(es, 0)
    ensures TokensBelow(es, 0, LoopBound(blob)) == Tokens(t) && Left(blob, t, es) == t
  {
    hide AllMean, ParseBlob, Events, LoopBound, TokensBelow, Cut;
    var acts, n := ImageFold(blob, t, table, es, 0, Store(0, map[], map[], 0, 0));
    TreeTokens(t, table);
    CutWhole(t, n);
  }

  // What a reader finds, and what size of memory is reported, for every loop bound.
  lemma ReadBackLeft(blob: Blob, t: Tree, table: Strings, es: seq<Event>, limit: nat, s: Store)
    requires Image(blob, t, table, es) && Wf(s, limit) && TokensBelow(es, 0, LoopBound(blob)) > 0
    requires s.cursor + Size(Left(blob, t, es)) < limit
    ensures var r, kept := ParseBlob(blob, limit, s), Keep(Left(blob, t, es), SLOTS - 1);
            && r.Ok? && ReadsRoot(blob, r.store, kept) && Reports(blob, r.store, SizeInTree(kept))
  {
    hide ParseBlob, LoopBound, TokensBelow, Size, Reads, Keep, Holds, Cut, SizeInTree, Reports;
    ParseLeaves(blob, t, table, es, limit, s);
    CursorPositive(s, limit);
    var r, left := ParseBlob(blob, limit, s).store, Left(blob, t, es);
    HoldsReads(blob, r, s.cursor, 0, [s.cursor], left);
    var n := NodeOf(blob, r, s.cursor, 0, [s.cursor], left);
    LeftName(t, TokensBelow(es, 0, LoopBound(blob)));
    MemorySizeOfTree(blob, r, Keep(left, SLOTS - 1));
  }

  lemma LeftName(t: Tree, n: nat)
    requires n > 0
    ensures Keep(Cut(t, n), SLOTS - 1).name == t.name
  {
  }
}
