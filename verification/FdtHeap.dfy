// Where the parser's nodes and properties lie in the eternal heap, for any blob at all.
module FdtHeap {
  import opened FdtParser
  import opened FdtBuild
  import EternalHeap

  // Blocks of one size at these addresses lie between start and end, aligned and apart.
  predicate Blocks(at: set<nat>, size: nat, start: nat, end: nat) {
    && (forall a | a in at :: start <= a && a + size <= end && Aligned(a))
    && (forall a, b | a in at && b in at && a < b :: a + size <= b)
  }

  predicate Apart(nodes: set<nat>, properties: set<nat>) {
    forall a, p | a in nodes && p in properties :: a + NODE_SIZE <= p || p + PROP_SIZE <= a
  }

  predicate Aligned(a: nat) {
    a % 8 == 0
  }

  lemma AlignedNext(a: nat)
    requires Aligned(a)
    ensures Aligned(a + NODE_SIZE) && Aligned(a + PROP_SIZE)
  {
  }

  // The nodes and properties are blocks between `start` and the cursor, apart from each other
  // and eight-byte aligned; their sizes add up to what the cursor has moved.
  predicate Packed(s: Store, start: nat) {
    PackedAt(s.nodes.Keys, s.properties.Keys, start, s.cursor)
  }

  predicate PackedAt(nodes: set<nat>, properties: set<nat>, start: nat, cursor: nat) {
    && Aligned(start) && Aligned(cursor)
    && cursor == start + NODE_SIZE * |nodes| + PROP_SIZE * |properties|
    && Blocks(nodes, NODE_SIZE, start, cursor)
    && Blocks(properties, PROP_SIZE, start, cursor)
    && Apart(nodes, properties)
  }

  // A block added at the end, and blocks left alone when the end moves.
  lemma AddBlock(at: set<nat>, size: nat, start: nat, end: nat, end': nat)
    requires Blocks(at, size, start, end) && start <= end && Aligned(end) && end + size <= end'
    ensures Blocks(at + {end}, size, start, end')
  {
  }

  lemma GrowBlocks(at: set<nat>, size: nat, start: nat, end: nat, end': nat)
    requires Blocks(at, size, start, end) && end <= end'
    ensures Blocks(at, size, start, end')
  {
  }

  lemma AddApart(nodes: set<nat>, properties: set<nat>, start: nat, end: nat)
    requires Apart(nodes, properties) && Blocks(nodes, NODE_SIZE, start, end)
    requires Blocks(properties, PROP_SIZE, start, end)
    ensures Apart(nodes + {end}, properties) && Apart(nodes, properties + {end})
  {
  }

  lemma AllocationPacked(s: Store, start: nat, limit: nat, size: nat)
    requires Packed(s, start) && Wf(s, limit) && size <= NODE_SIZE
    ensures EternalHeap.Bump(s.cursor, limit, size).Some? ==>
              EternalHeap.Bump(s.cursor, limit, size).value == s.cursor + size < limit
    ensures s.cursor !in s.nodes && s.cursor !in s.properties
  {
  }

  lemma AddNodeAt(nodes: set<nat>, properties: set<nat>, start: nat, cursor: nat)
    requires PackedAt(nodes, properties, start, cursor) && cursor !in nodes
    ensures PackedAt(nodes + {cursor}, properties, start, cursor + NODE_SIZE)
  {
    hide Blocks, Apart, Aligned;
    AlignedNext(cursor);
    AddBlock(nodes, NODE_SIZE, start, cursor, cursor + NODE_SIZE);
    GrowBlocks(properties, PROP_SIZE, start, cursor, cursor + NODE_SIZE);
    AddApart(nodes, properties, start, cursor);
    OneMore(nodes, cursor);
  }

  lemma AddPropertyAt(nodes: set<nat>, properties: set<nat>, start: nat, cursor: nat)
    requires PackedAt(nodes, properties, start, cursor) && cursor !in properties
    ensures PackedAt(nodes, properties + {cursor}, start, cursor + PROP_SIZE)
  {
    hide Blocks, Apart, Aligned;
    AlignedNext(cursor);
    AddBlock(properties, PROP_SIZE, start, cursor, cursor + PROP_SIZE);
    GrowBlocks(nodes, NODE_SIZE, start, cursor, cursor + PROP_SIZE);
    AddApart(nodes, properties, start, cursor);
    OneMore(properties, cursor);
  }

  lemma OneMore(s: set<nat>, x: nat)
    requires x !in s
    ensures |s + {x}| == |s| + 1
  {
  }

  // Changing an old node's slots moves no block.
  lemma SlotsOnly(s: Store, start: nat, a: nat, n: Node)
    requires Packed(s, start) && a in s.nodes
    ensures Packed(s.(nodes := s.nodes[a := n]), start)
  {
    hide PackedAt;
    assert s.nodes[a := n].Keys == s.nodes.Keys;
  }

  lemma AddNode(s: Store, start: nat, n: Node)
    requires Packed(s, start) && s.cursor !in s.nodes
    ensures Packed(s.(cursor := s.cursor + NODE_SIZE, nodes := s.nodes[s.cursor := n]), start)
  {
    hide PackedAt;
    assert s.nodes[s.cursor := n].Keys == s.nodes.Keys + {s.cursor};
    AddNodeAt(s.nodes.Keys, s.properties.Keys, start, s.cursor);
  }

  lemma AddProperty(s: Store, start: nat, p: Property)
    requires Packed(s, start) && s.cursor !in s.properties
    ensures Packed(s.(cursor := s.cursor + PROP_SIZE, properties := s.properties[s.cursor := p]), start)
  {
    hide PackedAt;
    assert s.properties[s.cursor := p].Keys == s.properties.Keys + {s.cursor};
    AddPropertyAt(s.nodes.Keys, s.properties.Keys, start, s.cursor);
  }

  // Only these fields matter.
  lemma PackedFields(s: Store, s': Store, start: nat)
    requires Packed(s, start) && s'.cursor == s.cursor && s'.nodes == s.nodes && s'.properties == s.properties
    ensures Packed(s', start)
  {
  }

  lemma StepPacked(a: Action, s: Store, start: nat, limit: nat)
    requires Packed(s, start) && Wf(s, limit) && Apply(a, s, limit).Ok?
    ensures Packed(Apply(a, s, limit).store, start) && Wf(Apply(a, s, limit).store, limit)
  {
    hide Packed, FirstFree, Filled;
    var s' := Apply(a, s, limit).store;
    match a
    case Open(nameAt, isRoot) =>
      AllocationPacked(s, start, limit, NODE_SIZE);
      var n := Blank(if isRoot then 0 else s.current, nameAt);
      var into := if isRoot then s.cursor else s.current;
      var s1 := s.(cursor := s.cursor + NODE_SIZE, nodes := s.nodes[s.cursor := n]);
      AddNode(s, start, n);
      var s2 := s1.(nodes := s1.nodes[into := s1.nodes[into].(children := Filled(s1.nodes[into].children, s.cursor))]);
      SlotsOnly(s1, start, into, s1.nodes[into].(children := Filled(s1.nodes[into].children, s.cursor)));
      PackedFields(s2, s', start);
    case Attach(p) =>
      var node := s.nodes[s.current];
      var i := FirstFree(node.properties);
      if i < |node.properties| {
        AllocationPacked(s, start, limit, PROP_SIZE);
        var s1 := s.(cursor := s.cursor + PROP_SIZE, properties := s.properties[s.cursor := p]);
        AddProperty(s, start, p);
        var node' := node.(properties := node.properties[i := s.cursor]);
        SlotsOnly(s1, start, s.current, node');
        PackedFields(s1.(nodes := s1.nodes[s.current := node']), s', start);
      }
    case _ =>
      PackedFields(s, s', start);
  }

  // Whatever the blob holds, a parse that ends leaves its blocks packed: the cursor has moved
  // by 272 bytes for each node and 24 for each stored property.
  lemma {:induction false} ParsePacked(
      blob: Blob, base: nat, strings: nat, bound: nat, limit: nat, at: nat, s: Store, start: nat)
    requires Packed(s, start) && Wf(s, limit) && Parse(blob, base, strings, bound, limit, at, s).Ok?
    ensures var s' := Parse(blob, base, strings, bound, limit, at, s).store; Packed(s', start) && Wf(s', limit)
    decreases bound - at
  {
    hide Packed, Wf, Apply, Decode;
    if at < bound {
      var d := Decode(blob, base, strings, at).value;
      if !d.0.Stop? {
        StepPacked(d.0, s, start, limit);
        ParsePacked(blob, base, strings, bound, limit, d.1, Apply(d.0, s, limit).store, start);
      }
    }
  }

  lemma EmptyPacked(cursor: nat)
    requires cursor % 8 == 0
    ensures Packed(Store(cursor, map[], map[], 0, 0), cursor)
  {
  }
}
