// The driver itself: the methods of kernel/drivers/fdt/fdt.c that change the tree in place.
module FdtDriver {
  import opened Words
  import opened FdtFormat
  import opened FdtParser
  import opened FdtReader
  import opened FdtRoundTrip
  import EternalHeap
  import KernelString

  // Exhausted and Crashed stop the kernel: heap panic, and the use of a NULL node.
  datatype Status = Done | Exhausted | Crashed

  predicate SameEnd(status: Status, r: Outcome) {
    match r
    case Ok(_) => status.Done?
    case Panic => status.Exhausted?
    case Fault => status.Crashed?
  }

  lemma StopIsIdle(s: FdtParser.Store, limit: nat)
    ensures Apply(Stop, s, limit) == Ok(s)
  {
  }

  class Driver {
    const blob: Blob
    const heap: EternalHeap.Heap
    var nodes: map<nat, Node>
    var properties: map<nat, Property>
    var rootNode: nat

    constructor (blob: Blob, heap: EternalHeap.Heap)
      ensures this.blob == blob && this.heap == heap
      ensures nodes == map[] && properties == map[] && rootNode == 0
    {
      this.blob, this.heap := blob, heap;
      nodes, properties, rootNode := map[], map[], 0;
    }

    ghost predicate Valid()
      reads this
    {
      forall a | a in nodes :: |nodes[a].children| == SLOTS && |nodes[a].properties| == SLOTS
    }

    ghost function Store(current: nat): (r: FdtParser.Store)
      reads this, heap
    {
      FdtParser.Store(heap.cursor, nodes, properties, rootNode, current)
    }

    // fdt_InsertChild
    method InsertChild(node: nat, child: nat) returns (inserted: bool)
      requires Valid() && node in nodes
      modifies this`nodes
      ensures Valid()
      ensures inserted <==> exists k | 0 <= k < SLOTS :: old(nodes[node].children[k] == 0)
      ensures nodes == old(nodes)[node := old(nodes[node]).(children := Filled(old(nodes[node].children), child))]
    {
      var slots := nodes[node].children;
      ghost var free := FirstFree(slots);
      var childIndex := 0;
      while childIndex < SLOTS
        invariant childIndex <= SLOTS && childIndex <= free
        invariant forall k | 0 <= k < childIndex :: slots[k] != 0
        invariant nodes == old(nodes)
      {
        if nodes[node].children[childIndex] == 0 {
          nodes := nodes[node := nodes[node].(children := slots[childIndex := child])];
          return true;
        }
        childIndex := childIndex + 1;
      }
      assert nodes == nodes[node := nodes[node].(children := slots)];
      inserted := false;
    }

    // fdt_InsertProperty
    method InsertProperty(node: nat, property: Property) returns (status: Status)
      requires Valid()
      modifies this`nodes, this`properties, heap
      ensures Valid()
      ensures var r := Apply(Attach(property), old(Store(node)), heap.limit);
              SameEnd(status, r) && (r.Ok? ==> Store(node) == r.store)
    {
      if node !in nodes {
        return Crashed;
      }
      var slots := nodes[node].properties;
      ghost var free := FirstFree(slots);
      var propIndex := 0;
      while propIndex < SLOTS
        invariant propIndex <= SLOTS && propIndex <= free
        invariant forall k | 0 <= k < propIndex :: slots[k] != 0
        invariant nodes == old(nodes) && properties == old(properties) && heap.cursor == old(heap.cursor)
      {
        if nodes[node].properties[propIndex] == 0 {
          var p := heap.EternalAlloc(PROP_SIZE);
          if p.None? {
            return Exhausted;
          }
          properties := properties[p.value := property];
          nodes := nodes[node := nodes[node].(properties := slots[propIndex := p.value])];
          return Done;
        }
        propIndex := propIndex + 1;
      }
      status := Done;
    }

    // The BEGIN_NODE branch of the loop.
    method OpenNode(nameAt: nat, isRoot: bool, current: nat) returns (status: Status, next: nat)
      requires Valid()
      modifies this`nodes, this`rootNode, heap
      ensures Valid()
      ensures var r := Apply(Open(nameAt, isRoot), old(Store(current)), heap.limit);
              SameEnd(status, r) && (r.Ok? ==> Store(next) == r.store)
    {
      next := current;
      var p := heap.EternalAlloc(NODE_SIZE);
      if p.None? {
        return Exhausted, next;
      }
      var newNode := p.value;
      if isRoot {
        nodes := nodes[newNode := Blank(0, nameAt)];
        rootNode := newNode;
        next := rootNode;
      } else {
        nodes := nodes[newNode := Blank(current, nameAt)];
      }
      if next !in nodes {
        return Crashed, next;
      }
      var _ := InsertChild(next, newNode);
      next := newNode;
      status := Done;
    }

    // The END_NODE branch.
    method CloseNode(current: nat) returns (status: Status, next: nat)
      ensures var r := Apply(Close, Store(current), heap.limit);
              SameEnd(status, r) && (r.Ok? ==> Store(next) == r.store)
    {
      next := current;
      if current !in nodes {
        return Crashed, next;
      }
      next := nodes[current].parent;
      status := Done;
    }

    // One loop iteration at `offset`: the token, its operands, and the action it asks for.
    method Iterate(base: nat, strings: nat, offset: nat, current: nat)
        returns (status: Status, stop: bool, offset': nat, current': nat)
      requires Valid()
      modifies this`nodes, this`properties, this`rootNode, heap
      ensures Valid()
      ensures var d := Decode(blob, base, strings, offset);
              if d.None? then status.Crashed?
              else var r := Apply(d.value.0, old(Store(current)), heap.limit);
                   && SameEnd(status, r) && (stop <==> d.value.0.Stop?)
                   && (r.Ok? ==> Store(current') == r.store && offset' == d.value.1)
    {
      hide Read32, StrLen, AlignToNextWord, Filled, FirstFree;
      status, stop, offset', current' := Done, false, offset + 4, current;
      if base + offset + 4 > |blob| {
        status := Crashed;
        return;
      }
      var token := KernelString.ReadWord(blob, base + offset);
      if token == BEGIN_NODE {
        var length := KernelString.Length(blob, base + offset');
        if length.None? {
          status := Crashed;
          return;
        }
        status, current' := OpenNode(base + offset', length.value == 0, current);
        offset' := offset' + AlignToNextWord(length.value);
      } else if token == END_NODE {
        status, current' := CloseNode(current);
      } else if token == PROP {
        if base + offset' + 8 > |blob| {
          status := Crashed;
          return;
        }
        var length := KernelString.ReadWord(blob, base + offset');
        var nameoff := KernelString.ReadWord(blob, base + offset' + 4);
        status := InsertProperty(current, Property((strings + nameoff) % WORD32, base + offset' + 8, length));
        offset' := offset' + (8 + AlignToNextWord(length));
      } else if token == END {
        stop := true;
      }
    }

    // fdt_ParseTree
    method ParseTree() returns (status: Status)
      requires HasHeader(blob) && Valid()
      modifies this`nodes, this`properties, this`rootNode, heap
      ensures Valid()
      ensures var r := ParseBlob(blob, heap.limit, old(Store(0)));
              SameEnd(status, r) && (r.Ok? ==> Store(r.store.current) == r.store)
    {
      hide Read32, Decode, Apply;
      var base := KernelString.ReadWord(blob, 8);
      var strings := KernelString.ReadWord(blob, 12);
      ghost var all := Parse(blob, base, strings, LoopBound(blob), heap.limit, 0, Store(0));
      var offset, current := 0, 0;
      while offset < Load32(blob, 36)
        invariant Valid()
        invariant all == Parse(blob, base, strings, LoopBound(blob), heap.limit, offset, Store(current))
        decreases LoopBound(blob) - offset
      {
        var stop, offset', current';
        StopIsIdle(Store(current), heap.limit);
        status, stop, offset', current' := Iterate(base, strings, offset, current);
        if !status.Done? {
          return;
        }
        if stop {
          break;
        }
        offset, current := offset', current';
      }
      status := Done;
    }

    // srv_fdt_Init: false for a blob without the magic number.
    method Init() returns (status: Status, ok: bool)
      requires HasHeader(blob) && Valid()
      modifies this`nodes, this`properties, this`rootNode, heap
      ensures Valid()
      ensures ok <==> status.Done? && Read32(blob, 0) == MAGIC
      ensures Read32(blob, 0) != MAGIC ==> status.Done? && Store(0) == old(Store(0))
      ensures Read32(blob, 0) == MAGIC ==>
                var r := ParseBlob(blob, heap.limit, old(Store(0)));
                SameEnd(status, r) && (r.Ok? ==> Store(r.store.current) == r.store)
    {
      var magic := KernelString.ReadWord(blob, 0);
      if magic != MAGIC {
        return Done, false;
      }
      status := ParseTree();
      ok := status.Done?;
    }

    // fdt_FindNodeByName
    method FindNodeByName(root: nat, name: seq<Byte>) returns (r: Lookup)
      requires Valid()
      ensures r == if root in nodes then FindChild(blob, Store(0), nodes[root].children, name) else Crash
    {
      hide StrCmp;
      if root !in nodes {
        return Crash;
      }
      var slots := nodes[root].children;
      var childIndex := 0;
      while childIndex < SLOTS
        invariant childIndex <= SLOTS
        invariant FindChild(blob, Store(0), slots, name) == FindChild(blob, Store(0), slots[childIndex..], name)
      {
        var node := slots[childIndex];
        if node !in nodes {
          return Crash;
        }
        var c := KernelString.Compare(blob, nodes[node].name, name + [0], 0);
        if c.None? {
          return Crash;
        }
        if c.value == 0 {
          return Found(node);
        }
        assert slots[childIndex..][1..] == slots[childIndex + 1..];
        childIndex := childIndex + 1;
      }
      r := NotFound;
    }

    // srv_fdt_GetMemorySize
    method GetMemorySize() returns (size: Option<nat>)
      requires Valid()
      ensures size == MemorySize(blob, Store(0))
    {
      hide StrCmp, Read32;
      var memory := FindNodeByName(rootNode, MEMORY_NAME);
      if memory.Crash? {
        return None;
      }
      if memory.NotFound? {
        return Some(0);
      }
      var slots := nodes[memory.address].properties;
      var propIndex := 0;
      while propIndex < SLOTS
        invariant propIndex <= SLOTS
        invariant FindProperty(blob, Store(0), slots, REG_NAME) ==
            FindProperty(blob, Store(0), slots[propIndex..], REG_NAME)
      {
        var prop := slots[propIndex];
        if prop !in properties {
          return None;
        }
        var c := KernelString.Compare(blob, properties[prop].name, REG_NAME + [0], 0);
        if c.None? {
          return None;
        }
        if c.value == 0 {
          var at := properties[prop].value + 12;
          if at + 4 > |blob| {
            return None;
          }
          var word := KernelString.ReadWord(blob, at);
          return Some(word);
        }
        assert slots[propIndex..][1..] == slots[propIndex + 1..];
        propIndex := propIndex + 1;
      }
      size := Some(0);
    }
  }
}
