/**
 The shared-memory pool allocator: node records stored inside the pool, keyed
 by their byte offset and linked by offsets. Each method is proved to perform
 the chunk-list operation of ChunkList on the list the records spell out.
 */
module PoolAllocator {
  import opened Numeric
  import opened ChunkList

  const INVALID_OFFSET := -1

  /** The record at the start of a chunk. */
  datatype Node = Node(size: int, next: int, prev: int, isFree: bool)

  function NodeAt(cs: seq<Chunk>, i: nat): Node
    requires i < |cs|
  {
    Node(cs[i].size,
         if i + 1 < |cs| then cs[i + 1].offset else INVALID_OFFSET,
         if i > 0 then cs[i - 1].offset else INVALID_OFFSET,
         cs[i].free)
  }

  ghost predicate RecordAt(nodes: map<int, Node>, cs: seq<Chunk>, i: nat)
    requires i < |cs|
  {
    cs[i].offset in nodes && nodes[cs[i].offset] == NodeAt(cs, i)
  }

  /** The records at the chunks' offsets describe the list and link it both ways. */
  ghost predicate Linked(nodes: map<int, Node>, cs: seq<Chunk>) {
    forall i | 0 <= i < |cs| :: RecordAt(nodes, cs, i)
  }

  class Pool<T> {
    /** Aligned size of the pool's own header. */
    const headerSize: nat
    /** Aligned size of a node record. */
    const h: nat
    /** Size of the memory handed to the constructor, pool header included. */
    const size: nat
    /** Width of size_type. */
    const bits: nat
    var nodes: map<int, Node>
    /** The objects constructed in the pool, by byte offset. */
    var cells: map<int, T>
    /** The list that the records spell out. */
    ghost var chunks: seq<Chunk>

    ghost function Total(): int {
      size - headerSize
    }

    ghost predicate Valid()
      reads this
    {
      && 4 <= bits && size + 15 < Pow2(bits)
      && WellFormed(chunks, h, Total()) && Linked(nodes, chunks)
    }

    /** Links, tiling and sizes hold; adjacent free chunks are still allowed. */
    ghost predicate LinkedTiling()
      reads this
    {
      0 < h && Tiles(chunks, h, 0, Total()) && Linked(nodes, chunks)
    }

    /** Holds for the data offsets that were allocated and not yet deallocated. */
    ghost predicate Owns(data: int)
      reads this
    {
      exists c :: c in Used(chunks) && c.offset == data - h
    }

    constructor (headerSize: nat, h: nat, size: nat, bits: nat)
      requires HeaderSize(h) && headerSize + h <= size
      requires 4 <= bits && size + 15 < Pow2(bits)
      ensures Valid() && chunks == Initial(h, size - headerSize)
      ensures this.headerSize == headerSize && this.h == h && this.size == size && this.bits == bits
      ensures cells == map[]
    {
      this.headerSize, this.h, this.size, this.bits := headerSize, h, size, bits;
      nodes := map[0 := Node(size - headerSize - h, INVALID_OFFSET, INVALID_OFFSET, true)];
      cells := map[];
      chunks := Initial(h, size - headerSize);
      new;
      InitialWellFormed(h, Total());
    }

    /** The address of an offset, as an offset again; the null pointer is INVALID_OFFSET. */
    function OffsetToPointer(offset: int): int {
      if offset < 0 || offset > size then INVALID_OFFSET else offset
    }

    lemma ChunkInPool(i: nat)
      requires LinkedTiling() && i < |chunks|
      ensures 0 <= chunks[i].offset <= size && chunks[i].size >= 0
      ensures i + 1 < |chunks| ==> chunks[i + 1].offset == chunks[i].End(h)
    {
      TilesNext(chunks, h, 0, Total(), i);
    }

    /** Construct a free node right after `node`. */
    method InsertNode(node: int, newOffset: int, newSize: int)
      requires node in nodes && newOffset != node
      requires nodes[node].next != INVALID_OFFSET ==> nodes[node].next in nodes
      requires nodes[node].next != node && nodes[node].next != newOffset
      modifies this`nodes
      ensures nodes.Keys == old(nodes).Keys + {newOffset}
      ensures nodes[node] == old(nodes)[node].(next := newOffset)
      ensures nodes[newOffset] == Node(newSize, old(nodes)[node].next, node, true)
      ensures var n := old(nodes)[node].next; n != INVALID_OFFSET ==> nodes[n] == old(nodes)[n].(prev := newOffset)
      ensures forall o | o in old(nodes) && o != node && o != newOffset && o != old(nodes)[node].next ::
                nodes[o] == old(nodes)[o]
    {
      var next := nodes[node].next;
      nodes := nodes[node := nodes[node].(next := newOffset)];
      nodes := nodes[newOffset := Node(newSize, next, node, true)];
      if next != INVALID_OFFSET {
        nodes := nodes[next := nodes[next].(prev := newOffset)];
      }
    }

    /**
     First fit. The request is already aligned. None stands for bad_alloc;
     otherwise the data offset and the size of the chunk are returned.
     */
    method AllocateFromList(bytes: nat) returns (r: Option<(int, int)>)
      requires Valid() && bytes % 16 == 0
      modifies this`nodes, this`chunks
      ensures Valid()
      ensures r.None? <==> forall c | c in old(chunks) :: !Fits(c, bytes)
      ensures r.None? ==> chunks == old(chunks)
      ensures r.Some? ==>
                var i := FirstFit(old(chunks), bytes);
                && i < |old(chunks)| && i < |chunks|
                && chunks == AllocateAt(old(chunks), h, i, bytes)
                && r.value == (old(chunks)[i].offset + h, chunks[i].size)
                && TakesFirst(old(chunks), chunks, h, bytes, old(chunks)[i], r.value.1)
      ensures chunks == Serve(old(chunks), h, ChunkList.Allocate(bytes))
    {
      ghost var cs := chunks;
      var node := 0;
      ghost var i: nat := 0;
      OffsetsIncrease(cs, h, 0, Total());
      while true
        invariant i < |cs| && node == cs[i].offset
        invariant forall k | 0 <= k < i :: !Fits(cs[k], bytes)
        invariant chunks == cs && nodes == old(nodes)
        decreases |cs| - i
      {
        ChunkInPool(i);
        assert RecordAt(nodes, cs, i);
        if nodes[node].isFree && nodes[node].size >= bytes {
          FirstFitIs(cs, bytes, i);
          AllocateKeeps(cs, h, Total(), i, bytes);
          AllocateTakes(cs, h, bytes);
          TakeChunk(node, bytes, i);
          return Some((node + h, nodes[node].size));
        } else {
          if nodes[node].next == INVALID_OFFSET {
            return None;
          }
          node := OffsetToPointer(nodes[node].next);
          i := i + 1;
          ChunkInPool(i);
        }
      }
    }

    /** Allocation of a byte count that is not yet aligned. */
    method AllocateAtLeastOffset(bytes: nat) returns (r: Option<(int, int)>)
      requires Valid() && bytes + 15 < Pow2(bits)
      modifies this`nodes, this`chunks
      ensures Valid()
      ensures r.None? <==> forall c | c in old(chunks) :: !Fits(c, AlignUp(bytes, bits))
      ensures r.None? ==> chunks == old(chunks)
      ensures r.Some? ==>
                var i := FirstFit(old(chunks), AlignUp(bytes, bits));
                && i < |old(chunks)| && i < |chunks|
                && chunks == AllocateAt(old(chunks), h, i, AlignUp(bytes, bits))
                && r.value == (old(chunks)[i].offset + h, chunks[i].size)
                && TakesFirst(old(chunks), chunks, h, AlignUp(bytes, bits), old(chunks)[i], r.value.1)
      ensures chunks == Serve(old(chunks), h, ChunkList.Allocate(AlignUp(bytes, bits)))
    {
      AlignUpIsLeast(bytes, bits);
      r := AllocateFromList(AlignUp(bytes, bits));
    }

    /** The part of the allocation that rewrites the chosen node. */
    method TakeChunk(node: int, bytes: nat, ghost i: nat)
      requires LinkedTiling() && i < |chunks| && node == chunks[i].offset
      requires Fits(chunks[i], bytes)
      modifies this`nodes, this`chunks
      ensures chunks == AllocateAt(old(chunks), h, i, bytes)
      ensures Linked(nodes, chunks)
      ensures i < |chunks| && node in nodes && nodes[node] == NodeAt(chunks, i)
    {
      ghost var cs := chunks;
      ghost var before := nodes;
      OffsetsIncrease(cs, h, 0, Total());
      ChunkInPool(i);
      assert RecordAt(nodes, cs, i);
      if i + 1 < |cs| {
        Distinct(cs, i, i + 1);
        assert RecordAt(nodes, cs, i + 1);
      }
      nodes := nodes[node := nodes[node].(isFree := false)];
      if nodes[node].size - bytes > h {
        InsertNode(node, node + h + bytes, nodes[node].size - bytes - h);
        nodes := nodes[node := nodes[node].(size := bytes)];
        LinkedAfterSplit(before, nodes, cs, h, i, bytes);
      } else {
        LinkedAfterTake(before, nodes, cs, i);
      }
      chunks := AllocateAt(cs, h, i, bytes);
    }

    method MergeNodesForward(node: int, ghost i: nat)
      requires LinkedTiling() && i < |chunks| && node == chunks[i].offset
      modifies this`nodes, this`chunks
      ensures Linked(nodes, chunks)
      ensures chunks == MergeForward(old(chunks), i)
    {
      ghost var cs := chunks;
      ghost var before := nodes;
      ChunkInPool(i);
      OffsetsIncrease(cs, h, 0, Total());
      assert RecordAt(nodes, cs, i);
      if nodes[node].next == INVALID_OFFSET {
        return;
      }
      var mergedSize := nodes[node].size;
      var nextNode := OffsetToPointer(nodes[node].next);
      ghost var k: nat := i + 1;
      ChunkInPool(k);
      while true
        invariant i < k <= |cs| && forall j | i < j < k :: cs[j].free
        invariant nextNode == if k < |cs| then cs[k].offset else INVALID_OFFSET
        invariant mergedSize == cs[k - 1].offset + cs[k - 1].size - cs[i].offset
        invariant chunks == cs && nodes == before
        decreases |cs| - k
      {
        if nextNode == INVALID_OFFSET {
          if k < |cs| { ChunkInPool(k); }
          nodes := nodes[node := nodes[node].(next := INVALID_OFFSET)];
          break;
        }
        assert RecordAt(nodes, cs, k);
        if !nodes[nextNode].isFree {
          nodes := nodes[nextNode := nodes[nextNode].(prev := node)];
          break;
        }
        ChunkInPool(k - 1);
        ChunkInPool(k);
        mergedSize := mergedSize + nodes[nextNode].size + h;
        nextNode := OffsetToPointer(nodes[nextNode].next);
        k := k + 1;
        if k < |cs| { ChunkInPool(k); }
      }
      nodes := nodes[node := nodes[node].(size := mergedSize, next := nextNode)];
      RunEndIs(cs, i + 1, k);
      if k < |cs| { Distinct(cs, i, k); }
      LinkedAfterMerge(before, nodes, cs, i, k);
      chunks := Merge(cs, i, k);
    }

    method MergeNodesBackward(node: int, ghost i: nat)
      requires LinkedTiling() && i < |chunks| && node == chunks[i].offset
      modifies this`nodes, this`chunks
      ensures Linked(nodes, chunks)
      ensures chunks == MergeBackward(old(chunks), i)
    {
      ghost var cs := chunks;
      ghost var before := nodes;
      OffsetsIncrease(cs, h, 0, Total());
      assert RecordAt(nodes, cs, i);
      if nodes[node].prev == INVALID_OFFSET {
        if i > 0 { ChunkInPool(i - 1); }
        return;
      }
      var mergedSize := nodes[node].size;
      var prevNode := OffsetToPointer(nodes[node].prev);
      var prevNextNode := node;
      ghost var l: nat := i;
      ChunkInPool(i - 1);
      while true
        invariant l <= i && forall j | l <= j < i :: cs[j].free
        invariant prevNode == if l > 0 then cs[l - 1].offset else INVALID_OFFSET
        invariant prevNextNode == cs[l].offset
        invariant mergedSize == cs[i].offset + cs[i].size - cs[l].offset
        invariant chunks == cs && nodes == before
        decreases l
      {
        if prevNode == INVALID_OFFSET {
          if l > 0 { ChunkInPool(l - 1); }
          break;
        }
        assert RecordAt(nodes, cs, l - 1);
        if !nodes[prevNode].isFree {
          break;
        }
        ChunkInPool(l - 1);
        mergedSize := mergedSize + nodes[prevNode].size + h;
        prevNextNode := prevNode;
        prevNode := OffsetToPointer(nodes[prevNode].prev);
        l := l - 1;
        if l > 0 { ChunkInPool(l - 1); }
      }
      RunStartIs(cs, i, l);
      LinkMerged(node, prevNextNode, mergedSize, l, i);
    }

    /** The part of the backward merge that rewrites the links around the fused node. */
    method LinkMerged(node: int, prevNextNode: int, mergedSize: int, ghost l: nat, ghost i: nat)
      requires LinkedTiling() && l <= i < |chunks| && node == chunks[i].offset && prevNextNode == chunks[l].offset
      requires mergedSize == chunks[i].offset + chunks[i].size - chunks[l].offset
      modifies this`nodes, this`chunks
      ensures Linked(nodes, chunks)
      ensures chunks == Merge(old(chunks), l, i + 1)
    {
      ghost var cs := chunks;
      ghost var before := nodes;
      OffsetsIncrease(cs, h, 0, Total());
      assert RecordAt(nodes, cs, l);
      assert RecordAt(nodes, cs, i);
      ChunkInPool(0);
      if i + 1 < |cs| {
        ChunkInPool(i + 1);
        Distinct(cs, i, i + 1);
        Distinct(cs, l, i + 1);
        assert RecordAt(nodes, cs, i + 1);
      }
      nodes := nodes[prevNextNode := nodes[prevNextNode].(size := mergedSize)];
      var nextNode := OffsetToPointer(nodes[node].next);
      if nextNode != INVALID_OFFSET {
        nodes := nodes[nextNode := nodes[nextNode].(prev := prevNextNode)];
      }
      nodes := nodes[prevNextNode := nodes[prevNextNode].(next := nodes[node].next)];
      LinkedAfterMerge(before, nodes, cs, l, i + 1);
      chunks := Merge(cs, l, i + 1);
    }

    /** `data` must be a data offset obtained from an allocation and still owned. */
    method Deallocate(data: int)
      requires Valid() && Owns(data)
      modifies this`nodes, this`chunks
      ensures Valid()
      ensures var i := IndexOf(old(chunks), data - h);
              && i < |old(chunks)| && !old(chunks)[i].free
              && chunks == DeallocateAt(old(chunks), i)
              && Used(chunks) == Used(old(chunks)) - {old(chunks)[i]}
      ensures chunks == Serve(old(chunks), h, ChunkList.Deallocate(data - h))
    {
      ghost var cs := chunks;
      var node := data - h;
      ghost var i := IndexOf(cs, node);
      ghost var c :| c in Used(cs) && c.offset == node;
      OffsetsIncrease(cs, h, 0, Total());
      IndexOfUsed(cs, c);
      assert RecordAt(nodes, cs, i);
      DeallocateKeeps(cs, h, Total(), i);
      DeallocateUsed(cs, i);
      RunsOfMarked(cs, i);
      TilesMark(cs, h, 0, Total(), i);
      nodes := nodes[node := nodes[node].(isFree := true)];
      chunks := MarkFree(cs, i);
      assert Linked(nodes, chunks) by { LinkedAfterMark(old(nodes), nodes, cs, i); }
      MergeNodesForward(node, i);
      MergeTiles(MarkFree(cs, i), h, 0, Total(), i, RunEnd(cs, i + 1));
      MergeNodesBackward(node, i);
    }

    /** Walks the whole list and adds up the live chunks, headers included. */
    method AllocatedSize() returns (sum: int)
      requires Valid()
      ensures sum == Bytes(chunks, h, false)
      ensures sum + Bytes(chunks, h, true) == Total()
    {
      BytesConserved(chunks, h, 0, Total());
      var node := OffsetToPointer(0);
      sum := 0;
      ghost var i: nat := 0;
      while node != INVALID_OFFSET
        invariant i <= |chunks|
        invariant node == if i < |chunks| then chunks[i].offset else INVALID_OFFSET
        invariant sum + Bytes(chunks[i..], h, false) == Bytes(chunks, h, false)
        decreases |chunks| - i
      {
        assert RecordAt(nodes, chunks, i);
        if !nodes[node].isFree {
          sum := sum + nodes[node].size + h;
        }
        node := OffsetToPointer(nodes[node].next);
        assert chunks[i..][1..] == chunks[i + 1..];
        i := i + 1;
        if i < |chunks| { ChunkInPool(i); }
      }
      if i < |chunks| { ChunkInPool(i); }
    }

    method AllocatedDataSize() returns (sum: int)
      requires Valid()
      ensures sum == DataBytes(chunks)
      ensures sum + Span(h, |Used(chunks)|) + Bytes(chunks, h, true) == Total()
    {
      DataAndHeaders(chunks, h, 0, Total());
      BytesConserved(chunks, h, 0, Total());
      var node := OffsetToPointer(0);
      sum := 0;
      ghost var i: nat := 0;
      while node != INVALID_OFFSET
        invariant i <= |chunks|
        invariant node == if i < |chunks| then chunks[i].offset else INVALID_OFFSET
        invariant sum + DataBytes(chunks[i..]) == DataBytes(chunks)
        decreases |chunks| - i
      {
        assert RecordAt(nodes, chunks, i);
        if !nodes[node].isFree {
          sum := sum + nodes[node].size;
        }
        node := OffsetToPointer(nodes[node].next);
        assert chunks[i..][1..] == chunks[i + 1..];
        i := i + 1;
        if i < |chunks| { ChunkInPool(i); }
      }
      if i < |chunks| { ChunkInPool(i); }
    }
  }

  // ----- lemmas on records -----------------------------------------------------

  lemma Distinct(cs: seq<Chunk>, j: nat, k: nat)
    requires Increasing(cs) && j < |cs| && k < |cs| && j != k
    ensures cs[j].offset != cs[k].offset
    ensures j < k ==> cs[j].offset < cs[k].offset
  {
    assert j < k ==> Before(cs, j, k);
    assert k < j ==> Before(cs, k, j);
  }

  lemma LinkedAfterMark(nodes: map<int, Node>, nodes': map<int, Node>, cs: seq<Chunk>, i: nat)
    requires Linked(nodes, cs) && i < |cs| && Increasing(cs) && RecordAt(nodes, cs, i)
    requires nodes' == nodes[cs[i].offset := nodes[cs[i].offset].(isFree := true)]
    ensures Linked(nodes', MarkFree(cs, i))
  {
    var cs' := MarkFree(cs, i);
    forall k | 0 <= k < |cs'| ensures RecordAt(nodes', cs', k) {
      assert RecordAt(nodes, cs, k);
      if k != i { Distinct(cs, i, k); }
    }
  }

  lemma LinkedAfterTake(nodes: map<int, Node>, nodes': map<int, Node>, cs: seq<Chunk>, i: nat)
    requires Linked(nodes, cs) && i < |cs| && Increasing(cs) && RecordAt(nodes, cs, i)
    requires nodes' == nodes[cs[i].offset := nodes[cs[i].offset].(isFree := false)]
    ensures Linked(nodes', cs[i := cs[i].(free := false)])
  {
    var cs' := cs[i := cs[i].(free := false)];
    forall k | 0 <= k < |cs'| ensures RecordAt(nodes', cs', k) {
      assert RecordAt(nodes, cs, k);
      if k != i { Distinct(cs, i, k); }
    }
  }

  // The record of each chunk after a split of chunk i.
  lemma SplitNodeAt(cs: seq<Chunk>, h: nat, i: nat, bytes: nat, k: nat)
    requires i < |cs| && cs[i].size - bytes > h && k <= |cs|
    ensures var cs', n := AllocateAt(cs, h, i, bytes), cs[i].offset + h + bytes;
            && |cs'| == |cs| + 1
            && (k < i ==> cs'[k] == cs[k] && NodeAt(cs', k) == NodeAt(cs, k))
            && (k == i ==> cs'[k].offset == cs[i].offset
                           && NodeAt(cs', k) == NodeAt(cs, i).(size := bytes, next := n, isFree := false))
            && (k == i + 1 ==> cs'[k].offset == n
                               && NodeAt(cs', k) == Node(cs[i].size - bytes - h, NodeAt(cs, i).next, cs[i].offset, true))
            && (k == i + 2 ==> cs'[k] == cs[i + 1] && NodeAt(cs', k) == NodeAt(cs, i + 1).(prev := n))
            && (k > i + 2 ==> cs'[k] == cs[k - 1] && NodeAt(cs', k) == NodeAt(cs, k - 1))
  {
  }

  lemma LinkedAfterSplit(nodes: map<int, Node>, nodes': map<int, Node>, cs: seq<Chunk>, h: nat, i: nat, bytes: nat)
    requires Linked(nodes, cs) && i < |cs| && Increasing(cs)
    requires cs[i].size - bytes > h && h > 0 && cs[0].offset == 0
    requires i + 1 < |cs| ==> cs[i].offset + h + bytes < cs[i + 1].offset
    requires var o, n := cs[i].offset, cs[i].offset + h + bytes;
             && nodes.Keys <= nodes'.Keys && o in nodes' && n in nodes'
             && nodes'[o] == NodeAt(cs, i).(size := bytes, next := n, isFree := false)
             && nodes'[n] == Node(cs[i].size - bytes - h, NodeAt(cs, i).next, o, true)
             && (i + 1 < |cs| ==> cs[i + 1].offset in nodes' && nodes'[cs[i + 1].offset] == NodeAt(cs, i + 1).(prev := n))
             && forall k | k in nodes && k != o && k != n && k != NodeAt(cs, i).next :: nodes'[k] == nodes[k]
    ensures Linked(nodes', AllocateAt(cs, h, i, bytes))
  {
    var cs', n := AllocateAt(cs, h, i, bytes), cs[i].offset + h + bytes;
    assert RecordAt(nodes, cs, i);
    forall k | 0 <= k < |cs'| ensures RecordAt(nodes', cs', k) {
      SplitNodeAt(cs, h, i, bytes, k);
      if k < i {
        Untouched(nodes, nodes', cs, i, n, k);
      } else if k == i + 2 {
        assert RecordAt(nodes, cs, i + 1);
      } else if k > i + 2 {
        Untouched(nodes, nodes', cs, i, n, k - 1);
      }
    }
  }

  lemma Untouched(nodes: map<int, Node>, nodes': map<int, Node>, cs: seq<Chunk>, i: nat, n: int, k: nat)
    requires Linked(nodes, cs) && Increasing(cs) && i < |cs| && k < |cs| && k != i && k != i + 1
    requires cs[0].offset == 0
    requires cs[i].offset < n && (i + 1 < |cs| ==> n < cs[i + 1].offset)
    requires nodes.Keys <= nodes'.Keys
    requires forall k | k in nodes && k != cs[i].offset && k != n && k != NodeAt(cs, i).next :: nodes'[k] == nodes[k]
    ensures RecordAt(nodes', cs, k)
  {
    assert RecordAt(nodes, cs, k);
    assert RecordAt(nodes, cs, i);
    NonNegative(cs, k);
    if k < i {
      Distinct(cs, k, i);
      if i + 1 < |cs| { Distinct(cs, k, i + 1); }
    } else {
      Distinct(cs, i + 1, k);
      Distinct(cs, i, k);
    }
  }

  lemma NonNegative(cs: seq<Chunk>, k: nat)
    requires Increasing(cs) && k < |cs| && cs[0].offset == 0
    ensures cs[k].offset >= 0
  {
    if k > 0 { Distinct(cs, 0, k); }
  }

  // The record of each chunk after chunks l to r - 1 were merged.
  lemma MergeNodeAt(cs: seq<Chunk>, l: nat, r: nat, k: nat)
    requires l < r <= |cs| && k < |Merge(cs, l, r)|
    ensures var cs', j := Merge(cs, l, r), k - l - 1 + r;
            && (k < l ==> cs'[k] == cs[k] && NodeAt(cs', k) == NodeAt(cs, k))
            && (k == l ==> cs'[k].offset == cs[l].offset
                           && NodeAt(cs', k) == NodeAt(cs, l).(size := cs[r - 1].offset + cs[r - 1].size - cs[l].offset,
                                                               next := if r < |cs| then cs[r].offset else INVALID_OFFSET))
            && (k == l + 1 ==> r < |cs| && cs'[k] == cs[r] && NodeAt(cs', k) == NodeAt(cs, r).(prev := cs[l].offset))
            && (k > l + 1 ==> r < j < |cs| && cs'[k] == cs[j] && NodeAt(cs', k) == NodeAt(cs, j))
  {
  }

  lemma LinkedAfterMerge(nodes: map<int, Node>, nodes': map<int, Node>, cs: seq<Chunk>, l: nat, r: nat)
    requires Linked(nodes, cs) && l < r <= |cs| && Increasing(cs)
    requires var next := if r < |cs| then cs[r].offset else INVALID_OFFSET;
             && nodes'.Keys == nodes.Keys && cs[l].offset in nodes'
             && nodes'[cs[l].offset] == NodeAt(cs, l).(size := cs[r - 1].offset + cs[r - 1].size - cs[l].offset, next := next)
             && (r < |cs| ==> cs[r].offset in nodes' && nodes'[cs[r].offset] == NodeAt(cs, r).(prev := cs[l].offset))
             && forall k | k in nodes && k != cs[l].offset && k != next :: nodes'[k] == nodes[k]
    requires cs[0].offset == 0
    ensures Linked(nodes', Merge(cs, l, r))
  {
    var cs' := Merge(cs, l, r);
    forall k | 0 <= k < |cs'| ensures RecordAt(nodes', cs', k) {
      MergeNodeAt(cs, l, r, k);
      if k < l {
        NonNegative(cs, k);
        assert RecordAt(nodes, cs, k);
        Distinct(cs, k, l);
        if r < |cs| { Distinct(cs, k, r); }
      } else if k == l {
        assert RecordAt(nodes, cs, l);
      } else if k == l + 1 {
        assert RecordAt(nodes, cs, r);
      } else {
        var j := k - l - 1 + r;
        NonNegative(cs, j);
        assert RecordAt(nodes, cs, j);
        Distinct(cs, j, l);
        Distinct(cs, j, r);
      }
    }
  }
}
