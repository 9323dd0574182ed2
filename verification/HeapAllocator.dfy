/**
 The allocator whose chunk list is a doubly linked list of nodes outside the
 shared memory: a node points at its chunk's record, whose size includes the
 record itself. On the list the nodes spell out it performs the operations of
 ChunkList with no header between chunks, one merge at a time.
 */
module HeapAllocator {
  import opened Numeric
  import opened ChunkList

  class Node {
    const chunk: int
    var prev: Node?
    var next: Node?

    constructor (chunk: int)
      ensures this.chunk == chunk && prev == next == null
    {
      this.chunk := chunk;
      prev, next := null, null;
    }

    /** A new node right after this one. */
    method Insert(chunk: int) returns (node: Node)
      requires next != this
      modifies this, if next == null then {} else {next}
      ensures fresh(node) && node.chunk == chunk && node.prev == this && node.next == old(next)
      ensures next == node && prev == old(prev)
      ensures old(next) != null ==> old(next).prev == node && old(next).next == old(if next == null then null else next.next)
    {
      node := new Node(chunk);
      node.prev := this;
      if next != null {
        next.prev := node;
        node.next := next;
      }
      next := node;
    }

    /** Unlinks this node from its neighbours. */
    method Pop()
      requires next != this && prev != this && (prev == null || prev != next)
      modifies if prev == null then {} else {prev}, if next == null then {} else {next}
      ensures prev == old(prev) && next == old(next)
      ensures prev != null ==> prev.next == next && prev.prev == old(if prev == null then null else prev.prev)
      ensures next != null ==> next.prev == prev && next.next == old(if next == null then null else next.next)
    {
      if prev != null {
        prev.next := next;
      }
      if next != null {
        next.prev := prev;
      }
    }
  }

  // ----- lists of nodes ------------------------------------------------------

  ghost predicate LinkAt(nodes: seq<Node>, cs: seq<Chunk>, i: nat)
    requires i < |nodes| == |cs|
    reads nodes[i]
  {
    && nodes[i].chunk == cs[i].offset
    && nodes[i].next == (if i + 1 < |nodes| then nodes[i + 1] else null)
    && nodes[i].prev == (if i > 0 then nodes[i - 1] else null)
  }

  /** The nodes stand for the chunks, linked both ways. */
  ghost predicate Linked(nodes: seq<Node>, cs: seq<Chunk>)
    reads nodes
  {
    |nodes| == |cs| && forall i | 0 <= i < |nodes| :: LinkAt(nodes, cs, i)
  }

  datatype Record = Record(size: int, isFree: bool)

  ghost predicate RecordAt(records: map<int, Record>, cs: seq<Chunk>, i: nat)
    requires i < |cs|
  {
    cs[i].offset in records && records[cs[i].offset] == Record(cs[i].size, cs[i].free)
  }

  ghost predicate Recorded(records: map<int, Record>, cs: seq<Chunk>) {
    forall i | 0 <= i < |cs| :: RecordAt(records, cs, i)
  }

  ghost predicate Apart(nodes: seq<Node>, i: nat, j: nat)
    requires i < |nodes| && j < |nodes|
  {
    nodes[i] != nodes[j]
  }

  ghost predicate AllApart(nodes: seq<Node>) {
    forall i, j | 0 <= i < j < |nodes| :: Apart(nodes, i, j)
  }

  lemma NodesApart(nodes: seq<Node>, cs: seq<Chunk>)
    requires Linked(nodes, cs) && Increasing(cs)
    ensures AllApart(nodes)
  {
    forall i, j | 0 <= i < j < |nodes| ensures Apart(nodes, i, j) {
      assert LinkAt(nodes, cs, i) && LinkAt(nodes, cs, j) && Before(cs, i, j);
    }
  }

  lemma ApartAt(nodes: seq<Node>, i: nat, j: nat)
    requires AllApart(nodes) && i < |nodes| && j < |nodes| && i != j
    ensures nodes[i] != nodes[j]
  {
    assert if i < j then Apart(nodes, i, j) else Apart(nodes, j, i);
  }

  lemma Relabelled(nodes: seq<Node>, a: seq<Chunk>, b: seq<Chunk>)
    requires Linked(nodes, a) && |a| == |b| && forall k | 0 <= k < |a| :: a[k].offset == b[k].offset
    ensures Linked(nodes, b)
  {
    forall k | 0 <= k < |nodes| ensures LinkAt(nodes, b, k) {
      assert LinkAt(nodes, a, k);
    }
  }

  lemma OffsetsApart(cs: seq<Chunk>, i: nat, j: nat)
    requires Increasing(cs) && i < |cs| && j < |cs| && i != j
    ensures cs[i].offset != cs[j].offset
  {
    assert if i < j then Before(cs, i, j) else Before(cs, j, i);
  }

  /** Overwriting the record of one chunk concerns no other chunk. */
  lemma RecordedUpdate(records: map<int, Record>, cs: seq<Chunk>, i: nat, c: Chunk)
    requires Recorded(records, cs) && Increasing(cs) && i < |cs| && c.offset == cs[i].offset
    ensures Recorded(records[c.offset := Record(c.size, c.free)], cs[i := c])
  {
    var records', cs' := records[c.offset := Record(c.size, c.free)], cs[i := c];
    forall k | 0 <= k < |cs'| ensures RecordAt(records', cs', k) {
      assert RecordAt(records, cs, k);
      if k != i { OffsetsApart(cs, i, k); }
    }
  }

  lemma RecordedSplit(records: map<int, Record>, cs: seq<Chunk>, i: nat, bytes: nat)
    requires Recorded(records, cs) && i < |cs| && 0 < bytes < cs[i].size
    requires Increasing(AllocateAt(cs, 0, i, bytes))
    ensures var o := cs[i].offset;
            Recorded(records[o + bytes := Record(cs[i].size - bytes, true)][o := Record(bytes, false)], AllocateAt(cs, 0, i, bytes))
  {
    var o, cs' := cs[i].offset, AllocateAt(cs, 0, i, bytes);
    var records' := records[o + bytes := Record(cs[i].size - bytes, true)][o := Record(bytes, false)];
    forall k | 0 <= k < |cs'| ensures RecordAt(records', cs', k) {
      if k != i && k != i + 1 {
        assert RecordAt(records, cs, if k < i then k else k - 1);
        OffsetsApart(cs', i, k);
        OffsetsApart(cs', i + 1, k);
      }
    }
  }

  lemma RecordedMerge(records: map<int, Record>, cs: seq<Chunk>, i: nat)
    requires Recorded(records, cs) && Increasing(cs) && i + 1 < |cs|
    requires cs[i + 1].offset == cs[i].offset + cs[i].size
    ensures Recorded(records[cs[i].offset := Record(cs[i].size + cs[i + 1].size, cs[i].free)], Merge(cs, i, i + 2))
  {
    var cs' := Merge(cs, i, i + 2);
    var records' := records[cs[i].offset := Record(cs[i].size + cs[i + 1].size, cs[i].free)];
    forall k | 0 <= k < |cs'| ensures RecordAt(records', cs', k) {
      var j := if k <= i then k else k + 1;
      assert RecordAt(records, cs, j);
      if j != i { OffsetsApart(cs, i, j); }
    }
  }

  // ----- order of offsets ----------------------------------------------------

  lemma IncreasingSplit(cs: seq<Chunk>, total: int, i: nat, bytes: nat)
    requires Increasing(cs) && Tiles(cs, 0, 0, total) && i < |cs| && 0 < bytes && Fits(cs[i], bytes)
    ensures Increasing(AllocateAt(cs, 0, i, bytes))
  {
    var cs' := AllocateAt(cs, 0, i, bytes);
    TilesNext(cs, 0, 0, total, i);
    if |cs'| == |cs| {
      forall j, k | 0 <= j < k < |cs'| ensures Before(cs', j, k) {
        assert Before(cs, j, k);
      }
    } else {
      forall j, k | 0 <= j < k < |cs'| ensures Before(cs', j, k) {
        SplitOrder(cs, i, bytes, j, k);
      }
    }
  }

  lemma SplitOrder(cs: seq<Chunk>, i: nat, bytes: nat, j: nat, k: nat)
    requires Increasing(cs) && i < |cs| && 0 < bytes < cs[i].size
    requires i + 1 < |cs| ==> cs[i + 1].offset == cs[i].offset + cs[i].size
    requires j < k <= |cs|
    ensures k < |AllocateAt(cs, 0, i, bytes)| && Before(AllocateAt(cs, 0, i, bytes), j, k)
  {
    var j', k' := if j <= i then j else j - 1, if k <= i then k else k - 1;
    if j' < k' { assert Before(cs, j', k'); }
    if j == i + 1 && k > i + 2 { assert Before(cs, i + 1, k - 1); }
  }

  lemma IncreasingMerge(cs: seq<Chunk>, l: nat, r: nat)
    requires Increasing(cs) && l < r <= |cs|
    ensures Increasing(Merge(cs, l, r))
  {
    var cs' := Merge(cs, l, r);
    forall j, k | 0 <= j < k < |cs'| ensures Before(cs', j, k) {
      assert Before(cs, if j <= l then j else j - l - 1 + r, if k <= l then k else k - l - 1 + r);
    }
  }

  /** Fusing a stretch and then one more chunk is fusing the longer stretch. */
  lemma MergeMerge(cs: seq<Chunk>, l: nat, r: nat)
    requires l < r < |cs|
    ensures Merge(Merge(cs, l, r), l, l + 2) == Merge(cs, l, r + 1)
  {
    var m := Merge(cs, l, r);
    assert m[..l] == cs[..l] && m[l + 2..] == cs[r + 1..] && m[l + 1] == cs[r];
  }

  lemma MergeMergeBack(cs: seq<Chunk>, l: nat, r: nat)
    requires 0 < l < r <= |cs|
    ensures Merge(Merge(cs, l, r), l - 1, l + 1) == Merge(cs, l - 1, r)
  {
    var m := Merge(cs, l, r);
    assert m[..l - 1] == cs[..l - 1] && m[l + 1..] == cs[r..] && m[l - 1] == cs[l - 1];
  }

  lemma MergeNothing(cs: seq<Chunk>, i: nat)
    requires i < |cs|
    ensures Merge(cs, i, i + 1) == cs
  {
  }

  lemma IncreasingMark(cs: seq<Chunk>, i: nat)
    requires Increasing(cs) && i < |cs|
    ensures Increasing(MarkFree(cs, i))
  {
    forall j, k | 0 <= j < k < |cs| ensures Before(MarkFree(cs, i), j, k) {
      assert Before(cs, j, k);
    }
  }

  /** With nothing allocated the list is the constructor's single free chunk. */
  lemma EmptyIsInitial(cs: seq<Chunk>, total: int)
    requires Sound(cs, 0, total) && Used(cs) == {}
    ensures cs == Initial(0, total)
  {
    assert cs[0] !in Used(cs);
    if |cs| > 1 {
      assert cs[1] !in Used(cs);
      assert FreePair(cs, 1);
      assert false;
    }
    TilesNext(cs, 0, 0, total, 0);
  }

  class SharedMemoryAllocator {
    /** Size of a chunk record. */
    const header: nat
    const size: nat
    /** Width of size_t. */
    const bits: nat
    var records: map<int, Record>
    var allocatedSize: int
    const first: Node
    ghost var nodes: seq<Node>
    /** The list that nodes and records spell out. */
    ghost var chunks: seq<Chunk>

    ghost function Total(): int {
      size - header
    }

    /** Links, tiling and sizes hold; adjacent free chunks are still allowed. */
    ghost predicate LinkedTiling()
      reads this, nodes
    {
      && chunks != [] && |nodes| == |chunks| && nodes[0] == first
      && Linked(nodes, chunks) && Recorded(records, chunks)
      && Tiles(chunks, 0, 0, Total()) && Increasing(chunks)
    }

    ghost predicate Valid()
      reads this, nodes
    {
      && 0 < header && 4 <= bits
      && LinkedTiling() && Coalesced(chunks)
      && allocatedSize == Bytes(chunks, 0, false)
    }

    /** Holds for the addresses that were allocated and not yet deallocated. */
    ghost predicate Owns(data: int)
      reads this
    {
      exists c :: c in Used(chunks) && c.offset == data - header
    }

    constructor (header: nat, size: nat, bits: nat)
      requires 0 < header <= size && 4 <= bits
      ensures Valid() && chunks == Initial(0, size - header) && allocatedSize == 0
      ensures this.header == header && this.size == size && this.bits == bits
      ensures forall n | n in nodes :: fresh(n)
    {
      this.header, this.size, this.bits := header, size, bits;
      allocatedSize := 0;
      var node := new Node(0);
      first := node;
      nodes := [node];
      records := map[0 := Record(size - header, true)];
      chunks := Initial(0, size - header);
      new;
      assert chunks[1..] == [];
      assert LinkAt(nodes, chunks, 0) && RecordAt(records, chunks, 0);
    }

    /** First fit: None is the null pointer. */
    method AllocateFromList(bytes: nat) returns (r: Option<int>)
      requires Valid() && 0 < bytes
      modifies this`records, this`nodes, this`chunks, nodes
      ensures LinkedTiling() && Coalesced(chunks)
      ensures forall n | n in nodes :: n in old(nodes) || fresh(n)
      ensures r.None? <==> forall c | c in old(chunks) :: !Fits(c, bytes)
      ensures r.None? ==> chunks == old(chunks)
      ensures r.Some? ==>
                var i := FirstFit(old(chunks), bytes);
                && i < |old(chunks)| && r.value == old(chunks)[i].offset
                && chunks == AllocateAt(old(chunks), 0, i, bytes)
    {
      var node: Node? := first;
      ghost var i: nat := 0;
      while true
        invariant i <= |chunks| && node == if i < |chunks| then nodes[i] else null
        invariant forall k | 0 <= k < i :: !Fits(chunks[k], bytes)
        invariant chunks == old(chunks) && nodes == old(nodes) && LinkedTiling() && Coalesced(chunks)
        decreases |chunks| - i
      {
        if node == null {
          return None;
        }
        assert LinkAt(nodes, chunks, i) && RecordAt(records, chunks, i);
        if records[node.chunk].isFree && records[node.chunk].size >= bytes {
          assert FirstFit(chunks, bytes) == i;
          AllocateSound(chunks, 0, Total(), i, bytes);
          Take(node, bytes, i);
          return Some(node.chunk);
        }
        node := node.next;
        i := i + 1;
      }
    }

    /** An exact fit is marked; a larger chunk is split in two. */
    method Take(node: Node, bytes: nat, ghost i: nat)
      requires LinkedTiling() && 0 < bytes && i < |chunks| && node == nodes[i] && Fits(chunks[i], bytes)
      modifies this`records, this`nodes, this`chunks, nodes
      ensures Linked(nodes, chunks) && Recorded(records, chunks) && Increasing(chunks)
      ensures chunks == AllocateAt(old(chunks), 0, i, bytes)
      ensures nodes != [] && nodes[0] == first && forall n | n in nodes :: n in old(nodes) || fresh(n)
    {
      ghost var cs, ns := chunks, nodes;
      assert LinkAt(ns, cs, i) && RecordAt(records, cs, i);
      IncreasingSplit(cs, Total(), i, bytes);
      var chunk := node.chunk;
      if records[chunk].size == bytes {
        RecordedUpdate(records, cs, i, cs[i].(free := false));
        records := records[chunk := records[chunk].(isFree := false)];
        chunks := AllocateAt(cs, 0, i, bytes);
        Relabelled(ns, cs, chunks);
      } else {
        RecordedSplit(records, cs, i, bytes);
        var rest := records[chunk].size - bytes;
        ghost var inserted := InsertAfter(node, chunk + bytes, i);
        records := records[chunk + bytes := Record(rest, true)];
        records := records[chunk := Record(bytes, false)];
        chunks := AllocateAt(cs, 0, i, bytes);
        Relabelled(nodes, inserted, chunks);
      }
    }

    method InsertAfter(node: Node, chunk: int, ghost i: nat) returns (ghost inserted: seq<Chunk>)
      requires Linked(nodes, chunks) && Increasing(chunks) && i < |chunks| && node == nodes[i]
      modifies this`nodes, nodes
      ensures inserted == chunks[..i + 1] + [Chunk(chunk, 0, true)] + chunks[i + 1..]
      ensures Linked(nodes, inserted)
      ensures nodes[0] == old(nodes)[0] && forall n | n in nodes :: n in old(nodes) || fresh(n)
    {
      ghost var cs, ns := chunks, nodes;
      NodesApart(ns, cs);
      assert LinkAt(ns, cs, i);
      if i + 1 < |ns| { ApartAt(ns, i, i + 1); assert LinkAt(ns, cs, i + 1); }
      label before:
      var n := node.Insert(chunk);
      nodes := ns[..i + 1] + [n] + ns[i + 1..];
      inserted := cs[..i + 1] + [Chunk(chunk, 0, true)] + cs[i + 1..];
      forall k | 0 <= k < |nodes| ensures LinkAt(nodes, inserted, k) {
        if k != i + 1 {
          var j := if k <= i then k else k - 1;
          assert old@before(LinkAt(ns, cs, j));
          if j != i { ApartAt(ns, i, j); }
          if i + 1 < |ns| && j != i + 1 { ApartAt(ns, i + 1, j); }
        }
      }
    }

    /** Fuses the chunk of a node with the one after it. */
    method MergeNext(node: Node, ghost i: nat)
      requires LinkedTiling() && i + 1 < |chunks| && node == nodes[i]
      modifies this`records, this`nodes, this`chunks, nodes
      ensures LinkedTiling() && chunks == Merge(old(chunks), i, i + 2)
      ensures nodes == old(nodes)[..i + 1] + old(nodes)[i + 2..]
    {
      ghost var cs := chunks;
      assert LinkAt(nodes, cs, i) && LinkAt(nodes, cs, i + 1) && RecordAt(records, cs, i) && RecordAt(records, cs, i + 1);
      TilesNext(cs, 0, 0, Total(), i);
      MergeTiles(cs, 0, 0, Total(), i, i + 2);
      IncreasingMerge(cs, i, i + 2);
      RecordedMerge(records, cs, i);
      var popped := node.next;
      PopNode(popped, i + 1);
      records := records[node.chunk := records[node.chunk].(size := records[node.chunk].size + records[popped.chunk].size)];
      chunks := Merge(cs, i, i + 2);
      Relabelled(nodes, cs[..i + 1] + cs[i + 2..], chunks);
    }

    method PopNode(node: Node, ghost i: nat)
      requires Linked(nodes, chunks) && Increasing(chunks) && 0 < i < |chunks| && node == nodes[i]
      modifies this`nodes, nodes
      ensures nodes == old(nodes)[..i] + old(nodes)[i + 1..]
      ensures Linked(nodes, chunks[..i] + chunks[i + 1..])
    {
      ghost var cs, ns := chunks, nodes;
      NodesApart(ns, cs);
      assert LinkAt(ns, cs, i) && LinkAt(ns, cs, i - 1);
      ApartAt(ns, i, i - 1);
      if i + 1 < |ns| { ApartAt(ns, i, i + 1); ApartAt(ns, i - 1, i + 1); assert LinkAt(ns, cs, i + 1); }
      label before:
      node.Pop();
      nodes := ns[..i] + ns[i + 1..];
      ghost var rest := cs[..i] + cs[i + 1..];
      forall k | 0 <= k < |nodes| ensures LinkAt(nodes, rest, k) {
        var j := if k < i then k else k + 1;
        assert old@before(LinkAt(ns, cs, j));
        if j != i - 1 { ApartAt(ns, i - 1, j); }
        if i + 1 < |ns| && j != i + 1 { ApartAt(ns, i + 1, j); }
      }
    }

    method CoalesceForward(node: Node, ghost i: nat)
      requires LinkedTiling() && i < |chunks| && node == nodes[i]
      modifies this`records, this`nodes, this`chunks, nodes
      ensures LinkedTiling() && chunks == MergeForward(old(chunks), i)
      ensures i < |nodes| && node == nodes[i] && forall k | 0 <= k < |nodes| :: nodes[k] in old(nodes)
    {
      ghost var cs := chunks;
      ghost var k: nat := i + 1;
      MergeNothing(cs, i);
      assert LinkAt(nodes, chunks, i);
      while node.next != null
        invariant i < k <= |cs| && forall j | i < j < k :: cs[j].free
        invariant LinkedTiling() && chunks == Merge(cs, i, k) && i < |nodes| && node == nodes[i]
        invariant forall k | 0 <= k < |nodes| :: nodes[k] in old(nodes)
        invariant LinkAt(nodes, chunks, i)
        decreases |cs| - k
      {
        assert chunks[i + 1] == cs[k] && RecordAt(records, chunks, i + 1) && LinkAt(nodes, chunks, i + 1);
        if !records[node.next.chunk].isFree {
          break;
        }
        MergeMerge(cs, i, k);
        MergeNext(node, i);
        k := k + 1;
        assert LinkAt(nodes, chunks, i);
      }
      assert RunEnd(cs, i + 1) == k by { RunEndIs(cs, i + 1, k); }
    }

    method CoalesceBackwards(start: Node, ghost i: nat)
      requires LinkedTiling() && i < |chunks| && start == nodes[i]
      modifies this`records, this`nodes, this`chunks, nodes
      ensures LinkedTiling() && chunks == MergeBackward(old(chunks), i)
      ensures forall k | 0 <= k < |nodes| :: nodes[k] in old(nodes)
    {
      ghost var cs := chunks;
      ghost var l: nat := i;
      var node := start;
      MergeNothing(cs, i);
      assert LinkAt(nodes, chunks, i);
      while node.prev != null
        invariant l <= i && forall j | l <= j < i :: cs[j].free
        invariant LinkedTiling() && chunks == Merge(cs, l, i + 1) && l < |nodes| && node == nodes[l]
        invariant forall k | 0 <= k < |nodes| :: nodes[k] in old(nodes)
        invariant LinkAt(nodes, chunks, l)
        decreases l
      {
        assert chunks[l - 1] == cs[l - 1] && RecordAt(records, chunks, l - 1) && LinkAt(nodes, chunks, l - 1);
        if !records[node.prev.chunk].isFree {
          break;
        }
        MergeMergeBack(cs, l, i + 1);
        node := node.prev;
        MergeNext(node, l - 1);
        l := l - 1;
        assert LinkAt(nodes, chunks, l);
      }
      assert RunStart(cs, i) == l by { RunStartIs(cs, i, l); }
    }

    /** Looks the chunk up in the list and fuses it with its free neighbours. */
    method Coalesce(chunk: int, ghost i: nat)
      requires LinkedTiling() && i < |chunks| && chunks[i].offset == chunk
      modifies this`records, this`nodes, this`chunks, nodes
      ensures LinkedTiling() && chunks == MergeBackward(MergeForward(old(chunks), i), i)
      ensures forall k | 0 <= k < |nodes| :: nodes[k] in old(nodes)
    {
      var node: Node? := first;
      ghost var k: nat := 0;
      while true
        invariant k <= i && node == nodes[k]
        decreases i - k
      {
        assert LinkAt(nodes, chunks, k);
        if node == null {
          return;
        }
        if node.chunk == chunk {
          break;
        }
        node := node.next;
        k := k + 1;
      }
      if k < i { OffsetsApart(chunks, k, i); }
      CoalesceForward(node, i);
      CoalesceBackwards(node, i);
    }

    /** None is bad_alloc; otherwise the address after the chunk's record. */
    method Allocate(bytes: nat) returns (r: Option<int>)
      requires Valid() && bytes + header + 15 < Pow2(bits)
      modifies this`records, this`nodes, this`chunks, this`allocatedSize, nodes
      ensures Valid() && forall n | n in nodes :: n in old(nodes) || fresh(n)
      ensures r.None? <==> forall c | c in old(chunks) :: !Fits(c, AlignUp(bytes + header, bits))
      ensures r.None? ==> chunks == old(chunks)
      ensures r.Some? ==>
                var i := FirstFit(old(chunks), AlignUp(bytes + header, bits));
                && i < |old(chunks)| && r.value == old(chunks)[i].offset + header
                && chunks == AllocateAt(old(chunks), 0, i, AlignUp(bytes + header, bits))
                && TakesFirst(old(chunks), chunks, 0, AlignUp(bytes + header, bits), old(chunks)[i], AlignUp(bytes + header, bits))
      ensures allocatedSize == old(allocatedSize) + if r.Some? then AlignUp(bytes + header, bits) else 0
    {
      AlignUpIsLeast(bytes + header, bits);
      var needed := AlignUp(bytes + header, bits);
      var chunk := AllocateFromList(needed);
      if chunk.None? {
        return None;
      }
      AllocateTakes(old(chunks), 0, needed);
      AllocateBytes(old(chunks), 0, FirstFit(old(chunks), needed), needed);
      allocatedSize := allocatedSize + needed;
      return Some(chunk.value + header);
    }

    /** The null pointer is ignored; any other address must be one that is still owned. */
    method Deallocate(data: Option<int>)
      requires Valid() && (data.Some? ==> Owns(data.value))
      modifies this`records, this`nodes, this`chunks, this`allocatedSize, nodes
      ensures Valid() && forall k | 0 <= k < |nodes| :: nodes[k] in old(nodes)
      ensures data.None? ==> chunks == old(chunks) && allocatedSize == old(allocatedSize)
      ensures data.Some? ==>
                var i := IndexOf(old(chunks), data.value - header);
                && i < |old(chunks)| && !old(chunks)[i].free
                && chunks == DeallocateAt(old(chunks), i)
                && Used(chunks) == Used(old(chunks)) - {old(chunks)[i]}
                && allocatedSize == old(allocatedSize) - old(chunks)[i].size
    {
      if data.None? {
        return;
      }
      ghost var cs := chunks;
      var chunk := data.value - header;
      ghost var i := IndexOf(cs, chunk);
      ghost var c :| c in Used(cs) && c.offset == chunk;
      IndexOfUsed(cs, c);
      Release(chunk, i);
      Coalesce(chunk, i);
      DeallocateSound(cs, 0, Total(), i);
      DeallocateBytes(cs, 0, i);
      DeallocateUsed(cs, i);
    }

    /** The part of the deallocation before neighbours are considered. */
    method Release(chunk: int, ghost i: nat)
      requires LinkedTiling() && i < |chunks| && chunks[i].offset == chunk
      modifies this`records, this`chunks, this`allocatedSize
      ensures LinkedTiling() && chunks == MarkFree(old(chunks), i)
      ensures allocatedSize == old(allocatedSize) - old(chunks)[i].size
    {
      ghost var cs := chunks;
      assert RecordAt(records, cs, i);
      RecordedUpdate(records, cs, i, cs[i].(free := true));
      TilesMark(cs, 0, 0, Total(), i);
      IncreasingMark(cs, i);
      records := records[chunk := records[chunk].(isFree := true)];
      allocatedSize := allocatedSize - records[chunk].size;
      chunks := MarkFree(cs, i);
      Relabelled(nodes, cs, chunks);
    }
  }
}
