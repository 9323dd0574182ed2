/**
 The chunk list of the shared-memory pool as a value: the chunks in address
 order, each a header of h bytes followed by `size` bytes of data. The list
 operations below are what pool_allocator does to the linked nodes stored in
 the pool; PoolAllocator.dfy proves that connection.
 */
module ChunkList {
  import opened Numeric

  datatype Chunk = Chunk(offset: int, size: int, free: bool) {
    /** First byte after this chunk. */
    function End(h: nat): int { offset + h + size }
  }

  // ----- well-formed lists -------------------------------------------------

  /** The chunks cover [from, to) without gap or overlap. */
  ghost predicate Tiles(cs: seq<Chunk>, h: nat, from: int, to: int) {
    if cs == [] then from == to
    else cs[0].offset == from && cs[0].size >= 0 && Tiles(cs[1..], h, cs[0].End(h), to)
  }

  ghost predicate FreePair(cs: seq<Chunk>, i: nat)
    requires 0 < i < |cs|
  {
    cs[i - 1].free && cs[i].free
  }

  /** No two adjacent chunks are both free. */
  ghost predicate Coalesced(cs: seq<Chunk>) {
    forall i | 0 < i < |cs| :: !FreePair(cs, i)
  }

  ghost predicate Aligned(cs: seq<Chunk>) {
    forall c | c in cs :: c.offset % 16 == 0
  }

  ghost predicate HeaderSize(h: nat) {
    0 < h && h % 16 == 0
  }

  /** A list without slack: every byte in one chunk, free neighbours fused. */
  ghost predicate Sound(cs: seq<Chunk>, h: nat, total: int) {
    cs != [] && Tiles(cs, h, 0, total) && Coalesced(cs)
  }

  ghost predicate WellFormed(cs: seq<Chunk>, h: nat, total: int) {
    HeaderSize(h) && Aligned(cs) && Sound(cs, h, total)
  }

  /** The allocated chunks. */
  ghost function Used(cs: seq<Chunk>): set<Chunk> {
    set c | c in cs && !c.free
  }

  // ----- operations --------------------------------------------------------

  predicate Fits(c: Chunk, bytes: nat) {
    c.free && c.size >= bytes
  }

  /** Index of the first chunk that can hold the request, or |cs|. */
  function FirstFit(cs: seq<Chunk>, bytes: nat): (i: nat)
    ensures i <= |cs|
    ensures i < |cs| ==> Fits(cs[i], bytes)
    ensures forall k | 0 <= k < i :: !Fits(cs[k], bytes)
  {
    if cs == [] || Fits(cs[0], bytes) then 0 else 1 + FirstFit(cs[1..], bytes)
  }

  /** Take chunk i, giving back the rest as a new free chunk when it can hold more than a header. */
  function AllocateAt(cs: seq<Chunk>, h: nat, i: nat, bytes: nat): seq<Chunk>
    requires i < |cs|
  {
    var c := cs[i];
    if c.size - bytes > h then
      cs[..i] + [Chunk(c.offset, bytes, false), Chunk(c.offset + h + bytes, c.size - bytes - h, true)] + cs[i + 1..]
    else
      cs[i := c.(free := false)]
  }

  function MarkFree(cs: seq<Chunk>, i: nat): seq<Chunk>
    requires i < |cs|
  {
    cs[i := cs[i].(free := true)]
  }

  /** Start of the run of free chunks that ends right before i. */
  function RunStart(cs: seq<Chunk>, i: nat): (l: nat)
    requires i <= |cs|
    ensures l <= i
    ensures forall k | l <= k < i :: cs[k].free
    ensures l > 0 ==> !cs[l - 1].free
  {
    if i > 0 && cs[i - 1].free then RunStart(cs, i - 1) else i
  }

  /** End of the run of free chunks that starts at i. */
  function RunEnd(cs: seq<Chunk>, i: nat): (r: nat)
    requires i <= |cs|
    ensures i <= r <= |cs|
    ensures forall k | i <= k < r :: cs[k].free
    ensures r < |cs| ==> !cs[r].free
    decreases |cs| - i
  {
    if i < |cs| && cs[i].free then RunEnd(cs, i + 1) else i
  }

  /** Chunks l to r - 1 fused into one that starts where l does and ends where r - 1 does. */
  function Merge(cs: seq<Chunk>, l: nat, r: nat): seq<Chunk>
    requires l < r <= |cs|
  {
    cs[..l] + [Chunk(cs[l].offset, cs[r - 1].offset + cs[r - 1].size - cs[l].offset, cs[l].free)] + cs[r..]
  }

  function MergeForward(cs: seq<Chunk>, i: nat): seq<Chunk>
    requires i < |cs|
  {
    Merge(cs, i, RunEnd(cs, i + 1))
  }

  function MergeBackward(cs: seq<Chunk>, i: nat): seq<Chunk>
    requires i < |cs|
  {
    Merge(cs, RunStart(cs, i), i + 1)
  }

  function DeallocateAt(cs: seq<Chunk>, i: nat): seq<Chunk>
    requires i < |cs|
  {
    MergeBackward(MergeForward(MarkFree(cs, i), i), i)
  }

  // ----- positions in a tiling ---------------------------------------------

  lemma {:induction false} TilesAppend(a: seq<Chunk>, b: seq<Chunk>, h: nat, from: int, mid: int, to: int)
    requires Tiles(a, h, from, mid) && Tiles(b, h, mid, to)
    ensures Tiles(a + b, h, from, to)
  {
    if a == [] {
      assert a + b == b;
    } else {
      TilesAppend(a[1..], b, h, a[0].End(h), mid, to);
      assert (a + b)[1..] == a[1..] + b;
    }
  }

  /** Where the first i chunks of a tiling end, the others begin. */
  lemma {:induction false} TilesCut(cs: seq<Chunk>, h: nat, from: int, to: int, i: nat)
    requires Tiles(cs, h, from, to) && i <= |cs|
    ensures var mid := if i < |cs| then cs[i].offset else to;
            Tiles(cs[..i], h, from, mid) && Tiles(cs[i..], h, mid, to)
    ensures i < |cs| ==> cs[i].size >= 0
  {
    if i == 0 {
      assert cs[..0] == [] && cs[0..] == cs;
    } else {
      TilesCut(cs[1..], h, cs[0].End(h), to, i - 1);
      assert cs[..i][1..] == cs[1..][..i - 1];
      assert cs[1..][i - 1..] == cs[i..];
    }
  }

  lemma {:induction false} TilesSpan(cs: seq<Chunk>, h: nat, from: int, to: int)
    requires Tiles(cs, h, from, to)
    ensures from + h * |cs| <= to
  {
    if cs != [] {
      TilesSpan(cs[1..], h, cs[0].End(h), to);
      assert h * |cs| == h + h * |cs[1..]|;
    }
  }

  /** Each next offset is the own offset plus header plus size. */
  lemma TilesNext(cs: seq<Chunk>, h: nat, from: int, to: int, i: nat)
    requires Tiles(cs, h, from, to) && i < |cs|
    ensures from <= cs[i].offset && cs[i].size >= 0 && cs[i].End(h) <= to
    ensures i + 1 < |cs| ==> cs[i + 1].offset == cs[i].End(h)
    ensures i + 1 == |cs| ==> cs[i].End(h) == to
  {
    TilesCut(cs, h, from, to, i);
    TilesSpan(cs[..i], h, from, cs[i].offset);
    TilesCut(cs[i..], h, cs[i].offset, to, 1);
    TilesSpan(cs[i..][1..], h, cs[i].End(h), to);
    assert h * i >= 0 && h * |cs[i..][1..]| >= 0;
  }

  /** Distinct chunks do not overlap: the earlier ends before the later starts. */
  lemma {:induction false} TilesOrdered(cs: seq<Chunk>, h: nat, from: int, to: int, i: nat, j: nat)
    requires Tiles(cs, h, from, to) && i < j < |cs|
    ensures cs[i].End(h) <= cs[j].offset
    decreases j
  {
    TilesNext(cs, h, from, to, j - 1);
    if i < j - 1 {
      TilesOrdered(cs, h, from, to, i, j - 1);
    }
  }

  ghost predicate Before(cs: seq<Chunk>, i: nat, j: nat)
    requires i < |cs| && j < |cs|
  {
    cs[i].offset < cs[j].offset
  }

  ghost predicate Increasing(cs: seq<Chunk>) {
    forall i, j | 0 <= i < j < |cs| :: Before(cs, i, j)
  }

  lemma OffsetsIncrease(cs: seq<Chunk>, h: nat, from: int, to: int)
    requires 0 < h && Tiles(cs, h, from, to)
    ensures Increasing(cs)
  {
    forall i, j | 0 <= i < j < |cs| ensures Before(cs, i, j) {
      TilesNext(cs, h, from, to, i);
      TilesOrdered(cs, h, from, to, i, j);
    }
  }

  lemma SameOffset(cs: seq<Chunk>, i: nat, j: nat)
    requires Increasing(cs) && i < |cs| && j < |cs| && cs[i].offset == cs[j].offset
    ensures i == j
  {
    assert i < j ==> Before(cs, i, j);
    assert j < i ==> Before(cs, j, i);
  }

  /** Replacing chunks l to r - 1 by others that tile the same bytes keeps a tiling. */
  lemma TilesSplice(cs: seq<Chunk>, h: nat, from: int, to: int, l: nat, r: nat, mid: seq<Chunk>)
    requires Tiles(cs, h, from, to) && l < r <= |cs|
    requires Tiles(mid, h, cs[l].offset, cs[r - 1].End(h))
    ensures Tiles(cs[..l] + mid + cs[r..], h, from, to)
  {
    TilesCut(cs, h, from, to, l);
    TilesCut(cs, h, from, to, r);
    TilesNext(cs, h, from, to, r - 1);
    TilesAppend(cs[..l], mid, h, from, cs[l].offset, cs[r - 1].End(h));
    TilesAppend(cs[..l] + mid, cs[r..], h, from, cs[r - 1].End(h), to);
  }

  lemma MergeTiles(cs: seq<Chunk>, h: nat, from: int, to: int, l: nat, r: nat)
    requires Tiles(cs, h, from, to) && l < r <= |cs|
    ensures Tiles(Merge(cs, l, r), h, from, to)
  {
    TilesNext(cs, h, from, to, l);
    TilesNext(cs, h, from, to, r - 1);
    if l < r - 1 { TilesOrdered(cs, h, from, to, l, r - 1); }
    var c := Chunk(cs[l].offset, cs[r - 1].offset + cs[r - 1].size - cs[l].offset, cs[l].free);
    assert [c][1..] == [];
    TilesSplice(cs, h, from, to, l, r, [c]);
  }

  // ----- runs and positions by their properties ------------------------------

  lemma FirstFitIs(cs: seq<Chunk>, bytes: nat, i: nat)
    requires i < |cs| && Fits(cs[i], bytes) && forall k | 0 <= k < i :: !Fits(cs[k], bytes)
    ensures FirstFit(cs, bytes) == i
  {
  }

  lemma RunEndIs(cs: seq<Chunk>, i: nat, r: nat)
    requires i <= r <= |cs| && (forall k | i <= k < r :: cs[k].free) && (r < |cs| ==> !cs[r].free)
    ensures RunEnd(cs, i) == r
  {
  }

  lemma RunStartIs(cs: seq<Chunk>, i: nat, l: nat)
    requires l <= i <= |cs| && (forall k | l <= k < i :: cs[k].free) && (l > 0 ==> !cs[l - 1].free)
    ensures RunStart(cs, i) == l
  {
  }

  lemma TilesMark(cs: seq<Chunk>, h: nat, from: int, to: int, i: nat)
    requires Tiles(cs, h, from, to) && i < |cs|
    ensures Tiles(MarkFree(cs, i), h, from, to)
  {
    TilesNext(cs, h, from, to, i);
    var c := cs[i].(free := true);
    assert [c][1..] == [];
    TilesSplice(cs, h, from, to, i, i + 1, [c]);
    assert MarkFree(cs, i) == cs[..i] + [c] + cs[i + 1..];
  }

  // ----- every operation keeps a well-formed list ----------------------------

  /** The only adjacencies a splice can create are the two at its borders. */
  lemma CoalescedSplice(cs: seq<Chunk>, l: nat, r: nat, mid: seq<Chunk>)
    requires l < r <= |cs| && mid != []
    requires Coalesced(cs[..l]) && Coalesced(mid) && Coalesced(cs[r..])
    requires l > 0 ==> !(cs[l - 1].free && mid[0].free)
    requires r < |cs| ==> !(mid[|mid| - 1].free && cs[r].free)
    ensures Coalesced(cs[..l] + mid + cs[r..])
  {
    var s := cs[..l] + mid + cs[r..];
    var m := l + |mid|;
    forall i | 0 < i < |s| ensures !FreePair(s, i) {
      if i < l {
        assert !FreePair(cs[..l], i);
      } else if l < i < m {
        assert !FreePair(mid, i - l);
      } else if i > m {
        assert !FreePair(cs[r..], i - m);
      }
    }
  }

  lemma CoalescedParts(cs: seq<Chunk>, l: nat, r: nat)
    requires Coalesced(cs) && l <= |cs| && r <= |cs|
    ensures Coalesced(cs[..l]) && Coalesced(cs[r..])
  {
    forall i | 0 < i < |cs[..l]| ensures !FreePair(cs[..l], i) {
      assert !FreePair(cs, i);
    }
    forall i | 0 < i < |cs[r..]| ensures !FreePair(cs[r..], i) {
      assert !FreePair(cs, r + i);
    }
  }

  lemma AlignedSplice(cs: seq<Chunk>, l: nat, r: nat, mid: seq<Chunk>)
    requires l < r <= |cs| && Aligned(cs) && Aligned(mid)
    ensures Aligned(cs[..l] + mid + cs[r..])
  {
    forall c | c in cs[..l] + mid + cs[r..] ensures c.offset % 16 == 0 {
      assert c in cs[..l] || c in mid || c in cs[r..];
    }
  }

  lemma SpliceSound(cs: seq<Chunk>, h: nat, total: int, l: nat, r: nat, mid: seq<Chunk>)
    requires Tiles(cs, h, 0, total)
    requires l < r <= |cs| && mid != []
    requires Tiles(mid, h, cs[l].offset, cs[r - 1].End(h))
    requires Coalesced(cs[..l]) && Coalesced(mid) && Coalesced(cs[r..])
    requires l > 0 ==> !(cs[l - 1].free && mid[0].free)
    requires r < |cs| ==> !(mid[|mid| - 1].free && cs[r].free)
    ensures Sound(cs[..l] + mid + cs[r..], h, total)
  {
    TilesSplice(cs, h, 0, total, l, r, mid);
    CoalescedSplice(cs, l, r, mid);
  }

  /** Allocation fails exactly when no chunk fits and otherwise takes the fitting chunk of lowest offset. */
  lemma FirstFitLowest(cs: seq<Chunk>, bytes: nat)
    requires Increasing(cs)
    ensures var i := FirstFit(cs, bytes);
            && (i == |cs| <==> forall c | c in cs :: !Fits(c, bytes))
            && (i < |cs| ==> forall c | c in cs && Fits(c, bytes) :: cs[i].offset <= c.offset)
  {
    var i := FirstFit(cs, bytes);
    forall c | c in cs && Fits(c, bytes) ensures i < |cs| && cs[i].offset <= c.offset {
      var k :| 0 <= k < |cs| && cs[k] == c;
      assert i < k ==> Before(cs, i, k);
    }
  }

  /** What allocation puts in the place of the chunk it takes. */
  function Pieces(c: Chunk, h: nat, bytes: nat): (p: seq<Chunk>)
    ensures p != []
  {
    if c.size - bytes > h then
      [Chunk(c.offset, bytes, false), Chunk(c.offset + h + bytes, c.size - bytes - h, true)]
    else
      [c.(free := false)]
  }

  lemma AllocateIsSplice(cs: seq<Chunk>, h: nat, i: nat, bytes: nat)
    requires i < |cs|
    ensures AllocateAt(cs, h, i, bytes) == cs[..i] + Pieces(cs[i], h, bytes) + cs[i + 1..]
  {
  }

  lemma AllocateSound(cs: seq<Chunk>, h: nat, total: int, i: nat, bytes: nat)
    requires Sound(cs, h, total) && i < |cs| && Fits(cs[i], bytes)
    ensures Sound(AllocateAt(cs, h, i, bytes), h, total)
  {
    var p := Pieces(cs[i], h, bytes);
    assert Tiles(p, h, cs[i].offset, cs[i].End(h)) by {
      TilesNext(cs, h, 0, total, i);
      if |p| == 2 {
        assert p[1..] == [p[1]] && [p[1]][1..] == [];
      } else {
        assert p[1..] == [];
      }
    }
    assert Coalesced(cs[..i]) && Coalesced(cs[i + 1..]) by { CoalescedParts(cs, i, i + 1); }
    assert i > 0 ==> !FreePair(cs, i);
    assert i + 1 < |cs| ==> !FreePair(cs, i + 1);
    SpliceSound(cs, h, total, i, i + 1, p);
    AllocateIsSplice(cs, h, i, bytes);
  }

  lemma AllocateKeeps(cs: seq<Chunk>, h: nat, total: int, i: nat, bytes: nat)
    requires WellFormed(cs, h, total)
    requires i < |cs| && Fits(cs[i], bytes) && bytes % 16 == 0
    ensures WellFormed(AllocateAt(cs, h, i, bytes), h, total)
  {
    AllocateSound(cs, h, total, i, bytes);
    assert cs[i] in cs;
    AlignedSplice(cs, i, i + 1, Pieces(cs[i], h, bytes));
    AllocateIsSplice(cs, h, i, bytes);
  }

  /**
   Allocation adds exactly one live chunk, at the place of the chosen free one:
   all of it if no more than a header would be left over, else as much as asked
   for. No other live chunk moves.
   */
  lemma AllocateUsed(cs: seq<Chunk>, h: nat, i: nat, bytes: nat)
    requires Increasing(cs) && i < |cs| && Fits(cs[i], bytes)
    ensures var cs' := AllocateAt(cs, h, i, bytes);
            && i < |cs'|
            && cs'[i].offset == cs[i].offset && cs'[i].size == (if cs[i].size <= bytes + h then cs[i].size else bytes)
            && cs'[i] !in Used(cs) && Used(cs') == Used(cs) + {cs'[i]}
  {
    var cs', p := AllocateAt(cs, h, i, bytes), Pieces(cs[i], h, bytes);
    AllocateIsSplice(cs, h, i, bytes);
    UsedSplice(cs, i, i + 1, p);
    assert cs'[i] == p[0];
    assert Used(p) == {p[0]};
    if cs'[i] in Used(cs) {
      var k :| 0 <= k < |cs| && cs[k] == cs'[i];
      SameOffset(cs, i, k);
      assert false;
    }
  }

  /** From cs to cs' a request took c, the fitting chunk of lowest offset, as one of the given size. */
  ghost predicate TakesFirst(cs: seq<Chunk>, cs': seq<Chunk>, h: nat, bytes: nat, c: Chunk, size: int) {
    && c in cs && Fits(c, bytes) && (forall d | d in cs && Fits(d, bytes) :: c.offset <= d.offset)
    && size == (if c.size <= bytes + h then c.size else bytes)
    && Chunk(c.offset, size, false) !in Used(cs)
    && Used(cs') == Used(cs) + {Chunk(c.offset, size, false)}
  }

  lemma AllocateTakes(cs: seq<Chunk>, h: nat, bytes: nat)
    requires Increasing(cs) && FirstFit(cs, bytes) < |cs|
    ensures var i := FirstFit(cs, bytes); var cs' := AllocateAt(cs, h, i, bytes);
            i < |cs'| && cs'[i].offset == cs[i].offset && TakesFirst(cs, cs', h, bytes, cs[i], cs'[i].size)
  {
    var i := FirstFit(cs, bytes);
    AllocateUsed(cs, h, i, bytes);
    var cs' := AllocateAt(cs, h, i, bytes);
    assert !cs'[i].free by { assert cs'[i] in Used(cs'); }
    assert cs'[i] == Chunk(cs[i].offset, cs'[i].size, false);
    FirstFitLowest(cs, bytes);
  }

  /** What splicing over free chunks, or over one used chunk, does to the used set. */
  lemma UsedSplice(cs: seq<Chunk>, l: nat, r: nat, mid: seq<Chunk>)
    requires l < r <= |cs|
    ensures Used(cs[..l] + mid + cs[r..]) == Used(cs[..l]) + Used(mid) + Used(cs[r..])
    ensures (forall k | l <= k < r :: cs[k].free) ==> Used(cs) == Used(cs[..l]) + Used(cs[r..])
  {
    assert forall c :: c in cs[..l] + mid + cs[r..] <==> c in cs[..l] || c in mid || c in cs[r..];
    assert forall c :: c in cs <==> c in cs[..l] || c in cs[l..r] || c in cs[r..] by {
      assert cs == cs[..l] + cs[l..r] + cs[r..];
    }
  }

  // ----- deallocation ------------------------------------------------------

  lemma RunsOfMarked(cs: seq<Chunk>, i: nat)
    requires i < |cs|
    ensures RunEnd(MarkFree(cs, i), i + 1) == RunEnd(cs, i + 1)
    ensures RunStart(MergeForward(MarkFree(cs, i), i), i) == RunStart(cs, i)
  {
    var ms := MarkFree(cs, i);
    var r, r' := RunEnd(cs, i + 1), RunEnd(ms, i + 1);
    assert r < |cs| ==> ms[r] == cs[r];
    assert r' < |cs| ==> ms[r'] == cs[r'];
    var f := MergeForward(ms, i);
    var l, l' := RunStart(cs, i), RunStart(f, i);
    assert l > 0 ==> f[l - 1] == cs[l - 1];
    assert l' > 0 ==> f[l' - 1] == cs[l' - 1];
  }

  /** The fused free chunk that replaces chunks l to r - 1. */
  function Fused(cs: seq<Chunk>, l: nat, r: nat): Chunk
    requires l < r <= |cs|
  {
    Chunk(cs[l].offset, cs[r - 1].offset + cs[r - 1].size - cs[l].offset, true)
  }

  function Fuse(cs: seq<Chunk>, l: nat, r: nat): seq<Chunk>
    requires l < r <= |cs|
  {
    cs[..l] + [Fused(cs, l, r)] + cs[r..]
  }

  lemma ForwardIsFuse(cs: seq<Chunk>, i: nat)
    requires i < |cs|
    ensures MergeForward(MarkFree(cs, i), i) == Fuse(cs, i, RunEnd(cs, i + 1))
  {
    RunsOfMarked(cs, i);
    var ms, r := MarkFree(cs, i), RunEnd(cs, i + 1);
    assert ms[r..] == cs[r..] && ms[..i] == cs[..i];
    assert ms[r - 1].offset == cs[r - 1].offset && ms[r - 1].size == cs[r - 1].size;
  }

  lemma FuseBackward(cs: seq<Chunk>, l: nat, i: nat, r: nat)
    requires l <= i < r <= |cs| && (l < i ==> cs[l].free)
    ensures Merge(Fuse(cs, i, r), l, i + 1) == Fuse(cs, l, r)
  {
    var f := Fuse(cs, i, r);
    assert f[i] == Fused(cs, i, r);
    assert f[..l] == cs[..l];
    assert f[i + 1..] == cs[r..];
    assert l < i ==> f[l] == cs[l];
  }

  lemma DeallocateIsFuse(cs: seq<Chunk>, i: nat)
    requires i < |cs|
    ensures DeallocateAt(cs, i) == Fuse(cs, RunStart(cs, i), RunEnd(cs, i + 1))
  {
    RunsOfMarked(cs, i);
    ForwardIsFuse(cs, i);
    FuseBackward(cs, RunStart(cs, i), i, RunEnd(cs, i + 1));
  }

  lemma FusedTiles(cs: seq<Chunk>, h: nat, from: int, to: int, l: nat, r: nat)
    requires Tiles(cs, h, from, to) && l < r <= |cs|
    ensures Tiles([Fused(cs, l, r)], h, cs[l].offset, cs[r - 1].End(h))
  {
    TilesNext(cs, h, from, to, l);
    TilesNext(cs, h, from, to, r - 1);
    if l < r - 1 { TilesOrdered(cs, h, from, to, l, r - 1); }
    assert [Fused(cs, l, r)][1..] == [];
  }

  lemma DeallocateSound(cs: seq<Chunk>, h: nat, total: int, i: nat)
    requires Sound(cs, h, total) && i < |cs|
    ensures Sound(DeallocateAt(cs, i), h, total)
  {
    var l, r := RunStart(cs, i), RunEnd(cs, i + 1);
    FusedTiles(cs, h, 0, total, l, r);
    CoalescedParts(cs, l, r);
    SpliceSound(cs, h, total, l, r, [Fused(cs, l, r)]);
    DeallocateIsFuse(cs, i);
  }

  lemma DeallocateKeeps(cs: seq<Chunk>, h: nat, total: int, i: nat)
    requires WellFormed(cs, h, total) && i < |cs|
    ensures WellFormed(DeallocateAt(cs, i), h, total)
  {
    var l, r := RunStart(cs, i), RunEnd(cs, i + 1);
    DeallocateSound(cs, h, total, i);
    assert cs[l] in cs;
    AlignedSplice(cs, l, r, [Fused(cs, l, r)]);
    DeallocateIsFuse(cs, i);
  }

  /** In a stretch where only chunk i is live, that is the one live chunk the others lack. */
  lemma UsedWithout(cs: seq<Chunk>, l: nat, i: nat, r: nat)
    requires Increasing(cs) && l <= i < r <= |cs| && !cs[i].free
    requires forall k | l <= k < r && k != i :: cs[k].free
    ensures Used(cs[..l]) + Used(cs[r..]) == Used(cs) - {cs[i]}
  {
    forall c | c in Used(cs) - {cs[i]} ensures c in cs[..l] || c in cs[r..] {
      var k :| 0 <= k < |cs| && cs[k] == c;
      if k < l { assert c == cs[..l][k]; } else { assert c == cs[r..][k - r]; }
    }
    forall k | 0 <= k < |cs| && k != i ensures cs[k] != cs[i] {
      if cs[k] == cs[i] { SameOffset(cs, i, k); }
    }
  }

  /** Deallocation removes exactly one live chunk; no other live chunk moves. */
  lemma DeallocateUsed(cs: seq<Chunk>, i: nat)
    requires Increasing(cs) && i < |cs| && !cs[i].free
    ensures Used(DeallocateAt(cs, i)) == Used(cs) - {cs[i]}
  {
    var l, r := RunStart(cs, i), RunEnd(cs, i + 1);
    DeallocateIsFuse(cs, i);
    UsedSplice(cs, l, r, [Fused(cs, l, r)]);
    UsedWithout(cs, l, i, r);
  }

  // ----- the list is determined by what is allocated -------------------------

  lemma UsedTail(cs: seq<Chunk>, h: nat, from: int, to: int)
    requires 0 < h && Tiles(cs, h, from, to) && cs != []
    ensures Used(cs[1..]) == Used(cs) - {cs[0]}
    ensures forall c | c in cs[1..] :: c.offset >= cs[0].End(h)
  {
    forall c | c in cs[1..] ensures c.offset >= cs[0].End(h) {
      var k :| 0 <= k < |cs[1..]| && cs[1..][k] == c;
      TilesOrdered(cs, h, from, to, 0, k + 1);
    }
    forall c | c in cs && c != cs[0] ensures c in cs[1..] {
      var k :| 0 <= k < |cs| && cs[k] == c;
      assert c == cs[1..][k - 1];
    }
  }

  /** If a leading free chunk were shorter than its counterpart, a live chunk would lie inside the other. */
  lemma LeadingFreeNotShorter(a: seq<Chunk>, b: seq<Chunk>, h: nat, from: int, to: int)
    requires 0 < h && Tiles(a, h, from, to) && Tiles(b, h, from, to)
    requires Coalesced(a) && Used(a) == Used(b)
    requires a != [] && b != [] && a[0].free && b[0].free
    ensures a[0].size >= b[0].size
  {
    if a[0].size < b[0].size {
      TilesNext(b, h, from, to, 0);
      TilesNext(a, h, from, to, 0);
      assert |a| > 1;
      assert a[1] in Used(b) by { assert !FreePair(a, 1) && a[1] in Used(a); }
      UsedTail(b, h, from, to);
      assert false;
    }
  }

  lemma SameHead(a: seq<Chunk>, b: seq<Chunk>, h: nat, from: int, to: int)
    requires 0 < h && Tiles(a, h, from, to) && Tiles(b, h, from, to)
    requires Coalesced(a) && Coalesced(b) && Used(a) == Used(b)
    requires a != [] && b != []
    ensures a[0] == b[0]
  {
    TilesNext(a, h, from, to, 0);
    TilesNext(b, h, from, to, 0);
    UsedTail(a, h, from, to);
    UsedTail(b, h, from, to);
    if a[0].free && b[0].free {
      LeadingFreeNotShorter(a, b, h, from, to);
      LeadingFreeNotShorter(b, a, h, from, to);
    } else if !a[0].free {
      assert a[0] in Used(b);
    } else {
      assert b[0] in Used(a);
    }
  }

  /**
   A coalesced tiling of a region is determined by its live chunks: the history
   of allocations and deallocations that led to it leaves no other trace.
   */
  lemma {:induction false} Canonical(a: seq<Chunk>, b: seq<Chunk>, h: nat, from: int, to: int)
    requires 0 < h && Tiles(a, h, from, to) && Tiles(b, h, from, to)
    requires Coalesced(a) && Coalesced(b) && Used(a) == Used(b)
    ensures a == b
    decreases |a|
  {
    if a == [] {
      if b != [] { TilesNext(b, h, from, to, 0); }
    } else if b == [] {
      TilesNext(a, h, from, to, 0);
    } else {
      SameHead(a, b, h, from, to);
      UsedTail(a, h, from, to);
      UsedTail(b, h, from, to);
      CoalescedParts(a, 0, 1);
      CoalescedParts(b, 0, 1);
      Canonical(a[1..], b[1..], h, a[0].End(h), to);
      assert a == [a[0]] + a[1..] && b == [b[0]] + b[1..];
    }
  }

  /** Allocate followed at once by deallocate of the result restores the list exactly. */
  lemma AllocateThenDeallocate(cs: seq<Chunk>, h: nat, total: int, bytes: nat)
    requires WellFormed(cs, h, total) && bytes % 16 == 0
    requires FirstFit(cs, bytes) < |cs|
    ensures var i := FirstFit(cs, bytes);
            i < |AllocateAt(cs, h, i, bytes)| && DeallocateAt(AllocateAt(cs, h, i, bytes), i) == cs
  {
    var i := FirstFit(cs, bytes);
    var cs' := AllocateAt(cs, h, i, bytes);
    AllocateKeeps(cs, h, total, i, bytes);
    OffsetsIncrease(cs, h, 0, total);
    AllocateUsed(cs, h, i, bytes);
    assert !cs'[i].free by { assert cs'[i] in Used(cs'); }
    DeallocateKeeps(cs', h, total, i);
    OffsetsIncrease(cs', h, 0, total);
    DeallocateUsed(cs', i);
    Canonical(DeallocateAt(cs', i), cs, h, 0, total);
  }

  // ----- whole runs ----------------------------------------------------------

  /** The single free chunk that the constructor makes. */
  function Initial(h: nat, total: int): seq<Chunk> {
    [Chunk(0, total - h, true)]
  }

  datatype Request = Allocate(bytes: nat) | Deallocate(offset: int)

  ghost predicate Accepts(cs: seq<Chunk>, q: Request) {
    match q
    case Allocate(bytes) => bytes % 16 == 0
    case Deallocate(o) => exists c :: c in Used(cs) && c.offset == o
  }

  function IndexOf(cs: seq<Chunk>, o: int): (i: nat)
    ensures i <= |cs|
    ensures i < |cs| ==> cs[i].offset == o
    ensures forall k | 0 <= k < i :: cs[k].offset != o
  {
    if cs == [] || cs[0].offset == o then 0 else 1 + IndexOf(cs[1..], o)
  }

  /** One request; an allocation that finds no chunk throws and changes nothing. */
  function Serve(cs: seq<Chunk>, h: nat, q: Request): seq<Chunk> {
    match q
    case Allocate(bytes) =>
      var i := FirstFit(cs, bytes);
      if i < |cs| then AllocateAt(cs, h, i, bytes) else cs
    case Deallocate(o) =>
      var i := IndexOf(cs, o);
      if i < |cs| then DeallocateAt(cs, i) else cs
  }

  ghost predicate AcceptsAll(cs: seq<Chunk>, h: nat, run: seq<Request>)
    decreases |run|
  {
    run == [] || (Accepts(cs, run[0]) && AcceptsAll(Serve(cs, h, run[0]), h, run[1..]))
  }

  function ServeAll(cs: seq<Chunk>, h: nat, run: seq<Request>): seq<Chunk>
    decreases |run|
  {
    if run == [] then cs else ServeAll(Serve(cs, h, run[0]), h, run[1..])
  }

  lemma IndexOfUsed(cs: seq<Chunk>, c: Chunk)
    requires Increasing(cs) && c in Used(cs)
    ensures IndexOf(cs, c.offset) < |cs| && cs[IndexOf(cs, c.offset)] == c
  {
    var k :| 0 <= k < |cs| && cs[k] == c;
    SameOffset(cs, k, IndexOf(cs, c.offset));
  }

  /** An allocation in a run changes nothing if no chunk fits; otherwise it takes the first that does. */
  lemma ServesAllocation(cs: seq<Chunk>, h: nat, total: int, bytes: nat)
    requires WellFormed(cs, h, total)
    ensures var cs' := Serve(cs, h, Allocate(bytes));
            && ((forall c | c in cs :: !Fits(c, bytes)) ==> cs' == cs)
            && ((exists c :: c in cs && Fits(c, bytes)) ==> exists c, size :: TakesFirst(cs, cs', h, bytes, c, size))
  {
    OffsetsIncrease(cs, h, 0, total);
    FirstFitLowest(cs, bytes);
    var i := FirstFit(cs, bytes);
    if i < |cs| {
      AllocateTakes(cs, h, bytes);
      assert TakesFirst(cs, Serve(cs, h, Allocate(bytes)), h, bytes, cs[i], Serve(cs, h, Allocate(bytes))[i].size);
    }
  }

  /** A deallocation in a run removes the live chunk at its offset. */
  lemma ServesDeallocation(cs: seq<Chunk>, h: nat, total: int, c: Chunk)
    requires WellFormed(cs, h, total) && c in Used(cs)
    ensures Used(Serve(cs, h, Deallocate(c.offset))) == Used(cs) - {c}
  {
    OffsetsIncrease(cs, h, 0, total);
    IndexOfUsed(cs, c);
    DeallocateUsed(cs, IndexOf(cs, c.offset));
  }

  lemma ServeKeeps(cs: seq<Chunk>, h: nat, total: int, q: Request)
    requires WellFormed(cs, h, total) && Accepts(cs, q)
    ensures WellFormed(Serve(cs, h, q), h, total)
  {
    match q
    case Allocate(bytes) =>
      var i := FirstFit(cs, bytes);
      if i < |cs| { AllocateKeeps(cs, h, total, i, bytes); }
    case Deallocate(o) =>
      var i := IndexOf(cs, o);
      if i < |cs| { DeallocateKeeps(cs, h, total, i); }
  }

  lemma {:induction false} RunKeeps(cs: seq<Chunk>, h: nat, total: int, run: seq<Request>)
    requires WellFormed(cs, h, total) && AcceptsAll(cs, h, run)
    ensures WellFormed(ServeAll(cs, h, run), h, total)
    decreases |run|
  {
    if run != [] {
      ServeKeeps(cs, h, total, run[0]);
      RunKeeps(Serve(cs, h, run[0]), h, total, run[1..]);
    }
  }

  lemma InitialWellFormed(h: nat, total: int)
    requires HeaderSize(h) && h <= total
    ensures WellFormed(Initial(h, total), h, total)
  {
    assert Initial(h, total)[1..] == [];
  }

  /** Two runs that leave the same chunks allocated leave the same list. */
  lemma RunsConverge(h: nat, total: int, run1: seq<Request>, run2: seq<Request>)
    requires HeaderSize(h) && h <= total
    requires AcceptsAll(Initial(h, total), h, run1) && AcceptsAll(Initial(h, total), h, run2)
    requires Used(ServeAll(Initial(h, total), h, run1)) == Used(ServeAll(Initial(h, total), h, run2))
    ensures ServeAll(Initial(h, total), h, run1) == ServeAll(Initial(h, total), h, run2)
  {
    InitialWellFormed(h, total);
    RunKeeps(Initial(h, total), h, total, run1);
    RunKeeps(Initial(h, total), h, total, run2);
    Canonical(ServeAll(Initial(h, total), h, run1), ServeAll(Initial(h, total), h, run2), h, 0, total);
  }

  /** Once everything allocated was deallocated, in any order, the pool is as constructed. */
  lemma Quiescent(h: nat, total: int, run: seq<Request>)
    requires HeaderSize(h) && h <= total
    requires AcceptsAll(Initial(h, total), h, run)
    requires Used(ServeAll(Initial(h, total), h, run)) == {}
    ensures ServeAll(Initial(h, total), h, run) == Initial(h, total)
    ensures forall bytes: nat :: FirstFit(Initial(h, total), bytes) == 0 <==> bytes <= total - h
  {
    assert AcceptsAll(Initial(h, total), h, []);
    RunsConverge(h, total, run, []);
  }

  // ----- accounting ----------------------------------------------------------

  /** Bytes, headers included, of the live (or of the free) chunks. */
  function Bytes(cs: seq<Chunk>, h: nat, free: bool): int {
    if cs == [] then 0 else (if cs[0].free == free then h + cs[0].size else 0) + Bytes(cs[1..], h, free)
  }

  function DataBytes(cs: seq<Chunk>): int {
    if cs == [] then 0 else (if cs[0].free then 0 else cs[0].size) + DataBytes(cs[1..])
  }

  lemma {:induction false} BytesAppend(a: seq<Chunk>, b: seq<Chunk>, h: nat, free: bool)
    ensures Bytes(a + b, h, free) == Bytes(a, h, free) + Bytes(b, h, free)
  {
    if a == [] {
      assert a + b == b;
    } else {
      BytesAppend(a[1..], b, h, free);
      assert (a + b)[1..] == a[1..] + b;
    }
  }

  lemma {:induction false} BytesOfFree(cs: seq<Chunk>, h: nat)
    requires forall k | 0 <= k < |cs| :: cs[k].free
    ensures Bytes(cs, h, false) == 0
  {
    if cs != [] { BytesOfFree(cs[1..], h); }
  }

  /** Live bytes grow by the taken chunk and its header. */
  lemma AllocateBytes(cs: seq<Chunk>, h: nat, i: nat, bytes: nat)
    requires i < |cs| && Fits(cs[i], bytes)
    ensures var cs' := AllocateAt(cs, h, i, bytes);
            i < |cs'| && Bytes(cs', h, false) == Bytes(cs, h, false) + h + cs'[i].size
  {
    var p := Pieces(cs[i], h, bytes);
    AllocateIsSplice(cs, h, i, bytes);
    BytesSplice(cs, h, i, i + 1, p, false);
    BytesOfOne(p, h, 0);
    assert cs[i..i + 1] == [cs[i]];
    BytesOfFree([cs[i]], h);
    assert AllocateAt(cs, h, i, bytes)[i] == p[0];
  }

  lemma BytesSplice(cs: seq<Chunk>, h: nat, l: nat, r: nat, mid: seq<Chunk>, free: bool)
    requires l <= r <= |cs|
    ensures Bytes(cs[..l] + mid + cs[r..], h, free) == Bytes(cs[..l], h, free) + Bytes(mid, h, free) + Bytes(cs[r..], h, free)
    ensures Bytes(cs, h, free) == Bytes(cs[..l], h, free) + Bytes(cs[l..r], h, free) + Bytes(cs[r..], h, free)
  {
    BytesAppend(cs[..l] + mid, cs[r..], h, free);
    BytesAppend(cs[..l], mid, h, free);
    BytesAppend(cs[..l] + cs[l..r], cs[r..], h, free);
    BytesAppend(cs[..l], cs[l..r], h, free);
    assert cs == cs[..l] + cs[l..r] + cs[r..];
  }

  lemma BytesOfOne(cs: seq<Chunk>, h: nat, i: nat)
    requires i < |cs| && !cs[i].free && forall k | 0 <= k < |cs| && k != i :: cs[k].free
    ensures Bytes(cs, h, false) == h + cs[i].size
  {
    BytesSplice(cs, h, i, i + 1, [], false);
    BytesOfFree(cs[..i], h);
    BytesOfFree(cs[i + 1..], h);
    assert cs[i..i + 1] == [cs[i]] && [cs[i]][1..] == [];
  }

  lemma FuseBytes(cs: seq<Chunk>, h: nat, l: nat, r: nat)
    requires l < r <= |cs|
    ensures Bytes(Fuse(cs, l, r), h, false) == Bytes(cs, h, false) - Bytes(cs[l..r], h, false)
  {
    BytesSplice(cs, h, l, r, [Fused(cs, l, r)], false);
    BytesOfFree([Fused(cs, l, r)], h);
  }

  /** They shrink by the chunk given back. */
  lemma DeallocateBytes(cs: seq<Chunk>, h: nat, i: nat)
    requires i < |cs| && !cs[i].free
    ensures Bytes(DeallocateAt(cs, i), h, false) == Bytes(cs, h, false) - h - cs[i].size
  {
    var l, r := RunStart(cs, i), RunEnd(cs, i + 1);
    DeallocateIsFuse(cs, i);
    FuseBytes(cs, h, l, r);
    BytesOfOne(cs[l..r], h, i - l);
  }

  /** Live bytes are the live data and one header for each live chunk. */
  lemma {:induction false} DataAndHeaders(cs: seq<Chunk>, h: nat, from: int, to: int)
    requires 0 < h && Tiles(cs, h, from, to)
    ensures Bytes(cs, h, false) == DataBytes(cs) + Span(h, |Used(cs)|)
  {
    if cs == [] {
      assert Used(cs) == {};
    } else {
      DataAndHeaders(cs[1..], h, cs[0].End(h), to);
      UsedTail(cs, h, from, to);
      assert cs[0].free ==> Used(cs[1..]) == Used(cs);
      assert !cs[0].free ==> Used(cs) == Used(cs[1..]) + {cs[0]} && cs[0] !in Used(cs[1..]);
    }
  }

  lemma {:induction false} BytesConserved(cs: seq<Chunk>, h: nat, from: int, to: int)
    requires Tiles(cs, h, from, to)
    ensures Bytes(cs, h, false) + Bytes(cs, h, true) == to - from
  {
    if cs != [] {
      BytesConserved(cs[1..], h, cs[0].End(h), to);
    }
  }
}
