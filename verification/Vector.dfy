/**
 The dynamic array on top of the shared pool. It stores three byte offsets and
 is proved to act as a sequence, inside its own chunk of the pool.
 */
module Vector {
  import opened Numeric
  import opened ChunkList
  import opened PoolAllocator

  // ----- element addresses -----------------------------------------------------

  /** An element size that divides 16 divides every chunk size that is a multiple of 16. */
  lemma SpanFills(es: nat, x: nat) returns (n: nat)
    requires 0 < es && 16 % es == 0 && x % 16 == 0
    ensures x == Span(es, n)
  {
    var q, r := QuotientRemainder(16, es);
    var p, z := QuotientRemainder(x, 16);
    n := p * q;
    assert x == es * n by { assert 16 * p == (es * q) * p == es * (p * q); }
    SpanIsProduct(es, n);
  }

  ghost predicate Holds<T>(cells: map<int, T>, o: int, v: T) {
    o in cells && cells[o] == v
  }

  /** Element k of vs is found in place k + up of the storage at start. */
  ghost predicate ElementAt<T>(cells: map<int, T>, start: int, es: nat, vs: seq<T>, k: nat, up: nat)
    requires k < |vs|
  {
    Holds(cells, start + Span(es, k + up), vs[k])
  }

  /** cells hold the elements vs from start on. */
  ghost predicate Stores<T>(cells: map<int, T>, start: int, es: nat, vs: seq<T>) {
    forall k | 0 <= k < |vs| :: ElementAt(cells, start, es, vs, k, 0)
  }

  /** Copying element i of a stored sequence to its place in a disjoint copy. */
  lemma StoresStep<T>(cells: map<int, T>, start: int, dst: int, es: nat, vs: seq<T>, i: nat)
    requires 0 < es && i < |vs|
    requires Stores(cells, start, es, vs) && Stores(cells, dst, es, vs[..i])
    requires dst + Span(es, |vs|) <= start || start + Span(es, |vs|) <= dst
    ensures start + Span(es, i) in cells && Span(es, i + 1) <= Span(es, |vs|)
    ensures var cells' := cells[dst + Span(es, i) := cells[start + Span(es, i)]];
            Stores(cells', start, es, vs) && Stores(cells', dst, es, vs[..i + 1])
  {
    var cells' := cells[dst + Span(es, i) := cells[start + Span(es, i)]];
    assert ElementAt(cells, start, es, vs, i, 0);
    SpanMonotone(es, i, |vs|);
    forall k | 0 <= k < |vs| ensures ElementAt(cells', start, es, vs, k, 0) {
      assert ElementAt(cells, start, es, vs, k, 0);
      SpanMonotone(es, k, |vs|);
    }
    var ws := vs[..i + 1];
    forall k | 0 <= k < |ws| ensures ElementAt(cells', dst, es, ws, k, 0) {
      if k < i {
        assert ElementAt(cells, dst, es, vs[..i], k, 0);
        SpanMonotone(es, k, i);
      }
    }
  }

  lemma StoresPrefix<T>(cells: map<int, T>, start: int, es: nat, vs: seq<T>, n: nat)
    requires n <= |vs| && Stores(cells, start, es, vs)
    ensures Stores(cells, start, es, vs[..n])
  {
    var ws := vs[..n];
    forall k | 0 <= k < |ws| ensures ElementAt(cells, start, es, ws, k, 0) {
      assert ElementAt(cells, start, es, vs, k, 0);
    }
  }

  lemma StoresAppend<T>(cells: map<int, T>, start: int, es: nat, vs: seq<T>, v: T)
    requires 0 < es && Stores(cells, start, es, vs)
    ensures Stores(cells[start + Span(es, |vs|) := v], start, es, vs + [v])
  {
    var cells' := cells[start + Span(es, |vs|) := v];
    var ws := vs + [v];
    forall k | 0 <= k < |ws| ensures ElementAt(cells', start, es, ws, k, 0) {
      if k < |vs| {
        assert ElementAt(cells, start, es, vs, k, 0);
        SpanMonotone(es, k, |vs|);
      }
    }
  }

  /** Elements from i on already moved one place up, those before i still in place. */
  ghost predicate Shifted<T>(cells: map<int, T>, start: int, es: nat, vs: seq<T>, i: nat) {
    && (forall k | 0 <= k < i && k < |vs| :: ElementAt(cells, start, es, vs, k, 0))
    && (forall k | i <= k < |vs| :: ElementAt(cells, start, es, vs, k, 1))
  }

  lemma ShiftedStep<T>(cells: map<int, T>, start: int, es: nat, vs: seq<T>, i: nat)
    requires 0 < es && 0 < i <= |vs| && Shifted(cells, start, es, vs, i)
    ensures Holds(cells, start + Span(es, i - 1), vs[i - 1])
    ensures Shifted(cells[start + Span(es, i) := vs[i - 1]], start, es, vs, i - 1)
  {
    var cells' := cells[start + Span(es, i) := vs[i - 1]];
    assert ElementAt(cells, start, es, vs, i - 1, 0);
    forall k | 0 <= k < i - 1 ensures ElementAt(cells', start, es, vs, k, 0) {
      assert ElementAt(cells, start, es, vs, k, 0);
      SpanMonotone(es, k, i);
    }
    forall k | i - 1 <= k < |vs| ensures ElementAt(cells', start, es, vs, k, 1) {
      if k >= i {
        assert ElementAt(cells, start, es, vs, k, 1);
        SpanMonotone(es, i, k + 1);
      }
    }
  }

  /** Once all elements from pos on went up, the place pos is free for a new one. */
  lemma StoresInsert<T>(cells: map<int, T>, start: int, es: nat, vs: seq<T>, pos: nat, v: T)
    requires 0 < es && pos <= |vs| && Shifted(cells, start, es, vs, pos)
    ensures Stores(cells[start + Span(es, pos) := v], start, es, vs[..pos] + [v] + vs[pos..])
  {
    var cells' := cells[start + Span(es, pos) := v];
    var ws := vs[..pos] + [v] + vs[pos..];
    forall k | 0 <= k < |ws| ensures ElementAt(cells', start, es, ws, k, 0) {
      if k < pos {
        assert ElementAt(cells, start, es, vs, k, 0);
        SpanMonotone(es, k, pos);
      } else if k > pos {
        assert ElementAt(cells, start, es, vs, k - 1, 1);
        SpanMonotone(es, pos, k);
      }
    }
  }

  lemma ChunkSizeAligned(cs: seq<Chunk>, h: nat, total: int, i: nat)
    requires WellFormed(cs, h, total) && total % 16 == 0 && i < |cs|
    ensures cs[i].size % 16 == 0 && cs[i].size >= 0 && cs[i].offset >= 0
  {
    TilesNext(cs, h, 0, total, i);
    assert cs[i] in cs;
    if i + 1 < |cs| { assert cs[i + 1] in cs; }
  }

  /** As chunk sizes are multiples of 16, a chunk holds a request exactly when it holds the rounded one. */
  lemma AlignedFits(cs: seq<Chunk>, h: nat, total: int, bytes: nat, bits: nat)
    requires WellFormed(cs, h, total) && total % 16 == 0 && 4 <= bits && bytes + 15 < Pow2(bits)
    ensures forall c | c in cs :: Fits(c, AlignUp(bytes, bits)) <==> Fits(c, bytes)
  {
    AlignUpIsLeast(bytes, bits);
    var up := AlignUp(bytes, bits);
    forall c | c in cs ensures Fits(c, up) <==> Fits(c, bytes) {
      var i :| 0 <= i < |cs| && cs[i] == c;
      ChunkSizeAligned(cs, h, total, i);
    }
  }

  /** The chunk taken for n > 0 elements is new and has room for at least n. */
  lemma TakenRoom(cs: seq<Chunk>, h: nat, total: int, es: nat, n: nat, bytes: nat) returns (newCap: nat)
    requires WellFormed(cs, h, total) && total % 16 == 0
    requires 0 < es && 16 % es == 0 && bytes % 16 == 0 && Span(es, n) <= bytes
    requires FirstFit(cs, bytes) < |cs|
    ensures var i := FirstFit(cs, bytes);
            var cs' := AllocateAt(cs, h, i, bytes);
            && i < |cs'| && n <= newCap
            && cs'[i] == Chunk(cs[i].offset, Span(es, newCap), false) && cs[i].offset >= 0
            && Span(es, newCap) <= bytes + h
            && {cs'[i]} !! Used(cs) && Used(cs') == Used(cs) + {cs'[i]}
  {
    var i := FirstFit(cs, bytes);
    var cs' := AllocateAt(cs, h, i, bytes);
    AllocateKeeps(cs, h, total, i, bytes);
    OffsetsIncrease(cs, h, 0, total);
    AllocateUsed(cs, h, i, bytes);
    ChunkSizeAligned(cs', h, total, i);
    newCap := SpanFills(es, cs'[i].size);
    RoomForAll(es, n, newCap);
    assert !cs'[i].free by { assert cs'[i] in Used(cs'); }
  }

  lemma RoomForAll(es: nat, n: nat, cap: nat)
    requires 0 < es && Span(es, n) <= Span(es, cap)
    ensures n <= cap
  {
    if cap < n { SpanMonotone(es, cap, n); }
  }

  // ----- what an operation may touch -------------------------------------------

  ghost predicate InData(c: Chunk, h: nat, o: int) {
    c.offset + h <= o < c.offset + h + c.size
  }

  /** Offset o lies in none of the given chunks' data. */
  ghost predicate Outside(own: set<Chunk>, h: nat, o: int) {
    forall c | c in own :: !InData(c, h, o)
  }

  ghost predicate SameCell<T>(cells: map<int, T>, cells': map<int, T>, o: int) {
    (o in cells <==> o in cells') && (o in cells ==> cells[o] == cells'[o])
  }

  ghost predicate SameBut<T>(cells: map<int, T>, cells': map<int, T>, lo: int, hi: int) {
    forall o | !(lo <= o < hi) :: SameCell(cells, cells', o)
  }

  lemma SameButStep<T>(before: map<int, T>, cells: map<int, T>, lo: int, hi: int, o: int, v: T, lo': int, hi': int)
    requires SameBut(before, cells, lo, hi) && lo' <= lo && hi <= hi' && lo' <= o < hi'
    ensures SameBut(before, cells[o := v], lo', hi')
  {
    var cells' := cells[o := v];
    forall p | !(lo' <= p < hi') ensures SameCell(before, cells', p) {
      assert SameCell(before, cells, p);
    }
  }

  ghost predicate SameOutside<T>(cells: map<int, T>, cells': map<int, T>, own: set<Chunk>, h: nat) {
    forall o | Outside(own, h, o) :: SameCell(cells, cells', o)
  }

  lemma SameOutsideStep<T>(before: map<int, T>, cells: map<int, T>, own: set<Chunk>, h: nat, o: int, v: T)
    requires SameOutside(before, cells, own, h) && exists c :: c in own && InData(c, h, o)
    ensures SameOutside(before, cells[o := v], own, h)
  {
    var cells' := cells[o := v];
    forall p | Outside(own, h, p) ensures SameCell(before, cells', p) {
      assert SameCell(before, cells, p);
    }
  }

  lemma SameOutsideMore<T>(before: map<int, T>, cells: map<int, T>, own: set<Chunk>, more: set<Chunk>, h: nat)
    requires SameOutside(before, cells, own, h) && own <= more
    ensures SameOutside(before, cells, more, h)
  {
    forall p | Outside(more, h, p) ensures SameCell(before, cells, p) {
      assert Outside(own, h, p);
    }
  }

  /**
   An operation that owned `own` and now owns `own'`: nothing else was allocated
   or freed, and cells changed in these chunks only.
   */
  ghost predicate Framed<T>(cs: seq<Chunk>, cs': seq<Chunk>, cells: map<int, T>, cells': map<int, T>,
                            own: set<Chunk>, own': set<Chunk>, h: nat) {
    && Used(cs') == Used(cs) - own + own'
    && own' * Used(cs) <= own
    && SameOutside(cells, cells', own + own', h)
  }

  /** A framed change followed by one inside the chunks now owned is framed. */
  lemma FramedThenInPlace<T>(cs: seq<Chunk>, cs': seq<Chunk>, cells: map<int, T>, mid: map<int, T>, cells': map<int, T>,
                             own: set<Chunk>, own': set<Chunk>, h: nat)
    requires Framed(cs, cs', cells, mid, own, own', h) && SameOutside(mid, cells', own', h)
    ensures Framed(cs, cs', cells, cells', own, own', h)
  {
    SameOutsideMore(mid, cells', own', own + own', h);
    forall o | Outside(own + own', h, o) ensures SameCell(cells, cells', o) {
      assert SameCell(cells, mid, o) && SameCell(mid, cells', o);
    }
  }

  lemma FramedByAdoption<T>(cs: seq<Chunk>, mid: seq<Chunk>, cs': seq<Chunk>, cells: map<int, T>, cells': map<int, T>,
                            own: set<Chunk>, c: set<Chunk>, h: nat)
    requires c !! Used(cs) && Used(mid) == Used(cs) + c && own <= Used(cs)
    requires Used(cs') == Used(mid) - own && SameOutside(cells, cells', c, h)
    ensures Framed(cs, cs', cells, cells', own, c, h)
    ensures c <= Used(cs')
  {
    SameOutsideMore(cells, cells', c, own + c, h);
  }

  /** Of two live chunks, one ends before the other's header. */
  lemma LiveApart(cs: seq<Chunk>, h: nat, total: int, c: Chunk, d: Chunk)
    requires WellFormed(cs, h, total) && c in Used(cs) && d in Used(cs) && c != d
    ensures c.End(h) <= d.offset || d.End(h) <= c.offset
  {
    var i :| 0 <= i < |cs| && cs[i] == c;
    var j :| 0 <= j < |cs| && cs[j] == d;
    if i < j {
      TilesOrdered(cs, h, 0, total, i, j);
    } else {
      TilesOrdered(cs, h, 0, total, j, i);
    }
  }

  /** Live chunks do not share data bytes. */
  lemma LiveDisjoint(cs: seq<Chunk>, h: nat, total: int, c: Chunk, d: Chunk, o: int)
    requires WellFormed(cs, h, total) && c in Used(cs) && d in Used(cs) && c != d
    requires InData(c, h, o)
    ensures !InData(d, h, o)
  {
    LiveApart(cs, h, total, c, d);
  }

  /** Whoever else owns a chunk still owns it and finds the same contents. */
  lemma FramedSparesOthers<T>(cs: seq<Chunk>, cs': seq<Chunk>, cells: map<int, T>, cells': map<int, T>,
                              own: set<Chunk>, own': set<Chunk>, h: nat, total: int, other: Chunk, o: int)
    requires WellFormed(cs, h, total) && WellFormed(cs', h, total)
    requires own <= Used(cs) && Framed(cs, cs', cells, cells', own, own', h)
    requires other in Used(cs) && other !in own && InData(other, h, o)
    ensures other in Used(cs') && other !in own'
    ensures SameCell(cells, cells', o)
  {
    forall c | c in own + own' ensures !InData(c, h, o) {
      if c in own {
        LiveDisjoint(cs, h, total, other, c, o);
      } else {
        LiveDisjoint(cs', h, total, other, c, o);
      }
    }
    assert Outside(own + own', h, o);
  }

  /** In particular the elements another vector stores in its chunk stay where and what they are. */
  lemma OtherVectorUntouched<T>(cs: seq<Chunk>, cs': seq<Chunk>, cells: map<int, T>, cells': map<int, T>,
                                own: set<Chunk>, own': set<Chunk>, h: nat, total: int,
                                start: int, es: nat, cap: nat, vs: seq<T>)
    requires WellFormed(cs, h, total) && WellFormed(cs', h, total)
    requires own <= Used(cs) && Framed(cs, cs', cells, cells', own, own', h)
    requires 0 < es && |vs| <= cap
    requires var other := Chunk(start - h, Span(es, cap), false); other in Used(cs) && other !in own
    requires Stores(cells, start, es, vs)
    ensures var other := Chunk(start - h, Span(es, cap), false); other in Used(cs') && other !in own'
    ensures Stores(cells', start, es, vs)
  {
    var other := Chunk(start - h, Span(es, cap), false);
    assert other in Used(cs') && other !in own';
    forall k | 0 <= k < |vs| ensures ElementAt(cells', start, es, vs, k, 0) {
      assert ElementAt(cells, start, es, vs, k, 0);
      SpanMonotone(es, k, cap);
      FramedSparesOthers(cs, cs', cells, cells', own, own', h, total, other, start + Span(es, k));
    }
  }

  // ----- the vector --------------------------------------------------------------

  datatype Outcome = Done | LengthError | BadAlloc

  class Vector<T> {
    const pool: Pool<T>
    /** sizeof(value_type) */
    const es: nat
    var start: int
    var finish: int
    var endOfStorage: int
    /** The sequence this vector represents. */
    ghost var contents: seq<T>
    ghost var cap: nat
    /** The chunks this vector owns: none before the first allocation, then one. */
    ghost var own: set<Chunk>
    /** Elements moved by reallocations so far. */
    ghost var moved: nat

    ghost predicate Sizes() {
      && 0 < es && 16 % es == 0
      && pool.size % 16 == 0 && pool.headerSize % 16 == 0 && pool.h % 16 == 0
    }

    ghost predicate Storage()
      reads this, pool`chunks
    {
      if start == INVALID_OFFSET then own == {} && cap == 0
      else 0 <= start && 0 < cap && own == {Chunk(start - pool.h, Span(es, cap), false)} && own <= Used(pool.chunks)
    }

    ghost predicate Valid()
      reads this, pool
    {
      && Sizes() && pool.Valid() && Storage()
      && |contents| <= cap
      && finish == start + Span(es, |contents|)
      && endOfStorage == start + Span(es, cap)
      && Stores(pool.cells, start, es, contents)
    }

    constructor (pool: Pool<T>, es: nat)
      requires 0 < es && 16 % es == 0 && pool.Valid()
      requires pool.size % 16 == 0 && pool.headerSize % 16 == 0
      ensures Valid() && this.pool == pool && this.es == es
      ensures contents == [] && own == {} && moved == 0
    {
      this.pool, this.es := pool, es;
      start, finish, endOfStorage := INVALID_OFFSET, INVALID_OFFSET, INVALID_OFFSET;
      contents, cap, own, moved := [], 0, {}, 0;
    }

    function MaxSize(): int
      requires 0 < es
    {
      (pool.size - pool.h) / es
    }

    /** n elements and a chunk header are more bytes than the pool has. */
    ghost predicate Exceeds(n: nat) {
      pool.size < Span(es, n) + pool.h
    }

    /** max_size is the greatest number of elements that does not exceed the pool. */
    lemma MaxSizeIs(n: nat)
      requires 0 < es
      ensures MaxSize() < n <==> Exceeds(n)
    {
      var q, r := QuotientRemainder(pool.size - pool.h, es);
      SpanIsProduct(es, n);
      if q < n {
        Scale(es, q + 1, n);
        assert es * (q + 1) == es * q + es;
      } else {
        Scale(es, n, q);
      }
    }

    function Size(): int
      requires 0 < es
      reads this
    {
      (finish - start) / es
    }

    function Capacity(): int
      requires 0 < es
      reads this
    {
      (endOfStorage - start) / es
    }

    lemma Counts()
      requires Valid()
      ensures Size() == |contents| && Capacity() == cap
    {
      SpanIsProduct(es, |contents|);
      SpanIsProduct(es, cap);
    }

    /** `at`: the range check, then the element. */
    method At(n: nat) returns (r: Option<T>)
      requires Valid()
      ensures r == if n < |contents| then Some(contents[n]) else None
    {
      Counts();
      if n >= Size() {
        return None;
      }
      assert ElementAt(pool.cells, start, es, contents, n, 0);
      return Some(pool.cells[start + Span(es, n)]);
    }

    method PopBack()
      requires Valid() && contents != []
      modifies this
      ensures Valid() && contents == old(contents)[..|old(contents)| - 1]
      ensures own == old(own) && cap == old(cap) && moved == old(moved)
    {
      StoresPrefix(pool.cells, start, es, contents, |contents| - 1);
      finish := finish - es;
      contents := contents[..|contents| - 1];
    }

    method Clear()
      requires Valid()
      modifies this
      ensures Valid() && contents == []
      ensures own == old(own) && cap == old(cap) && moved == old(moved)
    {
      finish := start;
      contents := [];
    }

    // The length to allocate when n more elements are needed; None stands for length_error.
    method CheckLength(n: nat) returns (len: Option<nat>)
      requires Valid() && 0 < n
      ensures len.None? <==> Exceeds(|contents| + n)
      ensures len.Some? ==> |contents| + n <= len.value <= MaxSize()
      ensures len.Some? ==> len.value == Growth(|contents|, n, MaxSize())
    {
      Counts();
      MaxSizeIs(|contents| + n);
      if MaxSize() - Size() < n {
        return None;
      }
      var l := Size() + if Size() < n then n else Size();
      return Some(if l < Size() || l > MaxSize() then MaxSize() else l);
    }

    /** Storage for n elements; the null offset for none. */
    method Allocate(n: nat) returns (r: Option<(int, int)>, ghost c: set<Chunk>, ghost newCap: nat)
      requires Sizes() && pool.Valid() && n <= MaxSize()
      modifies pool`nodes, pool`chunks
      ensures pool.Valid()
      ensures r.None? <==> NoRoom(old(pool.chunks), n)
      ensures r.None? ==> pool.chunks == old(pool.chunks)
      ensures r.Some? ==> Fresh(r.value.0, r.value.1, c, newCap) && n <= newCap && Snug(newCap, n)
      ensures r.Some? ==> c !! Used(old(pool.chunks)) && Used(pool.chunks) == Used(old(pool.chunks)) + c
    {
      if n == 0 {
        return Some((INVALID_OFFSET, 0)), {}, 0;
      }
      BytesOf(n);
      ghost var before := pool.chunks;
      var bytes := n * es;
      NoRoomIs(before, n, bytes);
      r := pool.AllocateAtLeastOffset(bytes);
      c, newCap := TakenChunk(before, n, AlignUp(bytes, pool.bits), r);
    }

    /** What an allocation for n > 0 elements took, in the terms of Allocate. */
    lemma TakenChunk(cs: seq<Chunk>, n: nat, bytes: nat, r: Option<(int, int)>) returns (c: set<Chunk>, newCap: nat)
      requires Sizes() && WellFormed(cs, pool.h, pool.Total())
      requires 0 < n && bytes % 16 == 0 && Span(es, n) <= bytes
      requires r.Some? ==> var i := FirstFit(cs, bytes);
                           && i < |cs| && i < |AllocateAt(cs, pool.h, i, bytes)|
                           && var t := AllocateAt(cs, pool.h, i, bytes)[i];
                              r.value == (t.offset + pool.h, t.size)
      ensures r.Some? ==>
                && Fresh(r.value.0, r.value.1, c, newCap) && n <= newCap && c !! Used(cs)
                && Span(es, newCap) <= bytes + pool.h
                && Used(AllocateAt(cs, pool.h, FirstFit(cs, bytes), bytes)) == Used(cs) + c
    {
      c, newCap := {}, 0;
      if r.Some? {
        newCap := TakenRoom(cs, pool.h, pool.Total(), es, n, bytes);
        c := {Chunk(r.value.0 - pool.h, r.value.1, false)};
      }
    }

    /** Room for n elements: none for none, else at most a header more than the aligned size. */
    ghost predicate Snug(room: nat, n: nat)
      requires 4 <= pool.bits
    {
      if n == 0 then room == 0 else Span(es, room) <= AlignUp(Span(es, n), pool.bits) + pool.h
    }

    /** No free chunk can hold n elements. */
    ghost predicate NoRoom(cs: seq<Chunk>, n: nat) {
      n > 0 && forall c | c in cs :: !Fits(c, Span(es, n))
    }

    /** A result of Allocate: the null storage, or the data of chunk c with room for newCap elements. */
    ghost predicate Fresh(newStart: int, newSize: int, c: set<Chunk>, newCap: nat) {
      && newSize == Span(es, newCap)
      && if newStart == INVALID_OFFSET then c == {} && newCap == 0
         else 0 <= newStart && 0 < newCap && c == {Chunk(newStart - pool.h, Span(es, newCap), false)}
    }

    lemma BytesOf(n: nat)
      requires Sizes() && pool.Valid() && n <= MaxSize()
      ensures Span(es, n) == n * es && n * es + 15 < Pow2(pool.bits)
    {
      SpanIsProduct(es, n);
      var q, r := QuotientRemainder(pool.size - pool.h, es);
      Scale(es, n, q);
    }

    lemma NoRoomIs(cs: seq<Chunk>, n: nat, bytes: nat)
      requires Sizes() && 4 <= pool.bits && WellFormed(cs, pool.h, pool.Total())
      requires 0 < n && bytes == Span(es, n) && bytes + 15 < Pow2(pool.bits)
      ensures NoRoom(cs, n) <==> forall c | c in cs :: !Fits(c, AlignUp(bytes, pool.bits))
      ensures AlignUp(bytes, pool.bits) % 16 == 0 && Span(es, n) <= AlignUp(bytes, pool.bits)
    {
      AlignUpIsLeast(bytes, pool.bits);
      AlignedFits(cs, pool.h, pool.Total(), bytes, pool.bits);
    }

    /** Construct the elements anew from dst on, in order. */
    method UninitializedMove(dst: int) returns (newFinish: int)
      requires 0 < es && finish == start + Span(es, |contents|)
      requires Stores(pool.cells, start, es, contents)
      requires dst + Span(es, |contents|) <= start || finish <= dst
      modifies pool`cells, this`moved
      ensures newFinish == dst + Span(es, |contents|)
      ensures Stores(pool.cells, start, es, contents) && Stores(pool.cells, dst, es, contents)
      ensures SameBut(old(pool.cells), pool.cells, dst, newFinish)
      ensures moved == old(moved) + |contents|
    {
      newFinish := dst;
      var cur := start;
      ghost var before, vs := pool.cells, contents;
      ghost var i: nat := 0;
      while cur != finish
        invariant i <= |contents| && cur == start + Span(es, i) && newFinish == dst + Span(es, i)
        invariant Stores(pool.cells, start, es, vs)
        invariant Stores(pool.cells, dst, es, vs[..i])
        invariant SameBut(before, pool.cells, dst, newFinish)
        invariant moved == old(moved) + i
        decreases |contents| - i
      {
        StoresStep(pool.cells, start, dst, es, vs, i);
        SameButStep(before, pool.cells, dst, newFinish, newFinish, pool.cells[cur], dst, newFinish + es);
        pool.cells := pool.cells[newFinish := pool.cells[cur]];
        cur := cur + es;
        newFinish := newFinish + es;
        moved := moved + 1;
        i := i + 1;
        if i < |contents| { SpanMonotone(es, i, |contents|); }
      }
      if i < |contents| { SpanMonotone(es, i, |contents|); }
      assert vs[..i] == vs;
    }

    /** The first half of a reallocation: new storage for len elements, and the old elements moved there. */
    method MoveToNewStorage(len: nat)
      returns (r: Option<(int, int)>, newFinish: int, ghost c: set<Chunk>, ghost newCap: nat)
      requires Valid() && |contents| <= len <= MaxSize()
      modifies pool`nodes, pool`chunks, pool`cells, this`moved
      ensures Valid()
      ensures r.None? <==> NoRoom(old(pool.chunks), len)
      ensures r.None? ==> pool.chunks == old(pool.chunks) && pool.cells == old(pool.cells) && moved == old(moved)
      ensures r.Some? ==> Fresh(r.value.0, r.value.1, c, newCap) && len <= newCap && Snug(newCap, len)
      ensures r.Some? ==> c !! Used(old(pool.chunks)) && Used(pool.chunks) == Used(old(pool.chunks)) + c
      ensures r.Some? ==> newFinish == r.value.0 + Span(es, |contents|)
      ensures r.Some? ==> Stores(pool.cells, r.value.0, es, contents)
      ensures r.Some? ==> SameOutside(old(pool.cells), pool.cells, c, pool.h)
      ensures r.Some? ==> moved == old(moved) + |contents|
    {
      ghost var before := pool.cells;
      newFinish := INVALID_OFFSET;
      r, c, newCap := Allocate(len);
      if r.Some? {
        NewIsDisjoint(r.value.0, r.value.1, c, newCap);
        newFinish := UninitializedMove(r.value.0);
        WithinChunk(before, pool.cells, r.value.0, r.value.1, c, newCap, |contents|);
      }
    }

    /** The new storage ends before the old one starts or begins after its end. */
    lemma NewIsDisjoint(newStart: int, newSize: int, c: set<Chunk>, newCap: nat)
      requires Sizes() && pool.Valid() && Storage() && |contents| <= cap && |contents| <= newCap
      requires Fresh(newStart, newSize, c, newCap) && c <= Used(pool.chunks) && c !! own
      ensures newStart + Span(es, |contents|) <= start || start + Span(es, |contents|) <= newStart
    {
      if newStart != INVALID_OFFSET && start != INVALID_OFFSET {
        var a := Chunk(newStart - pool.h, Span(es, newCap), false);
        var b := Chunk(start - pool.h, Span(es, cap), false);
        assert a in c && b in own;
        LiveApart(pool.chunks, pool.h, pool.Total(), a, b);
        SpanUpTo(es, |contents|, cap);
        SpanUpTo(es, |contents|, newCap);
      }
    }

    /** Writing the first n element places of a chunk stays inside its data. */
    lemma WithinChunk(before: map<int, T>, after: map<int, T>, newStart: int, newSize: int, c: set<Chunk>, newCap: nat, n: nat)
      requires 0 < es && Fresh(newStart, newSize, c, newCap) && n <= newCap
      requires SameBut(before, after, newStart, newStart + Span(es, n))
      ensures SameOutside(before, after, c, pool.h)
    {
      SpanUpTo(es, n, newCap);
      forall o | Outside(c, pool.h, o) ensures SameCell(before, after, o) {
        if newStart != INVALID_OFFSET {
          assert !InData(Chunk(newStart - pool.h, Span(es, newCap), false), pool.h, o);
        }
      }
    }

    /** Give the storage back, if there is any. */
    method Deallocate()
      requires pool.Valid() && Storage()
      modifies pool`nodes, pool`chunks
      ensures pool.Valid() && Used(pool.chunks) == Used(old(pool.chunks)) - own
    {
      if start != INVALID_OFFSET {
        ghost var o := Chunk(start - pool.h, Span(es, cap), false);
        assert o in own;
        OffsetsIncrease(pool.chunks, pool.h, 0, pool.Total());
        IndexOfUsed(pool.chunks, o);
        DeallocateUsed(pool.chunks, IndexOf(pool.chunks, o.offset));
        assert pool.Owns(start);
        pool.Deallocate(start);
      }
    }

    /** The second half: give the old storage back and take over the new one. */
    method Adopt(newStart: int, newFinish: int, newEnd: int, ghost c: set<Chunk>, ghost newCap: nat, ghost vs: seq<T>,
                 ghost chunksBefore: seq<Chunk>, ghost cellsBefore: map<int, T>)
      requires Sizes() && pool.Valid() && Storage()
      requires Fresh(newStart, newEnd - newStart, c, newCap)
      requires c !! Used(chunksBefore) && Used(pool.chunks) == Used(chunksBefore) + c && own <= Used(chunksBefore)
      requires SameOutside(cellsBefore, pool.cells, c, pool.h)
      requires |vs| <= newCap && newFinish == newStart + Span(es, |vs|)
      requires Stores(pool.cells, newStart, es, vs)
      modifies this, pool`nodes, pool`chunks
      ensures Valid() && contents == vs && own == c && cap == newCap && moved == old(moved)
      ensures Framed(chunksBefore, pool.chunks, cellsBefore, pool.cells, old(own), own, pool.h)
    {
      ghost var mid := pool.chunks;
      Deallocate();
      FramedByAdoption(chunksBefore, mid, pool.chunks, cellsBefore, pool.cells, own, c, pool.h);
      start, finish, endOfStorage := newStart, newFinish, newEnd;
      contents, own, cap := vs, c, newCap;
    }

    /** Construct one more element behind those already in the new storage. */
    lemma ConstructInNew(before: map<int, T>, cells: map<int, T>, newStart: int, newSize: int,
                         c: set<Chunk>, newCap: nat, vs: seq<T>, v: T)
      requires 0 < es && Fresh(newStart, newSize, c, newCap) && |vs| < newCap
      requires Stores(cells, newStart, es, vs) && SameOutside(before, cells, c, pool.h)
      ensures var cells' := cells[newStart + Span(es, |vs|) := v];
              Stores(cells', newStart, es, vs + [v]) && SameOutside(before, cells', c, pool.h)
    {
      StoresAppend(cells, newStart, es, vs, v);
      SpanMonotone(es, |vs|, newCap);
      assert InData(Chunk(newStart - pool.h, Span(es, newCap), false), pool.h, newStart + Span(es, |vs|));
      SameOutsideStep(before, cells, c, pool.h, newStart + Span(es, |vs|), v);
    }

    /** Reallocate to the given length keeping the contents; used by reserve and shrink_to_fit. */
    method ReallocCopy(n: nat) returns (r: Outcome)
      requires Valid() && |contents| <= n
      modifies this, pool
      ensures Valid() && contents == old(contents)
      ensures r.LengthError? <==> Exceeds(n)
      ensures r.BadAlloc? <==> !r.LengthError? && NoRoom(old(pool.chunks), n)
      ensures r.Done? ==> n <= cap && Snug(cap, n) && moved == old(moved) + |contents|
      ensures r.Done? ==> Framed(old(pool.chunks), pool.chunks, old(pool.cells), pool.cells, old(own), own, pool.h)
      ensures !r.Done? ==> own == old(own) && cap == old(cap) && moved == old(moved)
      ensures !r.Done? ==> pool.chunks == old(pool.chunks) && pool.cells == old(pool.cells)
    {
      MaxSizeIs(n);
      if MaxSize() < n {
        return LengthError;
      }
      ghost var before, chunksBefore := pool.cells, pool.chunks;
      var s, newFinish;
      ghost var c, newCap;
      s, newFinish, c, newCap := MoveToNewStorage(n);
      if s.None? {
        return BadAlloc;
      }
      Adopt(s.value.0, newFinish, s.value.0 + s.value.1, c, newCap, contents, chunksBefore, before);
      return Done;
    }

    method ConstructAndAdopt(v: T, newFinish: int, newStart: int, newSize: int, ghost c: set<Chunk>, ghost newCap: nat,
                             ghost chunksBefore: seq<Chunk>, ghost cellsBefore: map<int, T>)
      requires Valid() && |contents| < newCap
      requires Fresh(newStart, newSize, c, newCap) && newFinish == newStart + Span(es, |contents|)
      requires c !! Used(chunksBefore) && Used(pool.chunks) == Used(chunksBefore) + c && own <= Used(chunksBefore)
      requires Stores(pool.cells, newStart, es, contents) && SameOutside(cellsBefore, pool.cells, c, pool.h)
      modifies this, pool
      ensures Valid() && contents == old(contents) + [v] && cap == newCap && moved == old(moved)
      ensures Framed(chunksBefore, pool.chunks, cellsBefore, pool.cells, old(own), own, pool.h)
    {
      ConstructInNew(cellsBefore, pool.cells, newStart, newSize, c, newCap, contents, v);
      pool.cells := pool.cells[newFinish := v];
      Adopt(newStart, newFinish + es, newStart + newSize, c, newCap, contents + [v], chunksBefore, cellsBefore);
    }

    method ReallocAppend(v: T) returns (r: Outcome)
      requires Valid()
      modifies this, pool
      ensures Valid()
      ensures r.LengthError? <==> Exceeds(|old(contents)| + 1)
      ensures r.BadAlloc? <==> !r.LengthError? && NoRoom(old(pool.chunks), Growth(|old(contents)|, 1, MaxSize()))
      ensures r.Done? ==> contents == old(contents) + [v]
      ensures var grown := Growth(|old(contents)|, 1, MaxSize());
              r.Done? ==> 0 < grown <= cap && Snug(cap, grown) && moved == old(moved) + |old(contents)|
      ensures r.Done? ==> Framed(old(pool.chunks), pool.chunks, old(pool.cells), pool.cells, old(own), own, pool.h)
      ensures !r.Done? ==> contents == old(contents) && own == old(own) && cap == old(cap) && moved == old(moved)
      ensures !r.Done? ==> pool.chunks == old(pool.chunks) && pool.cells == old(pool.cells)
    {
      ghost var before, chunksBefore := pool.cells, pool.chunks;
      var len := CheckLength(1);
      if len.None? {
        return LengthError;
      }
      var s, newFinish;
      ghost var c, newCap;
      s, newFinish, c, newCap := MoveToNewStorage(len.value);
      if s.None? {
        return BadAlloc;
      }
      ConstructAndAdopt(v, newFinish, s.value.0, s.value.1, c, newCap, chunksBefore, before);
      return Done;
    }

    /** Reallocate for n more elements keeping the contents; used by insert. */
    method UninitializedReallocN(n: nat) returns (r: Outcome)
      requires Valid() && 0 < n
      modifies this, pool
      ensures Valid() && contents == old(contents)
      ensures r.LengthError? <==> Exceeds(|contents| + n)
      ensures r.BadAlloc? <==> !r.LengthError? && NoRoom(old(pool.chunks), Growth(|contents|, n, MaxSize()))
      ensures var grown := Growth(|contents|, n, MaxSize());
              r.Done? ==> |contents| + n <= grown <= cap && Snug(cap, grown) && moved == old(moved) + |contents|
      ensures r.Done? ==> Framed(old(pool.chunks), pool.chunks, old(pool.cells), pool.cells, old(own), own, pool.h)
      ensures !r.Done? ==> own == old(own) && cap == old(cap) && moved == old(moved)
      ensures !r.Done? ==> pool.chunks == old(pool.chunks) && pool.cells == old(pool.cells)
    {
      ghost var before, chunksBefore := pool.cells, pool.chunks;
      var len := CheckLength(n);
      if len.None? {
        return LengthError;
      }
      var s, newFinish;
      ghost var c, newCap;
      s, newFinish, c, newCap := MoveToNewStorage(len.value);
      if s.None? {
        return BadAlloc;
      }
      Adopt(s.value.0, newFinish, s.value.0 + s.value.1, c, newCap, contents, chunksBefore, before);
      return Done;
    }

    /** Reallocate and fill up to n elements with copies of v. The length check counts n whole, not n - size. */
    method ReallocAppendN(n: nat, v: T) returns (r: Outcome)
      requires Valid() && |contents| < n
      modifies this, pool
      ensures Valid()
      ensures r.LengthError? <==> Exceeds(|old(contents)| + n)
      ensures r.BadAlloc? <==> !r.LengthError? && NoRoom(old(pool.chunks), Growth(|old(contents)|, n, MaxSize()))
      ensures r.Done? ==> contents == old(contents) + Copies(n - |old(contents)|, v)
      ensures var grown := Growth(|old(contents)|, n, MaxSize());
              r.Done? ==> 0 < grown <= cap && Snug(cap, grown) && moved == old(moved) + |old(contents)|
      ensures r.Done? ==> Framed(old(pool.chunks), pool.chunks, old(pool.cells), pool.cells, old(own), own, pool.h)
      ensures !r.Done? ==> contents == old(contents) && own == old(own) && cap == old(cap) && moved == old(moved)
      ensures !r.Done? ==> pool.chunks == old(pool.chunks) && pool.cells == old(pool.cells)
    {
      ghost var before, chunksBefore := pool.cells, pool.chunks;
      var len := CheckLength(n);
      if len.None? {
        return LengthError;
      }
      var s, newFinish;
      ghost var c, newCap;
      s, newFinish, c, newCap := MoveToNewStorage(len.value);
      if s.None? {
        return BadAlloc;
      }
      FillAndAdopt(n, v, newFinish, s.value.0, s.value.1, c, newCap, chunksBefore, before);
      return Done;
    }

    method FillAndAdopt(n: nat, v: T, first: int, newStart: int, newSize: int, ghost c: set<Chunk>, ghost newCap: nat,
                        ghost chunksBefore: seq<Chunk>, ghost cellsBefore: map<int, T>)
      requires Valid() && |contents| < n <= newCap
      requires Fresh(newStart, newSize, c, newCap) && first == newStart + Span(es, |contents|)
      requires c !! Used(chunksBefore) && Used(pool.chunks) == Used(chunksBefore) + c && own <= Used(chunksBefore)
      requires Stores(pool.cells, newStart, es, contents) && SameOutside(cellsBefore, pool.cells, c, pool.h)
      modifies this, pool
      ensures Valid() && contents == old(contents) + Copies(n - |old(contents)|, v) && moved == old(moved) && cap == newCap
      ensures Framed(chunksBefore, pool.chunks, cellsBefore, pool.cells, old(own), own, pool.h)
    {
      Counts();
      var newFinish;
      ghost var vs;
      newFinish, vs := FillNew(Size(), n, v, first, newStart, newSize, c, newCap, cellsBefore);
      Adopt(newStart, newFinish, newStart + newSize, c, newCap, vs, chunksBefore, cellsBefore);
    }

    /** The loop of ReallocAppendN: construct copies of v behind the moved elements. */
    method FillNew(from: nat, n: nat, v: T, first: int, newStart: int, newSize: int,
                   ghost c: set<Chunk>, ghost newCap: nat, ghost before: map<int, T>)
      returns (newFinish: int, ghost vs: seq<T>)
      requires 0 < es && Fresh(newStart, newSize, c, newCap) && |contents| == from <= n <= newCap
      requires first == newStart + Span(es, from)
      requires Stores(pool.cells, newStart, es, contents) && SameOutside(before, pool.cells, c, pool.h)
      modifies pool`cells
      ensures vs == contents + Copies(n - from, v) && newFinish == newStart + Span(es, n)
      ensures Stores(pool.cells, newStart, es, vs) && SameOutside(before, pool.cells, c, pool.h)
    {
      newFinish, vs := first, contents;
      var i := from;
      while i < n
        invariant from <= i <= n && vs == contents + Copies(i - from, v) && newFinish == newStart + Span(es, i)
        invariant Stores(pool.cells, newStart, es, vs) && SameOutside(before, pool.cells, c, pool.h)
      {
        ConstructInNew(before, pool.cells, newStart, newSize, c, newCap, vs, v);
        pool.cells := pool.cells[newFinish := v];
        newFinish := newFinish + es;
        CopiesAppend(contents, vs, i - from, v);
        vs := vs + [v];
        i := i + 1;
      }
    }

    /** Nothing about the storage changed. */
    twostate predicate SameStorage()
      reads this, pool
    {
      own == old(own) && cap == old(cap) && moved == old(moved) && pool.chunks == old(pool.chunks)
    }

    /** The operation touched its own chunks only. */
    twostate predicate OnlyOwn()
      reads this, pool
    {
      Framed(old(pool.chunks), pool.chunks, old(pool.cells), pool.cells, old(own), own, pool.h)
    }

    ghost function LoadNow(): Load
      reads this
    {
      Load(|contents|, cap, moved)
    }

    /** Construct behind the last element while there is capacity. */
    method ConstructAtFinish(v: T)
      requires Valid() && |contents| < cap
      modifies this`finish, this`contents, pool`cells
      ensures Valid() && OnlyOwn() && SameStorage()
      ensures contents == old(contents) + [v]
    {
      ghost var before := pool.cells;
      SameCells(before, own);
      AppendInPlace(before, pool.cells, contents, v);
      pool.cells := pool.cells[finish := v];
      finish := finish + es;
      contents := contents + [v];
    }

    method PushBack(v: T) returns (r: Outcome)
      requires Valid()
      modifies this, pool
      ensures Valid() && OnlyOwn()
      ensures contents == if r.Done? then old(contents) + [v] else old(contents)
      ensures var size := |old(contents)|;
              && (r.LengthError? <==> size == old(cap) && Exceeds(size + 1))
              && (r.BadAlloc? <==> size == old(cap) && !r.LengthError? && NoRoom(old(pool.chunks), Growth(size, 1, MaxSize())))
              && (size < old(cap) || !r.Done? ==> SameStorage())
      ensures r.Done? ==> Pushed(old(LoadNow()), LoadNow(), MaxSize())
      ensures var grown := Growth(|old(contents)|, 1, MaxSize());
              r.Done? && |old(contents)| == old(cap) ==> 0 < grown && Snug(cap, grown)
    {
      if finish != endOfStorage {
        ConstructAtFinish(v);
        return Done;
      } else {
        SpanInjective(es, |contents|, cap);
        MaxSizeIs(|contents| + 1);
        r := ReallocAppend(v);
        if !r.Done? { SameCells(pool.cells, own + own); }
      }
    }

    lemma SameCells(cells: map<int, T>, s: set<Chunk>)
      ensures SameOutside(cells, cells, s, pool.h)
    {
    }

    /** Constructing behind the last element while there is capacity. */
    lemma AppendInPlace(before: map<int, T>, cells: map<int, T>, vs: seq<T>, v: T)
      requires Sizes() && Storage() && |vs| < cap && Stores(cells, start, es, vs)
      requires SameOutside(before, cells, own, pool.h)
      ensures var cells' := cells[start + Span(es, |vs|) := v];
              && Stores(cells', start, es, vs + [v])
              && SameOutside(before, cells', own, pool.h) && SameOutside(before, cells', own + own, pool.h)
    {
      ConstructInNew(before, cells, start, Span(es, cap), own, cap, vs, v);
      assert own + own == own;
    }

    method Reserve(n: nat) returns (r: Outcome)
      requires Valid()
      modifies this, pool
      ensures Valid() && OnlyOwn() && contents == old(contents)
      ensures r.LengthError? <==> old(cap) < n && Exceeds(n)
      ensures r.BadAlloc? <==> old(cap) < n && !r.LengthError? && NoRoom(old(pool.chunks), n)
      ensures r.Done? ==> n <= cap && old(cap) <= cap && (cap == old(cap) || Snug(cap, n))
      ensures n <= old(cap) || !r.Done? ==> SameStorage()
    {
      Counts();
      SameCells(pool.cells, own + own);
      if n <= Capacity() {
        return Done;
      }
      r := ReallocCopy(n);
    }

    method ShrinkToFit() returns (r: Outcome)
      requires Valid()
      modifies this, pool
      ensures Valid() && OnlyOwn() && contents == old(contents)
      ensures r.LengthError? <==> |contents| < old(cap) && Exceeds(|contents|)
      ensures r.BadAlloc? <==> |contents| < old(cap) && !r.LengthError? && NoRoom(old(pool.chunks), |contents|)
      ensures r.Done? ==> cap == |contents| || Snug(cap, |contents|)
      ensures r.Done? && contents == [] ==> cap == 0 && own == {}
      ensures |contents| == old(cap) || !r.Done? ==> SameStorage()
    {
      Counts();
      SameCells(pool.cells, own + own);
      if Capacity() == Size() {
        return Done;
      }
      r := ReallocCopy(Size());
    }

    method Resize(count: nat, v: T) returns (r: Outcome)
      requires Valid()
      modifies this, pool
      ensures Valid() && OnlyOwn()
      ensures var size := |old(contents)|;
              && (r.LengthError? <==> old(cap) < count && Exceeds(size + count))
              && (r.BadAlloc? <==> old(cap) < count && !r.LengthError? && NoRoom(old(pool.chunks), Growth(size, count, MaxSize())))
              && (count <= old(cap) || !r.Done? ==> SameStorage())
              && contents == if !r.Done? then old(contents)
                             else if count <= size then old(contents)[..count]
                             else old(contents) + Copies(count - size, v)
    {
      Counts();
      SameCells(pool.cells, own);
      SameCells(pool.cells, own + own);
      if count <= Size() {
        if count < Size() {
          Truncate(count);
        } else {
          assert contents == contents[..count];
        }
        return Done;
      }
      if count <= Capacity() {
        ExtendInPlace(count, v);
        return Done;
      }
      r := ReallocAppendN(count, v);
    }

    method Truncate(count: nat)
      requires Valid() && count < |contents|
      modifies this`finish, this`contents
      ensures Valid() && SameStorage() && contents == old(contents)[..count]
    {
      SpanIsProduct(es, count);
      StoresPrefix(pool.cells, start, es, contents, count);
      finish := start + count * es;
      contents := contents[..count];
    }

    method ExtendInPlace(count: nat, v: T)
      requires Valid() && |contents| < count <= cap
      modifies this`finish, this`contents, pool`cells
      ensures Valid() && OnlyOwn() && SameStorage()
      ensures contents == old(contents) + Copies(count - |old(contents)|, v)
    {
      ghost var before := pool.cells;
      SameCells(before, own);
      Counts();
      var newFinish;
      ghost var vs;
      newFinish, vs := FillNew(Size(), count, v, finish, start, endOfStorage - start, own, cap, before);
      finish := newFinish;
      contents := vs;
      SameOutsideMore(before, pool.cells, own, own + own, pool.h);
    }

    /** Insert one element before position pos, shifting the later ones up by one place. */
    method Insert(pos: nat, v: T) returns (r: Outcome)
      requires Valid() && pos <= |contents|
      modifies this, pool
      ensures Valid() && OnlyOwn()
      ensures contents == if r.Done? then old(contents)[..pos] + [v] + old(contents)[pos..] else old(contents)
      ensures var size := |old(contents)|;
              && (r.LengthError? <==> size == old(cap) && Exceeds(size + 1))
              && (r.BadAlloc? <==> size == old(cap) && !r.LengthError? && NoRoom(old(pool.chunks), Growth(size, 1, MaxSize())))
              && (size < old(cap) || !r.Done? ==> SameStorage())
    {
      Counts();
      SameCells(pool.cells, own + own);
      if Capacity() < Size() + 1 {
        r := UninitializedReallocN(1);
        if !r.Done? {
          return;
        }
      }
      label shift:
      InsertInPlace(pos, v);
      FramedThenInPlace(old(pool.chunks), pool.chunks, old(pool.cells), old@shift(pool.cells), pool.cells,
                        old(own), own, pool.h);
      return Done;
    }

    method InsertInPlace(pos: nat, v: T)
      requires Valid() && pos <= |contents| < cap
      modifies this`finish, this`contents, pool`cells
      ensures Valid() && contents == old(contents)[..pos] + [v] + old(contents)[pos..]
      ensures SameStorage() && SameOutside(old(pool.cells), pool.cells, own, pool.h)
    {
      ghost var before, vs := pool.cells, contents;
      ShiftUp(pos);
      StoresInsert(pool.cells, start, es, vs, pos, v);
      InOwn(pos);
      SameOutsideStep(before, pool.cells, own, pool.h, start + Span(es, pos), v);
      SpanIsProduct(es, pos);
      pool.cells := pool.cells[start + pos * es := v];
      finish := finish + es;
      contents := vs[..pos] + [v] + vs[pos..];
    }

    lemma InOwn(i: nat)
      requires 0 < es && Storage() && i < cap
      ensures exists c :: c in own && InData(c, pool.h, start + Span(es, i))
    {
      SpanMonotone(es, i, cap);
      assert InData(Chunk(start - pool.h, Span(es, cap), false), pool.h, start + Span(es, i));
    }

    /** The backward move: from the last element down to pos, each goes one place up. */
    method ShiftUp(pos: nat)
      requires 0 < es && Storage() && pos <= |contents| < cap && finish == start + Span(es, |contents|)
      requires Stores(pool.cells, start, es, contents)
      modifies pool`cells
      ensures Shifted(pool.cells, start, es, contents, pos)
      ensures SameOutside(old(pool.cells), pool.cells, own, pool.h)
    {
      ghost var before, vs := pool.cells, contents;
      SpanIsProduct(es, |vs|);
      var offset := Size() - pos - 1;
      var src := finish;
      ghost var i: nat := |vs|;
      while offset >= 0
        invariant pos <= i <= |vs| && offset == i - pos - 1 && src == start + Span(es, i)
        invariant Shifted(pool.cells, start, es, vs, i)
        invariant SameOutside(before, pool.cells, own, pool.h)
      {
        src := src - es;
        ShiftedStep(pool.cells, start, es, vs, i);
        InOwn(i);
        SameOutsideStep(before, pool.cells, own, pool.h, start + Span(es, i), vs[i - 1]);
        pool.cells := pool.cells[src + es := pool.cells[src]];
        offset, i := offset - 1, i - 1;
      }
    }
  }

  /** New capacity asked for: double, or enough for n more, and never above the maximum. */
  function Growth(size: nat, n: nat, max: int): int {
    var l := size + if size < n then n else size;
    if l > max then max else l
  }

  /**
   The capacity asked for has room for n more and stays within the maximum; it is
   at least double unless it is the maximum, and no more than needed for either.
   */
  lemma GrowthIs(size: nat, n: nat, max: int)
    requires size + n <= max
    ensures var g := Growth(size, n, max);
            && size + n <= g <= max
            && (g == max || 2 * size <= g)
            && (g <= size + n || g <= 2 * size)
  {
  }

  function Copies<T>(n: nat, v: T): (vs: seq<T>)
    ensures |vs| == n && forall i | 0 <= i < n :: vs[i] == v
  {
    if n == 0 then [] else Copies(n - 1, v) + [v]
  }

  lemma CopiesAppend<T>(s: seq<T>, vs: seq<T>, n: nat, v: T)
    requires vs == s + Copies(n, v)
    ensures vs + [v] == s + Copies(n + 1, v)
  {
  }

  // ----- amortised growth ----------------------------------------------------------

  /** Size and capacity of a vector, and the elements its reallocations moved so far. */
  datatype Load = Load(size: nat, cap: nat, moved: nat)

  /** The effect of one successful push_back; the allocator may grant more than the growth asks for. */
  ghost predicate Pushed(l: Load, l': Load, max: int) {
    && l'.size == l.size + 1
    && if l.size < l.cap then l'.cap == l.cap && l'.moved == l.moved
       else l.size == l.cap && 1 <= max - l.size && l'.cap >= Growth(l.size, 1, max) && l'.moved == l.moved + l.size
  }

  ghost predicate Light(l: Load, max: int) {
    && (l.size == 0 ==> l.moved == 0)
    && (l.size > 0 ==> l.moved < 2 * l.size)
    && (0 < l.cap < max ==> l.moved < l.cap)
  }

  lemma PushedStaysLight(l: Load, l': Load, max: int)
    requires Light(l, max) && Pushed(l, l', max)
    ensures Light(l', max)
  {
  }

  /**
   n push_backs onto an empty vector move fewer than 2n elements in total, also
   when the growth is cut off at the maximal size.
   */
  lemma {:induction false} AmortisedGrowth(loads: seq<Load>, max: int)
    requires 1 < |loads| && loads[0].size == 0 && loads[0].moved == 0
    requires forall i | 0 < i < |loads| :: Pushed(loads[i - 1], loads[i], max)
    ensures var n := |loads| - 1; loads[n].size == n && loads[n].moved < 2 * n
    ensures Light(loads[|loads| - 1], max)
  {
    var n := |loads| - 1;
    assert Pushed(loads[n - 1], loads[n], max);
    if n > 1 {
      AmortisedGrowth(loads[..n], max);
    }
    PushedStaysLight(loads[n - 1], loads[n], max);
  }
}
