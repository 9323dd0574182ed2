/**
 The bit tricks on unsigned words of a symbolic width w (numeric.h), and what
 they mean in arithmetic. A word is a nat below Pow2(w).
 */
module Numeric {

  datatype Option<+T> = None | Some(value: T)

  function Pow2(n: nat): (p: nat)
    ensures p >= 1
  {
    if n == 0 then 1 else 2 * Pow2(n - 1)
  }

  ghost predicate IsPow2(v: nat) {
    exists k: nat :: v == Pow2(k)
  }

  /** Bitwise `&` on words of any width. */
  function And(a: nat, b: nat): nat {
    if a == 0 || b == 0 then 0
    else (if a % 2 == 1 && b % 2 == 1 then 1 else 0) + 2 * And(a / 2, b / 2)
  }

  /** `v - 1` in unsigned arithmetic. */
  function Decrement(v: nat, w: nat): nat {
    if v == 0 then Pow2(w) - 1 else v - 1
  }

  function IsPowerOfTwo(v: nat, w: nat): bool {
    And(v, Decrement(v, w)) == 0
  }

  /** The number of bits needed to write v. */
  function BitLength(v: nat): nat {
    if v == 0 then 0 else 1 + BitLength(v / 2)
  }

  /** `1 << s`; a shift by the width or more has no defined value. */
  function ShiftOne(s: int, w: nat): Option<nat> {
    if 0 <= s < w then Some(Pow2(s)) else None
  }

  function FloorToPowerOfTwo(v: nat, w: nat): Option<nat> {
    if IsPowerOfTwo(v, w) then Some(v) else ShiftOne(w - LeadingZeros(v, w) - 1, w)
  }

  function CeilToPowerOfTwo(v: nat, w: nat): Option<nat> {
    if IsPowerOfTwo(v, w) then Some(v) else ShiftOne(w - LeadingZeros(v, w), w)
  }

  function LeadingZeros(v: nat, w: nat): int {
    w - BitLength(v)
  }

  /** The loop used where the compiler offers no intrinsic. */
  method CountLeadingZero(v: nat, w: nat) returns (count: nat)
    requires 0 < w && v < Pow2(w)
    ensures count == LeadingZeros(v, w)
    ensures v == 0 ==> count == w
    ensures v > 0 ==> count < w && Pow2(w - 1 - count) <= v < Pow2(w - count)
  {
    if v == 0 {
      return w;
    }
    count := 0;
    var mask := Pow2(w - 1);
    AndBit(v, w - 1);
    while And(v, mask) == 0
      invariant count < w && mask == Pow2(w - 1 - count)
      invariant v < Pow2(w - count)
      invariant And(v, mask) == 0 <==> v < mask
      decreases w - count
    {
      count := count + 1;
      mask := mask / 2;
      AndBit(v, w - 1 - count);
    }
    BitLengthUnique(v, w - count);
  }

  /** `(size + 15) & ~15` on w-bit words. */
  function AlignUp(size: nat, w: nat): nat
    requires 4 <= w
  {
    And(size + 15, Complement(4, w))
  }

  /** The word whose low k bits are clear and all others set. */
  function Complement(k: nat, w: nat): nat
    requires k <= w
  {
    Pow2Monotone(k, w);
    Pow2(w) - Pow2(k)
  }

  // ----- lemmas ------------------------------------------------------------

  lemma {:induction false} Pow2Monotone(a: nat, b: nat)
    requires a <= b
    ensures Pow2(a) <= Pow2(b)
    ensures a < b ==> 2 * Pow2(a) <= Pow2(b)
    decreases b
  {
    if a < b {
      Pow2Monotone(a, b - 1);
    }
  }

  lemma {:induction false} Pow2Add(a: nat, b: nat)
    ensures Pow2(a + b) == Pow2(a) * Pow2(b)
  {
    if a > 0 {
      Pow2Add(a - 1, b);
      assert 2 * (Pow2(a - 1) * Pow2(b)) == (2 * Pow2(a - 1)) * Pow2(b);
    }
  }

  lemma ModUnique(x: int, m: int, q: int, r: int)
    requires m > 0 && x == m * q + r && 0 <= r < m
    ensures x % m == r && x / m == q
  {
    var d := q - x / m;
    assert m * d == x % m - r by {
      assert x == m * (x / m) + x % m;
      assert m * d == m * q - m * (x / m);
    }
    SmallMultiple(m, d);
  }

  lemma SmallMultiple(m: int, d: int)
    requires -m < m * d < m
    ensures d == 0
  {
    if d >= 1 {
      Scale(m, 1, d);
      assert false;
    } else if d <= -1 {
      Scale(m, d, -1);
      assert false;
    }
  }

  lemma Scale(m: int, a: int, b: int)
    requires m >= 0 && a <= b
    ensures m * a <= m * b
  {
    assert m * (b - a) >= 0;
  }

  lemma QuotientRemainder(x: int, m: int) returns (q: int, r: int)
    requires m > 0
    ensures x == m * q + r && 0 <= r < m && q == x / m && r == x % m
    ensures x >= 0 ==> q >= 0
  {
    q, r := x / m, x % m;
    if x >= 0 && q < 0 {
      Scale(m, q, -1);
      assert false;
    }
  }

  /** Counting up by one commutes with wrapping. */
  lemma NextResidue(n: nat, m: nat)
    requires m > 0
    ensures (n % m + 1) % m == (n + 1) % m
  {
    var q, r := QuotientRemainder(n, m);
    if r + 1 < m {
      ModUnique(n + 1, m, q, r + 1);
      ModUnique(r + 1, m, 0, r + 1);
    } else {
      assert m * (q + 1) == m * q + m;
      ModUnique(n + 1, m, q + 1, 0);
      ModUnique(m, m, 1, 0);
    }
  }

  lemma RemainderByDouble(x: nat, h: nat)
    requires h > 0
    ensures x % (2 * h) == x % 2 + 2 * ((x / 2) % h)
  {
    var q, r := QuotientRemainder(x / 2, h);
    assert (2 * h) * q == 2 * (h * q);
    ModUnique(x, 2 * h, q, 2 * r + x % 2);
  }

  /** Masking with a power of two less one is the remainder. */
  lemma {:induction false} AndMask(x: nat, k: nat)
    ensures And(x, Pow2(k) - 1) == x % Pow2(k)
    decreases k
  {
    if k > 0 {
      AndMask(x / 2, k - 1);
      AndMaskDouble(x, Pow2(k - 1));
    }
  }

  lemma AndMaskDouble(x: nat, h: nat)
    requires h > 0 && And(x / 2, h - 1) == (x / 2) % h
    ensures And(x, 2 * h - 1) == x % (2 * h)
  {
    AndOddMask(x, h);
    RemainderByDouble(x, h);
  }

  lemma AndOddMask(x: nat, h: nat)
    requires h > 0
    ensures And(x, 2 * h - 1) == x % 2 + 2 * And(x / 2, h - 1)
  {
    assert (2 * h - 1) / 2 == h - 1 && (2 * h - 1) % 2 == 1;
  }

  /** Clearing the low k bits rounds down to a multiple of Pow2(k). */
  lemma {:induction false} AndComplement(x: nat, k: nat, w: nat)
    requires k <= w && x < Pow2(w)
    ensures And(x, Complement(k, w)) == x - x % Pow2(k)
    decreases k
  {
    if k == 0 {
      AndAllOnes(x, w);
      assert Complement(0, w) == Pow2(w) - 1;
    } else {
      AndComplement(x / 2, k - 1, w - 1);
      assert Complement(k, w) == 2 * Complement(k - 1, w - 1);
      AndEvenDouble(x, Complement(k - 1, w - 1), Pow2(k - 1));
    }
  }

  lemma AndAllOnes(x: nat, w: nat)
    requires x < Pow2(w)
    ensures And(x, Pow2(w) - 1) == x
  {
    AndMask(x, w);
    ModUnique(x, Pow2(w), 0, x);
  }

  lemma AndEvenDouble(x: nat, m: nat, h: nat)
    requires h > 0 && And(x / 2, m) == x / 2 - (x / 2) % h
    ensures And(x, 2 * m) == x - x % (2 * h)
  {
    AndEvenMask(x, m);
    RemainderByDouble(x, h);
  }

  lemma AndEvenMask(x: nat, m: nat)
    ensures And(x, 2 * m) == 2 * And(x / 2, m)
  {
    assert (2 * m) / 2 == m && (2 * m) % 2 == 0;
  }

  /** Alignment gives the least multiple of 16 that is not below the size. */
  lemma AlignUpIsLeast(size: nat, w: nat)
    requires 4 <= w && size + 15 < Pow2(w)
    ensures var a := AlignUp(size, w); a % 16 == 0 && size <= a < size + 16
  {
    assert Pow2(4) == 16 by {
      assert Pow2(0) == 1 && Pow2(1) == 2 && Pow2(2) == 4 && Pow2(3) == 8;
    }
    RoundedDown(size + 15, 4, w);
  }

  lemma RoundedDown(x: nat, k: nat, w: nat)
    requires k <= w && x < Pow2(w) && Pow2(k) == 16
    ensures var a := And(x, Complement(k, w)); a % 16 == 0 && a <= x < a + 16
  {
    AndComplement(x, k, w);
    var q, r := QuotientRemainder(x, 16);
    ModUnique(x - r, 16, q, 0);
  }

  /** A single-bit mask tests that bit; below 2 * Pow2(j) that is a comparison. */
  lemma {:induction false} AndBit(v: nat, j: nat)
    ensures v < 2 * Pow2(j) ==> (And(v, Pow2(j)) == 0 <==> v < Pow2(j))
    decreases j
  {
    if j == 0 {
      assert Pow2(0) == 1;
    } else {
      AndBit(v / 2, j - 1);
      assert Pow2(j) == 2 * Pow2(j - 1);
    }
  }

  lemma {:induction false} AndSelf(v: nat)
    ensures And(v, v) == v
  {
    if v > 0 {
      AndSelf(v / 2);
    }
  }

  lemma {:induction false} AndPredecessor(v: nat)
    requires v > 0
    ensures And(v, v - 1) == 0 <==> IsPow2(v)
  {
    if v == 1 {
      assert v == Pow2(0);
    } else if v % 2 == 1 {
      assert (v - 1) / 2 == v / 2;
      AndSelf(v / 2);
      if k: nat :| v == Pow2(k) {
        assert false;
      }
    } else {
      assert (v - 1) / 2 == v / 2 - 1;
      AndPredecessor(v / 2);
      if k: nat :| v / 2 == Pow2(k) {
        assert v == Pow2(k + 1);
      }
      if k: nat :| v == Pow2(k) {
        assert k > 0;
        assert v / 2 == Pow2(k - 1);
      }
    }
  }

  /** The test accepts the powers of two and, because 0 - 1 wraps, zero. */
  lemma IsPowerOfTwoExact(v: nat, w: nat)
    ensures IsPowerOfTwo(v, w) <==> v == 0 || IsPow2(v)
  {
    if v > 0 {
      AndPredecessor(v);
    }
  }

  lemma {:induction false} BitLengthBounds(v: nat)
    requires v > 0
    ensures BitLength(v) > 0 && Pow2(BitLength(v) - 1) <= v < Pow2(BitLength(v))
  {
    if v > 1 {
      BitLengthBounds(v / 2);
      assert BitLength(v) == 1 + BitLength(v / 2);
      assert Pow2(BitLength(v)) == 2 * Pow2(BitLength(v / 2));
      assert Pow2(BitLength(v / 2)) == 2 * Pow2(BitLength(v / 2) - 1);
    } else {
      assert BitLength(1) == 1 && Pow2(1) == 2 * Pow2(0);
    }
  }

  lemma BitLengthUnique(v: nat, n: nat)
    requires n > 0 && Pow2(n - 1) <= v < Pow2(n)
    ensures BitLength(v) == n
  {
    BitLengthBounds(v);
    if BitLength(v) < n {
      Pow2Monotone(BitLength(v), n - 1);
    } else if BitLength(v) > n {
      Pow2Monotone(n, BitLength(v) - 1);
    }
  }

  lemma BitLengthWithin(v: nat, w: nat)
    requires 0 < v < Pow2(w)
    ensures BitLength(v) <= w
  {
    BitLengthBounds(v);
    if BitLength(v) > w {
      Pow2Monotone(w, BitLength(v) - 1);
    }
  }

  /** On every positive word the floor is the greatest power of two not above v. */
  lemma FloorIsGreatest(v: nat, w: nat)
    requires 0 < v < Pow2(w)
    ensures var f := FloorToPowerOfTwo(v, w);
            && f.Some? && IsPow2(f.value) && f.value <= v < 2 * f.value
            && forall p: nat | IsPow2(p) && p <= v :: p <= f.value
  {
    IsPowerOfTwoExact(v, w);
    BitLengthBounds(v);
    BitLengthWithin(v, w);
    assert Pow2(BitLength(v)) == 2 * Pow2(BitLength(v) - 1);
    var f := FloorToPowerOfTwo(v, w).value;
    forall p: nat | IsPow2(p) && p <= v ensures p <= f {
      NoPowerBetween(f, p);
    }
  }

  lemma CeilByLength(v: nat, w: nat)
    requires 0 < v < Pow2(w)
    ensures var n := BitLength(v);
            && 0 < n <= w && Pow2(n - 1) <= v < Pow2(n) == 2 * Pow2(n - 1)
            && CeilToPowerOfTwo(v, w)
               == if v == Pow2(n - 1) then Some(v) else if n < w then Some(Pow2(n)) else None
  {
    IsPowerOfTwoExact(v, w);
    BitLengthBounds(v);
    BitLengthWithin(v, w);
    var n := BitLength(v);
    if IsPow2(v) { NoPowerBetween(Pow2(n - 1), v); }
  }

  /**
   On a positive word the ceiling is defined exactly up to the top power of the
   word, and there it is the least power of two not below v.
   */
  lemma CeilIsLeast(v: nat, w: nat)
    requires 0 < v < Pow2(w)
    ensures w > 0 && (CeilToPowerOfTwo(v, w).Some? <==> v <= Pow2(w - 1))
    ensures v <= Pow2(w - 1) ==>
              var c := CeilToPowerOfTwo(v, w).value;
              && IsPow2(c) && v <= c <= Pow2(w - 1) && c < 2 * v
              && forall p: nat | IsPow2(p) && v <= p :: c <= p
  {
    CeilByLength(v, w);
    var n := BitLength(v);
    Pow2Monotone(n - 1, w - 1);
    if n < w { Pow2Monotone(n, w - 1); }
    if v <= Pow2(w - 1) {
      var c := CeilToPowerOfTwo(v, w).value;
      forall p: nat | IsPow2(p) && v <= p ensures c <= p {
        NoPowerBetween(Pow2(n - 1), p);
      }
    }
  }

  /** Zero passes the test, so both roundings leave it as it is. */
  lemma ZeroIsKept(w: nat)
    ensures FloorToPowerOfTwo(0, w) == CeilToPowerOfTwo(0, w) == Some(0)
  {
    IsPowerOfTwoExact(0, w);
  }

  /** Two powers of two are equal or one is at least twice the other. */
  lemma NoPowerBetween(p: nat, q: nat)
    requires IsPow2(p) && IsPow2(q)
    ensures p < q ==> 2 * p <= q
    ensures q < p ==> 2 * q <= p
  {
    var a: nat :| p == Pow2(a);
    var b: nat :| q == Pow2(b);
    if a < b { Pow2Monotone(a, b); }
    if b < a { Pow2Monotone(b, a); }
  }

  /** A word that wrapped at Pow2(w) still has its remainder by a smaller power. */
  lemma WrapKeepsMask(n: nat, k: nat, w: nat)
    requires k <= w
    ensures (n % Pow2(w)) % Pow2(k) == n % Pow2(k)
  {
    Pow2Add(w - k, k);
    RemainderOfMultiple(n, Pow2(k), Pow2(w - k));
  }

  lemma RemainderOfMultiple(n: int, m: int, c: int)
    requires m > 0 && c > 0
    ensures c * m > 0 && (n % (c * m)) % m == n % m
  {
    Scale(m, 1, c);
    var q, r := QuotientRemainder(n, c * m);
    var q', r' := QuotientRemainder(r, m);
    assert n == m * (c * q + q') + r' by {
      assert (c * m) * q == m * (c * q);
      assert m * (c * q + q') == m * (c * q) + m * q';
    }
    ModUnique(n, m, c * q + q', r');
  }

  /** The slot that the i-th of consecutive numbers starting at n selects. */
  function Residue(n: nat, i: nat, m: nat): (x: nat)
    requires m > 0
    ensures x < m
  {
    (n + i) % m
  }

  /** The room that n pieces of size es take: es * n, as a sum. */
  function Span(es: nat, n: nat): nat {
    if n == 0 then 0 else Span(es, n - 1) + es
  }

  lemma {:induction false} SpanIsProduct(es: nat, n: nat)
    ensures Span(es, n) == es * n && (0 < es ==> Span(es, n) / es == n)
  {
    if n > 0 {
      SpanIsProduct(es, n - 1);
    }
    assert es * n == if n == 0 then 0 else es * (n - 1) + es;
    if 0 < es { ModUnique(Span(es, n), es, n, 0); }
  }

  lemma {:induction false} SpanMonotone(es: nat, m: nat, n: nat)
    requires m < n
    ensures Span(es, m) + es <= Span(es, n)
  {
    if m + 1 < n {
      SpanMonotone(es, m, n - 1);
    }
  }

  lemma SpanUpTo(es: nat, m: nat, n: nat)
    requires m <= n
    ensures Span(es, m) <= Span(es, n)
  {
    if m < n { SpanMonotone(es, m, n); }
  }

  lemma SpanInjective(es: nat, m: nat, n: nat)
    requires 0 < es && Span(es, m) == Span(es, n)
    ensures m == n
  {
    if m < n { SpanMonotone(es, m, n); }
    if n < m { SpanMonotone(es, n, m); }
  }

  /** Among m consecutive numbers exactly one has a given remainder by m. */
  lemma ResidueHit(n: nat, m: nat, x: nat) returns (i: nat)
    requires x < m
    ensures i < m && Residue(n, i, m) == x
    ensures forall j: nat | j < m && Residue(n, j, m) == x :: j == i
  {
    var q, r := QuotientRemainder(n, m);
    if r <= x {
      i := x - r;
      ModUnique(n + i, m, q, x);
    } else {
      i := m - r + x;
      assert m * (q + 1) == m * q + m;
      ModUnique(n + i, m, q + 1, x);
    }
    forall j: nat | j < m && Residue(n, j, m) == x ensures j == i {
      ResidueInjective(n, m, i, j);
    }
  }

  lemma ResidueInjective(n: nat, m: nat, i: nat, j: nat)
    requires i < m && j < m && Residue(n, i, m) == Residue(n, j, m)
    ensures i == j
  {
    var a, r := QuotientRemainder(n + i, m);
    var b, s := QuotientRemainder(n + j, m);
    assert m * (a - b) == m * a - m * b;
    SmallMultiple(m, a - b);
  }
}
