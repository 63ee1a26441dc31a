/**
 * The integer helpers of the Vorbis decoder: iLog, which counts base-4
 * digits (it shifts its argument down by two bits per step), wrapping
 * 32-bit exponentiation by squaring, lookup1_values (section 9.2.3 of the
 * Vorbis I specification), and the field split of the packed
 * floating-point format read by float32_unpack (section 9.2.2).
 */
module Integers {
  import opened Common

  /** The number of base-4 digits of x; 0 when x is not positive. */
  function Base4Length(x: int): nat
    decreases if x > 0 then x else 0
  {
    if x <= 0 then 0 else 1 + Base4Length(x / 4)
  }

  lemma DivAtLeast(x: int, p: int)
    requires p > 0 && x / p >= 1
    ensures x >= p
  {
    assert x == (x / p) * p + x % p;
    MulAtLeast(x / p, p);
  }

  lemma DivZero(x: int, p: int)
    requires p > 0 && x >= 0 && x / p == 0
    ensures x < p
  {
    assert x == (x / p) * p + x % p;
  }

  lemma Pow4Step(r: nat)
    ensures Pow(4, r + 1) == Pow(4, r) * 4 && Pow(4, r) >= 1
  {
    if r > 0 {
      Pow4Step(r - 1);
    }
  }

  /** Base4Length(x) is the r with 4^(r-1) <= x < 4^r. */
  lemma {:induction false} Base4LengthBounds(x: int)
    ensures x <= 0 ==> Base4Length(x) == 0
    ensures x > 0 ==> Base4Length(x) >= 1 &&
                      Pow(4, Base4Length(x) - 1) <= x < Pow(4, Base4Length(x))
  {
    if x > 0 {
      var y := x / 4;
      var r := Base4Length(y);
      assert Base4Length(x) == r + 1;
      Base4LengthBounds(y);
      Pow4Step(r);
      if y > 0 {
        Pow4Step(r - 1);
        MulLeDiv(Pow(4, r - 1), 4, x);
        DivBelowProduct(x, 4, Pow(4, r));
      } else {
        DivZero(x, 4);
      }
    }
  }

  /** Below 4^k there are at most k base-4 digits. */
  lemma {:induction false} Base4LengthAtMost(x: int, k: nat)
    requires x < Pow(4, k)
    ensures Base4Length(x) <= k
  {
    if x > 0 {
      assert k > 0;
      Pow4Step(k - 1);
      assert x / 4 < Pow(4, k - 1) by {
        assert x == (x / 4) * 4 + x % 4;
      }
      Base4LengthAtMost(x / 4, k - 1);
    }
  }

  /** 4^12 = 2^24: twelve base-4 digits cover a 24-bit count. */
  /**
   * A field of iLog(x) bits holds at most x: 2^iLog(x) <= x + 1.  So
   * channel numbers of iLog(channels - 1) bits name a channel, and a run
   * of iLog(entries - done) bits never passes the entry count.
   */
  lemma {:induction false} Base4LengthWidth(x: int)
    requires x >= 0
    ensures Pow2(Base4Length(x)) <= x + 1
    decreases x
  {
    if x > 0 {
      var y := x / 4;
      DivModSplit(x, 4);
      assert Base4Length(x) == 1 + Base4Length(y);
      Base4LengthWidth(y);
    }
  }

  lemma Pow4Twelve()
    ensures Pow(4, 12) == 0x100_0000
  {
  }

  lemma MulLeDiv(a: int, p: int, x: int)
    requires p > 0 && a >= 0 && a <= x / p
    ensures a * p <= x
  {
    assert x == (x / p) * p + x % p;
    assert (x / p - a) * p >= 0;
  }

  lemma DivBelowProduct(x: int, p: int, q: int)
    requires p > 0 && q > 0 && x >= 0 && x / p < q
    ensures x < q * p
  {
    assert x == (x / p) * p + x % p;
    assert (q - 1 - x / p) * p >= 0;
  }

  /** iLog: counts how often x can be shifted down by two bits before it reaches 0. */
  method ILog(x: int) returns (r: nat)
    ensures r == Base4Length(x)
  {
    r := 0;
    var y := x;
    while y > 0
      invariant r + Base4Length(y) == Base4Length(x)
      decreases if y > 0 then y else 0
    {
      r := r + 1;
      y := y / 4;
    }
  }

  /**
   * The widths iLog gives at the places it sizes a read: the floor-1 Y
   * values for the four multipliers (range 256, 128, 84, 64), and a count
   * of 7, whose bit length would be 3.
   */
  lemma Base4LengthExamples()
    ensures Base4Length(255) == 4 && Base4Length(127) == 4
    ensures Base4Length(83) == 4 && Base4Length(63) == 3
    ensures Base4Length(7) == 2 && Base4Length(1) == 1 && Base4Length(0) == 0
  {
  }

  // ---------------------------------------------------------------------
  // Arithmetic modulo 2^32

  lemma ModAddMultiple(k: int, y: int, m: int)
    requires m > 0
    ensures (k * m + y) % m == y % m
  {
    assert y == (y / m) * m + y % m;
    assert k * m + y == (k + y / m) * m + y % m;
    DivModUnique(k * m + y, k + y / m, m, y % m);
  }

  lemma MulModLeft(a: int, c: int, m: int)
    requires m > 0
    ensures ((a % m) * c) % m == (a * c) % m
  {
    assert a == (a / m) * m + a % m;
    assert a * c == ((a / m) * c) * m + (a % m) * c;
    ModAddMultiple((a / m) * c, (a % m) * c, m);
  }

  lemma MulModRight(a: int, c: int, d: int, m: int)
    requires m > 0 && c % m == d % m
    ensures (a * c) % m == (a * d) % m
  {
    MulModLeft(c, a, m);
    MulModLeft(d, a, m);
    assert c * a == a * c && d * a == a * d;
  }

  lemma {:induction false} PowMod(x: int, k: nat, m: int)
    requires m > 0
    ensures Pow(x % m, k) % m == Pow(x, k) % m
  {
    if k > 0 {
      PowMod(x, k - 1, m);
      // (x%m) * Pow(x%m, k-1)  ~  x * Pow(x%m, k-1)  ~  x * Pow(x, k-1)
      MulModLeft(x, Pow(x % m, k - 1), m);
      MulModRight(x, Pow(x % m, k - 1), Pow(x, k - 1), m);
    }
  }

  lemma {:induction false} PowAdd(b: int, i: nat, j: nat)
    ensures Pow(b, i + j) == Pow(b, i) * Pow(b, j)
  {
    if i > 0 {
      PowAdd(b, i - 1, j);
      assert Pow(b, i + j) == b * Pow(b, i - 1 + j);
    }
  }

  lemma {:induction false} PowSquare(b: int, k: nat)
    ensures Pow(b, 2 * k) == Pow(b * b, k)
  {
    if k > 0 {
      PowSquare(b, k - 1);
      PowAdd(b, 2, 2 * (k - 1));
      assert Pow(b, 1) == b && Pow(b, 2) == b * b;
      assert 2 * k == 2 + 2 * (k - 1);
    }
  }

  /** One step of exponentiation by squaring keeps result * base^exp modulo 2^32. */
  lemma SquareStep(result: int, b: int, e: nat)
    requires e > 0
    ensures var result' := if e % 2 == 1 then (result * b) % WordModulus else result;
            (result' * Pow((b * b) % WordModulus, e / 2)) % WordModulus ==
            (result * Pow(b, e)) % WordModulus
  {
    var m := WordModulus;
    var k := e / 2;
    var q := Pow((b * b) % m, k);
    PowMod(b * b, k, m);
    PowSquare(b, k);
    if e % 2 == 1 {
      assert e == 2 * k + 1;
      PowAdd(b, 1, 2 * k);
      assert Pow(b, e) == b * Pow(b * b, k);
      MulModLeft(result * b, q, m);
      MulModRight(result * b, q, Pow(b * b, k), m);
      assert (result * b) * Pow(b * b, k) == result * Pow(b, e);
    } else {
      assert e == 2 * k;
      MulModRight(result, q, Pow(b * b, k), m);
    }
  }

  /** Codebook_Pow: base^exp in wrapping 32-bit arithmetic. */
  method CodebookPow(base: u32, exp: u32) returns (r: u32)
    ensures r == Pow(base, exp) % WordModulus
  {
    var result: u32 := 1;
    var b: u32 := base;
    var e: u32 := exp;
    while e > 0
      invariant (result * Pow(b, e)) % WordModulus == Pow(base, exp) % WordModulus
      decreases e
    {
      SquareStep(result, b, e);
      if e % 2 == 1 {
        result := (result * b) % WordModulus;
      }
      e := e / 2;
      b := (b * b) % WordModulus;
    }
    return result;
  }

  // ---------------------------------------------------------------------
  // lookup1_values

  lemma {:induction false} PowMonotone(a: nat, b: nat, d: nat)
    requires a <= b
    ensures 0 <= Pow(a, d) <= Pow(b, d)
  {
    if d > 0 {
      PowMonotone(a, b, d - 1);
      assert a * Pow(a, d - 1) <= b * Pow(a, d - 1) <= b * Pow(b, d - 1);
    }
  }

  lemma {:induction false} PowStrict(a: nat, b: nat, d: nat)
    requires a < b && d >= 1
    ensures Pow(a, d) < Pow(b, d)
  {
    PowMonotone(a, b, d - 1);
    if d > 1 {
      PowStrict(a, b, d - 1);
      assert a * Pow(a, d - 1) <= a * Pow(b, d - 1) < b * Pow(b, d - 1);
    }
  }

  lemma {:induction false} PowAtLeastBase(b: nat, d: nat)
    requires b >= 1 && d >= 1
    ensures Pow(b, d) >= b
  {
    if d > 1 {
      PowAtLeastBase(b, d - 1);
      MulAtLeast(Pow(b, d - 1), b);
    }
  }

  lemma {:induction false} PowOne(d: nat)
    ensures Pow(1, d) == 1
  {
    if d > 0 {
      PowOne(d - 1);
    }
  }

  /** 2^32 - 1 raised to any positive power is 1 or 2^32 - 1 modulo 2^32. */
  lemma {:induction false} PowAllOnes(d: nat)
    requires d >= 1
    ensures Pow(WordModulus - 1, d) % WordModulus in {1, WordModulus - 1}
  {
    var m := WordModulus;
    if d > 1 {
      PowAllOnes(d - 1);
      var p := Pow(m - 1, d - 1);
      MulModRight(m - 1, p, p % m, m);
      assert (m - 1) * (m - 1) == (m - 2) * m + 1;
      ModAddMultiple(m - 2, 1, m);
    }
  }

  /** Below 2^32, neither i + 1 nor the powers of i and i + 1 wrap. */
  lemma NoWrap(i: nat, dim: nat)
    requires dim >= 1 && Pow(i + 1, dim) < WordModulus
    ensures (i + 1) % WordModulus == i + 1
    ensures Pow(i + 1, dim) % WordModulus == Pow(i + 1, dim)
    ensures Pow(i, dim) % WordModulus == Pow(i, dim)
  {
    PowAtLeastBase(i + 1, dim);
    PowMonotone(i, i + 1, dim);
  }

  /**
   * The search of lookup1_values from candidate i on, with both powers
   * wrapped to 32 bits as Codebook_Pow computes them: it stops at the
   * first i whose next power wraps below its own, equals entries, or
   * passes it.  The last candidate, 2^32 - 1, always stops the search
   * when dim >= 1, because i + 1 wraps to 0.
   */
  function Lookup1From(entries: u32, dim: u32, i: nat): (r: nat)
    requires 1 <= i < WordModulus
    ensures i <= r < WordModulus
    decreases WordModulus - i
  {
    var pow := Pow(i, dim) % WordModulus;
    var next := Pow((i + 1) % WordModulus, dim) % WordModulus;
    if next < pow || pow == entries || next > entries || i == WordModulus - 1 then i
    else Lookup1From(entries, dim, i + 1)
  }

  /** lookup1_values, which with dim 0 and at least two entries never returns. */
  function Lookup1Spec(entries: u32, dim: u32): Result<u32>
  {
    if dim == 0 && entries >= 2 then Fail(Hangs) else Ok(Lookup1From(entries, dim, 1))
  }

  /** One unfolding of the search, with the two powers already computed. */
  lemma Lookup1Step(entries: u32, dim: u32, i: nat, pow: nat, next: nat)
    requires 1 <= i < WordModulus
    requires pow == Pow(i, dim) % WordModulus
    requires next == Pow((i + 1) % WordModulus, dim) % WordModulus
    ensures next < pow || pow == entries || next > entries || i == WordModulus - 1 ==>
              Lookup1From(entries, dim, i) == i
    ensures !(next < pow || pow == entries || next > entries || i == WordModulus - 1) ==>
              Lookup1From(entries, dim, i) == Lookup1From(entries, dim, i + 1)
  {
  }

  /**
   * From a candidate whose power does not pass entries, the search stops
   * at the greatest r whose dim-th power does not exceed entries, as long
   * as the power of r + 1 does not wrap.
   */
  lemma {:induction false} Lookup1FromBounds(entries: u32, dim: u32, i: nat)
    requires 1 <= i < WordModulus && dim >= 1 && entries >= 1
    requires Pow(i, dim) < WordModulus ==> Pow(i, dim) <= entries
    decreases WordModulus - i
    ensures var r := Lookup1From(entries, dim, i);
            Pow(r + 1, dim) < WordModulus ==> Pow(r, dim) <= entries < Pow(r + 1, dim)
  {
    var pow := Pow(i, dim) % WordModulus;
    var next := Pow((i + 1) % WordModulus, dim) % WordModulus;
    PowMonotone(i, i + 1, dim);
    PowAtLeastBase(i + 1, dim);
    if Pow(i + 1, dim) < WordModulus {
      NoWrap(i, dim);
      PowStrict(i, i + 1, dim);
    }
    if !(next < pow || pow == entries || next > entries || i == WordModulus - 1) {
      Lookup1FromBounds(entries, dim, i + 1);
    }
  }

  /**
   * lookup1_values: the greatest r whose dim-th power does not exceed
   * entries.  With dim 0 and at least two entries no candidate ever ends
   * the search and the C loop never returns.
   */
  lemma Lookup1SpecBounds(entries: u32, dim: u32)
    ensures Lookup1Spec(entries, dim).Fail? <==> dim == 0 && entries >= 2
    ensures Lookup1Spec(entries, dim).Fail? ==> Lookup1Spec(entries, dim).error == Hangs
    ensures dim == 0 && entries < 2 ==> Lookup1Spec(entries, dim) == Ok(1)
    ensures Lookup1Spec(entries, dim).Ok? ==> Lookup1Spec(entries, dim).value >= 1
    ensures var r := Lookup1Spec(entries, dim);
            r.Ok? && entries >= 1 && dim >= 1 && Pow(r.value + 1, dim) < WordModulus ==>
              Pow(r.value, dim) <= entries < Pow(r.value + 1, dim)
  {
    PowOne(dim);
    if dim >= 1 && entries >= 1 {
      Lookup1FromBounds(entries, dim, 1);
    }
  }

  method Lookup1Values(entries: u32, dim: u32) returns (r: Result<u32>)
    ensures r == Lookup1Spec(entries, dim)
    ensures r.Fail? <==> dim == 0 && entries >= 2
    ensures r.Fail? ==> r.error == Hangs
    ensures dim == 0 && entries < 2 ==> r == Ok(1)
    ensures r.Ok? ==> r.value >= 1
    ensures r.Ok? && entries >= 1 && dim >= 1 && Pow(r.value + 1, dim) < WordModulus ==>
              Pow(r.value, dim) <= entries < Pow(r.value + 1, dim)
  {
    Lookup1SpecBounds(entries, dim);
    if dim == 0 && entries >= 2 {
      return Fail(Hangs);
    }
    var v := Lookup1Search(entries, dim);
    return Ok(v);
  }

  /** At i = 2^32 - 1, i + 1 wraps to 0, so next is 0 while pow is 1 or 2^32 - 1: the search stops. */
  lemma Lookup1NoWrap(dim: nat, i: nat, pow: nat, next: nat)
    requires dim >= 1 && i == WordModulus - 1
    requires pow == Pow(i, dim) % WordModulus && next == Pow((i + 1) % WordModulus, dim) % WordModulus
    ensures next < pow
  {
    assert (i + 1) % WordModulus == 0;
    assert next == 0;
    PowAllOnes(dim);
  }

  /** The search loop of lookup1_values, which stops at the first i whose next power is past entries. */
  method Lookup1Search(entries: u32, dim: u32) returns (v: u32)
    requires !(dim == 0 && entries >= 2)
    ensures v as nat == Lookup1From(entries, dim, 1)
  {
    var i: u32 := 1;
    while true
      invariant 1 <= i && (dim == 0 ==> i == 1)
      invariant Lookup1From(entries, dim, 1) == Lookup1From(entries, dim, i)
      decreases WordModulus - i
    {
      var pow := CodebookPow(i, dim);
      var next := CodebookPow((i + 1) % WordModulus, dim);
      Lookup1Step(entries, dim, i as nat, pow as nat, next as nat);
      if next < pow || pow == entries || next > entries {
        return i;
      }
      if i == WordModulus - 1 {
        Lookup1NoWrap(dim as nat, i as nat, pow as nat, next as nat);
        assert false;
      }
      i := i + 1;
    }
  }

  /** The result of lookup1_values is determined by its bounds. */
  lemma Lookup1Unique(entries: nat, dim: nat, r: nat, r': nat)
    requires dim >= 1
    requires Pow(r, dim) <= entries < Pow(r + 1, dim)
    requires Pow(r', dim) <= entries < Pow(r' + 1, dim)
    ensures r == r'
  {
    if r < r' {
      PowMonotone(r + 1, r', dim);
    } else if r' < r {
      PowMonotone(r' + 1, r, dim);
    }
  }

  /** The bounds single out 16 for (256, 2) and 10 for (100, 2). */
  lemma Lookup1Examples(r: nat, r': nat)
    requires Pow(r, 2) <= 256 < Pow(r + 1, 2)
    requires Pow(r', 2) <= 100 < Pow(r' + 1, 2)
    ensures r == 16 && r' == 10
  {
    assert Pow(16, 2) == 256 && Pow(17, 2) == 289;
    assert Pow(10, 2) == 100 && Pow(11, 2) == 121;
    Lookup1Unique(256, 2, r, 16);
    Lookup1Unique(100, 2, r', 10);
  }

  // ---------------------------------------------------------------------
  // The packed float of float32_unpack

  /** The fields of a packed float: value = (negative ? -1 : 1) * mantissa * 2^(exponent - 788). */
  datatype PackedFloat = PackedFloat(mantissa: nat, exponent: nat, negative: bool)
  {
    /** The signed mantissa the source multiplies by the power of two. */
    function SignedMantissa(): int
    {
      if negative then -(mantissa as int) else mantissa
    }
  }

  /** The field split of the 32-bit word: 21 mantissa bits, 10 exponent bits, 1 sign bit. */
  function SplitFloat(x: u32): (f: PackedFloat)
    ensures f.mantissa < Pow2(21) && f.exponent < Pow2(10)
    ensures f.negative <==> x >= Pow2(31)
  {
    assert Pow2(10) == 1024 && Pow2(21) == 0x20_0000 && Pow2(31) == 0x8000_0000;
    PackedFloat(x % 0x20_0000, (x / 0x20_0000) % 0x400, x >= 0x8000_0000)
  }

  /** The word a packed float is stored as. */
  function PackFloat(f: PackedFloat): int
  {
    (if f.negative then 0x8000_0000 else 0) + f.exponent * 0x20_0000 + f.mantissa
  }

  /** Splitting a word and packing the fields gives the word back. */
  lemma PackSplit(x: u32)
    ensures PackFloat(SplitFloat(x)) == x
  {
    var f := SplitFloat(x);
    var hi := x / 0x20_0000;
    assert x == hi * 0x20_0000 + x % 0x20_0000;
    assert hi == (hi / 0x400) * 0x400 + hi % 0x400;
    assert hi / 0x400 == (if x >= 0x8000_0000 then 1 else 0) by {
      ModProduct(x, 0x20_0000, 0x400);
    }
  }

  /** Packing in-range fields and splitting the word gives the fields back. */
  lemma SplitPack(f: PackedFloat)
    requires f.mantissa < 0x20_0000 && f.exponent < 0x400
    ensures 0 <= PackFloat(f) < WordModulus && SplitFloat(PackFloat(f)) == f
  {
    var s := if f.negative then 1 else 0;
    var x := PackFloat(f);
    var hi := s * 0x400 + f.exponent;
    assert x == hi * 0x20_0000 + f.mantissa;
    DivModUnique(x, hi, 0x20_0000, f.mantissa);
    DivModUnique(hi, s, 0x400, f.exponent);
  }
}
