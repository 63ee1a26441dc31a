/**
 * Decoding with a codebook: Codebook_DecodeScalar, which reads one bit at
 * a time into a 32-bit register and looks for an entry whose length is
 * the number of bits read and whose codeword equals the register, and the
 * integer index selection of the two vector lookup types.
 *
 * The register takes each new bit at bit 31 after shifting right by one,
 * so the first bit read ends up lowest of the d bits read.  The canonical
 * codewords keep the first bit of a code highest; the two orders agree
 * only for codes that read the same both ways (ScalarReversed shows one
 * that does not).
 */
module CodebookDecode {
  import opened Common
  import opened BitStream
  import opened Integers
  import opened Codewords

  // ---------------------------------------------------------------------
  // Codebook_DecodeScalar

  /** The three tables of a codebook have one slot per codeword. */
  predicate WellSized(t: CodeTable)
  {
    |t.lengths| == |t.codewords| && |t.values| == |t.codewords|
  }

  /** The register after d bits of the stream value v: the d bits, first read lowest, at the top. */
  function Window(v: nat, d: nat): (w: nat)
    requires d <= 32
    ensures w < WordModulus
  {
    WindowBound(v, d);
    PeekBits(v, d) * Pow2(32 - d)
  }

  lemma WindowBound(v: nat, d: nat)
    requires d <= 32
    ensures PeekBits(v, d) * Pow2(32 - d) < WordModulus
  {
    Pow2Add(d, 32 - d);
    Pow2Word();
    ProductBelow(PeekBits(v, d), Pow2(d), Pow2(32 - d));
  }

  lemma ProductBelow(a: nat, p: nat, q: nat)
    requires a < p && q >= 1
    ensures a * q < p * q
  {
    MulMonotone(a, p - 1, q);
    MulStep(p - 1, q);
  }

  lemma StepArith(a: nat, b: nat, p: nat, q: nat)
    ensures (a * (2 * q)) / 2 + b * (p * q) == (b * p + a) * q
  {
    assert a * (2 * q) == (a * q) * 2;
    DivModUnique(a * (2 * q), a * q, 2, 0);
    assert b * (p * q) == (b * p) * q;
  }

  /** One step of the register: shift right by one, the next bit in at bit 31. */
  lemma WindowStep(v: nat, d: nat)
    requires d < 32
    ensures Window(v, d) / 2 + PeekBits(ConsumeBits(v, d), 1) * Pow2(31) == Window(v, d + 1)
  {
    var p := Pow2(d);
    var q := Pow2(31 - d);
    assert Pow2(32 - d) == 2 * q by {
      assert 32 - d - 1 == 31 - d;
    }
    Pow2Values();
    Pow2Add(d, 1);
    Pow2Add(d, 31 - d);
    ModProduct(v, p, 2);
    StepArith(PeekBits(v, d), PeekBits(ConsumeBits(v, d), 1), p, q);
  }

  /** The register holds the first bit read at its lowest position of the d, the last at bit 31. */
  lemma WindowOrder(v: nat, d: nat)
    requires 1 <= d <= 32
    ensures (Window(v, d) / Pow2(32 - d)) % 2 == v % 2
    ensures Window(v, d) / Pow2(31) == (v / Pow2(d - 1)) % 2
  {
    WindowLowBit(v, d);
    WindowHighBit(v, d);
  }

  lemma WindowLowBit(v: nat, d: nat)
    requires 1 <= d <= 32
    ensures (Window(v, d) / Pow2(32 - d)) % 2 == v % 2
  {
    var a := PeekBits(v, d);
    DivModUnique(Window(v, d), a, Pow2(32 - d), 0);
    Pow2Add(1, d - 1);
    assert Pow2(1) == 2;
    ModProduct(v, 2, Pow2(d - 1));
    DivModUnique(a, (v / 2) % Pow2(d - 1), 2, v % 2);
  }

  lemma WindowHighBit(v: nat, d: nat)
    requires 1 <= d <= 32
    ensures Window(v, d) / Pow2(31) == (v / Pow2(d - 1)) % 2
  {
    var a := PeekBits(v, d);
    Pow2Add(1, d - 1);
    assert Pow2(1) == 2;
    ModProduct(v, Pow2(d - 1), 2);
    DivModUnique(a, (v / Pow2(d - 1)) % 2, Pow2(d - 1), v % Pow2(d - 1));
    Pow2Add(d - 1, 32 - d);
    assert Window(v, d) == a * Pow2(32 - d);
    DivDivProductExact(a, Pow2(32 - d), Pow2(d - 1));
  }

  lemma DivDivProductExact(a: nat, p: int, q: int)
    requires p > 0 && q > 0
    ensures (a * p) / (q * p) == a / q
  {
    ModProduct(a * p, p, q);
    DivModUnique(a * p, a, p, 0);
    assert p * q == q * p;
  }

  /** The first entry from i on with length d and codeword w, or -1. */
  function FirstMatch(t: CodeTable, d: nat, w: nat, i: nat): (k: int)
    requires WellSized(t)
    decreases |t.codewords| - i
    ensures k == -1 || i <= k < |t.codewords|
    ensures k >= 0 ==> t.lengths[k] == d && t.codewords[k] == w
    ensures forall j | i <= j < |t.codewords| && (k < 0 || j < k) ::
              !(t.lengths[j] == d && t.codewords[j] == w)
  {
    if i >= |t.codewords| then -1
    else if t.lengths[i] == d && t.codewords[i] == w then i
    else FirstMatch(t, d, w, i + 1)
  }

  /**
   * The decode of Codebook_DecodeScalar from depth d on: the first depth
   * whose register matches an entry gives that entry's value and leaves
   * the stream after the bits read; past depth 32 the source calls its
   * fatal error handler.
   */
  function ScalarDecode(s: Bits, t: CodeTable, d: nat): (r: Result<(nat, Bits)>)
    requires WellSized(t) && 1 <= d <= 33
    decreases 33 - d
    ensures r.Fail? ==> r.error == Aborted || r.error == EndOfStream
    ensures r.Ok? ==> r.value.0 in t.values && r.value.1.length < s.length
  {
    if d == 33 then Fail(Aborted)
    else if s.length < d then Fail(EndOfStream)
    else
      var k := FirstMatch(t, d, Window(s.value, d), 0);
      if k >= 0 then Ok((t.values[k], Bits(ConsumeBits(s.value, d), s.length - d)))
      else ScalarDecode(s, t, d + 1)
  }

  /** One depth of the decode: too few bits, a match, or the next depth. */
  lemma ScalarDecodeAt(s: Bits, t: CodeTable, d: nat)
    requires WellSized(t) && 1 <= d <= 32
    ensures s.length < d ==> ScalarDecode(s, t, d) == Fail(EndOfStream)
    ensures s.length >= d ==>
              var k := FirstMatch(t, d, Window(s.value, d), 0);
              ScalarDecode(s, t, d) ==
                if k >= 0 then Ok((t.values[k], Bits(ConsumeBits(s.value, d), s.length - d)))
                else ScalarDecode(s, t, d + 1)
  {
  }

  /** The inner search of Codebook_DecodeScalar over the codewords. */
  method FindEntry(t: CodeTable, d: nat, w: nat) returns (k: int)
    requires WellSized(t)
    ensures k == FirstMatch(t, d, w, 0)
  {
    var i := 0;
    while i < |t.codewords|
      invariant i <= |t.codewords| && FirstMatch(t, d, w, 0) == FirstMatch(t, d, w, i)
    {
      if d == t.lengths[i] && w == t.codewords[i] {
        return i;
      }
      i := i + 1;
    }
    return -1;
  }

  /** Reads the bit at depth d into the register, shifting it right by one. */
  method ShiftIn(br: BitReader, ghost s: Bits, d: nat, codeword: nat) returns (r: Result<nat>)
    requires br.Valid() && 1 <= d <= 32 && s.length >= d - 1
    requires codeword == Window(s.value, d - 1)
    requires br.View() == Bits(ConsumeBits(s.value, d - 1), s.length - (d - 1))
    modifies br
    ensures br.Valid() && br.src == old(br.src)
    ensures r.Fail? ==> r.error == EndOfStream && s.length < d
    ensures r.Ok? ==> s.length >= d && r.value == Window(s.value, d) &&
                      br.View() == Bits(ConsumeBits(s.value, d), s.length - d)
  {
    var bit :- br.ReadBits(1);
    WindowStep(s.value, d - 1);
    ConsumeConsume(s.value, d - 1, 1);
    Pow2Small();
    return Ok(codeword / 2 + bit * Pow2(31));
  }

  method DecodeScalar(br: BitReader, t: CodeTable) returns (r: Result<nat>)
    requires br.Valid() && WellSized(t)
    modifies br
    ensures br.Valid() && br.src == old(br.src)
    ensures ScalarDecode(old(br.View()), t, 1) ==
              if r.Ok? then Ok((r.value, br.View())) else Fail(r.error)
  {
    ghost var s := br.View();
    var codeword: nat := 0;
    var depth := 1;
    assert Window(s.value, 0) == 0 && ConsumeBits(s.value, 0) == s.value by {
      assert Pow2(0) == 1;
    }
    while depth <= 32
      invariant 1 <= depth <= 33 && br.Valid() && br.src == old(br.src)
      invariant codeword == Window(s.value, depth - 1)
      invariant s.length >= depth - 1
      invariant br.View() == Bits(ConsumeBits(s.value, depth - 1), s.length - (depth - 1))
      invariant ScalarDecode(s, t, 1) == ScalarDecode(s, t, depth)
    {
      var next := ShiftIn(br, s, depth, codeword);
      ScalarDecodeAt(s, t, depth);
      if next.Fail? {
        return Fail(next.error);
      }
      codeword := next.value;
      var k := FindEntry(t, depth, codeword);
      if k >= 0 {
        return Ok(t.values[k]);
      }
      depth := depth + 1;
    }
    return Fail(Aborted);
  }

  /**
   * The decode finds the entry at the first depth whose register matches:
   * an entry matching at depth d, with no match at the depths before it,
   * is the result, and the stream moves on by d bits.
   */
  lemma {:induction false} ScalarDecodeFound(s: Bits, t: CodeTable, d0: nat, d: nat)
    requires WellSized(t) && 1 <= d0 <= d <= 32 && s.length >= d
    requires FirstMatch(t, d, Window(s.value, d), 0) >= 0
    requires forall e | d0 <= e < d :: FirstMatch(t, e, Window(s.value, e), 0) < 0
    ensures ScalarDecode(s, t, d0) ==
              Ok((t.values[FirstMatch(t, d, Window(s.value, d), 0)],
                  Bits(ConsumeBits(s.value, d), s.length - d)))
    decreases d - d0
  {
    if d0 < d {
      ScalarDecodeFound(s, t, d0 + 1, d);
    }
  }

  /** With 32 bits available and no match at any depth, the decode aborts. */
  lemma {:induction false} ScalarDecodeExhausted(s: Bits, t: CodeTable, d0: nat)
    requires WellSized(t) && 1 <= d0 <= 33 && s.length >= 32
    requires forall e | d0 <= e <= 32 :: FirstMatch(t, e, Window(s.value, e), 0) < 0
    ensures ScalarDecode(s, t, d0) == Fail(Aborted)
    decreases 33 - d0
  {
    if d0 <= 32 {
      ScalarDecodeExhausted(s, t, d0 + 1);
    }
  }

  /** The canonical table for lengths 1, 2, 2: codes 0, 10 and 11. */
  function OneTwoTwo(): CodeTable
  {
    CodeTable([0, 0x8000_0000, 0xC000_0000], [1, 2, 2], [0, 1, 2])
  }

  /**
   * The stream 1 then 0 is the code 10 of entry 1 read first bit first,
   * yet the register holds 01 and no entry matches; the stream 1 then 1
   * reads the same both ways and decodes to entry 2.
   */
  lemma ScalarReversed()
    ensures ScalarDecode(Bits(1, 2), OneTwoTwo(), 1) == Fail(EndOfStream)
    ensures ScalarDecode(Bits(3, 2), OneTwoTwo(), 1) == Ok((2, Bits(0, 0)))
  {
    ScalarReversedTen();
    ScalarReversedEleven();
  }

  /** The stream 1 then 0 matches no entry at depth 1 or 2 and then runs dry. */
  lemma ScalarReversedTen()
    ensures ScalarDecode(Bits(1, 2), OneTwoTwo(), 1) == Fail(EndOfStream)
  {
    HighPowers();
    assert Window(1, 1) == 0x8000_0000;
    assert Window(1, 2) == 0x4000_0000;
    assert FirstMatch(OneTwoTwo(), 1, 0x8000_0000, 0) == -1;
    assert FirstMatch(OneTwoTwo(), 2, 0x4000_0000, 0) == -1;
  }

  /** The stream 1 then 1 matches no entry at depth 1 and entry 2 at depth 2. */
  lemma ScalarReversedEleven()
    ensures ScalarDecode(Bits(3, 2), OneTwoTwo(), 1) == Ok((2, Bits(0, 0)))
  {
    HighPowers();
    assert Window(3, 1) == 0x8000_0000;
    assert Window(3, 2) == 0xC000_0000;
    assert FirstMatch(OneTwoTwo(), 1, 0x8000_0000, 0) == -1;
    assert FirstMatch(OneTwoTwo(), 2, 0xC000_0000, 0) == 2;
  }

  lemma HighPowers()
    ensures Pow2(0) == 1 && Pow2(1) == 2 && Pow2(2) == 4
    ensures Pow2(30) == 0x4000_0000 && Pow2(31) == 0x8000_0000
  {
    Pow2Values();
    Pow2Add(24, 6);
    Pow2Add(30, 1);
  }

  // ---------------------------------------------------------------------
  // The vector lookup index selection

  /** The n lowest base-b digits of x, least significant first. */
  function Digits(x: nat, b: nat, n: nat): (r: seq<nat>)
    requires b >= 1
    ensures |r| == n && forall i | 0 <= i < n :: r[i] < b
    decreases n
  {
    if n == 0 then [] else [x % b] + Digits(x / b, b, n - 1)
  }

  /** The value of a digit string, least significant first. */
  function FromDigits(ds: seq<nat>, b: nat): nat
  {
    if ds == [] then 0 else ds[0] + b * FromDigits(ds[1..], b)
  }

  /** Digit i of x is x divided by b^i, reduced mod b. */
  lemma {:induction false} DigitsAt(x: nat, b: nat, n: nat, i: nat)
    requires b >= 1 && i < n
    ensures Pow(b, i) >= 1 && Digits(x, b, n)[i] == (x / Pow(b, i)) % b
    decreases i
  {
    PowAtLeastOne(b, i);
    DigitsTail(x, b, n);
    if i == 0 {
      DivModUnique(x, x, 1, 0);
    } else {
      DigitsAt(x / b, b, n - 1, i - 1);
      DivPowStep(x, b, i);
    }
  }

  lemma DivPowStep(x: nat, b: nat, i: nat)
    requires b >= 1 && i >= 1
    ensures Pow(b, i - 1) >= 1 && Pow(b, i) >= 1 && x / b / Pow(b, i - 1) == x / Pow(b, i)
  {
    PowAtLeastOne(b, i - 1);
    PowAtLeastOne(b, i);
    ModProduct(x, b, Pow(b, i - 1));
  }


  lemma RoundTripStep(x: nat, b: nat, B: nat)
    requires b >= 1 && B >= 1
    ensures x % b + b * ((x / b) % B) == x % (b * B)
  {
    ModProduct(x, b, B);
    assert (x / b) % B * b == b * ((x / b) % B);
  }

  lemma DigitsTail(x: nat, b: nat, n: nat)
    requires b >= 1 && n >= 1
    ensures Digits(x, b, n) == [x % b] + Digits(x / b, b, n - 1)
  {
  }

  /** The digits give x back, up to the digits they do not reach. */
  lemma {:induction false} DigitsRoundTrip(x: nat, b: nat, n: nat)
    requires b >= 1
    ensures Pow(b, n) >= 1 && FromDigits(Digits(x, b, n), b) == x % Pow(b, n)
    decreases n
  {
    PowAtLeastOne(b, n);
    if n > 0 {
      var B := Pow(b, n - 1);
      DigitsTail(x, b, n);
      DigitsRoundTrip(x / b, b, n - 1);
      PowAtLeastOne(b, n - 1);
      RoundTripStep(x, b, B);
      assert Pow(b, n) == b * B;
    }
  }

  lemma {:induction false} PowExpMonotone(b: nat, i: nat, j: nat)
    requires b >= 1 && i <= j
    ensures Pow(b, i) <= Pow(b, j)
    decreases j
  {
    if i < j {
      PowExpMonotone(b, i, j - 1);
      PowAtLeastOne(b, j - 1);
      MulAtLeast(b, Pow(b, j - 1));
    }
  }

  /**
   * The offsets Codebook_DecodeVQ_Type1 reads the multiplicands at: digit
   * i of the lookup offset in base lookupValues, the divisor kept as a
   * wrapping 32-bit product.  A zero divisor or a zero lookupValues is a
   * division by zero.
   */
  method VQ1Offsets(lookupOffset: u32, dims: u32, lookupValues: u32) returns (r: Result<seq<nat>>)
    ensures r.Fail? ==> r.error == DivideByZero
    ensures lookupValues == 0 && dims > 0 ==> r.Fail?
    ensures r.Ok? ==> |r.value| == dims && forall i | 0 <= i < dims :: r.value[i] < lookupValues
    ensures lookupValues >= 1 && (dims == 0 || Pow(lookupValues, dims - 1) < WordModulus) ==>
              r == Ok(Digits(lookupOffset, lookupValues, dims))
  {
    var offsets: seq<nat> := [];
    var divisor: u32 := 1;
    ghost var exact := lookupValues >= 1 && (dims == 0 || Pow(lookupValues, dims - 1) < WordModulus);
    while |offsets| < dims
      invariant |offsets| <= dims
      invariant forall i | 0 <= i < |offsets| :: offsets[i] < lookupValues
      invariant lookupValues == 0 ==> offsets == []
      invariant exact ==> divisor == Pow(lookupValues, |offsets|) % WordModulus &&
                          offsets == Digits(lookupOffset, lookupValues, dims)[..|offsets|]
    {
      if exact {
        DigitStep(lookupOffset, lookupValues, dims, divisor, offsets);
      }
      if divisor == 0 || lookupValues == 0 {
        return Fail(DivideByZero);
      }
      offsets := offsets + [(lookupOffset / divisor) % lookupValues];
      divisor := (divisor * lookupValues) % WordModulus;
    }
    assert exact ==> offsets == Digits(lookupOffset, lookupValues, dims);
    return Ok(offsets);
  }

  /**
   * While b^(dims-1) fits a word, the divisor of pass i is b^i itself and
   * the digit it gives is digit i of x.
   */
  lemma DigitStep(x: nat, b: nat, dims: nat, divisor: nat, offsets: seq<nat>)
    requires b >= 1 && dims >= 1 && Pow(b, dims - 1) < WordModulus && |offsets| < dims
    requires divisor == Pow(b, |offsets|) % WordModulus && offsets == Digits(x, b, dims)[..|offsets|]
    ensures divisor == Pow(b, |offsets|) >= 1
    ensures offsets + [(x / divisor) % b] == Digits(x, b, dims)[..|offsets| + 1]
    ensures (divisor * b) % WordModulus == Pow(b, |offsets| + 1) % WordModulus
  {
    var i := |offsets|;
    PowExpMonotone(b, i, dims - 1);
    PowAtLeastOne(b, i);
    DigitsPrefixStep(x, b, dims, i);
    PowModStep(b, i);
  }

  /** The first i + 1 digits are the first i and then digit i. */
  lemma DigitsPrefixStep(x: nat, b: nat, n: nat, i: nat)
    requires b >= 1 && i < n
    ensures Pow(b, i) >= 1
    ensures Digits(x, b, n)[..i + 1] == Digits(x, b, n)[..i] + [(x / Pow(b, i)) % b]
  {
    DigitsAt(x, b, n, i);
    assert Digits(x, b, n)[..i + 1] == Digits(x, b, n)[..i] + [Digits(x, b, n)[i]];
  }

  lemma PowModStep(b: nat, i: nat)
    requires b >= 1 && Pow(b, i) < WordModulus
    ensures (Pow(b, i) % WordModulus * b) % WordModulus == Pow(b, i + 1) % WordModulus
  {
    PowAtLeastOne(b, i);
    assert Pow(b, i) % WordModulus == Pow(b, i);
    assert Pow(b, i + 1) == b * Pow(b, i);
  }

  /**
   * The offsets Codebook_DecodeVQ_Type2 reads the multiplicands at: dims
   * consecutive slots from lookupOffset * dims, all in 32-bit arithmetic.
   */
  method VQ2Offsets(lookupOffset: u32, dims: u32) returns (r: seq<nat>)
    ensures |r| == dims
    ensures forall i | 0 <= i < dims :: r[i] == (lookupOffset * dims + i) % WordModulus
  {
    r := [];
    ghost var start := lookupOffset * dims;
    var offset: u32 := lookupOffset * dims % WordModulus;
    while |r| < dims
      invariant |r| <= dims && offset == (start + |r|) % WordModulus
      invariant forall i | 0 <= i < |r| :: r[i] == (start + i) % WordModulus
    {
      ModSucc(start + |r|);
      r := r + [offset];
      offset := (offset + 1) % WordModulus;
    }
  }

  lemma ModSucc(x: nat)
    ensures (x % WordModulus + 1) % WordModulus == (x + 1) % WordModulus
  {
    var q, m := x / WordModulus, x % WordModulus;
    if m + 1 < WordModulus {
      DivModUnique(x + 1, q, WordModulus, m + 1);
    } else {
      DivModUnique(x + 1, q + 1, WordModulus, 0);
    }
  }

  /**
   * For an entry of a type 2 codebook, whose lookupValues is entries *
   * dims without wrapping, the offsets stay inside the multiplicands.
   */
  lemma VQ2InBounds(lookupOffset: nat, entries: nat, dims: nat, i: nat)
    requires lookupOffset < entries && i < dims && entries * dims < WordModulus
    ensures (lookupOffset * dims + i) % WordModulus == lookupOffset * dims + i
    ensures lookupOffset * dims + i < entries * dims
  {
    assert (entries - 1 - lookupOffset) * dims >= 0;
    assert entries * dims == lookupOffset * dims + dims + (entries - 1 - lookupOffset) * dims;
  }
}
