/**
 * Shared vocabulary of the Ogg/Vorbis decoder model: byte and 32-bit word
 * types, the decoder's return codes, failure-compatible result types, and
 * the power-of-two arithmetic that the bit-level reasoning relies on.
 */
module Common {

  type byte = x: int | 0 <= x < 256

  const WordModulus: int := 0x1_0000_0000

  /** An unsigned 32-bit C integer (UInt32). */
  type u32 = x: int | 0 <= x < 0x1_0000_0000

  /** A signed 16-bit C integer (Int16). */
  type i16 = x: int | -0x8000 <= x < 0x8000

  /**
   * The return codes of the decoder.  EndOfStream stands for the fatal
   * error the byte source raises when it runs dry; OutOfBounds and Hangs
   * mark the places where the C code has no defined outcome (a table read
   * or written outside its bounds, a loop that never ends), and so does
   * DivideByZero (an integer division or remainder by zero); Aborted is a
   * call of the fatal error handler.
   */
  datatype Error =
    | OggInvalidSig | OggVersion
    | CodebookSync | CodebookEntry | CodebookLookup
    | MappingChans | MappingReserved
    | ModeWindow | ModeTransform
    | WrongHeader | InvalidArg | Version | BlockSize | Chans | Framing
    | TimeType | FloorType | MappingType | FrameType
    | EndOfStream | OutOfBounds | DivideByZero | Hangs | Aborted

  datatype Result<+T> = Ok(value: T) | Fail(error: Error) {
    predicate IsFailure() { Fail? }
    function PropagateFailure<U>(): Result<U>
      requires Fail?
    {
      Fail(error)
    }
    function Extract(): T
      requires Ok?
    {
      value
    }
  }

  /** A return code with no value: 0 in the source, or an error. */
  datatype Outcome = Pass | Stop(error: Error) {
    predicate IsFailure() { Stop? }
    function PropagateFailure<U>(): Result<U>
      requires Stop?
    {
      Fail(error)
    }
  }

  /** A C integer stored into an Int16: the low 16 bits, read as signed. */
  function ToI16(x: int): (r: i16)
    ensures -0x8000 <= x < 0x8000 ==> r == x
    ensures (r - x) % 0x1_0000 == 0
  {
    (x + 0x8000) % 0x1_0000 - 0x8000
  }

  function Pow2(n: nat): (r: nat)
    ensures r >= 1
  {
    if n == 0 then 1 else 2 * Pow2(n - 1)
  }

  function Pow(b: int, e: nat): int
  {
    if e == 0 then 1 else b * Pow(b, e - 1)
  }

  function Min(a: int, b: int): int { if a <= b then a else b }
  function Max(a: int, b: int): int { if a >= b then a else b }

  /** Little-endian value of a byte string: byte k weighs 256^k. */
  function LE(s: seq<byte>): nat
  {
    if s == [] then 0 else s[0] + 256 * LE(s[1..])
  }

  /** Big-endian value of a byte string. */
  function BE(s: seq<byte>): nat
  {
    if s == [] then 0 else BE(s[..|s| - 1]) * 256 + s[|s| - 1]
  }

  lemma {:induction false} Pow2Add(a: nat, b: nat)
    ensures Pow2(a + b) == Pow2(a) * Pow2(b)
  {
    if a > 0 {
      Pow2Add(a - 1, b);
      assert Pow2(a + b) == 2 * Pow2(a - 1 + b);
      assert Pow2(a) == 2 * Pow2(a - 1);
      assert 2 * (Pow2(a - 1) * Pow2(b)) == (2 * Pow2(a - 1)) * Pow2(b);
    }
  }

  lemma {:induction false} Pow2Monotone(a: nat, b: nat)
    requires a <= b
    ensures Pow2(a) <= Pow2(b)
  {
    if a < b {
      Pow2Monotone(a, b - 1);
    }
  }

  lemma {:induction false} Pow2Strict(a: nat, b: nat)
    requires a < b
    ensures Pow2(a) < Pow2(b)
  {
    Pow2Monotone(a, b - 1);
  }

  /** A width below 16 bits holds values below 2^15 or 2^15 itself. */
  lemma Pow2Below16(n: nat)
    requires n < 16
    ensures Pow2(n) <= 0x8000
  {
    Pow2Monotone(n, 15);
    assert Pow2(15) == 0x8000;
  }

  lemma MulAtLeast(a: int, p: int)
    requires a >= 1 && p > 0
    ensures a * p >= p
  {
    assert a * p == (a - 1) * p + p;
  }

  /** A positive base raised to any power is positive. */
  lemma {:induction false} PowAtLeastOne(b: nat, i: nat)
    requires b >= 1
    ensures Pow(b, i) >= 1
  {
    if i > 0 {
      PowAtLeastOne(b, i - 1);
      MulAtLeast(b, Pow(b, i - 1));
    }
  }

  lemma MulStep(a: int, w: int)
    ensures (a + 1) * w == a * w + w
  {
  }

  lemma MulMonotone(a: int, b: int, w: int)
    requires a <= b && w >= 0
    ensures a * w <= b * w
  {
    assert b * w - a * w == (b - a) * w;
  }

  /** Euclidean division: quotient times divisor plus remainder. */
  lemma DivModSplit(x: int, p: int)
    requires p > 0
    ensures x == (x / p) * p + x % p && 0 <= x % p < p
  {
  }

  /** A product of natural numbers is natural. */
  lemma MulNat(a: nat, b: nat)
    ensures a * b >= 0
  {
  }

  /** A natural number divided by a positive one stays natural. */
  lemma DivNat(x: nat, p: int)
    requires p > 0
    ensures x / p >= 0
  {
    assert (x / p + 1) * p == x - x % p + p;
  }

  /** Euclidean division is determined by quotient and remainder. */
  lemma DivModUnique(x: int, q: int, p: int, r: int)
    requires p > 0 && 0 <= r < p && x == q * p + r
    ensures x / p == q && x % p == r
  {
    var q', r' := x / p, x % p;
    assert x == q' * p + r';
    if q' > q {
      assert (q' - q) * p == q' * p - q * p;
      MulAtLeast(q' - q, p);
    } else if q' < q {
      assert (q - q') * p == q * p - q' * p;
      MulAtLeast(q - q', p);
    }
  }

  lemma MulDistrib(q1: int, pa: int, q2: int, pb: int, r2: int)
    requires q1 == q2 * pb + r2
    ensures q1 * pa == q2 * (pa * pb) + r2 * pa
  {
    assert (q2 * pb + r2) * pa == q2 * pb * pa + r2 * pa;
  }

  lemma DigitBound(r2: int, pa: int, pb: int, r1: int)
    requires 0 <= r2 < pb && 0 <= r1 < pa
    ensures 0 <= r2 * pa + r1 < pa * pb
  {
    MulNat(r2, pa);
    MulMonotone(r2, pb - 1, pa);
    MulStep(pb - 1, pa);
    assert pa * pb == pb * pa;
  }

  /** The low digits in base p, then the next digit in base q, make the value mod p*q. */
  lemma ModProduct(x: nat, p: int, q: int)
    requires p > 0 && q > 0
    ensures (x / p) % q * p + x % p == x % (p * q)
    ensures x / p / q == x / (p * q)
  {
    var q1, r1 := x / p, x % p;
    var q2, r2 := q1 / q, q1 % q;
    MulDistrib(q1, p, q2, q, r2);
    DigitBound(r2, p, q, r1);
    DivModUnique(x, q2, p * q, r2 * p + r1);
  }

  /** Dividing by 2^a then by 2^b is dividing by 2^(a+b). */
  lemma DivDiv(x: nat, a: nat, b: nat)
    ensures x / Pow2(a) / Pow2(b) == x / Pow2(a + b)
  {
    Pow2Add(a, b);
    ModProduct(x, Pow2(a), Pow2(b));
  }

  lemma SplitLowProduct(b: nat, L: nat, p: int, q: int)
    requires p > 0 && q > 0 && b < p * q
    ensures (b + p * q * L) % p == b % p
    ensures (b + p * q * L) / p == b / p + q * L
  {
    var x := b + p * q * L;
    assert b == (b / p) * p + b % p;
    assert p * q * L == (q * L) * p;
    assert x == (b / p + q * L) * p + b % p;
    DivModUnique(x, b / p + q * L, p, b % p);
  }

  /**
   * Splitting a value whose low part lies below 2^(n+k): the low n bits
   * come from the low part, and the high part is shifted down by n.
   */
  lemma SplitLow(b: nat, L: nat, n: nat, k: nat)
    requires b < Pow2(n + k)
    ensures (b + Pow2(n + k) * L) % Pow2(n) == b % Pow2(n)
    ensures (b + Pow2(n + k) * L) / Pow2(n) == b / Pow2(n) + Pow2(k) * L
  {
    Pow2Add(n, k);
    SplitLowProduct(b, L, Pow2(n), Pow2(k));
  }

  /** The powers of two of the narrow fields. */
  lemma Pow2Small()
    ensures Pow2(1) == 2 && Pow2(2) == 4 && Pow2(3) == 8 && Pow2(4) == 16 && Pow2(5) == 32
    ensures Pow2(8) == 256
  {
  }

  /** The powers of two the field widths of the decoder need. */
  lemma Pow2Values()
    ensures Pow2(1) == 2 && Pow2(2) == 4 && Pow2(3) == 8 && Pow2(4) == 16 && Pow2(5) == 32
    ensures Pow2(6) == 64 && Pow2(8) == 256 && Pow2(16) == 0x1_0000 && Pow2(24) == 0x100_0000
  {
    assert Pow2(8) == 256;
    Pow2Add(8, 8);
    Pow2Add(16, 8);
  }

  /** 2^32 is the word modulus. */
  lemma Pow2Word()
    ensures Pow2(31) < WordModulus && Pow2(32) == WordModulus
  {
    assert Pow2(16) == 65536;
    assert Pow2(15) == 32768;
    Pow2Add(16, 15);
    Pow2Add(16, 16);
  }

  /** The powers of two of the top four bits of a word. */
  lemma Pow2Top()
    ensures Pow2(28) == 0x1000_0000 && Pow2(29) == 0x2000_0000
    ensures Pow2(30) == 0x4000_0000 && Pow2(31) == 0x8000_0000
  {
    assert Pow2(16) == 0x1_0000 && Pow2(12) == 0x1000;
    Pow2Add(16, 12);
  }
}
