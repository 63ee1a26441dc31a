/**
 * The Vorbis bit reader: a 32-bit accumulator `Bits` holding `NumBits`
 * pending bits, refilled a byte at a time from the packet byte source and
 * drained least-significant bit first (section 2 of the Vorbis I
 * specification).  The same object also serves the byte-level reads the
 * header decoders make directly on the source.
 *
 * The accumulator is kept as a natural number.  Valid() keeps it below
 * 2^NumBits, so the source's `Bits |= byte << NumBits` is an addition,
 * `Bits & ((1 << n) - 1)` is `Bits % 2^n` and `Bits >>= n` is `Bits / 2^n`;
 * and since NumBits never exceeds 31, the word always fits in 32 bits.
 */
module BitStream {
  import opened Common

  /** 2^(a+b) * L split as 2^a * (2^b * L). */
  lemma ShiftDistrib(bits: nat, b: nat, nb: nat, L: nat)
    ensures bits + b * Pow2(nb) + Pow2(nb + 8) * L == bits + Pow2(nb) * (b + 256 * L)
  {
    Pow2Add(nb, 8);
    assert Pow2(8) == 256;
    assert Pow2(nb) * (b + 256 * L) == b * Pow2(nb) + (Pow2(nb) * 256) * L;
  }

  lemma InsertBound(bits: nat, b: byte, nb: nat)
    requires bits < Pow2(nb)
    ensures bits + b * Pow2(nb) < Pow2(nb + 8)
  {
    Pow2Add(nb, 8);
    assert Pow2(8) == 256;
    assert b * Pow2(nb) <= 255 * Pow2(nb);
  }

  lemma DivBelow(x: nat, p: nat, q: nat)
    requires p > 0 && x < p * q
    ensures x / p < q
  {
    assert x == (x / p) * p + x % p;
  }

  /** Vorbis_PeekBits: the low n bits of the accumulator. */
  function PeekBits(bits: nat, n: nat): (r: nat)
    ensures r < Pow2(n)
  {
    bits % Pow2(n)
  }

  /** Vorbis_ConsumeBits: the accumulator shifted down by n. */
  function ConsumeBits(bits: nat, n: nat): nat
  {
    DivNat(bits, Pow2(n));
    bits / Pow2(n)
  }

  /** Consuming a bits, then b bits, consumes a + b bits. */
  lemma ConsumeConsume(x: nat, a: nat, b: nat)
    ensures ConsumeBits(ConsumeBits(x, a), b) == ConsumeBits(x, a + b)
  {
    DivDiv(x, a, b);
  }

  /** Reading n bits off the pending value: the low n bits, then the rest. */
  lemma TakeBits(bits: nat, L: nat, nb: nat, n: nat)
    requires n <= nb && bits < Pow2(nb)
    ensures (bits + Pow2(nb) * L) % Pow2(n) == PeekBits(bits, n)
    ensures (bits + Pow2(nb) * L) / Pow2(n) == ConsumeBits(bits, n) + Pow2(nb - n) * L
    ensures ConsumeBits(bits, n) < Pow2(nb - n)
  {
    assert n + (nb - n) == nb;
    SplitLow(bits, L, n, nb - n);
    Pow2Add(n, nb - n);
    DivBelow(bits, Pow2(n), Pow2(nb - n));
  }

  lemma EvenShift(x: int, h: int)
    ensures (x + 2 * h) % 2 == x % 2
  {
  }

  lemma DoubleTimes(p: int, L: int)
    ensures (2 * p) * L == 2 * (p * L)
  {
  }

  lemma FirstByteBit(s0: byte, L: nat, b: nat)
    requires b < 8
    ensures ((s0 + 256 * L) / Pow2(b)) % 2 == (s0 / Pow2(b)) % 2
  {
    assert Pow2(8) == 256;
    assert b + (8 - b) == 8;
    SplitLow(s0, L, b, 8 - b);
    var h := Pow2(7 - b) * L;
    assert Pow2(8 - b) == 2 * Pow2(7 - b);
    DoubleTimes(Pow2(7 - b), L);
    var x := s0 / Pow2(b);
    assert (s0 + 256 * L) / Pow2(b) == x + 2 * h;
    EvenShift(x, h);
  }

  lemma DropFirstByte(s0: byte, L: nat, m: nat)
    ensures (s0 + 256 * L) / Pow2(8 + m) == L / Pow2(m)
  {
    assert Pow2(8) == 256;
    SplitLow(s0, L, 8, 0);
    assert (s0 + 256 * L) / Pow2(8) == L;
    DivDiv(s0 + 256 * L, 8, m);
  }

  /**
   * The bit order of the stream: bit b of byte k is bit 8k+b of the
   * little-endian value that the reader drains from the bottom.
   */
  lemma {:induction false} StreamBitOrder(s: seq<byte>, k: nat, b: nat)
    requires k < |s| && b < 8
    ensures (LE(s) / Pow2(8 * k + b)) % 2 == (s[k] / Pow2(b)) % 2
  {
    var L := LE(s[1..]);
    assert LE(s) == s[0] + 256 * L;
    if k == 0 {
      FirstByteBit(s[0], L, b);
    } else {
      DropFirstByte(s[0], L, 8 * (k - 1) + b);
      assert 8 + (8 * (k - 1) + b) == 8 * k + b;
      StreamBitOrder(s[1..], k - 1, b);
      assert s[1..][k - 1] == s[k];
    }
  }

  /** The bits still to be read, least significant first, and how many there are. */
  datatype Bits = Bits(value: nat, length: nat)

  /** Reading an n-bit field off the stream: its value and the stream after it. */
  function ReadField(s: Bits, n: nat): (r: Result<(nat, Bits)>)
    ensures r.Fail? <==> s.length < n
    ensures r.Fail? ==> r.error == EndOfStream
    ensures r.Ok? ==> r.value.0 < Pow2(n) && r.value.1.length == s.length - n
  {
    if s.length < n then Fail(EndOfStream)
    else Ok((PeekBits(s.value, n), Bits(ConsumeBits(s.value, n), s.length - n)))
  }

  /**
   * count fields of width bits each, read one after another and appended
   * to acc: the values and the stream after them.
   */
  function Fields(s: Bits, count: nat, width: nat, acc: seq<nat>): (r: Result<(seq<nat>, Bits)>)
    decreases count
    ensures r.Fail? ==> r.error == EndOfStream
  {
    if count == 0 then Ok((acc, s))
    else
      var f :- ReadField(s, width);
      Fields(f.1, count - 1, width, acc + [f.0])
  }

  /**
   * The fields are there exactly when count * width bits are; each value
   * is below 2^width, appended after acc, and the stream is shortened by
   * count * width bits.
   */
  lemma {:induction false} FieldsSpec(s: Bits, count: nat, width: nat, acc: seq<nat>)
    decreases count
    ensures var r := Fields(s, count, width, acc);
            (r.Fail? <==> s.length < count * width) &&
            (r.Ok? ==> |r.value.0| == |acc| + count && r.value.0[..|acc|] == acc) &&
            (r.Ok? ==> forall k | |acc| <= k < |r.value.0| :: r.value.0[k] < Pow2(width)) &&
            (r.Ok? ==> r.value.1.length == s.length - count * width)
  {
    if count > 0 {
      MulStep(count - 1, width);
      var f := ReadField(s, width);
      if f.Ok? {
        var (v, s1) := f.value;
        FieldsSpec(s1, count - 1, width, acc + [v]);
        var r := Fields(s1, count - 1, width, acc + [v]);
        if r.Ok? {
          assert r.value.0[..|acc|] == (acc + [v])[..|acc|];
          assert r.value.0[|acc|] == (acc + [v])[|acc|];
        }
      } else {
        MulMonotone(1, count, width);
      }
    }
  }

  class BitReader {
    /** The packet byte source and the position of its next unread byte. */
    var src: seq<byte>
    var pos: nat
    /** The bit accumulator and the number of valid bits in it. */
    var bits: nat
    var numBits: nat

    ghost predicate Valid()
      reads this
    {
      pos <= |src| && numBits <= 31 && bits < Pow2(numBits)
    }

    /** Every bit still to be read, least significant first. */
    ghost function Pending(): nat
      reads this
      requires Valid()
    {
      MulNat(Pow2(numBits), LE(src[pos..]));
      bits + Pow2(numBits) * LE(src[pos..])
    }

    /** How many bits are still to be read. */
    ghost function PendingLen(): nat
      reads this
      requires Valid()
    {
      numBits + 8 * (|src| - pos)
    }

    ghost function View(): Bits
      reads this
      requires Valid()
    {
      Bits(Pending(), PendingLen())
    }

    /** Vorbis_Init: an empty accumulator over a fresh source. */
    constructor (source: seq<byte>)
      ensures Valid() && src == source && pos == 0 && numBits == 0
      ensures Pending() == LE(source) && PendingLen() == 8 * |source|
    {
      src, pos, bits, numBits := source, 0, 0, 0;
    }

    /** Vorbis_GetByte: insert the next source byte above the pending bits. */
    method GetByte() returns (r: Outcome)
      requires Valid() && numBits <= 23
      modifies this
      ensures Valid() && src == old(src)
      ensures r.Pass? <==> old(pos) < |src|
      ensures r.Pass? ==> numBits == old(numBits) + 8 && pos == old(pos) + 1
      ensures r.Pass? ==> Pending() == old(Pending()) && bits < WordModulus
      ensures r.Stop? ==> r == Stop(EndOfStream) && unchanged(this)
    {
      if pos == |src| {
        return Stop(EndOfStream);
      }
      var b := src[pos];
      ShiftDistrib(bits, b, numBits, LE(src[pos + 1..]));
      InsertBound(bits, b, numBits);
      assert LE(src[pos..]) == b + 256 * LE(src[pos + 1..]) by {
        assert src[pos..][1..] == src[pos + 1..];
      }
      Pow2Monotone(numBits + 8, 31);
      Pow2Word();
      MulNat(b, Pow2(numBits));
      bits := bits + b * Pow2(numBits);
      numBits := numBits + 8;
      pos := pos + 1;
      return Pass;
    }

    /** Vorbis_ReadBits: the next n stream bits, least significant first. */
    method ReadBits(n: nat) returns (r: Result<nat>)
      requires Valid() && n <= 24
      modifies this
      ensures Valid() && src == old(src)
      ensures r.Fail? ==> r.error == EndOfStream
      ensures ReadField(old(View()), n) == if r.Ok? then Ok((r.value, View())) else Fail(EndOfStream)
    {
      while numBits < n
        invariant Valid() && src == old(src)
        invariant Pending() == old(Pending()) && PendingLen() == old(PendingLen())
        decreases n - numBits
      {
        var got := GetByte();
        if got.Stop? {
          return Fail(EndOfStream);
        }
      }
      TakeBits(bits, LE(src[pos..]), numBits, n);
      var result := PeekBits(bits, n);
      bits := ConsumeBits(bits, n);
      numBits := numBits - n;
      return Ok(result);
    }

    /** Vorbis_AlignBits: drop the bits up to the next byte boundary. */
    method AlignBits()
      requires Valid()
      modifies this
      ensures Valid() && src == old(src) && pos == old(pos)
      ensures numBits % 8 == 0
      ensures Pending() == old(Pending()) / Pow2(old(numBits) % 8)
      ensures PendingLen() == old(PendingLen()) - old(numBits) % 8
    {
      var skip := numBits % 8;
      TakeBits(bits, LE(src[pos..]), numBits, skip);
      bits := ConsumeBits(bits, skip);
      numBits := numBits - skip;
    }

    /** Stream_Read on the source itself: the bit accumulator is bypassed. */
    method ReadBytes(n: nat) returns (r: Result<seq<byte>>)
      requires Valid()
      modifies this
      ensures Valid() && src == old(src) && bits == old(bits) && numBits == old(numBits)
      ensures r.Ok? <==> old(pos) + n <= |src|
      ensures r.Ok? ==> r.value == src[old(pos)..old(pos) + n] && pos == old(pos) + n
      ensures r.Fail? ==> r.error == EndOfStream && pos == old(pos)
    {
      if pos + n > |src| {
        return Fail(EndOfStream);
      }
      r := Ok(src[pos..pos + n]);
      pos := pos + n;
    }

    /** Stream_Skip on the source. */
    method Skip(n: nat) returns (r: Outcome)
      requires Valid()
      modifies this
      ensures Valid() && src == old(src) && bits == old(bits) && numBits == old(numBits)
      ensures r.Pass? <==> old(pos) + n <= |src|
      ensures r.Pass? ==> pos == old(pos) + n
      ensures r.Stop? ==> r.error == EndOfStream && pos == old(pos)
    {
      if pos + n > |src| {
        return Stop(EndOfStream);
      }
      pos := pos + n;
      return Pass;
    }

    /** Stream_ReadU32_LE on the source. */
    method ReadU32LE() returns (r: Result<u32>)
      requires Valid()
      modifies this
      ensures Valid() && src == old(src) && bits == old(bits) && numBits == old(numBits)
      ensures r.Ok? <==> old(pos) + 4 <= |src|
      ensures r.Ok? ==> r.value == LE(src[old(pos)..old(pos) + 4]) && pos == old(pos) + 4
      ensures r.Fail? ==> r.error == EndOfStream && pos == old(pos)
    {
      var b :- ReadBytes(4);
      LE4Bound(b);
      return Ok(LE(b));
    }

    /** Stream_ReadU8 on the source. */
    method ReadU8() returns (r: Result<byte>)
      requires Valid()
      modifies this
      ensures Valid() && src == old(src) && bits == old(bits) && numBits == old(numBits)
      ensures r.Ok? <==> old(pos) < |src|
      ensures r.Ok? ==> r.value == src[old(pos)] && pos == old(pos) + 1
      ensures r.Fail? ==> r.error == EndOfStream && pos == old(pos)
    {
      var b :- ReadBytes(1);
      return Ok(b[0]);
    }
  }

  /** count fields of width bits each, read one at a time. */
  method ReadFields(br: BitReader, count: nat, width: nat) returns (r: Result<seq<nat>>)
    requires br.Valid() && width <= 24
    modifies br
    ensures br.Valid() && br.src == old(br.src)
    ensures Fields(old(br.View()), count, width, []) ==
              if r.Ok? then Ok((r.value, br.View())) else Fail(r.error)
  {
    ghost var s := br.View();
    var values: seq<nat> := [];
    var i := 0;
    while i < count
      invariant br.Valid() && br.src == old(br.src) && i <= count
      invariant Fields(s, count, width, []) == Fields(br.View(), count - i, width, values)
    {
      ghost var v := br.View();
      var m := br.ReadBits(width);
      if m.Fail? {
        assert Fields(v, count - i, width, values).Fail?;
        return Fail(EndOfStream);
      }
      assert Fields(v, count - i, width, values) == Fields(br.View(), count - (i + 1), width, values + [m.value]);
      values := values + [m.value];
      i := i + 1;
    }
    return Ok(values);
  }

  lemma LE4Bound(b: seq<byte>)
    requires |b| == 4
    ensures LE(b) < WordModulus
  {
    var t := b[1..][1..][1..];
    assert t[1..] == [];
    assert LE(t) == t[0];
  }
}
