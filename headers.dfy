/**
 * The byte-level Vorbis header packets (section 4.2 of the Vorbis I
 * specification): the common packet header, the identification header
 * and the comment header, read straight from the byte source at its
 * current position, below the bit buffer.
 */
module HeaderPackets {
  import opened Common
  import opened BitStream

  /** VORBIS_MAX_CHANS. */
  const MaxChans: nat := 8

  /** The packet types of the three header packets. */
  const IdentifierPacket: byte := 1
  const CommentsPacket: byte := 3
  const SetupPacket: byte := 5

  /** The six bytes "vorbis" that follow the packet type. */
  const Magic: seq<byte> := [0x76, 0x6F, 0x72, 0x62, 0x69, 0x73]

  // ---------------------------------------------------------------------
  // Vorbis_DecodeHeader

  /** The header check of a packet: its type byte, then "vorbis". */
  function HeaderCheck(h: seq<byte>, kind: byte): Outcome
    requires |h| == 7
  {
    if h[0] != kind then Stop(WrongHeader)
    else if h[1..] != Magic then Stop(InvalidArg)
    else Pass
  }

  /** The seven header bytes s starts with; gives the bytes after them. */
  function HeaderSpec(s: seq<byte>, kind: byte): Result<seq<byte>>
  {
    if |s| < 7 then Fail(EndOfStream)
    else
      var c := HeaderCheck(s[..7], kind);
      if c.Stop? then Fail(c.error) else Ok(s[7..])
  }

  /**
   * The seven bytes pass exactly when they are the packet type followed by
   * "vorbis"; a wrong type is reported before a wrong signature.
   */
  lemma HeaderCheckIff(h: seq<byte>, kind: byte)
    requires |h| == 7
    ensures HeaderCheck(h, kind).Pass? <==> h == [kind] + Magic
    ensures HeaderCheck(h, kind).Stop? ==>
              (HeaderCheck(h, kind).error == WrongHeader <==> h[0] != kind)
    ensures HeaderCheck(h, kind).Stop? ==> HeaderCheck(h, kind).error in {WrongHeader, InvalidArg}
  {
    if h == [kind] + Magic {
      assert h[1..] == Magic;
    }
    if h[0] == kind && h[1..] == Magic {
      assert h == [h[0]] + h[1..];
    }
  }

  /** A packet header fails only on a short input, a wrong type or a wrong signature. */
  lemma HeaderSpecErrors(s: seq<byte>, kind: byte)
    ensures HeaderSpec(s, kind).Fail? ==> HeaderSpec(s, kind).error in {EndOfStream, WrongHeader, InvalidArg}
    ensures HeaderSpec(s, kind).Ok? ==> |s| >= 7 && s[..7] == [kind] + Magic
  {
    if |s| >= 7 {
      HeaderCheckIff(s[..7], kind);
    }
  }

  method DecodeHeader(br: BitReader, kind: byte) returns (r: Outcome)
    requires br.Valid()
    modifies br
    ensures br.Valid() && br.src == old(br.src)
    ensures br.bits == old(br.bits) && br.numBits == old(br.numBits)
    ensures HeaderSpec(br.src[old(br.pos)..], kind) ==
              if r.Pass? then Ok(br.src[br.pos..]) else Fail(r.error)
  {
    ghost var s := br.src[br.pos..];
    var h := br.ReadBytes(7);
    if h.Fail? {
      return Stop(h.error);
    }
    assert s[..7] == h.value && s[7..] == br.src[br.pos..];
    r := HeaderCheck(h.value, kind);
  }

  // ---------------------------------------------------------------------
  // Vorbis_ValidBlockSize

  /** 1, 2, 4, 8, ...: halving reaches 1 through even numbers only. */
  predicate PowerOfTwo(x: nat)
  {
    x == 1 || (x >= 2 && x % 2 == 0 && PowerOfTwo(x / 2))
  }

  /** The number of halvings that bring x down to 1 or 0. */
  function Log2(x: nat): nat
  {
    if x <= 1 then 0 else 1 + Log2(x / 2)
  }

  /** PowerOfTwo holds of the powers of two and of nothing else. */
  lemma {:induction false} PowerOfTwoIff(x: nat)
    ensures PowerOfTwo(x) <==> x == Pow2(Log2(x))
  {
    if x >= 2 {
      PowerOfTwoIff(x / 2);
      DivModSplit(x, 2);
      assert Pow2(Log2(x)) == 2 * Pow2(Log2(x / 2));
    }
  }

  /** A block size must be a power of two from 64 to 8192. */
  predicate ValidBlockSize(b: nat)
  {
    64 <= b <= 8192 && PowerOfTwo(b)
  }

  lemma {:induction false} Pow2Log2(k: nat)
    ensures Log2(Pow2(k)) == k
  {
    if k > 0 {
      Pow2Log2(k - 1);
      assert Pow2(k) >= 2 && Pow2(k) / 2 == Pow2(k - 1);
    }
  }

  /** The block size 2^k is valid exactly for the exponents 6 to 13. */
  lemma BlockSizeExponent(k: nat)
    ensures ValidBlockSize(Pow2(k)) <==> 6 <= k <= 13
  {
    Pow2Log2(k);
    PowerOfTwoIff(Pow2(k));
    assert Pow2(6) == 64 && Pow2(13) == 8192;
    if k < 6 {
      Pow2Strict(k, 6);
    } else if k > 13 {
      Pow2Strict(13, k);
    } else {
      Pow2Monotone(6, k);
      Pow2Monotone(k, 13);
    }
  }

  // ---------------------------------------------------------------------
  // Vorbis_DecodeIdentifier

  /** What the identification header sets up. */
  datatype Identifier = Identifier(channels: nat, sampleRate: u32, blockSize0: nat, blockSize1: nat)

  /**
   * The 23 bytes of the identification header: a version that must be 0,
   * the channel count, the sample rate, three bitrates, the two block
   * size exponents in the low and high nibble of byte 21, and the framing
   * bit in byte 22.
   */
  function IdentifierCheck(h: seq<byte>): Result<Identifier>
    requires |h| == 23
  {
    if LE(h[0..4]) != 0 then Fail(Version)
    else
      var bs0, bs1 := Pow2(h[21] % 16), Pow2(h[21] / 16);
      if !ValidBlockSize(bs0) then Fail(BlockSize)
      else if !ValidBlockSize(bs1) then Fail(BlockSize)
      else if bs0 > bs1 then Fail(BlockSize)
      else if h[4] == 0 || h[4] > MaxChans then Fail(Chans)
      else if h[22] % 2 == 0 then Fail(Framing)
      else
        LE4Bound(h[5..9]);
        Ok(Identifier(h[4], LE(h[5..9]), bs0, bs1))
  }

  function IdentifierSpec(s: seq<byte>): Result<(Identifier, seq<byte>)>
  {
    if |s| < 23 then Fail(EndOfStream)
    else
      var id :- IdentifierCheck(s[..23]);
      Ok((id, s[23..]))
  }

  /**
   * The identification header is accepted exactly when the version is 0,
   * the block size exponents are 6 to 13 with the first no larger than
   * the second, there are 1 to 8 channels and the framing bit is set; the
   * block sizes are then the two powers of two, in order.
   */
  lemma IdentifierCheckIff(h: seq<byte>)
    requires |h| == 23
    ensures IdentifierCheck(h).Ok? <==>
              LE(h[0..4]) == 0 && 6 <= h[21] % 16 <= h[21] / 16 <= 13 &&
              1 <= h[4] <= MaxChans && h[22] % 2 == 1
    ensures IdentifierCheck(h).Ok? ==>
              var id := IdentifierCheck(h).value;
              id.channels == h[4] && id.sampleRate == LE(h[5..9]) &&
              id.blockSize0 == Pow2(h[21] % 16) && id.blockSize1 == Pow2(h[21] / 16) &&
              ValidBlockSize(id.blockSize0) && ValidBlockSize(id.blockSize1) &&
              id.blockSize0 <= id.blockSize1
    ensures IdentifierCheck(h).Fail? ==>
              IdentifierCheck(h).error in {Version, BlockSize, Chans, Framing}
  {
    var k0, k1 := h[21] % 16, h[21] / 16;
    BlockSizeExponent(k0);
    BlockSizeExponent(k1);
    if k0 <= k1 {
      Pow2Monotone(k0, k1);
    } else {
      Pow2Strict(k1, k0);
    }
  }

  method DecodeIdentifier(br: BitReader) returns (r: Result<Identifier>)
    requires br.Valid()
    modifies br
    ensures br.Valid() && br.src == old(br.src)
    ensures br.bits == old(br.bits) && br.numBits == old(br.numBits)
    ensures IdentifierSpec(br.src[old(br.pos)..]) ==
              if r.Ok? then Ok((r.value, br.src[br.pos..])) else Fail(r.error)
  {
    ghost var s := br.src[br.pos..];
    var h :- br.ReadBytes(23);
    assert s[..23] == h && s[23..] == br.src[br.pos..];
    r := IdentifierCheck(h);
  }

  // ---------------------------------------------------------------------
  // Vorbis_DecodeComments

  /** The little-endian value of four bytes. */
  function Word(b0: byte, b1: byte, b2: byte, b3: byte): nat
  {
    b0 + 0x100 * b1 + 0x1_0000 * b2 + 0x100_0000 * b3
  }

  lemma WordLE(b: seq<byte>)
    requires |b| == 4
    ensures LE(b) == Word(b[0], b[1], b[2], b[3])
  {
    assert LE(b[3..]) == b[3];
    assert LE(b[2..]) == (b[2] as int) + 256 * (b[3] as int);
  }

  /** The 32-bit little-endian length that s starts with, if it has four bytes. */
  function LengthOf(s: seq<byte>): Result<nat>
  {
    if |s| < 4 then Fail(EndOfStream) else Ok(Word(s[0], s[1], s[2], s[3]))
  }

  /** A length-prefixed string is skipped; gives the bytes after it. */
  function SkipString(s: seq<byte>): Result<seq<byte>>
  {
    var len := LengthOf(s);
    if len.Fail? then Fail(len.error)
    else if 4 + len.value > |s| then Fail(EndOfStream)
    else Ok(s[4 + len.value..])
  }

  /** count length-prefixed comments are skipped. */
  function SkipComments(s: seq<byte>, count: nat): Result<seq<byte>>
    decreases count
  {
    if count == 0 then Ok(s)
    else
      var next := SkipString(s);
      if next.Fail? then next else SkipComments(next.value, count - 1)
  }

  /** The framing byte, whose low bit must be set; gives the bytes after it. */
  function Framed(s: seq<byte>): Result<seq<byte>>
  {
    if |s| == 0 then Fail(EndOfStream)
    else if s[0] % 2 == 0 then Fail(Framing)
    else Ok(s[1..])
  }

  /** The comment count, the comments and the framing byte. */
  function CountedComments(s: seq<byte>): Result<seq<byte>>
  {
    var count := LengthOf(s);
    if count.Fail? then Fail(count.error)
    else
      var rest := SkipComments(s[4..], count.value);
      if rest.Fail? then rest else Framed(rest.value)
  }

  /**
   * The comment header: the vendor string, the comment count, the
   * comments, and a framing byte whose low bit must be set.  Gives the
   * bytes after the framing byte.
   */
  function CommentsSpec(s: seq<byte>): Result<seq<byte>>
  {
    var rest := SkipString(s);
    if rest.Fail? then rest else CountedComments(rest.value)
  }

  /** The four little-endian bytes of a 32-bit value. */
  function U32Bytes(x: u32): (b: seq<byte>)
    ensures |b| == 4 && Word(b[0], b[1], b[2], b[3]) == x
  {
    var q1 := x / 256;
    var q2 := q1 / 256;
    DivModSplit(x, 256);
    DivModSplit(q1, 256);
    DivModSplit(q2, 256);
    [x % 256, q1 % 256, q2 % 256, q2 / 256]
  }

  /** Every string is short enough for its 32-bit length prefix. */
  predicate Short(cs: seq<seq<byte>>)
  {
    forall i | 0 <= i < |cs| :: |cs[i]| < WordModulus
  }

  /** A string as it is stored: its length, then its bytes. */
  function Prefixed(str: seq<byte>): seq<byte>
    requires |str| < WordModulus
  {
    U32Bytes(|str|) + str
  }

  /** The comments as they are stored, one after the other. */
  function CommentList(cs: seq<seq<byte>>): seq<byte>
    requires Short(cs)
  {
    if cs == [] then [] else Prefixed(cs[0]) + CommentList(cs[1..])
  }

  /** A whole comment header: vendor, comment count, comments, framing byte. */
  function CommentsBytes(vendor: seq<byte>, cs: seq<seq<byte>>, framing: byte): seq<byte>
    requires |vendor| < WordModulus && |cs| < WordModulus && Short(cs)
  {
    Prefixed(vendor) + (U32Bytes(|cs|) + (CommentList(cs) + [framing]))
  }

  /** A 32-bit length reads back from its four bytes. */
  lemma LengthOfBytes(x: u32, rest: seq<byte>)
    ensures LengthOf(U32Bytes(x) + rest) == Ok(x)
  {
    var s, b := U32Bytes(x) + rest, U32Bytes(x);
    assert s[0] == b[0] && s[1] == b[1] && s[2] == b[2] && s[3] == b[3];
  }

  /** A stored string is skipped whole. */
  lemma SkipStringBytes(str: seq<byte>, rest: seq<byte>)
    requires |str| < WordModulus
    ensures SkipString(Prefixed(str) + rest) == Ok(rest)
  {
    var s := Prefixed(str) + rest;
    assert s == U32Bytes(|str|) + (str + rest);
    LengthOfBytes(|str|, str + rest);
    assert s[4 + |str|..] == rest;
  }

  /** Stored comments are skipped whole, one at a time. */
  lemma {:induction false} SkipCommentsBytes(cs: seq<seq<byte>>, rest: seq<byte>)
    requires Short(cs)
    ensures SkipComments(CommentList(cs) + rest, |cs|) == Ok(rest)
    decreases |cs|
  {
    if cs == [] {
      assert CommentList(cs) + rest == rest;
    } else {
      var tail := cs[1..];
      assert Short(tail);
      assert CommentList(cs) + rest == Prefixed(cs[0]) + (CommentList(tail) + rest);
      SkipStringBytes(cs[0], CommentList(tail) + rest);
      SkipCommentsBytes(tail, rest);
      assert SkipComments(CommentList(cs) + rest, |cs|) ==
             SkipComments(CommentList(tail) + rest, |tail|);
    }
  }

  /**
   * Reading back a comment header skips exactly its bytes, whatever
   * follows it, and fails only on a clear framing bit.
   */
  lemma CommentsRoundTrip(vendor: seq<byte>, cs: seq<seq<byte>>, framing: byte, rest: seq<byte>)
    requires |vendor| < WordModulus && |cs| < WordModulus && Short(cs)
    ensures CommentsSpec(CommentsBytes(vendor, cs, framing) + rest) ==
              if framing % 2 == 1 then Ok(rest) else Fail(Framing)
  {
    var counted := U32Bytes(|cs|) + (CommentList(cs) + ([framing] + rest));
    assert CommentsBytes(vendor, cs, framing) + rest == Prefixed(vendor) + counted;
    SkipStringBytes(vendor, counted);
    LengthOfBytes(|cs|, CommentList(cs) + ([framing] + rest));
    assert counted[4..] == CommentList(cs) + ([framing] + rest);
    SkipCommentsBytes(cs, [framing] + rest);
    assert ([framing] + rest)[1..] == rest;
  }

  /** Skipping comments fails only when the bytes run out, and leaves a suffix. */
  lemma {:induction false} SkipCommentsErrors(s: seq<byte>, count: nat)
    decreases count
    ensures SkipComments(s, count).Fail? ==> SkipComments(s, count).error == EndOfStream
    ensures SkipComments(s, count).Ok? ==> |SkipComments(s, count).value| <= |s| - 4 * count
  {
    if count > 0 {
      var next := SkipString(s);
      if next.Ok? {
        SkipCommentsErrors(next.value, count - 1);
      }
    }
  }

  /**
   * The comment header fails only when the bytes run out or the framing
   * bit is clear; the vendor string, the count, the comments and the
   * framing byte take at least nine bytes.
   */
  lemma CommentsSpecErrors(s: seq<byte>)
    ensures CommentsSpec(s).Fail? ==> CommentsSpec(s).error in {EndOfStream, Framing}
    ensures CommentsSpec(s).Ok? ==> |CommentsSpec(s).value| <= |s| - 9
  {
    var rest := SkipString(s);
    if rest.Ok? && |rest.value| >= 4 {
      var count := LengthOf(rest.value);
      SkipCommentsErrors(rest.value[4..], count.value);
    }
  }

  /** A 32-bit little-endian length read from the source. */
  method ReadLength(br: BitReader) returns (r: Result<nat>)
    requires br.Valid()
    modifies br
    ensures br.Valid() && br.src == old(br.src)
    ensures br.bits == old(br.bits) && br.numBits == old(br.numBits)
    ensures LengthOf(br.src[old(br.pos)..]) == if r.Ok? then Ok(r.value) else Fail(r.error)
    ensures r.Ok? ==> br.pos == old(br.pos) + 4
  {
    var w := br.ReadU32LE();
    if w.Fail? {
      return Fail(w.error);
    }
    ghost var s := br.src[old(br.pos)..];
    ghost var b := br.src[old(br.pos)..old(br.pos) + 4];
    WordLE(b);
    assert s[0] == b[0] && s[1] == b[1] && s[2] == b[2] && s[3] == b[3];
    return Ok(w.value);
  }

  /** A length, then Stream_Skip over that many bytes. */
  method SkipLengthPrefixed(br: BitReader) returns (r: Outcome)
    requires br.Valid()
    modifies br
    ensures br.Valid() && br.src == old(br.src)
    ensures br.bits == old(br.bits) && br.numBits == old(br.numBits)
    ensures SkipString(br.src[old(br.pos)..]) == if r.Pass? then Ok(br.src[br.pos..]) else Fail(r.error)
  {
    var len := ReadLength(br);
    if len.Fail? {
      return Stop(len.error);
    }
    r := br.Skip(len.value);
    if r.Pass? {
      assert br.src[old(br.pos)..][4 + len.value..] == br.src[br.pos..];
    }
  }

  /** Vorbis_DecodeComments: the vendor string, then the loop over the comments. */
  method DecodeComments(br: BitReader) returns (r: Outcome)
    requires br.Valid()
    modifies br
    ensures br.Valid() && br.src == old(br.src)
    ensures br.bits == old(br.bits) && br.numBits == old(br.numBits)
    ensures CommentsSpec(br.src[old(br.pos)..]) == if r.Pass? then Ok(br.src[br.pos..]) else Fail(r.error)
  {
    r := SkipLengthPrefixed(br);
    if r.Stop? {
      return;
    }
    ghost var afterVendor := br.src[br.pos..];
    var comments := ReadLength(br);
    if comments.Fail? {
      return Stop(comments.error);
    }
    assert afterVendor[4..] == br.src[br.pos..];
    var i := 0;
    while i < comments.value
      invariant br.Valid() && br.src == old(br.src) && i <= comments.value
      invariant br.bits == old(br.bits) && br.numBits == old(br.numBits)
      invariant SkipComments(afterVendor[4..], comments.value) ==
                SkipComments(br.src[br.pos..], comments.value - i)
    {
      r := SkipLengthPrefixed(br);
      if r.Stop? {
        return;
      }
      i := i + 1;
    }
    ghost var last := br.src[br.pos..];
    var framing := br.ReadU8();
    if framing.Fail? {
      return Stop(framing.error);
    }
    assert last[0] == framing.value && last[1..] == br.src[br.pos..];
    if framing.value % 2 == 0 {
      return Stop(Framing);
    }
    return Pass;
  }
}
