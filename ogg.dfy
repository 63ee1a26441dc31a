/**
 * The Ogg page reader (RFC 3533, section 6): a 27-byte page header with
 * the "OggS" capture pattern and stream structure version 0, a segment
 * table of up to 255 lacing values, and a payload whose length is the sum
 * of those values.  The logical stream is served through a cursor
 * (Cur/Left) over the payload of the current page, pulling the next page
 * when the current one is used up unless the last page has been seen.
 */
module Ogg {
  import opened Common

  const HeaderSize: nat := 27

  /** OGG_FourCC: four bytes packed big-endian into one word. */
  function FourCC(a: byte, b: byte, c: byte, d: byte): nat
  {
    a * 0x100_0000 + b * 0x1_0000 + c * 0x100 + d
  }

  /** The capture pattern 'O' 'g' 'g' 'S'. */
  const OggS: seq<byte> := [0x4F, 0x67, 0x67, 0x53]

  /** A parsed page: its payload, its last-page flag, and where the next page starts. */
  datatype Page = Page(payload: seq<byte>, last: bool, next: nat)

  /** The payload length announced by a segment table. */
  function SegmentSum(segs: seq<byte>): nat
  {
    if segs == [] then 0 else SegmentSum(segs[..|segs| - 1]) + segs[|segs| - 1]
  }

  /** The page that starts at `pos` of the source, as Ogg_NextPage reads it. */
  function ParsePage(src: seq<byte>, pos: nat): (r: Result<Page>)
    ensures r.Ok? ==> pos + HeaderSize <= r.value.next <= |src|
    ensures r.Fail? ==> r.error in {OggInvalidSig, OggVersion, EndOfStream}
  {
    if pos + HeaderSize > |src| then Fail(EndOfStream)
    else
      var header := src[pos..pos + HeaderSize];
      if BE(header[..4]) != FourCC('O' as int, 'g' as int, 'g' as int, 'S' as int) then Fail(OggInvalidSig)
      else if header[4] != 0 then Fail(OggVersion)
      else
        var segStart := pos + HeaderSize;
        var numSegments := header[26];
        if segStart + numSegments > |src| then Fail(EndOfStream)
        else
          var dataSize := SegmentSum(src[segStart..segStart + numSegments]);
          var dataStart := segStart + numSegments;
          if dataStart + dataSize > |src| then Fail(EndOfStream)
          else Ok(Page(src[dataStart..dataStart + dataSize], (header[5] / 4) % 2 == 1, dataStart + dataSize))
  }

  /**
   * Everything the logical stream still delivers from the pages that start
   * at `pos`: their payloads in order, up to and including the page
   * flagged last, or up to the first page that cannot be read.
   */
  ghost function Following(src: seq<byte>, pos: nat): seq<byte>
    decreases |src| - pos
  {
    match ParsePage(src, pos)
    case Fail(_) => []
    case Ok(p) => p.payload + (if p.last then [] else Following(src, p.next))
  }

  lemma {:induction false} SegmentSumBound(segs: seq<byte>)
    ensures SegmentSum(segs) <= 255 * |segs|
  {
    if segs != [] {
      SegmentSumBound(segs[..|segs| - 1]);
    }
  }

  lemma SegmentSumExamples()
    ensures SegmentSum([255, 255, 10]) == 520
    ensures SegmentSum([0]) == 0
    ensures SegmentSum([]) == 0
  {
    assert [255, 255, 10][..2] == [255, 255];
    assert [255, 255][..1] == [255];
    assert [255][..0] == [];
    assert [0][..0] == [];
  }

  lemma BE4(h: seq<byte>)
    requires |h| == 4
    ensures BE(h) == FourCC(h[0], h[1], h[2], h[3])
  {
    var h1, h2, h3 := h[..1], h[..2], h[..3];
    assert h1[..0] == [] && h2[..1] == h1 && h3[..2] == h2 && h[..3] == h3;
    assert BE(h1) == h[0];
    assert BE(h2) == h[0] as int * 256 + h[1];
    assert BE(h3) == (h[0] as int * 256 + h[1]) * 256 + h[2];
  }

  lemma FourCCInjective(a: byte, b: byte, c: byte, d: byte, a': byte, b': byte, c': byte, d': byte)
    requires FourCC(a, b, c, d) == FourCC(a', b', c', d')
    ensures a == a' && b == b' && c == c' && d == d'
  {
    var x := FourCC(a, b, c, d);
    var hi, hi' := (a * 0x100 + b) * 0x100 + c, (a' * 0x100 + b') * 0x100 + c';
    assert x == hi * 0x100 + d;
    assert x == hi' * 0x100 + d';
    DivModUnique(x, hi, 0x100, d);
    DivModUnique(x, hi', 0x100, d');
    DivModUnique(hi, a * 0x100 + b, 0x100, c);
    DivModUnique(hi', a' * 0x100 + b', 0x100, c');
    DivModUnique(a * 0x100 + b, a, 0x100, b);
    DivModUnique(a' * 0x100 + b', a', 0x100, b');
  }

  /** The signature test passes exactly for the bytes "OggS". */
  lemma SignatureBytes(h: seq<byte>)
    requires |h| >= 4
    ensures BE(h[..4]) == FourCC('O' as int, 'g' as int, 'g' as int, 'S' as int) <==> h[..4] == OggS
  {
    BE4(h[..4]);
    if BE(h[..4]) == FourCC('O' as int, 'g' as int, 'g' as int, 'S' as int) {
      FourCCInjective(h[0], h[1], h[2], h[3], 0x4F, 0x67, 0x67, 0x53);
    }
  }

  /**
   * What Ogg_NextPage promises: it fails with OGG_ERR_INVALID_SIG unless
   * the page opens with "OggS", with OGG_ERR_VERSION unless the version
   * byte is 0, and otherwise announces a payload of the summed lacing
   * values, flagged last when bit 2 of the header flags is set.
   */
  lemma ParsePageSpec(src: seq<byte>, pos: nat)
    requires pos + HeaderSize <= |src|
    ensures src[pos..pos + 4] != OggS ==> ParsePage(src, pos) == Fail(OggInvalidSig)
    ensures src[pos..pos + 4] == OggS && src[pos + 4] != 0 ==> ParsePage(src, pos) == Fail(OggVersion)
    ensures ParsePage(src, pos).Ok? ==>
              src[pos..pos + 4] == OggS && src[pos + 4] == 0 &&
              |ParsePage(src, pos).value.payload| ==
                SegmentSum(src[pos + HeaderSize..pos + HeaderSize + src[pos + 26]]) &&
              |ParsePage(src, pos).value.payload| <= 255 * 255 &&
              ParsePage(src, pos).value.last == ((src[pos + 5] / 4) % 2 == 1)
  {
    var header := src[pos..pos + HeaderSize];
    SignatureBytes(header);
    assert header[..4] == src[pos..pos + 4];
    if ParsePage(src, pos).Ok? {
      var segs := src[pos + HeaderSize..pos + HeaderSize + src[pos + 26]];
      SegmentSumBound(segs);
      assert 255 * |segs| <= 255 * 255;
    }
  }

  /** The pages from `pos` on: the first page's payload, then the rest. */
  lemma FollowingStep(src: seq<byte>, pos: nat)
    requires ParsePage(src, pos).Ok?
    ensures var p := ParsePage(src, pos).value;
            Following(src, pos) == p.payload + (if p.last then [] else Following(src, p.next))
  {
  }

  class OggStream {
    /** The underlying source and the position of its next unread byte. */
    var source: seq<byte>
    var srcPos: nat
    /** The contents of the page buffer `Base`. */
    var page: seq<byte>
    /** The read cursor: `Cur` as an offset from `Base`, bytes `Left`, `Last` page seen. */
    var cur: nat
    var left: nat
    var last: bool

    ghost predicate Valid()
      reads this
    {
      srcPos <= |source| && cur + left <= |page|
    }

    /** The bytes of the current page not yet handed out. */
    ghost function Remaining(): seq<byte>
      reads this
      requires Valid()
    {
      page[cur..cur + left]
    }

    /** Everything the logical stream still delivers. */
    ghost function Rest(): seq<byte>
      reads this
      requires Valid()
    {
      Remaining() + (if last then [] else Following(source, srcPos))
    }

    /** Ogg_MakeStream: an empty cursor over the source. */
    constructor (src: seq<byte>)
      ensures Valid() && source == src && srcPos == 0
      ensures left == 0 && !last && Rest() == Following(src, 0)
    {
      source, srcPos := src, 0;
      page, cur, left, last := [], 0, 0, false;
    }

    /** Stream_Read on the underlying source: short reads are fatal. */
    method ReadSource(n: nat) returns (r: Result<seq<byte>>)
      requires Valid()
      modifies this`srcPos
      ensures Valid()
      ensures r.Ok? <==> old(srcPos) + n <= |source|
      ensures r.Ok? ==> r.value == source[old(srcPos)..old(srcPos) + n] && srcPos == old(srcPos) + n
      ensures r.Fail? ==> r.error == EndOfStream
    {
      if srcPos + n > |source| {
        return Fail(EndOfStream);
      }
      r := Ok(source[srcPos..srcPos + n]);
      srcPos := srcPos + n;
    }

    /** The reading half of Ogg_NextPage: header, segment table and payload. */
    method ReadPage() returns (r: Result<Page>)
      requires Valid()
      modifies this`srcPos
      ensures Valid()
      ensures r == ParsePage(source, old(srcPos))
      ensures r.Ok? ==> srcPos == r.value.next
    {
      ghost var start := srcPos;
      var header :- ReadSource(HeaderSize);
      var sig := BE(header[..4]);
      if sig != FourCC('O' as int, 'g' as int, 'g' as int, 'S' as int) {
        return Fail(OggInvalidSig);
      }
      if header[4] != 0 {
        return Fail(OggVersion);
      }
      var bitflags := header[5];
      var numSegments := header[26];
      var segments :- ReadSource(numSegments);
      var dataSize: nat := 0;
      for i := 0 to numSegments
        invariant dataSize == SegmentSum(segments[..i])
      {
        assert segments[..i + 1][..i] == segments[..i];
        dataSize := dataSize + segments[i];
      }
      assert segments[..numSegments] == segments;
      var data :- ReadSource(dataSize);
      return Ok(Page(data, (bitflags / 4) % 2 == 1, srcPos));
    }

    /** Ogg_NextPage: read one page into the buffer and reset the cursor. */
    method NextPage() returns (r: Outcome)
      requires Valid()
      modifies this`srcPos, this`page, this`cur, this`left, this`last
      ensures Valid()
      ensures ParsePage(source, old(srcPos)).Fail? <==> r.Stop?
      ensures r.Stop? ==> r.error == ParsePage(source, old(srcPos)).error
      ensures r.Stop? ==> page == old(page) && cur == old(cur) && left == old(left) && last == old(last)
      ensures r.Pass? ==>
                var p := ParsePage(source, old(srcPos)).value;
                page == p.payload && cur == 0 && left == |p.payload| && last == p.last && srcPos == p.next
      ensures r.Pass? ==> Rest() == Following(source, old(srcPos))
      ensures r.Stop? ==> r.error in {OggInvalidSig, OggVersion, EndOfStream}
    {
      ghost var start := srcPos;
      var p := ReadPage();
      if p.Fail? {
        return Stop(p.error);
      }
      FollowingStep(source, start);
      page, cur, left, last := p.value.payload, 0, |p.value.payload|, p.value.last;
      assert Remaining() == page;
      return Pass;
    }

    /** The branch of Ogg_Read that serves bytes from the current page. */
    method TakeFromPage(count: u32) returns (data: seq<byte>)
      requires Valid() && left > 0
      modifies this`cur, this`left
      ensures Valid()
      ensures |data| == Min(count, old(left)) && data + Remaining() == old(Remaining())
      ensures data + Rest() == old(Rest())
    {
      var n := Min(count, left);
      data := page[cur..cur + n];
      assert page[cur..cur + left] == data + page[cur + n..cur + left];
      cur := cur + n;
      left := left - n;
    }

    /**
     * Ogg_Read: hand out at most `count` bytes of the current page,
     * pulling pages until one has data or the last page has been seen.
     */
    method Read(count: u32) returns (r: Outcome, data: seq<byte>)
      requires Valid()
      modifies this`srcPos, this`page, this`cur, this`left, this`last
      ensures Valid() && |data| <= count
      ensures r.Pass? ==> data + Rest() == old(Rest())
      ensures r.Pass? && old(left) > 0 ==> |data| == Min(count, old(left))
      ensures r.Pass? && count > 0 && old(Rest()) != [] ==> |data| > 0
      ensures r.Stop? ==> data == [] && r.error in {OggInvalidSig, OggVersion, EndOfStream}
    {
      ghost var rest := Rest();
      if left > 0 {
        data := TakeFromPage(count);
        return Pass, data;
      }
      while true
        invariant Valid() && Rest() == rest && left == 0
        decreases |source| - srcPos
      {
        if last {
          return Pass, [];
        }
        ghost var before := srcPos;
        r := NextPage();
        if r.Stop? {
          return r, [];
        }
        if left > 0 {
          data := TakeFromPage(count);
          return Pass, data;
        }
      }
    }
  }
}
