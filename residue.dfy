/**
 * Residue setup of the Vorbis decoder (section 8.6 of the Vorbis I
 * specification) as Residue_DecodeSetup reads it, and the integer part of
 * Residue_DecodeFrame: the window of the spectral vector it reads and the
 * split of a classification codeword into base-Classifications digits.
 *
 * As elsewhere, each read is a function on the stream and a method on the
 * bit reader proved to read exactly what the function describes.
 */
module ResidueSetup {
  import opened Common
  import opened BitStream

  /**
   * A residue as the setup header describes it.  The number of
   * classifications is the length of cascade; books holds eight entries
   * per classification, -1 where the cascade bit is clear.
   */
  datatype Residue = Residue(residueType: nat, begin: nat, end: nat, partitionSize: nat,
                             classbook: nat, cascade: seq<nat>, books: seq<seq<int>>)

  /** Bit j of a cascade byte: whether pass j has a book. */
  predicate CascadeBit(c: nat, j: nat)
  {
    (c / Pow2(j)) % 2 == 1
  }

  /** The book of pass k under cascade c: -1 exactly when bit k is clear, a byte otherwise. */
  predicate BookOk(b: int, c: nat, k: nat)
  {
    (b == -1 <==> !CascadeBit(c, k)) && -1 <= b < 256
  }

  /** The eight books of a classification with cascade c. */
  predicate RowOk(row: seq<int>, c: nat)
  {
    |row| == 8 && forall k | 0 <= k < 8 :: BookOk(row[k], c, k)
  }

  /**
   * What the setup leaves in a residue: 1 to 64 classifications, a
   * partition size of at least 1, byte-sized classbook and cascades, and
   * eight books per classification that follow its cascade.
   */
  predicate Valid(r: Residue)
  {
    1 <= |r.cascade| <= 64 && r.partitionSize >= 1 && r.classbook < 256 &&
    |r.books| == |r.cascade| &&
    forall i | 0 <= i < |r.cascade| :: r.cascade[i] < 256 && RowOk(r.books[i], r.cascade[i])
  }

  // ---------------------------------------------------------------------
  // Residue_DecodeSetup

  /** Begin, end and the partition size minus one, in 24 bits each. */
  function ExtentSpec(s: Bits): Result<(nat, nat, nat, Bits)>
  {
    var b :- ReadField(s, 24);
    var e :- ReadField(b.1, 24);
    var p :- ReadField(e.1, 24);
    Ok((b.0, e.0, p.0 + 1, p.1))
  }

  /** The head of a residue: its extent, the classifications minus one in 6 bits, the classbook in 8. */
  function HeadSpec(s: Bits): Result<(nat, nat, nat, nat, nat, Bits)>
  {
    var x :- ExtentSpec(s);
    var c :- ReadField(x.3, 6);
    var k :- ReadField(c.1, 8);
    Ok((x.0, x.1, x.2, c.0 + 1, k.0, k.1))
  }

  /** One cascade: its low 3 bits, a flag, and when the flag is set its high 5 bits. */
  function CascadeEntry(s: Bits): Result<(nat, Bits)>
  {
    var low :- ReadField(s, 3);
    var more :- ReadField(low.1, 1);
    if more.0 == 0 then Ok((low.0, more.1))
    else
      var high :- ReadField(more.1, 5);
      Ok((low.0 + 8 * high.0, high.1))
  }

  /** A cascade is a byte whose low 3 bits come first; it takes 4 bits, or 9 with the high part. */
  lemma CascadeEntryOk(s: Bits)
    ensures CascadeEntry(s).Fail? ==> CascadeEntry(s).error == EndOfStream
    ensures CascadeEntry(s).Ok? ==>
              var (c, s') := CascadeEntry(s).value;
              c < 256 && c % 8 == PeekBits(s.value, 3) &&
              (s'.length == s.length - 4 || s'.length == s.length - 9)
  {
    Pow2Small();
    var low := ReadField(s, 3);
    if low.Ok? {
      var more := ReadField(low.value.1, 1);
      if more.Ok? && more.value.0 != 0 {
        var high := ReadField(more.value.1, 5);
        if high.Ok? {
          DivModUnique(low.value.0 + 8 * high.value.0, high.value.0, 8, low.value.0);
        }
      }
    }
  }

  /** count cascades, one after another, appended to acc. */
  function CascadeSpec(s: Bits, count: nat, acc: seq<nat>): Result<(seq<nat>, Bits)>
    decreases count
  {
    if count == 0 then Ok((acc, s))
    else
      var c :- CascadeEntry(s);
      CascadeSpec(c.1, count - 1, acc + [c.0])
  }

  lemma {:induction false} CascadeSpecOk(s: Bits, count: nat, acc: seq<nat>)
    decreases count
    ensures var r := CascadeSpec(s, count, acc);
            (r.Fail? ==> r.error == EndOfStream) &&
            (r.Ok? ==> |r.value.0| == |acc| + count && r.value.0[..|acc|] == acc) &&
            (r.Ok? ==> forall k | |acc| <= k < |r.value.0| :: r.value.0[k] < 256)
  {
    if count > 0 {
      CascadeEntryOk(s);
      var c := CascadeEntry(s);
      if c.Ok? {
        var (v, s1) := c.value;
        CascadeSpecOk(s1, count - 1, acc + [v]);
        var r := CascadeSpec(s1, count - 1, acc + [v]);
        if r.Ok? {
          assert r.value.0[..|acc|] == (acc + [v])[..|acc|];
          assert r.value.0[|acc|] == (acc + [v])[|acc|];
        }
      }
    }
  }

  /** The book of pass j: an 8-bit field when bit j of the cascade is set, otherwise -1 and no read. */
  function BookEntry(s: Bits, c: nat, j: nat): Result<(int, Bits)>
  {
    if CascadeBit(c, j) then
      var b :- ReadField(s, 8);
      Ok((b.0 as int, b.1))
    else Ok((-1, s))
  }

  /** The books of passes j to 7 of one classification, appended to acc. */
  function RowSpec(s: Bits, c: nat, j: nat, acc: seq<int>): Result<(seq<int>, Bits)>
    decreases 8 - j
  {
    if j >= 8 then Ok((acc, s))
    else
      var b :- BookEntry(s, c, j);
      RowSpec(b.1, c, j + 1, acc + [b.0])
  }

  /** The bits the books of passes j to 7 take: 8 for each set cascade bit. */
  function RowBits(c: nat, j: nat): nat
    decreases 8 - j
  {
    if j >= 8 then 0 else (if CascadeBit(c, j) then 8 else 0) + RowBits(c, j + 1)
  }

  /**
   * A row fails exactly when fewer bits are left than its set cascade bits
   * take; otherwise it holds eight books, -1 exactly where the cascade
   * bit is clear, and consumes those bits.
   */
  lemma {:induction false} RowSpecOk(s: Bits, c: nat, j: nat, acc: seq<int>)
    requires j <= 8 && |acc| == j
    decreases 8 - j
    ensures var r := RowSpec(s, c, j, acc);
            (r.Fail? <==> s.length < RowBits(c, j)) &&
            (r.Fail? ==> r.error == EndOfStream) &&
            (r.Ok? ==> |r.value.0| == 8 && r.value.0[..j] == acc &&
                       r.value.1.length == s.length - RowBits(c, j)) &&
            (r.Ok? ==> forall k | j <= k < 8 :: BookOk(r.value.0[k], c, k))
  {
    if j < 8 {
      var b := BookEntry(s, c, j);
      Pow2Small();
      if b.Ok? {
        var (v, s1) := b.value;
        RowSpecOk(s1, c, j + 1, acc + [v]);
        var r := RowSpec(s1, c, j + 1, acc + [v]);
        if r.Ok? {
          assert r.value.0[..j] == (acc + [v])[..j];
          assert r.value.0[j] == (acc + [v])[j];
        }
      } else {
        assert CascadeBit(c, j);
      }
    }
  }

  /** The rows of classifications i onwards, appended to acc. */
  function BooksSpec(s: Bits, cascade: seq<nat>, i: nat, acc: seq<seq<int>>): Result<(seq<seq<int>>, Bits)>
    decreases |cascade| - i
  {
    if i >= |cascade| then Ok((acc, s))
    else
      var row :- RowSpec(s, cascade[i], 0, []);
      BooksSpec(row.1, cascade, i + 1, acc + [row.0])
  }

  /** Every row read is a row of eight books that follows its cascade. */
  lemma {:induction false} BooksSpecOk(s: Bits, cascade: seq<nat>, i: nat, acc: seq<seq<int>>)
    requires i <= |cascade| && |acc| == i
    decreases |cascade| - i
    ensures var r := BooksSpec(s, cascade, i, acc);
            (r.Fail? ==> r.error == EndOfStream) &&
            (r.Ok? ==> |r.value.0| == |cascade| && r.value.0[..i] == acc) &&
            (r.Ok? ==> forall k | i <= k < |cascade| :: RowOk(r.value.0[k], cascade[k]))
  {
    if i < |cascade| {
      RowSpecOk(s, cascade[i], 0, []);
      var row := RowSpec(s, cascade[i], 0, []);
      if row.Ok? {
        var (v, s1) := row.value;
        assert RowOk(v, cascade[i]);
        BooksSpecOk(s1, cascade, i + 1, acc + [v]);
        var r := BooksSpec(s1, cascade, i + 1, acc + [v]);
        if r.Ok? {
          assert r.value.0[..i] == (acc + [v])[..i];
          assert r.value.0[i] == v;
        }
      }
    }
  }

  /** Residue_DecodeSetup: the head, the cascades, then the books. */
  function ResidueSpec(s: Bits, residueType: nat): Result<(Residue, Bits)>
  {
    var h :- HeadSpec(s);
    var cas :- CascadeSpec(h.5, h.3, []);
    var bk :- BooksSpec(cas.1, cas.0, 0, []);
    Ok((Residue(residueType, h.0, h.1, h.2, h.4, cas.0, bk.0), bk.1))
  }

  /** A residue read off the stream is valid; reading one fails only at the end of the stream. */
  lemma ResidueSpecOk(s: Bits, residueType: nat)
    ensures ResidueSpec(s, residueType).Fail? ==> ResidueSpec(s, residueType).error == EndOfStream
    ensures ResidueSpec(s, residueType).Ok? ==>
              var r := ResidueSpec(s, residueType).value.0;
              Valid(r) && r.residueType == residueType
  {
    var h := HeadSpec(s);
    if h.Ok? {
      var (b, e, p, c, k, s1) := h.value;
      assert Pow2(6) == 64 && Pow2(8) == 256 by {
        Pow2Small();
        Pow2Add(1, 5);
      }
      CascadeSpecOk(s1, c, []);
      var cas := CascadeSpec(s1, c, []);
      if cas.Ok? {
        BooksSpecOk(cas.value.1, cas.value.0, 0, []);
      }
    }
  }

  method ReadExtent(br: BitReader) returns (r: Result<(nat, nat, nat)>)
    requires br.Valid()
    modifies br
    ensures br.Valid() && br.src == old(br.src)
    ensures ExtentSpec(old(br.View())) ==
              if r.Ok? then Ok((r.value.0, r.value.1, r.value.2, br.View())) else Fail(r.error)
  {
    ghost var s0 := br.View();
    var begin :- br.ReadBits(24);
    ghost var s1 := br.View();
    assert ReadField(s0, 24) == Ok((begin, s1));
    var end :- br.ReadBits(24);
    ghost var s2 := br.View();
    assert ReadField(s1, 24) == Ok((end, s2));
    var partitionSize :- br.ReadBits(24);
    return Ok((begin, end, partitionSize + 1));
  }

  method ReadHead(br: BitReader) returns (r: Result<(nat, nat, nat, nat, nat)>)
    requires br.Valid()
    modifies br
    ensures br.Valid() && br.src == old(br.src)
    ensures HeadSpec(old(br.View())) ==
              if r.Ok? then Ok((r.value.0, r.value.1, r.value.2, r.value.3, r.value.4, br.View()))
              else Fail(r.error)
  {
    ghost var s0 := br.View();
    var extent :- ReadExtent(br);
    ghost var s1 := br.View();
    assert ExtentSpec(s0) == Ok((extent.0, extent.1, extent.2, s1));
    var classifications :- br.ReadBits(6);
    ghost var s2 := br.View();
    assert ReadField(s1, 6) == Ok((classifications, s2));
    var classbook :- br.ReadBits(8);
    return Ok((extent.0, extent.1, extent.2, classifications + 1, classbook));
  }

  method ReadCascadeEntry(br: BitReader) returns (r: Result<nat>)
    requires br.Valid()
    modifies br
    ensures br.Valid() && br.src == old(br.src)
    ensures CascadeEntry(old(br.View())) == if r.Ok? then Ok((r.value, br.View())) else Fail(r.error)
  {
    var low :- br.ReadBits(3);
    var more :- br.ReadBits(1);
    if more == 0 {
      return Ok(low);
    }
    var high :- br.ReadBits(5);
    return Ok(low + 8 * high);
  }

  /** The first loop of Residue_DecodeSetup: one cascade per classification. */
  method ReadCascade(br: BitReader, count: nat) returns (r: Result<seq<nat>>)
    requires br.Valid()
    modifies br
    ensures br.Valid() && br.src == old(br.src)
    ensures CascadeSpec(old(br.View()), count, []) ==
              if r.Ok? then Ok((r.value, br.View())) else Fail(r.error)
  {
    ghost var s := br.View();
    var cascade: seq<nat> := [];
    var i := 0;
    while i < count
      invariant br.Valid() && br.src == old(br.src) && i <= count
      invariant CascadeSpec(s, count, []) == CascadeSpec(br.View(), count - i, cascade)
    {
      ghost var v := br.View();
      var c := ReadCascadeEntry(br);
      ghost var v2 := br.View();
      if c.Fail? {
        assert CascadeEntry(v) == Fail(c.error);
        assert CascadeSpec(v, count - i, cascade) == Fail(c.error);
        return Fail(c.error);
      }
      assert CascadeEntry(v) == Ok((c.value, v2));
      assert CascadeSpec(v, count - i, cascade) == CascadeSpec(v2, count - (i + 1), cascade + [c.value]);
      cascade := cascade + [c.value];
      i := i + 1;
    }
    return Ok(cascade);
  }

  /** The inner loop of the second one: the eight books of one classification. */
  method ReadBookRow(br: BitReader, c: nat) returns (r: Result<seq<int>>)
    requires br.Valid()
    modifies br
    ensures br.Valid() && br.src == old(br.src)
    ensures RowSpec(old(br.View()), c, 0, []) ==
              if r.Ok? then Ok((r.value, br.View())) else Fail(r.error)
  {
    ghost var s := br.View();
    var row: seq<int> := [];
    var j := 0;
    while j < 8
      invariant br.Valid() && br.src == old(br.src) && j <= 8
      invariant RowSpec(s, c, 0, []) == RowSpec(br.View(), c, j, row)
    {
      ghost var v := br.View();
      var book: int := -1;
      if (c / Pow2(j)) % 2 == 1 {
        var b := br.ReadBits(8);
        if b.Fail? {
          assert BookEntry(v, c, j).Fail?;
          return Fail(EndOfStream);
        }
        book := b.value;
      }
      assert BookEntry(v, c, j) == Ok((book, br.View()));
      row := row + [book];
      j := j + 1;
    }
    return Ok(row);
  }

  /** The second loop of Residue_DecodeSetup: a row of books per classification. */
  method ReadBooks(br: BitReader, cascade: seq<nat>) returns (r: Result<seq<seq<int>>>)
    requires br.Valid()
    modifies br
    ensures br.Valid() && br.src == old(br.src)
    ensures BooksSpec(old(br.View()), cascade, 0, []) ==
              if r.Ok? then Ok((r.value, br.View())) else Fail(r.error)
  {
    ghost var s := br.View();
    var books: seq<seq<int>> := [];
    var i := 0;
    while i < |cascade|
      invariant br.Valid() && br.src == old(br.src) && i <= |cascade|
      invariant BooksSpec(s, cascade, 0, []) == BooksSpec(br.View(), cascade, i, books)
    {
      ghost var v := br.View();
      var row := ReadBookRow(br, cascade[i]);
      if row.Fail? {
        assert BooksSpec(v, cascade, i, books) == Fail(row.error);
        return Fail(row.error);
      }
      assert BooksSpec(v, cascade, i, books) == BooksSpec(br.View(), cascade, i + 1, books + [row.value]);
      books := books + [row.value];
      i := i + 1;
    }
    return Ok(books);
  }

  /** Residue_DecodeSetup. */
  method DecodeSetup(br: BitReader, residueType: nat) returns (r: Result<Residue>)
    requires br.Valid()
    modifies br
    ensures br.Valid() && br.src == old(br.src)
    ensures ResidueSpec(old(br.View()), residueType) ==
              if r.Ok? then Ok((r.value, br.View())) else Fail(r.error)
    ensures r.Ok? ==> Valid(r.value) && r.value.residueType == residueType
  {
    ResidueSpecOk(br.View(), residueType);
    var head :- ReadHead(br);
    var (begin, end, partitionSize, classifications, classbook) := head;
    var cascade :- ReadCascade(br, classifications);
    var books :- ReadBooks(br, cascade);
    return Ok(Residue(residueType, begin, end, partitionSize, classbook, cascade, books));
  }

  // ---------------------------------------------------------------------
  // The integer part of Residue_DecodeFrame

  /** The part of a channel's vector a residue reads, in UInt32 arithmetic. */
  datatype Window = Window(begin: nat, end: nat, toRead: nat, partitions: nat)

  /**
   * The window Residue_DecodeFrame computes: the vector size (times the
   * channels for type 2, wrapping at 32 bits), begin and end each raised
   * to at least that size, their difference in UInt32, and the number of
   * whole partitions in it.
   */
  function FrameWindow(r: Residue, dataSize: u32, ch: u32): Window
    requires r.partitionSize >= 1
  {
    var size := if r.residueType == 2 then (dataSize * ch) % WordModulus else dataSize;
    var beg := Max(r.begin, size);
    var end := Max(r.end, size);
    var n := (end - beg) % WordModulus;
    DivNat(n, r.partitionSize);
    Window(beg, end, n, n / r.partitionSize)
  }

  /** The vector size FrameWindow starts from. */
  function VectorSize(r: Residue, dataSize: u32, ch: u32): nat
  {
    if r.residueType == 2 then (dataSize * ch) % WordModulus else dataSize
  }

  /**
   * Begin and end are taken with max, not min, so the window never starts
   * or ends below the vector size.  A residue whose end lies at or below
   * the vector size therefore reads nothing; one that lies wholly above it
   * reads end - begin values; and one whose end is below its begin wraps
   * around to almost 2^32 values.  The partitions are the whole ones in
   * the window.
   */
  lemma FrameWindowBounds(r: Residue, dataSize: u32, ch: u32)
    requires r.partitionSize >= 1 && r.begin < WordModulus && r.end < WordModulus
    ensures var w := FrameWindow(r, dataSize, ch);
            var size := VectorSize(r, dataSize, ch);
            w.begin >= size && w.end >= size &&
            (r.begin <= size && r.end <= size ==> w.toRead == 0) &&
            (size <= r.begin <= r.end ==> w.toRead == r.end - r.begin) &&
            (size <= r.end < r.begin ==> w.toRead == WordModulus - (r.begin - r.end)) &&
            w.partitions * r.partitionSize <= w.toRead < (w.partitions + 1) * r.partitionSize
  {
    var w := FrameWindow(r, dataSize, ch);
    DivModSplit(w.toRead, r.partitionSize);
    MulStep(w.partitions, r.partitionSize);
    var d := w.end - w.begin;
    if d < 0 {
      DivModUnique(d, -1, WordModulus, d + WordModulus);
    } else {
      DivModUnique(d, 0, WordModulus, d);
    }
  }

  /**
   * The classification codeword split as the pass-0 loop writes it: n
   * digits in base c, the last one the least significant.
   */
  function ClassWords(temp: nat, c: nat, n: nat): (ds: seq<nat>)
    requires c >= 1
    ensures |ds| == n
  {
    if n == 0 then []
    else
      DivNat(temp, c);
      ClassWords(temp / c, c, n - 1) + [temp % c]
  }

  /** The value of base-c digits, the most significant first. */
  function Undigits(ds: seq<nat>, c: nat): nat
  {
    if ds == [] then 0 else Undigits(ds[..|ds| - 1], c) * c + ds[|ds| - 1]
  }


  /** The digits are below c and spell the codeword modulo c^n. */
  lemma {:induction false} ClassWordsValue(temp: nat, c: nat, n: nat)
    requires c >= 1
    ensures forall k | 0 <= k < n :: ClassWords(temp, c, n)[k] < c
    ensures Pow(c, n) >= 1
    ensures Undigits(ClassWords(temp, c, n), c) == temp % Pow(c, n)
  {
    if n == 0 {
      DivModUnique(temp, temp, 1, 0);
    } else {
      DivNat(temp, c);
      var ds := ClassWords(temp, c, n);
      var rest := ClassWords(temp / c, c, n - 1);
      ClassWordsValue(temp / c, c, n - 1);
      assert ds[..n - 1] == rest;
      PowAtLeastOne(c, n - 1);
      ModProduct(temp, c, Pow(c, n - 1));
      assert Pow(c, n) == c * Pow(c, n - 1);
      assert Undigits(ds, c) == Undigits(rest, c) * c + temp % c;
    }
  }
}
