/**
 * Codebook_DecodeSetup: one codebook of the Vorbis setup header (section
 * 3.2.1 of the Vorbis I specification).  The header fields, the codeword
 * length table (unordered, optionally sparse, or ordered as runs of
 * increasing length), the canonical codeword assignment, and the vector
 * lookup table.
 *
 * The stream layout each stage reads is stated as a function of the bits
 * still to be read (BitStream.Bits); the methods that read the fields off
 * the bit reader are proved to follow those functions.
 */
module CodebookSetup {
  import opened Common
  import opened BitStream
  import opened Integers
  import opened Codewords

  /** The 24-bit pattern that opens every codebook: "BCV", least significant byte first. */
  const Sync: nat := 0x564342

  // ---------------------------------------------------------------------
  // The header fields

  /** The sync pattern, then 16 bits of dimensions and 24 bits of entries. */
  function CodebookHeader(s: Bits): (r: Result<(nat, nat, Bits)>)
    ensures r.Fail? ==> r.error in {EndOfStream, CodebookSync}
  {
    var sync :- ReadField(s, 24);
    if sync.0 != Sync then Fail(CodebookSync)
    else
      var dims :- ReadField(sync.1, 16);
      var entries :- ReadField(dims.1, 24);
      Ok((dims.0, entries.0, entries.1))
  }

  /**
   * Where the header fields sit in the stream: the sync pattern is its
   * first 24 bits, the dimensions the next 16, the entries the next 24,
   * and the sync error is raised exactly when 24 bits are there and differ.
   */
  lemma HeaderLayout(s: Bits)
    ensures CodebookHeader(s).Ok? ==>
              CodebookHeader(s).value.0 < 0x1_0000 && CodebookHeader(s).value.1 < 0x100_0000
    ensures CodebookHeader(s) == Fail(CodebookSync) <==>
              s.length >= 24 && PeekBits(s.value, 24) != Sync
    ensures CodebookHeader(s).Ok? <==>
              s.length >= 64 && PeekBits(s.value, 24) == Sync
    ensures CodebookHeader(s).Ok? ==>
              CodebookHeader(s).value ==
                (PeekBits(ConsumeBits(s.value, 24), 16), PeekBits(ConsumeBits(s.value, 40), 24),
                 Bits(ConsumeBits(s.value, 64), s.length - 64))
  {
    ConsumeConsume(s.value, 24, 16);
    ConsumeConsume(s.value, 40, 24);
    Pow2Values();
  }

  method ReadHeader(br: BitReader) returns (r: Result<(nat, nat)>)
    requires br.Valid()
    modifies br
    ensures br.Valid() && br.src == old(br.src)
    ensures CodebookHeader(old(br.View())) ==
              if r.Ok? then Ok((r.value.0, r.value.1, br.View())) else Fail(r.error)
  {
    var sync :- br.ReadBits(24);
    if sync != Sync {
      return Fail(CodebookSync);
    }
    var dims :- br.ReadBits(16);
    var entries :- br.ReadBits(24);
    return Ok((dims, entries));
  }

  // ---------------------------------------------------------------------
  // The codeword length table

  /** A length table, the number of its used entries, and the stream after it. */
  datatype Lengths = Lengths(lens: seq<byte>, used: nat, rest: Bits)

  /**
   * One entry of an unordered table: in a sparse table a flag bit first
   * says whether the entry is used (an unused entry gets length 255); a
   * used entry has a 5-bit length minus one.
   */
  function UnorderedEntry(s: Bits, sparse: bool): Result<(byte, Bits)>
  {
    var flag :- if sparse then ReadField(s, 1) else Ok((1, s));
    if flag.0 == 0 then Ok((Unused, flag.1))
    else
      var len :- ReadField(flag.1, 5);
      assert Pow2(5) == 32;
      Ok((len.0 + 1, len.1))
  }

  /** The unordered table from entry |acc| on, counting the used entries. */
  function UnorderedLengths(s: Bits, sparse: bool, entries: nat, acc: seq<byte>, used: nat)
    : Result<Lengths>
    requires |acc| <= entries
    decreases entries - |acc|
  {
    if |acc| == entries then Ok(Lengths(acc, used, s))
    else
      var e :- UnorderedEntry(s, sparse);
      UnorderedLengths(e.1, sparse, entries, acc + [e.0], if e.0 == Unused then used else used + 1)
  }

  /**
   * The unordered table keeps the entries before it; each later length is
   * 1 to 32, or 255 for an entry the sparse flag left unused; and the
   * count grows by the number of used entries.
   */
  lemma {:induction false} UnorderedLengthsOk(s: Bits, sparse: bool, entries: nat, acc: seq<byte>, used: nat)
    requires |acc| <= entries
    decreases entries - |acc|
    ensures var r := UnorderedLengths(s, sparse, entries, acc, used);
            (r.Fail? ==> r.error == EndOfStream) &&
            (r.Ok? ==> |r.value.lens| == entries && r.value.lens[..|acc|] == acc) &&
            (r.Ok? ==> forall k | |acc| <= k < entries ::
                         1 <= r.value.lens[k] <= 32 || (sparse && r.value.lens[k] == Unused)) &&
            (r.Ok? ==> r.value.used + |Used(r.value.lens, |acc|)| == used + |Used(r.value.lens, entries)|)
  {
    if |acc| < entries {
      var e := UnorderedEntry(s, sparse);
      if e.Ok? {
        var (len, s1) := e.value;
        assert 1 <= len <= 32 || (sparse && len == Unused) by {
          Pow2Small();
        }
        var used' := if len == Unused then used else used + 1;
        UnorderedLengthsOk(s1, sparse, entries, acc + [len], used');
        var r := UnorderedLengths(s1, sparse, entries, acc + [len], used');
        if r.Ok? {
          var lens := r.value.lens;
          assert lens[..|acc|] == (acc + [len])[..|acc|];
          assert lens[|acc|] == len by {
            assert lens[..|acc| + 1][|acc|] == len;
          }
          UsedNext(lens, |acc|);
        }
      }
    }
  }

  /** n copies of a length. */
  function Repeat(n: nat, b: byte): (r: seq<byte>)
    ensures |r| == n && forall k | 0 <= k < n :: r[k] == b
  {
    if n == 0 then [] else Repeat(n - 1, b) + [b]
  }

  /**
   * The ordered table from entry |acc| on: runs of entries of one length,
   * each run's size in iLog(entries - entry) bits, the length growing by
   * one per run.  A run past the last entry is the entry error.  The
   * length is kept as the source's Int32 and stored in a byte.
   */
  function OrderedLengths(s: Bits, entries: nat, acc: seq<byte>, cur: nat): Result<Lengths>
    requires |acc| <= entries
    decreases s.length
  {
    if |acc| == entries then Ok(Lengths(acc, entries, s))
    else
      Base4LengthBounds(entries - |acc|);
      var run := ReadField(s, Base4Length(entries - |acc|));
      if run.Fail? then Fail(run.error)
      else if |acc| + run.value.0 > entries then Fail(CodebookEntry)
      else OrderedLengths(run.value.1, entries, acc + Repeat(run.value.0, (cur % 256) as byte), cur + 1)
  }

  /**
   * The ordered table keeps the entries before it, fills all entries and
   * counts them all as used.  It can end early only at the end of the
   * stream: a run is read in iLog(entries - done) bits, so it never passes
   * the entry count and the entry error is never reached.
   */
  lemma {:induction false} OrderedLengthsOk(s: Bits, entries: nat, acc: seq<byte>, cur: nat)
    requires |acc| <= entries
    decreases s.length
    ensures var r := OrderedLengths(s, entries, acc, cur);
            (r.Fail? ==> r.error == EndOfStream) &&
            (r.Ok? ==> |r.value.lens| == entries && r.value.lens[..|acc|] == acc && r.value.used == entries)
  {
    if |acc| < entries {
      Base4LengthBounds(entries - |acc|);
      Base4LengthWidth(entries - |acc|);
      var run := ReadField(s, Base4Length(entries - |acc|));
      if run.Ok? && |acc| + run.value.0 <= entries {
        var acc' := acc + Repeat(run.value.0, (cur % 256) as byte);
        OrderedLengthsOk(run.value.1, entries, acc', cur + 1);
        var r := OrderedLengths(run.value.1, entries, acc', cur + 1);
        if r.Ok? {
          assert r.value.lens[..|acc|] == (r.value.lens[..|acc'|])[..|acc|];
        }
      }
    }
  }

  /** The entries a run appends all hold the run's length. */
  lemma RunHolds(lens: seq<byte>, acc: seq<byte>, n: nat, b: byte)
    requires |acc| + n <= |lens| && lens[..|acc| + n] == acc + Repeat(n, b)
    ensures forall i | |acc| <= i < |acc| + n :: lens[i] == b
  {
    forall i | |acc| <= i < |acc| + n
      ensures lens[i] == b
    {
      assert lens[..|acc| + n][i] == lens[i];
    }
  }

  /** One run of the ordered table, taken off the front. */
  lemma OrderedStep(s: Bits, entries: nat, acc: seq<byte>, cur: nat)
    requires |acc| < entries && OrderedLengths(s, entries, acc, cur).Ok?
    ensures var run := ReadField(s, Base4Length(entries - |acc|));
            run.Ok? && |acc| + run.value.0 <= entries &&
            OrderedLengths(s, entries, acc, cur) ==
              OrderedLengths(run.value.1, entries, acc + Repeat(run.value.0, (cur % 256) as byte), cur + 1)
  {
  }

  /** A run of length cur followed by longer lengths that never decrease never decreases. */
  lemma SortedJoin(lens: seq<byte>, from: nat, n: nat, cur: nat)
    requires from + n <= |lens|
    requires forall i | from <= i < from + n :: lens[i] as nat == cur
    requires forall i | from + n <= i < |lens| :: cur + 1 <= lens[i] as nat
    requires forall i | from + n < i < |lens| :: lens[i - 1] <= lens[i]
    ensures forall i | from <= i < |lens| :: cur <= lens[i] as nat
    ensures forall i | from < i < |lens| :: lens[i - 1] <= lens[i]
  {
  }

  /**
   * One more than the last length the ordered table from entry done on
   * stores: the length reached after its last run, counted without the
   * byte wrap.
   */
  function OrderedEnd(s: Bits, entries: nat, done: nat, cur: nat): nat
    requires done <= entries
    decreases s.length
  {
    if done == entries then cur
    else
      Base4LengthBounds(entries - done);
      var run := ReadField(s, Base4Length(entries - done));
      if run.Fail? || done + run.value.0 > entries then cur
      else OrderedEnd(run.value.1, entries, done + run.value.0, cur + 1)
  }

  lemma {:induction false} OrderedEndAtLeast(s: Bits, entries: nat, done: nat, cur: nat)
    requires done <= entries
    ensures cur <= OrderedEnd(s, entries, done, cur)
    decreases s.length
  {
    if done < entries {
      Base4LengthBounds(entries - done);
      var run := ReadField(s, Base4Length(entries - done));
      if run.Ok? && done + run.value.0 <= entries {
        OrderedEndAtLeast(run.value.1, entries, done + run.value.0, cur + 1);
      }
    }
  }

  /**
   * When the lengths the runs reach stay below 256, so that the byte
   * storing each one does not wrap, the ordered lengths never decrease,
   * start at the first length and stay below the end length.
   */
  lemma {:induction false} OrderedSorted(s: Bits, entries: nat, acc: seq<byte>, cur: nat)
    requires |acc| <= entries && OrderedEnd(s, entries, |acc|, cur) <= 256
    requires OrderedLengths(s, entries, acc, cur).Ok?
    ensures var lens := OrderedLengths(s, entries, acc, cur).value.lens;
            |lens| == entries &&
            (forall i | |acc| <= i < entries :: cur <= lens[i] as nat < OrderedEnd(s, entries, |acc|, cur)) &&
            (forall i | |acc| < i < entries :: lens[i - 1] <= lens[i])
    decreases s.length
  {
    var lens := OrderedLengths(s, entries, acc, cur).value.lens;
    assert |lens| == entries by {
      OrderedLengthsOk(s, entries, acc, cur);
    }
    if |acc| < entries {
      var fits := ReadField(s, Base4Length(entries - |acc|)).Ok? &&
                  |acc| + ReadField(s, Base4Length(entries - |acc|)).value.0 <= entries;
      assert fits by {
        OrderedStep(s, entries, acc, cur);
      }
      var run := ReadField(s, Base4Length(entries - |acc|)).value;
      var b := (cur % 256) as byte;
      var acc' := acc + Repeat(run.0, b);
      var end := OrderedEnd(s, entries, |acc|, cur);
      assert end == OrderedEnd(run.1, entries, |acc'|, cur + 1);
      assert cur + 1 <= end by {
        OrderedEndAtLeast(run.1, entries, |acc'|, cur + 1);
      }
      assert b as nat == cur;
      assert lens == OrderedLengths(run.1, entries, acc', cur + 1).value.lens by {
        OrderedStep(s, entries, acc, cur);
      }
      assert lens[..|acc'|] == acc' by {
        OrderedLengthsOk(run.1, entries, acc', cur + 1);
      }
      assert (forall i | |acc'| <= i < entries :: cur + 1 <= lens[i] as nat < end) &&
             (forall i | |acc'| < i < entries :: lens[i - 1] <= lens[i]) by {
        OrderedSorted(run.1, entries, acc', cur + 1);
      }
      RunHolds(lens, acc, run.0, b);
      SortedJoin(lens, |acc|, run.0, cur);
    }
  }

  /** The length table: an ordered flag, then a sparse flag or the first length. */
  function LengthTable(s: Bits, entries: nat): Result<Lengths>
  {
    var ordered :- ReadField(s, 1);
    if ordered.0 == 0 then
      var sparse :- ReadField(ordered.1, 1);
      UnorderedLengths(sparse.1, sparse.0 == 1, entries, [], 0)
    else
      var first :- ReadField(ordered.1, 5);
      OrderedLengths(first.1, entries, [], first.0 + 1)
  }

  /** The length table has one length per entry, and fails only at the end of the stream. */
  lemma LengthTableOk(s: Bits, entries: nat)
    ensures LengthTable(s, entries).Fail? ==> LengthTable(s, entries).error == EndOfStream
    ensures LengthTable(s, entries).Ok? ==> |LengthTable(s, entries).value.lens| == entries
  {
    var ordered := ReadField(s, 1);
    if ordered.Ok? {
      var s1 := ordered.value.1;
      if ordered.value.0 == 0 {
        var sparse := ReadField(s1, 1);
        if sparse.Ok? {
          UnorderedLengthsOk(sparse.value.1, sparse.value.0 == 1, entries, [], 0);
        }
      } else {
        var first := ReadField(s1, 5);
        if first.Ok? {
          OrderedLengthsOk(first.value.1, entries, [], first.value.0 + 1);
        }
      }
    }
  }

  /**
   * An unordered table: every used length is in 1..32, an unused entry
   * (only possible when the sparse flag is set) has 255, the entry error
   * cannot occur, and the used count is the number of used entries.
   */
  lemma UnorderedTable(s: Bits, entries: nat)
    requires s.length >= 1 && s.value % 2 == 0
    ensures LengthTable(s, entries).Fail? ==> LengthTable(s, entries).error == EndOfStream
    ensures LengthTable(s, entries).Ok? ==>
              var t := LengthTable(s, entries).value;
              |t.lens| == entries && t.used == |Used(t.lens, entries)| &&
              forall k | 0 <= k < entries :: 1 <= t.lens[k] <= 32 || t.lens[k] == Unused
  {
    Pow2Small();
    var ordered := ReadField(s, 1);
    var sparse := ReadField(ordered.value.1, 1);
    if sparse.Ok? {
      UnorderedLengthsOk(sparse.value.1, sparse.value.0 == 1, entries, [], 0);
    }
  }

  /** One pass of the unordered loop: the entry's flag and length. */
  method ReadUnorderedEntry(br: BitReader, sparse: bool) returns (r: Result<byte>)
    requires br.Valid()
    modifies br
    ensures br.Valid() && br.src == old(br.src)
    ensures UnorderedEntry(old(br.View()), sparse) ==
              if r.Ok? then Ok((r.value, br.View())) else Fail(r.error)
  {
    if sparse {
      var flag :- br.ReadBits(1);
      if flag == 0 {
        return Ok(Unused);
      }
    }
    var len :- br.ReadBits(5);
    Pow2Small();
    return Ok(len + 1);
  }

  method ReadUnordered(br: BitReader, sparse: bool, entries: nat) returns (r: Result<(seq<byte>, nat)>)
    requires br.Valid()
    modifies br
    ensures br.Valid() && br.src == old(br.src)
    ensures UnorderedLengths(old(br.View()), sparse, entries, [], 0) ==
              if r.Ok? then Ok(Lengths(r.value.0, r.value.1, br.View())) else Fail(r.error)
  {
    var lens: seq<byte> := [];
    var used := 0;
    while |lens| < entries
      invariant br.Valid() && br.src == old(br.src) && |lens| <= entries
      invariant UnorderedLengths(old(br.View()), sparse, entries, [], 0) ==
                UnorderedLengths(br.View(), sparse, entries, lens, used)
      decreases entries - |lens|
    {
      var len :- ReadUnorderedEntry(br, sparse);
      lens := lens + [len];
      if len != Unused {
        used := used + 1;
      }
    }
    return Ok((lens, used));
  }

  /** One pass of the ordered loop: a run of entries of length cur. */
  method ReadRun(br: BitReader, entries: nat, lens: seq<byte>, cur: nat) returns (r: Result<seq<byte>>)
    requires br.Valid() && |lens| < entries < 0x100_0000
    modifies br
    ensures br.Valid() && br.src == old(br.src)
    ensures r.Ok? ==> br.View().length < old(br.View().length)
    ensures r.Ok? ==> |lens + r.value| <= entries
    ensures OrderedLengths(old(br.View()), entries, lens, cur) ==
              if r.Ok? then OrderedLengths(br.View(), entries, lens + r.value, cur + 1)
              else Fail(r.error)
  {
    var runBits := ILog(entries - |lens|);
    Base4LengthBounds(entries - |lens|);
    Pow4Twelve();
    Base4LengthAtMost(entries - |lens|, 12);
    var runLen :- br.ReadBits(runBits);
    if |lens| + runLen > entries {
      return Fail(CodebookEntry);
    }
    var run: seq<byte> := [];
    while |run| < runLen
      invariant run == Repeat(|run|, (cur % 256) as byte) && |run| <= runLen
    {
      run := run + [(cur % 256) as byte];
    }
    return Ok(run);
  }

  method ReadOrdered(br: BitReader, entries: nat, first: nat) returns (r: Result<seq<byte>>)
    requires br.Valid() && entries < 0x100_0000
    modifies br
    ensures br.Valid() && br.src == old(br.src)
    ensures OrderedLengths(old(br.View()), entries, [], first) ==
              if r.Ok? then Ok(Lengths(r.value, entries, br.View())) else Fail(r.error)
  {
    var lens: seq<byte> := [];
    var cur := first;
    while |lens| < entries
      invariant br.Valid() && br.src == old(br.src) && |lens| <= entries
      invariant OrderedLengths(old(br.View()), entries, [], first) ==
                OrderedLengths(br.View(), entries, lens, cur)
      decreases br.View().length
    {
      var run :- ReadRun(br, entries, lens, cur);
      lens := lens + run;
      cur := cur + 1;
    }
    return Ok(lens);
  }

  method ReadLengthTable(br: BitReader, entries: nat) returns (r: Result<(seq<byte>, nat)>)
    requires br.Valid() && entries < 0x100_0000
    modifies br
    ensures br.Valid() && br.src == old(br.src)
    ensures LengthTable(old(br.View()), entries) ==
              if r.Ok? then Ok(Lengths(r.value.0, r.value.1, br.View())) else Fail(r.error)
  {
    ghost var s := br.View();
    var ordered :- br.ReadBits(1);
    ghost var s1 := br.View();
    assert ReadField(s, 1) == Ok((ordered, s1));
    if ordered == 0 {
      var sparse := br.ReadBits(1);
      if sparse.Fail? {
        assert ReadField(s1, 1).Fail?;
        return Fail(EndOfStream);
      }
      assert ReadField(s1, 1) == Ok((sparse.value, br.View()));
      r := ReadUnordered(br, sparse.value == 1, entries);
    } else {
      var first := br.ReadBits(5);
      if first.Fail? {
        assert ReadField(s1, 5).Fail?;
        return Fail(EndOfStream);
      }
      assert ReadField(s1, 5) == Ok((first.value, br.View()));
      var lens := ReadOrdered(br, entries, first.value + 1);
      if lens.Fail? {
        return Fail(lens.error);
      }
      r := Ok((lens.value, entries));
    }
  }

  /**
   * usedEntries as Codebook_CalcCodewords sees it: narrowed to its Int16
   * parameter n, then widened to unsigned where it is compared with the
   * unsigned entry index.
   */
  function CountArgument(used: nat): (n: nat)
    ensures used < 0x8000 ==> n == used
    ensures 0x1_0000 <= used < 0x1_8000 ==> n == used - 0x1_0000
    ensures used % 0x1_0000 >= 0x8000 ==> n >= WordModulus - 0x8000
  {
    var t := used % 0x1_0000;
    if t < 0x8000 then t else t - 0x1_0000 + WordModulus
  }

  // ---------------------------------------------------------------------
  // The vector lookup table

  /**
   * A packed float: two 16-bit fields, the low half first, joined into a
   * 32-bit word (the join never exceeds 32 bits; the reduction only makes
   * that visible to the type).
   */
  function Float32Spec(s: Bits): Result<(PackedFloat, Bits)>
  {
    var lo :- ReadField(s, 16);
    var hi :- ReadField(lo.1, 16);
    Ok((SplitFloat((hi.0 * 0x1_0000 + lo.0) % WordModulus), hi.1))
  }

  /** A packed float takes exactly 32 bits of the stream. */
  lemma Float32Layout(s: Bits)
    ensures Float32Spec(s).Fail? <==> s.length < 32
    ensures Float32Spec(s).Fail? ==> Float32Spec(s).error == EndOfStream
    ensures Float32Spec(s).Ok? ==> Float32Spec(s).value.1.length == s.length - 32
  {
    if s.length >= 16 {
      var lo := ReadField(s, 16);
      assert lo.Ok? && lo.value.1.length == s.length - 16;
    }
  }

  method ReadFloat32(br: BitReader) returns (r: Result<PackedFloat>)
    requires br.Valid()
    modifies br
    ensures br.Valid() && br.src == old(br.src)
    ensures Float32Spec(old(br.View())) == if r.Ok? then Ok((r.value, br.View())) else Fail(r.error)
  {
    ghost var s := br.View();
    var lo :- br.ReadBits(16);
    ghost var s1 := br.View();
    assert ReadField(s, 16) == Ok((lo, s1));
    var hi := br.ReadBits(16);
    if hi.Fail? {
      assert ReadField(s1, 16).Fail?;
      return Fail(EndOfStream);
    }
    assert ReadField(s1, 16) == Ok((hi.value, br.View()));
    return Ok(SplitFloat((hi.value * 0x1_0000 + lo) % WordModulus));
  }

  /**
   * The vector quantisation fields: the minimum and delta floats, the
   * multiplicand width minus one in 4 bits, and the sequence flag.
   */
  function VectorSpec(s: Bits): Result<((PackedFloat, PackedFloat, nat, bool), Bits)>
  {
    var minValue :- Float32Spec(s);
    var deltaValue :- Float32Spec(minValue.1);
    var valueBits :- ReadField(deltaValue.1, 4);
    var sequenceP :- ReadField(valueBits.1, 1);
    Ok(((minValue.0, deltaValue.0, valueBits.0 + 1, sequenceP.0 == 1), sequenceP.1))
  }

  /** The vector fields take 69 bits, and the multiplicand width is 1 to 16 bits. */
  lemma VectorLayout(s: Bits)
    ensures VectorSpec(s).Fail? <==> s.length < 69
    ensures VectorSpec(s).Fail? ==> VectorSpec(s).error == EndOfStream
    ensures VectorSpec(s).Ok? ==> 1 <= VectorSpec(s).value.0.2 <= 16
    ensures VectorSpec(s).Ok? ==> VectorSpec(s).value.1.length == s.length - 69
  {
    Float32Layout(s);
    if s.length >= 32 {
      var s1 := Float32Spec(s).value.1;
      Float32Layout(s1);
      if s1.length >= 32 {
        var s2 := Float32Spec(s1).value.1;
        assert s2.length == s.length - 64;
        if s2.length >= 4 {
          assert Pow2(4) == 16;
        }
      }
    }
  }

  method ReadVectorFields(br: BitReader) returns (r: Result<(PackedFloat, PackedFloat, nat, bool)>)
    requires br.Valid()
    modifies br
    ensures br.Valid() && br.src == old(br.src)
    ensures VectorSpec(old(br.View())) == if r.Ok? then Ok((r.value, br.View())) else Fail(r.error)
  {
    ghost var s := br.View();
    var minValue :- ReadFloat32(br);
    ghost var s1 := br.View();
    assert Float32Spec(s) == Ok((minValue, s1));
    var deltaValue := ReadFloat32(br);
    ghost var s2 := br.View();
    if deltaValue.Fail? {
      assert Float32Spec(s1).Fail?;
      return Fail(deltaValue.error);
    }
    assert Float32Spec(s1) == Ok((deltaValue.value, s2));
    var valueBits := br.ReadBits(4);
    ghost var s3 := br.View();
    if valueBits.Fail? {
      assert ReadField(s2, 4).Fail?;
      return Fail(EndOfStream);
    }
    assert ReadField(s2, 4) == Ok((valueBits.value, s3));
    var sequenceP := br.ReadBits(1);
    if sequenceP.Fail? {
      assert ReadField(s3, 1).Fail?;
      return Fail(EndOfStream);
    }
    return Ok((minValue, deltaValue.value, valueBits.value + 1, sequenceP.value == 1));
  }

  /**
   * The lookup part of a codebook: none (type 0), or the vector
   * quantisation fields and the multiplicands (types 1 and 2).
   */
  datatype Lookup =
    | NoLookup
    | VectorLookup(lookupType: nat, minValue: PackedFloat, deltaValue: PackedFloat,
                   valueBits: nat, sequenceP: bool, lookupValues: u32, multiplicands: seq<nat>)

  /**
   * How many multiplicands a lookup table has: for type 1 the lookup1
   * value, whose bounds hold while its powers fit in 32 bits; for type 2
   * one per entry and dimension, the product wrapping at 32 bits.
   */
  ghost predicate LookupCount(lookupType: nat, entries: u32, dims: u32, n: nat)
  {
    (lookupType == 2 ==> n == entries * dims % WordModulus) &&
    (lookupType == 1 && entries >= 1 && dims >= 1 && Pow(n + 1, dims) < WordModulus ==>
       Pow(n, dims) <= entries < Pow(n + 1, dims))
  }

  /** The number of multiplicands: lookup1_values for type 1, entries * dims wrapped to 32 bits otherwise. */
  function LookupValuesSpec(lookupType: nat, entries: u32, dims: u32): Result<u32>
  {
    if lookupType == 1 then Lookup1Spec(entries, dims) else Ok(entries * dims % WordModulus)
  }

  method LookupValues(lookupType: nat, entries: u32, dims: u32) returns (r: Result<u32>)
    requires 1 <= lookupType <= 2
    ensures r == LookupValuesSpec(lookupType, entries, dims)
    ensures r.Fail? <==> lookupType == 1 && dims == 0 && entries >= 2
    ensures r.Fail? ==> r.error == Hangs
    ensures r.Ok? ==> LookupCount(lookupType, entries, dims, r.value)
  {
    if lookupType == 1 {
      r := Lookup1Values(entries, dims);
    } else {
      r := Ok(entries * dims % WordModulus);
    }
  }

  /**
   * The lookup part of the stream: the type nibble and, for types 1 and 2,
   * the vector quantisation fields and the multiplicands, valueBits bits
   * each.  A short stream while reading the multiplicands is the end of
   * the stream, whatever the multiplicand width.
   */
  function LookupSpec(s: Bits, entries: u32, dims: u32): Result<(Lookup, Bits)>
  {
    var t := ReadField(s, 4);
    if t.Fail? then Fail(EndOfStream)
    else if t.value.0 == 0 then Ok((NoLookup, t.value.1))
    else if t.value.0 > 2 then Fail(CodebookLookup)
    else
      var v := VectorSpec(t.value.1);
      if v.Fail? then Fail(v.error)
      else
        var lv := LookupValuesSpec(t.value.0, entries, dims);
        if lv.Fail? then Fail(lv.error)
        else
          var (minValue, deltaValue, valueBits, sequenceP) := v.value.0;
          var m := Fields(v.value.1, lv.value, valueBits, []);
          if m.Fail? then Fail(EndOfStream)
          else Ok((VectorLookup(t.value.0, minValue, deltaValue, valueBits, sequenceP, lv.value, m.value.0),
                   m.value.1))
  }

  /**
   * What the lookup part consumes and when it fails: 4 bits and nothing
   * more for type 0; the lookup error exactly for a type above 2; the
   * lookup1 hang exactly for type 1 with no dimensions and at least two
   * entries once the vector fields are there; otherwise one multiplicand
   * below 2^valueBits per lookup value, 4 + 69 + lookupValues * valueBits
   * bits in all.
   */
  lemma LookupLayout(s: Bits, entries: u32, dims: u32)
    ensures var l := LookupSpec(s, entries, dims);
            (l.Fail? ==> l.error in {EndOfStream, CodebookLookup, Hangs}) &&
            (l == Fail(CodebookLookup) <==> s.length >= 4 && PeekBits(s.value, 4) > 2) &&
            (l == Fail(Hangs) <==>
               s.length >= 73 && PeekBits(s.value, 4) == 1 && dims == 0 && entries >= 2) &&
            (l.Ok? && l.value.0.NoLookup? <==> s.length >= 4 && PeekBits(s.value, 4) == 0) &&
            (l.Ok? && l.value.0.NoLookup? ==> l.value.1.length == s.length - 4) &&
            (l.Ok? && l.value.0.VectorLookup? ==>
               var v := l.value.0;
               1 <= v.lookupType <= 2 && 1 <= v.valueBits <= 16 &&
               |v.multiplicands| == v.lookupValues &&
               (forall k | 0 <= k < |v.multiplicands| :: v.multiplicands[k] < Pow2(v.valueBits)) &&
               l.value.1.length == s.length - 73 - v.lookupValues * v.valueBits)
  {
    var t := ReadField(s, 4);
    if t.Ok? && 1 <= t.value.0 <= 2 {
      var s1 := t.value.1;
      VectorLayout(s1);
      var v := VectorSpec(s1);
      if v.Ok? {
        var lv := LookupValuesSpec(t.value.0, entries, dims);
        if lv.Ok? {
          FieldsSpec(v.value.1, lv.value, v.value.0.2, []);
        }
      }
    }
  }

  method ReadLookup(br: BitReader, entries: u32, dims: u32) returns (r: Result<Lookup>)
    requires br.Valid()
    modifies br
    ensures br.Valid() && br.src == old(br.src)
    ensures LookupSpec(old(br.View()), entries, dims) ==
              if r.Ok? then Ok((r.value, br.View())) else Fail(r.error)
    ensures r.Fail? ==> r.error in {EndOfStream, CodebookLookup, Hangs}
    ensures var t := ReadField(old(br.View()), 4);
            (t.Fail? ==> r == Fail(EndOfStream)) &&
            (t.Ok? && t.value.0 == 0 ==> r == Ok(NoLookup) && br.View() == t.value.1) &&
            (t.Ok? && t.value.0 > 2 <==> r == Fail(CodebookLookup))
    ensures r.Ok? && r.value.VectorLookup? ==>
              var t := ReadField(old(br.View()), 4);
              var v := r.value;
              t.Ok? && v.lookupType == t.value.0 && 1 <= v.lookupType <= 2 &&
              VectorSpec(t.value.1).Ok? &&
              VectorSpec(t.value.1).value.0 == (v.minValue, v.deltaValue, v.valueBits, v.sequenceP) &&
              LookupCount(v.lookupType, entries, dims, v.lookupValues) &&
              Fields(VectorSpec(t.value.1).value.1, v.lookupValues, v.valueBits, []) ==
                Ok((v.multiplicands, br.View()))
  {
    ghost var s := br.View();
    var lookupType :- br.ReadBits(4);
    ghost var s1 := br.View();
    assert ReadField(s, 4) == Ok((lookupType, s1));
    if lookupType == 0 {
      return Ok(NoLookup);
    }
    if lookupType > 2 {
      return Fail(CodebookLookup);
    }
    VectorLayout(s1);
    var fields :- ReadVectorFields(br);
    var (minValue, deltaValue, valueBits, sequenceP) := fields;
    ghost var s2 := br.View();
    assert VectorSpec(s1) == Ok((fields, s2));
    var lookupValues :- LookupValues(lookupType, entries, dims);
    var multiplicands := ReadFields(br, lookupValues, valueBits);
    if multiplicands.Fail? {
      return Fail(EndOfStream);
    }
    assert Fields(s2, lookupValues, valueBits, []) == Ok((multiplicands.value, br.View()));
    return Ok(VectorLookup(lookupType, minValue, deltaValue, valueBits, sequenceP,
                           lookupValues, multiplicands.value));
  }

  // ---------------------------------------------------------------------
  // The whole codebook

  /** A decoded codebook; the length table is kept beside the codewords assigned from it. */
  datatype Codebook = Codebook(dimensions: nat, entries: nat, lengths: seq<byte>,
                               codes: Assignment, lookup: Lookup)

  /**
   * The whole codebook as the stream lays it out: the header, the length
   * table, the codewords assigned from it (CalcSpec, given usedEntries as
   * Codebook_CalcCodewords receives it), then the lookup part.
   */
  function CodebookSpec(s: Bits): Result<(Codebook, Bits)>
  {
    var h := CodebookHeader(s);
    if h.Fail? then Fail(h.error)
    else
      var (dims, entries, s1) := h.value;
      var t := LengthTable(s1, entries);
      if t.Fail? then Fail(t.error)
      else
        var codes := CalcSpec(t.value.lens, CountArgument(t.value.used));
        if codes.Fail? then Fail(codes.error)
        else
          HeaderLayout(s);
          var l := LookupSpec(t.value.rest, entries, dims);
          if l.Fail? then Fail(l.error)
          else Ok((Codebook(dims, entries, t.value.lens, codes.value, l.value.0), l.value.1))
  }

  /**
   * Codebook_DecodeSetup.  The header and the length table are read as
   * CodebookHeader and LengthTable say; the codewords come from
   * Codebook_CalcCodewords given usedEntries; then the lookup part.  The
   * source then rebuilds the same four code tables with a second routine,
   * Codebook_CalcCodewordsFail, which is not modelled, so these tables are
   * Codebook_CalcCodewords' output rather than the codebook's final state.
   */
  method DecodeSetup(br: BitReader) returns (r: Result<Codebook>)
    requires br.Valid()
    modifies br
    ensures br.Valid() && br.src == old(br.src)
    ensures CodebookSpec(old(br.View())) == if r.Ok? then Ok((r.value, br.View())) else Fail(r.error)
    ensures r.Fail? ==>
              r.error in {CodebookSync, CodebookEntry, CodebookLookup, EndOfStream, OutOfBounds, Hangs}
    ensures var h := CodebookHeader(old(br.View()));
            (h.Fail? ==> r == Fail(h.error)) &&
            (h.Ok? ==>
               var t := LengthTable(h.value.2, h.value.1);
               (t.Fail? ==> r == Fail(t.error)) &&
               (r.Ok? ==>
                  t.Ok? && r.value.dimensions == h.value.0 && r.value.entries == h.value.1 &&
                  r.value.lengths == t.value.lens &&
                  Canonical(t.value.lens, r.value.codes.table) &&
                  (r.value.codes.complete ==>
                     r.value.codes.table.values == Used(t.value.lens, CountArgument(t.value.used)))) &&
               (r.Fail? && r.error == CodebookLookup ==>
                  t.Ok? && ReadField(t.value.rest, 4).Ok? && ReadField(t.value.rest, 4).value.0 > 2))
  {
    ghost var s := br.View();
    var header :- ReadHeader(br);
    var (dims, entries) := header;
    HeaderLayout(s);
    ghost var s1 := br.View();
    LengthTableOk(s1, entries);
    var table :- ReadLengthTable(br, entries);
    var (lens, used) := table;
    var codes, slots, stuck := CalcCodewords(lens, CountArgument(used));
    if codes.Fail? {
      return Fail(codes.error);
    }
    ghost var s2 := br.View();
    LookupLayout(s2, entries, dims);
    var lookup :- ReadLookup(br, entries, dims);
    return Ok(Codebook(dims, entries, lens, codes.value, lookup));
  }
}
