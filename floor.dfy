/**
 * Floor type 1 of the Vorbis decoder: Floor_DecodeSetup, which reads the
 * partitions, their classes and the X list of a floor from the setup
 * header, and Floor_DecodeFrame, which reads a frame's Y list with the
 * codebooks the classes name.
 *
 * Each is a function on the stream (FloorSetup, FrameSpec) and a method
 * on the bit reader proved to read exactly what the function describes.
 */
module FloorOne {
  import opened Common
  import opened BitStream
  import opened Integers
  import opened Codewords
  import opened CodebookDecode

  /** FLOOR_MAX_VALUES: 32 partitions of up to 8 X values, and the two end points. */
  const MaxValues: nat := 258

  /** The Y range for the multipliers 1 to 4. */
  const Ranges: seq<nat> := [256, 128, 84, 64]

  /**
   * A partition class: its dimensions (1 to 8), the number of subclass
   * bits, the masterbook that picks a subclass, and one book per subclass
   * (-1 for none).
   */
  datatype FloorClass = FloorClass(dimensions: nat, subClasses: nat, masterbook: nat,
                                   subclassBooks: seq<int>)

  /** A floor as the setup header describes it; the length of xList is the source's Values. */
  datatype Floor = Floor(partitionClasses: seq<nat>, classes: seq<FloorClass>,
                         multiplier: nat, range: nat, xList: seq<int>)

  predicate ClassOk(c: FloorClass)
  {
    1 <= c.dimensions <= 8 && c.subClasses < 4 && c.masterbook < 256 &&
    |c.subclassBooks| == Pow2(c.subClasses) &&
    forall k | 0 <= k < |c.subclassBooks| :: -1 <= c.subclassBooks[k] < 255
  }

  /** The number of X values the partitions carry: the dimensions of each one's class. */
  function XCount(pc: seq<nat>, classes: seq<FloorClass>): nat
  {
    if pc == [] then 0
    else
      var c := pc[|pc| - 1];
      XCount(pc[..|pc| - 1], classes) + if c < |classes| then classes[c].dimensions else 0
  }

  /** Extending the partitions by one adds that partition's dimensions. */
  lemma XCountNext(pc: seq<nat>, classes: seq<FloorClass>, i: nat)
    requires i < |pc| && forall k | 0 <= k < |pc| :: pc[k] < |classes|
    ensures XCount(pc[..i + 1], classes) == XCount(pc[..i], classes) + classes[pc[i]].dimensions
  {
    assert pc[..i + 1][..i] == pc[..i];
  }

  /** A prefix of the partitions carries at most as many values as all of them. */
  lemma {:induction false} XCountPrefix(pc: seq<nat>, classes: seq<FloorClass>, i: nat)
    requires i <= |pc| && forall k | 0 <= k < |pc| :: pc[k] < |classes|
    ensures XCount(pc[..i], classes) <= XCount(pc, classes)
    decreases |pc| - i
  {
    if i < |pc| {
      XCountNext(pc, classes, i);
      XCountPrefix(pc, classes, i + 1);
      assert pc[..|pc|] == pc;
    } else {
      assert pc[..i] == pc;
    }
  }

  /** With classes of at most 8 dimensions, n partitions carry at most 8n values. */
  lemma {:induction false} XCountBound(pc: seq<nat>, classes: seq<FloorClass>)
    requires forall k | 0 <= k < |pc| :: pc[k] < |classes|
    requires forall c | c in classes :: ClassOk(c)
    ensures XCount(pc, classes) <= 8 * |pc|
  {
    if pc != [] {
      XCountBound(pc[..|pc| - 1], classes);
      assert classes[pc[|pc| - 1]] in classes;
    }
  }

  /**
   * What the setup leaves in a floor: fewer than 32 partitions, each of a
   * class that was read, at most 16 classes, a multiplier of 1 to 4 with
   * its range, and an X list of the two end points and one value per
   * partition dimension, within FLOOR_MAX_VALUES.
   */
  predicate Valid(f: Floor)
  {
    |f.partitionClasses| < 32 && |f.classes| <= 16 &&
    (forall k | 0 <= k < |f.partitionClasses| :: f.partitionClasses[k] < |f.classes|) &&
    (forall c | c in f.classes :: ClassOk(c)) &&
    1 <= f.multiplier <= 4 && f.range == Ranges[f.multiplier - 1] &&
    |f.xList| == 2 + XCount(f.partitionClasses, f.classes) && |f.xList| <= MaxValues &&
    f.xList[0] == 0 && -0x8000 <= f.xList[1] < 0x8000 &&
    forall k | 2 <= k < |f.xList| :: 0 <= f.xList[k] < 0x8000
  }

  // ---------------------------------------------------------------------
  // Floor_DecodeSetup

  /** The largest partition class, -1 when there are no partitions. */
  function MaxClass(pc: seq<nat>): (m: int)
    ensures forall k | 0 <= k < |pc| :: pc[k] <= m
    ensures m == -1 <==> pc == []
    ensures pc != [] ==> m in pc
  {
    if pc == [] then -1 else Max(MaxClass(pc[..|pc| - 1]), pc[|pc| - 1])
  }

  /** The subclass books as stored: each 8-bit field minus one. */
  function Decrement(books: seq<nat>): (r: seq<int>)
    ensures |r| == |books| && forall k | 0 <= k < |r| :: r[k] == books[k] as int - 1
  {
    seq(|books|, k requires 0 <= k < |books| => books[k] as int - 1)
  }

  /**
   * The head of a class: its dimensions minus one in 3 bits, its subclass
   * bits in 2, and a masterbook in 8 when it has subclasses.
   */
  function ClassHead(s: Bits): Result<(nat, nat, nat, Bits)>
  {
    var d :- ReadField(s, 3);
    var sub :- ReadField(d.1, 2);
    var m :- if sub.0 != 0 then ReadField(sub.1, 8) else Ok((0, sub.1));
    Ok((d.0 + 1, sub.0, m.0, m.1))
  }

  /** One class: its head, then one book plus one per subclass in 8 bits each. */
  function ClassSpec(s: Bits): Result<(FloorClass, Bits)>
  {
    var h :- ClassHead(s);
    var books :- Fields(h.3, Pow2(h.1), 8, []);
    Ok((FloorClass(h.0, h.1, h.2, Decrement(books.0)), books.1))
  }

  /** A class read off the stream is well formed; reading one fails only at the end of the stream. */
  lemma ClassSpecOk(s: Bits)
    ensures ClassSpec(s).Fail? ==> ClassSpec(s).error == EndOfStream
    ensures ClassSpec(s).Ok? ==> ClassOk(ClassSpec(s).value.0)
  {
    var h := ClassHead(s);
    if h.Ok? {
      var (dims, sub, m, s1) := h.value;
      Pow2Small();
      assert sub < 4 && dims <= 8 && m < 256;
      FieldsSpec(s1, Pow2(sub), 8, []);
    }
  }

  /** count classes, one after another, appended to acc. */
  function ClassesSpec(s: Bits, count: nat, acc: seq<FloorClass>): Result<(seq<FloorClass>, Bits)>
    decreases count
  {
    if count == 0 then Ok((acc, s))
    else
      var c :- ClassSpec(s);
      ClassesSpec(c.1, count - 1, acc + [c.0])
  }

  /** The classes read keep the ones before them, and each is well formed. */
  lemma {:induction false} ClassesSpecOk(s: Bits, count: nat, acc: seq<FloorClass>)
    decreases count
    ensures var r := ClassesSpec(s, count, acc);
            (r.Fail? ==> r.error == EndOfStream) &&
            (r.Ok? ==> |r.value.0| == |acc| + count && r.value.0[..|acc|] == acc) &&
            (r.Ok? ==> forall k | |acc| <= k < |r.value.0| :: ClassOk(r.value.0[k]))
  {
    if count > 0 {
      ClassSpecOk(s);
      var c := ClassSpec(s);
      if c.Ok? {
        var (cl, s1) := c.value;
        ClassesSpecOk(s1, count - 1, acc + [cl]);
        var r := ClassesSpec(s1, count - 1, acc + [cl]);
        if r.Ok? {
          assert r.value.0[..|acc|] == (acc + [cl])[..|acc|];
          assert r.value.0[|acc|] == (acc + [cl])[|acc|];
        }
      }
    }
  }

  /**
   * The start of the floor 1 setup: the partition count in 5 bits, a
   * 4-bit class per partition, then the classes up to the largest one used.
   */
  function PartitionsSpec(s: Bits): Result<(seq<nat>, seq<FloorClass>, Bits)>
  {
    var p :- ReadField(s, 5);
    var pc :- Fields(p.1, p.0, 4, []);
    ClassesAfter(pc.1, pc.0)
  }

  /** The classes that follow the partition classes pc, as many as the largest of them plus one. */
  function ClassesAfter(s: Bits, pc: seq<nat>): Result<(seq<nat>, seq<FloorClass>, Bits)>
  {
    var cl :- ClassesSpec(s, MaxClass(pc) + 1, []);
    Ok((pc, cl.0, cl.1))
  }

  /**
   * The partitions are fewer than 32, their classes are at most 16 and
   * well formed, and every partition names one of them.
   */
  lemma PartitionsSpecOk(s: Bits)
    ensures var r := PartitionsSpec(s);
            (r.Fail? ==> r.error == EndOfStream) &&
            (r.Ok? ==> |r.value.0| < 32 && |r.value.1| <= 16) &&
            (r.Ok? ==> forall k | 0 <= k < |r.value.0| :: r.value.0[k] < |r.value.1|) &&
            (r.Ok? ==> forall c | c in r.value.1 :: ClassOk(c))
  {
    var p := ReadField(s, 5);
    if p.Ok? {
      Pow2Small();
      var (n, s1) := p.value;
      FieldsSpec(s1, n, 4, []);
      var pc := Fields(s1, n, 4, []);
      if pc.Ok? {
        var (classes, s2) := pc.value;
        ClassesSpecOk(s2, MaxClass(classes) + 1, []);
        var cl := ClassesSpec(s2, MaxClass(classes) + 1, []);
        if cl.Ok? {
          forall c | c in cl.value.0 ensures ClassOk(c) {
            var k :| 0 <= k < |cl.value.0| && cl.value.0[k] == c;
          }
        }
      }
    }
  }

  /**
   * The rest of the floor 1 setup once the partitions and classes are
   * known: the multiplier minus one in 2 bits, the range bits in 4, then
   * rangeBits bits per X value.  The X list starts with 0 and
   * 1 << rangeBits stored in an Int16.
   */
  function XListSpec(s: Bits, pc: seq<nat>, cl: seq<FloorClass>): Result<(Floor, Bits)>
  {
    var mult :- ReadField(s, 2);
    var rb :- ReadField(mult.1, 4);
    var xs :- Fields(rb.1, XCount(pc, cl), rb.0, []);
    Ok((Floor(pc, cl, mult.0 + 1, Ranges[mult.0], [0, ToI16(Pow2(rb.0))] + xs.0), xs.1))
  }

  /** The floor 1 setup: the partitions and classes, then the X list. */
  function FloorSetup(s: Bits): Result<(Floor, Bits)>
  {
    var h :- PartitionsSpec(s);
    XListSpec(h.2, h.0, h.1)
  }

  /** Over well-formed partitions and classes, the X list part fails only at the end of the stream and leaves a valid floor. */
  lemma XListSpecOk(s: Bits, pc: seq<nat>, cl: seq<FloorClass>)
    requires |pc| < 32 && |cl| <= 16 && forall k | 0 <= k < |pc| :: pc[k] < |cl|
    requires forall c | c in cl :: ClassOk(c)
    ensures XListSpec(s, pc, cl).Fail? ==> XListSpec(s, pc, cl).error == EndOfStream
    ensures XListSpec(s, pc, cl).Ok? ==> Valid(XListSpec(s, pc, cl).value.0)
  {
    var mult := ReadField(s, 2);
    if mult.Ok? {
      var rb := ReadField(mult.value.1, 4);
      if rb.Ok? {
        FieldsSpec(rb.value.1, XCount(pc, cl), rb.value.0, []);
        var xs := Fields(rb.value.1, XCount(pc, cl), rb.value.0, []);
        if xs.Ok? {
          assert Pow2(2) == 4 && Pow2(4) == 16;
          Pow2Below16(rb.value.0);
          BuiltFloorValid(pc, cl, mult.value.0, ToI16(Pow2(rb.value.0)), xs.value.0);
        }
      }
    }
  }

  /** A multiplier below 4, a 16-bit X[1] and X values below 2^15 make a valid floor. */
  lemma BuiltFloorValid(pc: seq<nat>, cl: seq<FloorClass>, m: nat, x1: i16, x: seq<nat>)
    requires |pc| < 32 && |cl| <= 16 && forall k | 0 <= k < |pc| :: pc[k] < |cl|
    requires forall c | c in cl :: ClassOk(c)
    requires m < 4
    requires |x| == XCount(pc, cl) && forall k | 0 <= k < |x| :: x[k] < 0x8000
    ensures Valid(Floor(pc, cl, m + 1, Ranges[m], [0, x1] + x))
  {
    XCountBound(pc, cl);
    XTailBounded(x1, x);
  }

  /** The X values read after X[0] and X[1] stay below 2^15. */
  lemma XTailBounded(x1: i16, x: seq<nat>)
    requires forall k | 0 <= k < |x| :: x[k] < 0x8000
    ensures forall k | 2 <= k < |[0, x1] + x| :: 0 <= ([0, x1] + x)[k] < 0x8000
  {
    var xl: seq<int> := [0, x1] + x;
    forall k | 2 <= k < |xl| ensures 0 <= xl[k] < 0x8000 {
      assert xl[k] == x[k - 2];
    }
  }

  /** The setup fails only when the stream runs dry, and leaves a valid floor. */
  lemma FloorSetupValid(s: Bits)
    ensures FloorSetup(s).Fail? ==> FloorSetup(s).error == EndOfStream
    ensures FloorSetup(s).Ok? ==> Valid(FloorSetup(s).value.0)
  {
    PartitionsSpecOk(s);
    var h := PartitionsSpec(s);
    if h.Ok? {
      XListSpecOk(h.value.2, h.value.0, h.value.1);
    }
  }

  /** 1 << 15 does not fit an Int16: a 15-bit range stores X[1] as -32768. */
  lemma XEndWraps()
    ensures ToI16(Pow2(15)) == -0x8000 && ToI16(Pow2(14)) == 0x4000
  {
    Pow2Values();
    Pow2Add(8, 6);
    Pow2Add(14, 1);
  }

  method ReadClassHead(br: BitReader) returns (r: Result<(nat, nat, nat)>)
    requires br.Valid()
    modifies br
    ensures br.Valid() && br.src == old(br.src)
    ensures ClassHead(old(br.View())) ==
              if r.Ok? then Ok((r.value.0, r.value.1, r.value.2, br.View())) else Fail(r.error)
  {
    var d :- br.ReadBits(3);
    var sub :- br.ReadBits(2);
    var m := 0;
    if sub != 0 {
      m :- br.ReadBits(8);
    }
    return Ok((d + 1, sub, m));
  }

  method ReadClass(br: BitReader) returns (r: Result<FloorClass>)
    requires br.Valid()
    modifies br
    ensures br.Valid() && br.src == old(br.src)
    ensures ClassSpec(old(br.View())) == if r.Ok? then Ok((r.value, br.View())) else Fail(r.error)
  {
    ghost var s := br.View();
    var head :- ReadClassHead(br);
    var (dims, sub, m) := head;
    ghost var s1 := br.View();
    assert ClassHead(s) == Ok((dims, sub, m, s1));
    var books := ReadFields(br, Pow2(sub), 8);
    if books.Fail? {
      assert Fields(s1, Pow2(sub), 8, []).Fail?;
      assert ClassSpec(s) == Fail(EndOfStream);
      return Fail(EndOfStream);
    }
    return Ok(FloorClass(dims, sub, m, Decrement(books.value)));
  }

  method ReadClasses(br: BitReader, count: nat) returns (r: Result<seq<FloorClass>>)
    requires br.Valid()
    modifies br
    ensures br.Valid() && br.src == old(br.src)
    ensures ClassesSpec(old(br.View()), count, []) ==
              if r.Ok? then Ok((r.value, br.View())) else Fail(r.error)
  {
    ghost var s := br.View();
    var classes: seq<FloorClass> := [];
    var i := 0;
    while i < count
      invariant br.Valid() && br.src == old(br.src) && i <= count
      invariant ClassesSpec(s, count, []) == ClassesSpec(br.View(), count - i, classes)
    {
      ghost var v := br.View();
      var c := ReadClass(br);
      ghost var v2 := br.View();
      if c.Fail? {
        assert ClassSpec(v) == Fail(c.error);
        assert ClassesSpec(v, count - i, classes) == Fail(c.error);
        return Fail(c.error);
      }
      assert ClassSpec(v) == Ok((c.value, v2));
      assert ClassesSpec(v, count - i, classes) == ClassesSpec(v2, count - (i + 1), classes + [c.value]);
      classes := classes + [c.value];
      i := i + 1;
    }
    return Ok(classes);
  }

  /** The partition classes, 4 bits each, and the largest of them. */
  method ReadPartitionClasses(br: BitReader, partitions: nat) returns (r: Result<(seq<nat>, int)>)
    requires br.Valid()
    modifies br
    ensures br.Valid() && br.src == old(br.src)
    ensures Fields(old(br.View()), partitions, 4, []) ==
              if r.Ok? then Ok((r.value.0, br.View())) else Fail(EndOfStream)
    ensures r.Ok? ==> r.value.1 == MaxClass(r.value.0)
  {
    ghost var s := br.View();
    var pc: seq<nat> := [];
    var maxClass := -1;
    var i := 0;
    while i < partitions
      invariant br.Valid() && br.src == old(br.src) && i <= partitions
      invariant Fields(s, partitions, 4, []) == Fields(br.View(), partitions - i, 4, pc)
      invariant maxClass == MaxClass(pc)
    {
      ghost var v := br.View();
      var c := br.ReadBits(4);
      if c.Fail? {
        assert Fields(v, partitions - i, 4, pc).Fail?;
        return Fail(EndOfStream);
      }
      assert Fields(v, partitions - i, 4, pc) == Fields(br.View(), partitions - (i + 1), 4, pc + [c.value]);
      assert (pc + [c.value])[..|pc|] == pc;
      maxClass := Max(maxClass, c.value);
      pc := pc + [c.value];
      i := i + 1;
    }
    return Ok((pc, maxClass));
  }

  /** The X values, rangeBits bits each, partition by partition, dimension by dimension. */
  method ReadXList(br: BitReader, pc: seq<nat>, classes: seq<FloorClass>, rangeBits: nat)
    returns (r: Result<seq<nat>>)
    requires br.Valid() && rangeBits <= 15
    requires forall k | 0 <= k < |pc| :: pc[k] < |classes|
    modifies br
    ensures br.Valid() && br.src == old(br.src)
    ensures Fields(old(br.View()), XCount(pc, classes), rangeBits, []) ==
              if r.Ok? then Ok((r.value, br.View())) else Fail(EndOfStream)
  {
    ghost var s := br.View();
    ghost var total := XCount(pc, classes);
    var xs: seq<nat> := [];
    var idx := 0;
    var i := 0;
    assert pc[..0] == [];
    while i < |pc|
      invariant br.Valid() && br.src == old(br.src) && i <= |pc|
      invariant idx == XCount(pc[..i], classes) <= total
      invariant Fields(s, total, rangeBits, []) == Fields(br.View(), total - idx, rangeBits, xs)
    {
      var classNum := pc[i];
      XCountNext(pc, classes, i);
      XCountPrefix(pc, classes, i + 1);
      var j := 0;
      while j < classes[classNum].dimensions
        invariant br.Valid() && br.src == old(br.src)
        invariant j <= classes[classNum].dimensions && idx == XCount(pc[..i], classes) + j
        invariant Fields(s, total, rangeBits, []) == Fields(br.View(), total - idx, rangeBits, xs)
      {
        ghost var v := br.View();
        var x := br.ReadBits(rangeBits);
        if x.Fail? {
          assert Fields(v, total - idx, rangeBits, xs).Fail?;
          return Fail(EndOfStream);
        }
        assert Fields(v, total - idx, rangeBits, xs) == Fields(br.View(), total - (idx + 1), rangeBits, xs + [x.value]);
        xs := xs + [x.value];
        idx := idx + 1;
        j := j + 1;
      }
      i := i + 1;
    }
    assert pc[..i] == pc;
    return Ok(xs);
  }

  /** The partitions and the classes they use. */
  method ReadPartitions(br: BitReader) returns (r: Result<(seq<nat>, seq<FloorClass>)>)
    requires br.Valid()
    modifies br
    ensures br.Valid() && br.src == old(br.src)
    ensures PartitionsSpec(old(br.View())) ==
              if r.Ok? then Ok((r.value.0, r.value.1, br.View())) else Fail(r.error)
  {
    ghost var s := br.View();
    var partitions :- br.ReadBits(5);
    ghost var s1 := br.View();
    assert ReadField(s, 5) == Ok((partitions, s1));
    var classified := ReadPartitionClasses(br, partitions);
    if classified.Fail? {
      assert Fields(s1, partitions, 4, []).Fail?;
      return Fail(EndOfStream);
    }
    var (pc, maxClass) := classified.value;
    assert PartitionsSpec(s) == ClassesAfter(br.View(), pc);
    var classes :- ReadClasses(br, maxClass + 1);
    return Ok((pc, classes));
  }

  method ReadXListSpec(br: BitReader, pc: seq<nat>, classes: seq<FloorClass>) returns (r: Result<Floor>)
    requires br.Valid() && forall k | 0 <= k < |pc| :: pc[k] < |classes|
    modifies br
    ensures br.Valid() && br.src == old(br.src)
    ensures XListSpec(old(br.View()), pc, classes) ==
              if r.Ok? then Ok((r.value, br.View())) else Fail(r.error)
  {
    ghost var s1 := br.View();
    var mult :- br.ReadBits(2);
    ghost var s2 := br.View();
    assert ReadField(s1, 2) == Ok((mult, s2));
    var rangeBits :- br.ReadBits(4);
    ghost var s3 := br.View();
    assert ReadField(s2, 4) == Ok((rangeBits, s3));
    Pow2Small();
    var xs := ReadXList(br, pc, classes, rangeBits);
    if xs.Fail? {
      assert Fields(s3, XCount(pc, classes), rangeBits, []).Fail?;
      return Fail(EndOfStream);
    }
    return Ok(Floor(pc, classes, mult + 1, Ranges[mult], [0, ToI16(Pow2(rangeBits))] + xs.value));
  }

  /** Floor_DecodeSetup. */
  method DecodeSetup(br: BitReader) returns (r: Result<Floor>)
    requires br.Valid()
    modifies br
    ensures br.Valid() && br.src == old(br.src)
    ensures FloorSetup(old(br.View())) == if r.Ok? then Ok((r.value, br.View())) else Fail(r.error)
    ensures r.Ok? ==> Valid(r.value)
  {
    FloorSetupValid(br.View());
    PartitionsSpecOk(br.View());
    var head :- ReadPartitions(br);
    var (pc, classes) := head;
    r := ReadXListSpec(br, pc, classes);
  }

  // ---------------------------------------------------------------------
  // Floor_DecodeFrame

  /** A frame's floor: unused in this frame, or its Y list. */
  datatype FrameFloor = Unused | Curve(yList: seq<nat>)

  predicate BooksOk(books: seq<CodeTable>)
  {
    forall k | 0 <= k < |books| :: WellSized(books[k])
  }

  /**
   * Codebook_DecodeScalar with the codebook numbered book; a number past
   * the codebooks of the setup reads out of bounds.
   */
  function BookScalar(s: Bits, books: seq<CodeTable>, book: nat): (r: Result<(nat, Bits)>)
    requires BooksOk(books)
    ensures r.Fail? ==> r.error in {OutOfBounds, Aborted, EndOfStream}
    ensures r.Ok? ==> r.value.1.length < s.length
  {
    if book >= |books| then Fail(OutOfBounds) else ScalarDecode(s, books[book], 1)
  }

  /** The class value after a slot: shifted left by the subclass bits, in 32 bits. */
  function ShiftSlot(cval: nat, cbits: nat): nat
  {
    (cval * Pow2(cbits)) % WordModulus
  }

  /** One slot: the subclass book the low cbits of cval select, or 0 when that book is -1. */
  function SlotSpec(s: Bits, books: seq<CodeTable>, c: FloorClass, cval: nat): (r: Result<(nat, Bits)>)
    requires ClassOk(c) && BooksOk(books)
    ensures r.Fail? ==> r.error in {OutOfBounds, Aborted, EndOfStream}
  {
    var book := c.subclassBooks[cval % Pow2(c.subClasses)];
    if book >= 0 then BookScalar(s, books, book) else Ok((0, s))
  }

  /**
   * count slots of a partition of class c, appended to acc: each slot
   * reads with the subclass book the low cbits of cval select, or is 0
   * when that book is -1; cval shifts after every slot.
   */
  function SlotsSpec(s: Bits, books: seq<CodeTable>, c: FloorClass, cval: nat, count: nat,
                     acc: seq<nat>): (r: Result<(seq<nat>, Bits)>)
    requires ClassOk(c) && BooksOk(books)
    decreases count
    ensures r.Fail? ==> r.error in {OutOfBounds, Aborted, EndOfStream}
    ensures r.Ok? ==> |r.value.0| == |acc| + count && r.value.0[..|acc|] == acc
  {
    if count == 0 then Ok((acc, s))
    else
      var y :- SlotSpec(s, books, c, cval);
      var r := SlotsSpec(y.1, books, c, ShiftSlot(cval, c.subClasses), count - 1, acc + [y.0]);
      if r.Ok? then
        assert r.value.0[..|acc|] == (acc + [y.0])[..|acc|];
        r
      else r
  }

  /**
   * One partition of class c: a class value read with the class's
   * masterbook when it has subclass bits (0 otherwise), then its slots.
   */
  function PartitionSpec(s: Bits, books: seq<CodeTable>, c: FloorClass, acc: seq<nat>)
    : (r: Result<(seq<nat>, Bits)>)
    requires ClassOk(c) && BooksOk(books)
    ensures r.Fail? ==> r.error in {OutOfBounds, Aborted, EndOfStream}
    ensures r.Ok? ==> |r.value.0| == |acc| + c.dimensions
  {
    var cval :- if c.subClasses != 0 then BookScalar(s, books, c.masterbook) else Ok((0, s));
    SlotsSpec(cval.1, books, c, cval.0, c.dimensions, acc)
  }

  /**
   * The partitions from i on, appended to acc: a class value read with
   * the class's masterbook when it has subclass bits (0 otherwise), then
   * its slots.
   */
  function PartitionsFrame(s: Bits, f: Floor, books: seq<CodeTable>, i: nat, acc: seq<nat>)
    : (r: Result<(seq<nat>, Bits)>)
    requires Valid(f) && BooksOk(books) && i <= |f.partitionClasses|
    decreases |f.partitionClasses| - i
    ensures r.Fail? ==> r.error in {OutOfBounds, Aborted, EndOfStream}
    ensures r.Ok? ==> |r.value.0| + XCount(f.partitionClasses[..i], f.classes) ==
                      |acc| + XCount(f.partitionClasses, f.classes)
  {
    var pc := f.partitionClasses;
    if i == |pc| then
      assert pc[..i] == pc;
      Ok((acc, s))
    else
      var c := f.classes[pc[i]];
      assert c in f.classes;
      var ys :- PartitionSpec(s, books, c, acc);
      XCountNext(pc, f.classes, i);
      PartitionsFrame(ys.1, f, books, i + 1, ys.0)
  }

  /**
   * Floor_DecodeFrame: a flag bit says whether the floor is used; then
   * the two end point Y values in iLog(range - 1) bits each, then the
   * partitions.  A used floor has one Y value per X value.
   */
  function FrameSpec(s: Bits, f: Floor, books: seq<CodeTable>): (r: Result<(FrameFloor, Bits)>)
    requires Valid(f) && BooksOk(books)
    ensures r.Fail? ==> r.error in {OutOfBounds, Aborted, EndOfStream}
    ensures r.Ok? && r.value.0.Curve? ==> |r.value.0.yList| == |f.xList|
  {
    var nz :- ReadField(s, 1);
    if nz.0 == 0 then Ok((Unused, nz.1))
    else
      var rb := Base4Length(f.range - 1);
      var y0 :- ReadField(nz.1, rb);
      var y1 :- ReadField(y0.1, rb);
      assert f.partitionClasses[..0] == [];
      var ys :- PartitionsFrame(y1.1, f, books, 0, [y0.0, y1.0]);
      Ok((Curve(ys.0), ys.1))
  }

  /** Shifting left by cbits clears the low cbits bits. */
  lemma ShiftClearsLow(cval: nat, cbits: nat)
    requires cbits <= 32
    ensures ShiftSlot(cval, cbits) % Pow2(cbits) == 0
  {
    Pow2Add(cbits, 32 - cbits);
    Pow2Word();
    MultipleModZero(cval, Pow2(cbits), Pow2(32 - cbits));
  }

  lemma MultipleModZero(a: nat, p: int, q: int)
    requires p > 0 && q > 0
    ensures (a * p) % (p * q) % p == 0
  {
    var x := a * p;
    ModProduct(x, p, q);
    DivModUnique(x, a, p, 0);
    var d := (x / p) % q;
    assert x % (p * q) == d * p;
    DivModUnique(d * p, d, p, 0);
  }

  /**
   * Floor_DecodeFrame shifts cval left after each slot and then masks its
   * low bits, so every slot after the first of a partition reads with
   * subclass book 0, whatever the class value was.
   */
  lemma {:induction false} LaterSlotsUseBookZero(s: Bits, books: seq<CodeTable>, c: FloorClass,
                                                 cval: nat, count: nat, acc: seq<nat>)
    requires ClassOk(c) && BooksOk(books)
    ensures SlotsSpec(s, books, c, ShiftSlot(cval, c.subClasses), count, acc) ==
            SlotsSpec(s, books, c, 0, count, acc)
    decreases count
  {
    if count > 0 {
      ShiftClearsLow(cval, c.subClasses);
      var book := c.subclassBooks[0];
      var y := if book >= 0 then BookScalar(s, books, book) else Ok((0, s));
      if y.Ok? {
        LaterSlotsUseBookZero(y.value.1, books, c, ShiftSlot(cval, c.subClasses), count - 1, acc + [y.value.0]);
        assert ShiftSlot(0, c.subClasses) == 0;
      }
    }
  }

  method ReadBookScalar(br: BitReader, books: seq<CodeTable>, book: nat) returns (r: Result<nat>)
    requires br.Valid() && BooksOk(books)
    modifies br
    ensures br.Valid() && br.src == old(br.src)
    ensures BookScalar(old(br.View()), books, book) ==
              if r.Ok? then Ok((r.value, br.View())) else Fail(r.error)
  {
    if book >= |books| {
      return Fail(OutOfBounds);
    }
    r := DecodeScalar(br, books[book]);
  }

  method ReadSlot(br: BitReader, books: seq<CodeTable>, c: FloorClass, cval: nat) returns (r: Result<nat>)
    requires br.Valid() && ClassOk(c) && BooksOk(books)
    modifies br
    ensures br.Valid() && br.src == old(br.src)
    ensures SlotSpec(old(br.View()), books, c, cval) ==
              if r.Ok? then Ok((r.value, br.View())) else Fail(r.error)
  {
    var book := c.subclassBooks[cval % Pow2(c.subClasses)];
    if book >= 0 {
      r := ReadBookScalar(br, books, book);
    } else {
      r := Ok(0);
    }
  }

  /** The slots of one partition; csub masks the subclass bits out of cval. */
  method ReadSlots(br: BitReader, books: seq<CodeTable>, c: FloorClass, cval0: nat, acc: seq<nat>)
    returns (r: Result<seq<nat>>)
    requires br.Valid() && ClassOk(c) && BooksOk(books)
    modifies br
    ensures br.Valid() && br.src == old(br.src)
    ensures SlotsSpec(old(br.View()), books, c, cval0, c.dimensions, acc) ==
              if r.Ok? then Ok((r.value, br.View())) else Fail(r.error)
  {
    ghost var s := br.View();
    var cval: nat := cval0;
    var ys := acc;
    var j := 0;
    while j < c.dimensions
      invariant br.Valid() && br.src == old(br.src) && j <= c.dimensions
      invariant SlotsSpec(s, books, c, cval0, c.dimensions, acc) ==
                SlotsSpec(br.View(), books, c, cval, c.dimensions - j, ys)
    {
      var y := ReadSlot(br, books, c, cval);
      if y.Fail? {
        return Fail(y.error);
      }
      cval := ShiftSlot(cval, c.subClasses);
      ys := ys + [y.value];
      j := j + 1;
    }
    return Ok(ys);
  }

  method ReadPartition(br: BitReader, books: seq<CodeTable>, c: FloorClass, acc: seq<nat>)
    returns (r: Result<seq<nat>>)
    requires br.Valid() && ClassOk(c) && BooksOk(books)
    modifies br
    ensures br.Valid() && br.src == old(br.src)
    ensures PartitionSpec(old(br.View()), books, c, acc) ==
              if r.Ok? then Ok((r.value, br.View())) else Fail(r.error)
  {
    var cval := 0;
    if c.subClasses != 0 {
      cval :- ReadBookScalar(br, books, c.masterbook);
    }
    r := ReadSlots(br, books, c, cval, acc);
  }

  /** The partitions of a frame, each with its class value and slots. */
  method ReadFramePartitions(br: BitReader, f: Floor, books: seq<CodeTable>, acc: seq<nat>)
    returns (r: Result<seq<nat>>)
    requires br.Valid() && Valid(f) && BooksOk(books)
    modifies br
    ensures br.Valid() && br.src == old(br.src)
    ensures PartitionsFrame(old(br.View()), f, books, 0, acc) ==
              if r.Ok? then Ok((r.value, br.View())) else Fail(r.error)
  {
    ghost var s := br.View();
    var pc := f.partitionClasses;
    var ys := acc;
    var i := 0;
    while i < |pc|
      invariant br.Valid() && br.src == old(br.src) && i <= |pc|
      invariant PartitionsFrame(s, f, books, 0, acc) == PartitionsFrame(br.View(), f, books, i, ys)
    {
      var c := f.classes[pc[i]];
      assert c in f.classes;
      var part := ReadPartition(br, books, c, ys);
      if part.Fail? {
        return Fail(part.error);
      }
      ys := part.value;
      i := i + 1;
    }
    return Ok(ys);
  }

  /** Floor_DecodeFrame. */
  method DecodeFrame(br: BitReader, f: Floor, books: seq<CodeTable>) returns (r: Result<FrameFloor>)
    requires br.Valid() && Valid(f) && BooksOk(books)
    modifies br
    ensures br.Valid() && br.src == old(br.src)
    ensures FrameSpec(old(br.View()), f, books) ==
              if r.Ok? then Ok((r.value, br.View())) else Fail(r.error)
  {
    ghost var s := br.View();
    var nonZero :- br.ReadBits(1);
    if nonZero == 0 {
      return Ok(Unused);
    }
    ghost var s1 := br.View();
    var rangeBits := ILog(f.range - 1);
    assert rangeBits <= 4 by {
      Base4LengthExamples();
    }
    var y0 :- br.ReadBits(rangeBits);
    ghost var s2 := br.View();
    assert ReadField(s1, rangeBits) == Ok((y0, s2));
    var y1 :- br.ReadBits(rangeBits);
    ghost var s3 := br.View();
    assert ReadField(s2, rangeBits) == Ok((y1, s3));
    var ys := ReadFramePartitions(br, f, books, [y0, y1]);
    if ys.Fail? {
      return Fail(ys.error);
    }
    return Ok(Curve(ys.value));
  }
}
