/**
 * The setup header (section 4.2.4 of the Vorbis I specification) as
 * Vorbis_DecodeSetup reads it, and the three header packets as
 * Vorbis_DecodeHeaders reads them.
 *
 * Each list of the setup header is a 6-bit count plus one (8 bits for the
 * codebooks), then the entries, each behind a 16-bit type.  The residue
 * type check reports an unknown residue type with the floor type error.
 */
module VorbisSetup {
  import opened Common
  import opened BitStream
  import opened Integers
  import Codewords
  import CodebookDecode
  import CodebookSetup
  import FloorOne
  import ResidueSetup
  import MappingSetup
  import HeaderPackets

  // ---------------------------------------------------------------------
  // The lists of the setup header, as functions on the stream

  /** count time-domain transform types of 16 bits each, which must all be 0. */
  function TimesSpec(s: Bits, count: nat): Result<Bits>
    decreases count
  {
    if count == 0 then Ok(s)
    else
      var t := ReadField(s, 16);
      if t.Fail? then Fail(t.error)
      else if t.value.0 != 0 then Fail(TimeType)
      else TimesSpec(t.value.1, count - 1)
  }

  /** The time entries take 16 bits each; a nonzero one stops the setup. */
  lemma {:induction false} TimesSpecOk(s: Bits, count: nat)
    decreases count
    ensures TimesSpec(s, count).Fail? ==> TimesSpec(s, count).error in {EndOfStream, TimeType}
    ensures TimesSpec(s, count).Ok? ==> TimesSpec(s, count).value.length == s.length - 16 * count
  {
    if count > 0 {
      var t := ReadField(s, 16);
      if t.Ok? && t.value.0 == 0 {
        TimesSpecOk(t.value.1, count - 1);
      }
    }
  }

  /** The time entries: a count of 6 bits, plus one, then that many zero entries. */
  function TimeList(s: Bits): Result<Bits>
  {
    var n := ReadField(s, 6);
    if n.Fail? then Fail(n.error) else TimesSpec(n.value.1, n.value.0 + 1)
  }

  /** A floor: a 16-bit type that must be 1, then a floor 1 setup. */
  function FloorEntry(s: Bits): Result<(FloorOne.Floor, Bits)>
  {
    var t :- ReadField(s, 16);
    if t.0 != 1 then Fail(FloorType) else FloorOne.FloorSetup(t.1)
  }

  /** A residue: a 16-bit type of at most 2, then a residue setup of that type. */
  function ResidueEntry(s: Bits): Result<(ResidueSetup.Residue, Bits)>
  {
    var t :- ReadField(s, 16);
    if t.0 > 2 then Fail(FloorType) else ResidueSetup.ResidueSpec(t.1, t.0)
  }

  /** A mapping: a 16-bit type that must be 0, then a mapping setup. */
  function MappingEntry(s: Bits, channels: nat): Result<(MappingSetup.Mapping, Bits)>
  {
    var t :- ReadField(s, 16);
    if t.0 != 0 then Fail(MappingType) else MappingSetup.MappingSpec(t.1, channels)
  }

  predicate ResidueOk(r: ResidueSetup.Residue)
  {
    ResidueSetup.Valid(r) && r.residueType <= 2
  }

  predicate ModeOk(m: MappingSetup.Mode)
  {
    m.blockFlag < 2 && m.mappingIdx < 256
  }

  const FloorErrors: set<Error> := {EndOfStream, FloorType}
  const MappingErrors: set<Error> := {EndOfStream, MappingType, MappingChans, MappingReserved, OutOfBounds}
  const ModeErrors: set<Error> := {EndOfStream, ModeWindow, ModeTransform}

  lemma FloorEntryOk(s: Bits)
    ensures FloorEntry(s).Fail? ==> FloorEntry(s).error in FloorErrors
    ensures FloorEntry(s).Ok? ==> FloorOne.Valid(FloorEntry(s).value.0)
  {
    var t := ReadField(s, 16);
    if t.Ok? {
      FloorOne.FloorSetupValid(t.value.1);
    }
  }

  lemma ResidueEntryOk(s: Bits)
    ensures ResidueEntry(s).Fail? ==> ResidueEntry(s).error in FloorErrors
    ensures ResidueEntry(s).Ok? ==> ResidueOk(ResidueEntry(s).value.0)
  {
    var t := ReadField(s, 16);
    if t.Ok? && t.value.0 <= 2 {
      ResidueSetup.ResidueSpecOk(t.value.1, t.value.0);
    }
  }

  lemma MappingEntryOk(s: Bits, channels: nat)
    ensures MappingEntry(s, channels).Fail? ==> MappingEntry(s, channels).error in MappingErrors
    ensures MappingEntry(s, channels).Ok? ==> MappingSetup.Valid(MappingEntry(s, channels).value.0, channels)
  {
    var t := ReadField(s, 16);
    if t.Ok? {
      MappingSetup.MappingSpecOk(t.value.1, channels);
    }
  }

  lemma ModeEntryOk(s: Bits)
    ensures MappingSetup.ModeSpec(s).Fail? ==> MappingSetup.ModeSpec(s).error in ModeErrors
    ensures MappingSetup.ModeSpec(s).Ok? ==> ModeOk(MappingSetup.ModeSpec(s).value.0)
  {
    MappingSetup.ModeSpecOk(s);
  }

  /** The codeword table of a codebook has one length and one entry number per codeword. */
  predicate TableOk(cb: CodebookSetup.Codebook)
  {
    CodebookDecode.WellSized(cb.codes.table)
  }

  const CodebookErrors: set<Error> := {CodebookSync, CodebookEntry, CodebookLookup, EndOfStream, OutOfBounds, Hangs}

  /** A codebook read off the stream fails with a codebook error, and its codeword table is well sized. */
  lemma CodebookEntryOk(s: Bits)
    ensures CodebookSetup.CodebookSpec(s).Fail? ==> CodebookSetup.CodebookSpec(s).error in CodebookErrors
    ensures CodebookSetup.CodebookSpec(s).Ok? ==> TableOk(CodebookSetup.CodebookSpec(s).value.0)
  {
    var h := CodebookSetup.CodebookHeader(s);
    if h.Ok? {
      var (dims, entries, s1) := h.value;
      CodebookSetup.LengthTableOk(s1, entries);
      var t := CodebookSetup.LengthTable(s1, entries);
      if t.Ok? {
        Codewords.CalcSpecShape(t.value.lens, CodebookSetup.CountArgument(t.value.used));
        CodebookSetup.HeaderLayout(s);
        CodebookSetup.LookupLayout(t.value.rest, entries, dims);
      }
    }
  }

  /*
   * Each list of the setup header as a function: count entries, each read
   * from where the one before it ended and appended to acc, stopping at
   * the first that fails; the list and the stream after it.  The list
   * function handles the end of the list and the Next function reads one
   * entry and goes on.  Each comes with the lemma that every entry read is
   * valid and every failure is one of the list's errors.
   */

  function CodebookList(s: Bits, count: nat, acc: seq<CodebookSetup.Codebook>)
    : Result<(seq<CodebookSetup.Codebook>, Bits)>
    decreases count, 2
  {
    if count == 0 then Ok((acc, s)) else CodebooksNext(s, count, acc)
  }

  function CodebooksNext(s: Bits, count: nat, acc: seq<CodebookSetup.Codebook>)
    : Result<(seq<CodebookSetup.Codebook>, Bits)>
    requires count > 0
    decreases count, 1
  {
    CodebooksAfter(CodebookSetup.CodebookSpec(s), count, acc)
  }

  /** The codebook list goes on from the entry e just read. */
  function CodebooksAfter(e: Result<(CodebookSetup.Codebook, Bits)>, count: nat, acc: seq<CodebookSetup.Codebook>)
    : Result<(seq<CodebookSetup.Codebook>, Bits)>
    requires count > 0
    decreases count, 0
  {
    if e.Fail? then Fail(e.error) else CodebookList(e.value.1, count - 1, acc + [e.value.0])
  }

  /** Appending a valid codebook to valid codebooks keeps them all valid. */
  lemma TablesAppend(acc: seq<CodebookSetup.Codebook>, cb: CodebookSetup.Codebook)
    requires forall k | 0 <= k < |acc| :: TableOk(acc[k])
    requires TableOk(cb)
    ensures forall k | 0 <= k < |acc + [cb]| :: TableOk((acc + [cb])[k])
  {
    forall k | 0 <= k < |acc + [cb]| ensures TableOk((acc + [cb])[k]) {
      if k < |acc| { assert (acc + [cb])[k] == acc[k]; }
    }
  }

  lemma {:induction false} CodebookListOk(s: Bits, count: nat, acc: seq<CodebookSetup.Codebook>)
    requires forall k | 0 <= k < |acc| :: TableOk(acc[k])
    decreases count, 1
    ensures var r := CodebookList(s, count, acc);
            (r.Fail? ==> r.error in CodebookErrors) &&
            (r.Ok? ==> |r.value.0| == |acc| + count && forall k | 0 <= k < |r.value.0| :: TableOk(r.value.0[k]))
  {
    if count > 0 {
      CodebookEntryOk(s);
      CodebooksAfterOk(CodebookSetup.CodebookSpec(s), count, acc);
    }
  }

  /** The same from an entry that is valid or failed with a codebook error. */
  lemma {:induction false} CodebooksAfterOk(e: Result<(CodebookSetup.Codebook, Bits)>, count: nat,
                                            acc: seq<CodebookSetup.Codebook>)
    requires count > 0
    requires forall k | 0 <= k < |acc| :: TableOk(acc[k])
    requires e.Fail? ==> e.error in CodebookErrors
    requires e.Ok? ==> TableOk(e.value.0)
    decreases count, 0
    ensures var r := CodebooksAfter(e, count, acc);
            (r.Fail? ==> r.error in CodebookErrors) &&
            (r.Ok? ==> |r.value.0| == |acc| + count && forall k | 0 <= k < |r.value.0| :: TableOk(r.value.0[k]))
  {
    if e.Ok? {
      TablesAppend(acc, e.value.0);
      CodebookListOk(e.value.1, count - 1, acc + [e.value.0]);
    }
  }

  function FloorList(s: Bits, count: nat, acc: seq<FloorOne.Floor>): Result<(seq<FloorOne.Floor>, Bits)>
    decreases count, 2
  {
    if count == 0 then Ok((acc, s)) else FloorsNext(s, count, acc)
  }

  function FloorsNext(s: Bits, count: nat, acc: seq<FloorOne.Floor>): Result<(seq<FloorOne.Floor>, Bits)>
    requires count > 0
    decreases count, 1
  {
    FloorsAfter(FloorEntry(s), count, acc)
  }

  /** The floor list goes on from the entry e just read. */
  function FloorsAfter(e: Result<(FloorOne.Floor, Bits)>, count: nat, acc: seq<FloorOne.Floor>)
    : Result<(seq<FloorOne.Floor>, Bits)>
    requires count > 0
    decreases count, 0
  {
    if e.Fail? then Fail(e.error) else FloorList(e.value.1, count - 1, acc + [e.value.0])
  }

  /** Appending a valid floor to valid floors keeps them all valid. */
  lemma FloorsAppend(acc: seq<FloorOne.Floor>, f: FloorOne.Floor)
    requires forall k | 0 <= k < |acc| :: FloorOne.Valid(acc[k])
    requires FloorOne.Valid(f)
    ensures forall k | 0 <= k < |acc + [f]| :: FloorOne.Valid((acc + [f])[k])
  {
    forall k | 0 <= k < |acc + [f]| ensures FloorOne.Valid((acc + [f])[k]) {
      if k < |acc| { assert (acc + [f])[k] == acc[k]; }
    }
  }

  lemma {:induction false} FloorListOk(s: Bits, count: nat, acc: seq<FloorOne.Floor>)
    requires forall k | 0 <= k < |acc| :: FloorOne.Valid(acc[k])
    decreases count, 1
    ensures var r := FloorList(s, count, acc);
            (r.Fail? ==> r.error in FloorErrors) &&
            (r.Ok? ==> |r.value.0| == |acc| + count && forall k | 0 <= k < |r.value.0| :: FloorOne.Valid(r.value.0[k]))
  {
    if count > 0 {
      FloorEntryOk(s);
      FloorsAfterOk(FloorEntry(s), count, acc);
    }
  }

  /** The same from an entry that is valid or failed with a floor error. */
  lemma {:induction false} FloorsAfterOk(e: Result<(FloorOne.Floor, Bits)>, count: nat, acc: seq<FloorOne.Floor>)
    requires count > 0
    requires forall k | 0 <= k < |acc| :: FloorOne.Valid(acc[k])
    requires e.Fail? ==> e.error in FloorErrors
    requires e.Ok? ==> FloorOne.Valid(e.value.0)
    decreases count, 0
    ensures var r := FloorsAfter(e, count, acc);
            (r.Fail? ==> r.error in FloorErrors) &&
            (r.Ok? ==> |r.value.0| == |acc| + count && forall k | 0 <= k < |r.value.0| :: FloorOne.Valid(r.value.0[k]))
  {
    if e.Ok? {
      FloorsAppend(acc, e.value.0);
      FloorListOk(e.value.1, count - 1, acc + [e.value.0]);
    }
  }

  function ResidueList(s: Bits, count: nat, acc: seq<ResidueSetup.Residue>): Result<(seq<ResidueSetup.Residue>, Bits)>
    decreases count, 2
  {
    if count == 0 then Ok((acc, s)) else ResiduesNext(s, count, acc)
  }

  function ResiduesNext(s: Bits, count: nat, acc: seq<ResidueSetup.Residue>): Result<(seq<ResidueSetup.Residue>, Bits)>
    requires count > 0
    decreases count, 1
  {
    ResiduesAfter(ResidueEntry(s), count, acc)
  }

  /** The residue list goes on from the entry e just read. */
  function ResiduesAfter(e: Result<(ResidueSetup.Residue, Bits)>, count: nat, acc: seq<ResidueSetup.Residue>): Result<(seq<ResidueSetup.Residue>, Bits)>
    requires count > 0
    decreases count, 0
  {
    if e.Fail? then Fail(e.error) else ResidueList(e.value.1, count - 1, acc + [e.value.0])
  }

  /** Appending a valid residue to valid residues keeps them all valid. */
  lemma ResiduesAppend(acc: seq<ResidueSetup.Residue>, x: ResidueSetup.Residue)
    requires forall k | 0 <= k < |acc| :: ResidueOk(acc[k])
    requires ResidueOk(x)
    ensures forall k | 0 <= k < |acc + [x]| :: ResidueOk((acc + [x])[k])
  {
    forall k | 0 <= k < |acc + [x]| ensures ResidueOk((acc + [x])[k]) {
      if k < |acc| { assert (acc + [x])[k] == acc[k]; }
    }
  }

  lemma {:induction false} ResidueListOk(s: Bits, count: nat, acc: seq<ResidueSetup.Residue>)
    requires forall k | 0 <= k < |acc| :: ResidueOk(acc[k])
    decreases count, 1
    ensures var r := ResidueList(s, count, acc);
            (r.Fail? ==> r.error in FloorErrors) &&
            (r.Ok? ==> |r.value.0| == |acc| + count && forall k | 0 <= k < |r.value.0| :: ResidueOk(r.value.0[k]))
  {
    if count > 0 {
      ResidueEntryOk(s);
      ResiduesAfterOk(ResidueEntry(s), count, acc);
    }
  }

  /** The same from an entry that is valid or failed with a residue error. */
  lemma {:induction false} ResiduesAfterOk(e: Result<(ResidueSetup.Residue, Bits)>, count: nat, acc: seq<ResidueSetup.Residue>)
    requires count > 0
    requires forall k | 0 <= k < |acc| :: ResidueOk(acc[k])
    requires e.Fail? ==> e.error in FloorErrors
    requires e.Ok? ==> ResidueOk(e.value.0)
    decreases count, 0
    ensures var r := ResiduesAfter(e, count, acc);
            (r.Fail? ==> r.error in FloorErrors) &&
            (r.Ok? ==> |r.value.0| == |acc| + count && forall k | 0 <= k < |r.value.0| :: ResidueOk(r.value.0[k]))
  {
    if e.Ok? {
      ResiduesAppend(acc, e.value.0);
      ResidueListOk(e.value.1, count - 1, acc + [e.value.0]);
    }
  }

  function MappingList(s: Bits, channels: nat, count: nat, acc: seq<MappingSetup.Mapping>): Result<(seq<MappingSetup.Mapping>, Bits)>
    decreases count, 2
  {
    if count == 0 then Ok((acc, s)) else MappingsNext(s, channels, count, acc)
  }

  function MappingsNext(s: Bits, channels: nat, count: nat, acc: seq<MappingSetup.Mapping>): Result<(seq<MappingSetup.Mapping>, Bits)>
    requires count > 0
    decreases count, 1
  {
    MappingsAfter(MappingEntry(s, channels), channels, count, acc)
  }

  /** The mapping list goes on from the entry e just read. */
  function MappingsAfter(e: Result<(MappingSetup.Mapping, Bits)>, channels: nat, count: nat, acc: seq<MappingSetup.Mapping>): Result<(seq<MappingSetup.Mapping>, Bits)>
    requires count > 0
    decreases count, 0
  {
    if e.Fail? then Fail(e.error) else MappingList(e.value.1, channels, count - 1, acc + [e.value.0])
  }

  /** Appending a valid mapping to valid mappings keeps them all valid. */
  lemma MappingsAppend(channels: nat, acc: seq<MappingSetup.Mapping>, x: MappingSetup.Mapping)
    requires forall k | 0 <= k < |acc| :: MappingSetup.Valid(acc[k], channels)
    requires MappingSetup.Valid(x, channels)
    ensures forall k | 0 <= k < |acc + [x]| :: MappingSetup.Valid((acc + [x])[k], channels)
  {
    forall k | 0 <= k < |acc + [x]| ensures MappingSetup.Valid((acc + [x])[k], channels) {
      if k < |acc| { assert (acc + [x])[k] == acc[k]; }
    }
  }

  lemma {:induction false} MappingListOk(s: Bits, channels: nat, count: nat, acc: seq<MappingSetup.Mapping>)
    requires forall k | 0 <= k < |acc| :: MappingSetup.Valid(acc[k], channels)
    decreases count, 1
    ensures var r := MappingList(s, channels, count, acc);
            (r.Fail? ==> r.error in MappingErrors) &&
            (r.Ok? ==> |r.value.0| == |acc| + count && forall k | 0 <= k < |r.value.0| :: MappingSetup.Valid(r.value.0[k], channels))
  {
    if count > 0 {
      MappingEntryOk(s, channels);
      MappingsAfterOk(MappingEntry(s, channels), channels, count, acc);
    }
  }

  /** The same from an entry that is valid or failed with a mapping error. */
  lemma {:induction false} MappingsAfterOk(e: Result<(MappingSetup.Mapping, Bits)>, channels: nat, count: nat, acc: seq<MappingSetup.Mapping>)
    requires count > 0
    requires forall k | 0 <= k < |acc| :: MappingSetup.Valid(acc[k], channels)
    requires e.Fail? ==> e.error in MappingErrors
    requires e.Ok? ==> MappingSetup.Valid(e.value.0, channels)
    decreases count, 0
    ensures var r := MappingsAfter(e, channels, count, acc);
            (r.Fail? ==> r.error in MappingErrors) &&
            (r.Ok? ==> |r.value.0| == |acc| + count && forall k | 0 <= k < |r.value.0| :: MappingSetup.Valid(r.value.0[k], channels))
  {
    if e.Ok? {
      MappingsAppend(channels, acc, e.value.0);
      MappingListOk(e.value.1, channels, count - 1, acc + [e.value.0]);
    }
  }

  function ModeList(s: Bits, count: nat, acc: seq<MappingSetup.Mode>): Result<(seq<MappingSetup.Mode>, Bits)>
    decreases count, 2
  {
    if count == 0 then Ok((acc, s)) else ModesNext(s, count, acc)
  }

  function ModesNext(s: Bits, count: nat, acc: seq<MappingSetup.Mode>): Result<(seq<MappingSetup.Mode>, Bits)>
    requires count > 0
    decreases count, 1
  {
    ModesAfter(MappingSetup.ModeSpec(s), count, acc)
  }

  /** The mode list goes on from the entry e just read. */
  function ModesAfter(e: Result<(MappingSetup.Mode, Bits)>, count: nat, acc: seq<MappingSetup.Mode>): Result<(seq<MappingSetup.Mode>, Bits)>
    requires count > 0
    decreases count, 0
  {
    if e.Fail? then Fail(e.error) else ModeList(e.value.1, count - 1, acc + [e.value.0])
  }

  /** Appending a valid mode to valid modes keeps them all valid. */
  lemma ModesAppend(acc: seq<MappingSetup.Mode>, x: MappingSetup.Mode)
    requires forall k | 0 <= k < |acc| :: ModeOk(acc[k])
    requires ModeOk(x)
    ensures forall k | 0 <= k < |acc + [x]| :: ModeOk((acc + [x])[k])
  {
    forall k | 0 <= k < |acc + [x]| ensures ModeOk((acc + [x])[k]) {
      if k < |acc| { assert (acc + [x])[k] == acc[k]; }
    }
  }

  lemma {:induction false} ModeListOk(s: Bits, count: nat, acc: seq<MappingSetup.Mode>)
    requires forall k | 0 <= k < |acc| :: ModeOk(acc[k])
    decreases count, 1
    ensures var r := ModeList(s, count, acc);
            (r.Fail? ==> r.error in ModeErrors) &&
            (r.Ok? ==> |r.value.0| == |acc| + count && forall k | 0 <= k < |r.value.0| :: ModeOk(r.value.0[k]))
  {
    if count > 0 {
      ModeEntryOk(s);
      ModesAfterOk(MappingSetup.ModeSpec(s), count, acc);
    }
  }

  /** The same from an entry that is valid or failed with a mode error. */
  lemma {:induction false} ModesAfterOk(e: Result<(MappingSetup.Mode, Bits)>, count: nat, acc: seq<MappingSetup.Mode>)
    requires count > 0
    requires forall k | 0 <= k < |acc| :: ModeOk(acc[k])
    requires e.Fail? ==> e.error in ModeErrors
    requires e.Ok? ==> ModeOk(e.value.0)
    decreases count, 0
    ensures var r := ModesAfter(e, count, acc);
            (r.Fail? ==> r.error in ModeErrors) &&
            (r.Ok? ==> |r.value.0| == |acc| + count && forall k | 0 <= k < |r.value.0| :: ModeOk(r.value.0[k]))
  {
    if e.Ok? {
      ModesAppend(acc, e.value.0);
      ModeListOk(e.value.1, count - 1, acc + [e.value.0]);
    }
  }

  // ---------------------------------------------------------------------
  // The list loops of Vorbis_DecodeSetup

  /** One time entry, read and checked. */
  method ReadTime(br: BitReader, ghost left: nat) returns (r: Outcome)
    requires br.Valid() && left > 0
    modifies br
    ensures br.Valid() && br.src == old(br.src)
    ensures TimesSpec(old(br.View()), left) == if r.Pass? then TimesSpec(br.View(), left - 1) else Fail(r.error)
    ensures r.Stop? ==> r.error in {EndOfStream, TimeType}
  {
    ghost var v := br.View();
    var time := br.ReadBits(16);
    if time.Fail? {
      return Stop(EndOfStream);
    }
    assert ReadField(v, 16) == Ok((time.value, br.View()));
    if time.value != 0 {
      return Stop(TimeType);
    }
    return Pass;
  }

  method ReadTimes(br: BitReader, count: nat) returns (r: Outcome)
    requires br.Valid()
    modifies br
    ensures br.Valid() && br.src == old(br.src)
    ensures TimesSpec(old(br.View()), count) == if r.Pass? then Ok(br.View()) else Fail(r.error)
    ensures r.Stop? ==> r.error in {EndOfStream, TimeType}
  {
    TimesSpecOk(br.View(), count);
    r := TimeLoop(br, count);
  }

  /** The loop itself, one time entry per pass. */
  method TimeLoop(br: BitReader, count: nat) returns (r: Outcome)
    requires br.Valid()
    modifies br
    ensures br.Valid() && br.src == old(br.src)
    ensures TimesSpec(old(br.View()), count) == if r.Pass? then Ok(br.View()) else Fail(r.error)
  {
    ghost var s := br.View();
    var left := count;
    while left > 0
      invariant br.Valid() && br.src == old(br.src)
      invariant TimesSpec(s, count) == TimesSpec(br.View(), left)
    {
      r := ReadTime(br, left);
      if r.Stop? {
        return;
      }
      left := left - 1;
    }
    return Pass;
  }

  /** One floor of the floor loop: its type, then Floor_DecodeSetup. */
  method ReadFloorEntry(br: BitReader) returns (r: Result<FloorOne.Floor>)
    requires br.Valid()
    modifies br
    ensures br.Valid() && br.src == old(br.src)
    ensures FloorEntry(old(br.View())) == if r.Ok? then Ok((r.value, br.View())) else Fail(r.error)
    ensures r.Fail? ==> r.error in FloorErrors
    ensures r.Ok? ==> FloorOne.Valid(r.value)
  {
    ghost var v := br.View();
    FloorEntryOk(v);
    var floorType :- br.ReadBits(16);
    assert ReadField(v, 16) == Ok((floorType, br.View()));
    if floorType != 1 {
      return Fail(FloorType);
    }
    r := FloorOne.DecodeSetup(br);
  }

  /** One residue of the residue loop: its type, then Residue_DecodeSetup. */
  method ReadResidueEntry(br: BitReader) returns (r: Result<ResidueSetup.Residue>)
    requires br.Valid()
    modifies br
    ensures br.Valid() && br.src == old(br.src)
    ensures ResidueEntry(old(br.View())) == if r.Ok? then Ok((r.value, br.View())) else Fail(r.error)
    ensures r.Fail? ==> r.error in FloorErrors
    ensures r.Ok? ==> ResidueOk(r.value)
  {
    ghost var v := br.View();
    ResidueEntryOk(v);
    var residueType :- br.ReadBits(16);
    assert ReadField(v, 16) == Ok((residueType, br.View()));
    if residueType > 2 {
      return Fail(FloorType);
    }
    r := ResidueSetup.DecodeSetup(br, residueType);
  }

  /** One mapping of the mapping loop: its type, then Mapping_DecodeSetup. */
  method ReadMappingEntry(br: BitReader, channels: nat) returns (r: Result<MappingSetup.Mapping>)
    requires br.Valid() && channels < 256
    modifies br
    ensures br.Valid() && br.src == old(br.src)
    ensures MappingEntry(old(br.View()), channels) == if r.Ok? then Ok((r.value, br.View())) else Fail(r.error)
    ensures r.Fail? ==> r.error in MappingErrors
    ensures r.Ok? ==> MappingSetup.Valid(r.value, channels)
  {
    ghost var v := br.View();
    MappingEntryOk(v, channels);
    var mappingType :- br.ReadBits(16);
    assert ReadField(v, 16) == Ok((mappingType, br.View()));
    if mappingType != 0 {
      return Fail(MappingType);
    }
    r := MappingSetup.DecodeSetup(br, channels);
  }

  /** One pass of the floor loop: the list from here goes on after the entry read. */
  method ReadFloorStep(br: BitReader, ghost left: nat, ghost acc: seq<FloorOne.Floor>)
    returns (r: Result<FloorOne.Floor>)
    requires br.Valid() && left > 0
    modifies br
    ensures br.Valid() && br.src == old(br.src)
    ensures FloorList(old(br.View()), left, acc) ==
              if r.Ok? then FloorList(br.View(), left - 1, acc + [r.value]) else Fail(r.error)
    ensures r.Fail? ==> r.error in FloorErrors
    ensures r.Ok? ==> FloorOne.Valid(r.value)
  {
    ghost var s := br.View();
    assert FloorList(s, left, acc) == FloorsNext(s, left, acc);
    r := ReadFloorEntry(br);
  }

  /** The floor loop of Vorbis_DecodeSetup. */
  method ReadFloors(br: BitReader, count: nat) returns (r: Result<seq<FloorOne.Floor>>)
    requires br.Valid()
    modifies br
    ensures br.Valid() && br.src == old(br.src)
    ensures FloorList(old(br.View()), count, []) ==
              if r.Ok? then Ok((r.value, br.View())) else Fail(r.error)
    ensures r.Fail? ==> r.error in FloorErrors
    ensures r.Ok? ==> |r.value| == count && forall k | 0 <= k < count :: FloorOne.Valid(r.value[k])
  {
    FloorListOk(br.View(), count, []);
    r := FloorLoop(br, count);
  }

  /** The loop itself, one floor per pass. */
  method FloorLoop(br: BitReader, count: nat) returns (r: Result<seq<FloorOne.Floor>>)
    requires br.Valid()
    modifies br
    ensures br.Valid() && br.src == old(br.src)
    ensures FloorList(old(br.View()), count, []) ==
              if r.Ok? then Ok((r.value, br.View())) else Fail(r.error)
  {
    ghost var s := br.View();
    var left := count;
    var floors: seq<FloorOne.Floor> := [];
    while left > 0
      invariant br.Valid() && br.src == old(br.src)
      invariant FloorList(s, count, []) == FloorList(br.View(), left, floors)
    {
      var floor :- ReadFloorStep(br, left, floors);
      floors := floors + [floor];
      left := left - 1;
    }
    return Ok(floors);
  }

  /** One pass of the residue loop: the list from here goes on after the entry read. */
  method ReadResidueStep(br: BitReader, ghost left: nat, ghost acc: seq<ResidueSetup.Residue>)
    returns (r: Result<ResidueSetup.Residue>)
    requires br.Valid() && left > 0
    modifies br
    ensures br.Valid() && br.src == old(br.src)
    ensures ResidueList(old(br.View()), left, acc) ==
              if r.Ok? then ResidueList(br.View(), left - 1, acc + [r.value]) else Fail(r.error)
    ensures r.Fail? ==> r.error in FloorErrors
    ensures r.Ok? ==> ResidueOk(r.value)
  {
    ghost var s := br.View();
    assert ResidueList(s, left, acc) == ResiduesNext(s, left, acc);
    r := ReadResidueEntry(br);
  }

  /** The residue loop of Vorbis_DecodeSetup. */
  method ReadResidues(br: BitReader, count: nat) returns (r: Result<seq<ResidueSetup.Residue>>)
    requires br.Valid()
    modifies br
    ensures br.Valid() && br.src == old(br.src)
    ensures ResidueList(old(br.View()), count, []) ==
              if r.Ok? then Ok((r.value, br.View())) else Fail(r.error)
    ensures r.Fail? ==> r.error in FloorErrors
    ensures r.Ok? ==> |r.value| == count && forall k | 0 <= k < count :: ResidueOk(r.value[k])
  {
    ResidueListOk(br.View(), count, []);
    r := ResidueLoop(br, count);
  }

  /** The loop itself, one residue per pass. */
  method ResidueLoop(br: BitReader, count: nat) returns (r: Result<seq<ResidueSetup.Residue>>)
    requires br.Valid()
    modifies br
    ensures br.Valid() && br.src == old(br.src)
    ensures ResidueList(old(br.View()), count, []) ==
              if r.Ok? then Ok((r.value, br.View())) else Fail(r.error)
  {
    ghost var s := br.View();
    var left := count;
    var residues: seq<ResidueSetup.Residue> := [];
    while left > 0
      invariant br.Valid() && br.src == old(br.src)
      invariant ResidueList(s, count, []) == ResidueList(br.View(), left, residues)
    {
      var residue :- ReadResidueStep(br, left, residues);
      residues := residues + [residue];
      left := left - 1;
    }
    return Ok(residues);
  }

  /** One pass of the mapping loop: the list from here goes on after the entry read. */
  method ReadMappingStep(br: BitReader, channels: nat, ghost left: nat, ghost acc: seq<MappingSetup.Mapping>)
    returns (r: Result<MappingSetup.Mapping>)
    requires br.Valid() && left > 0 && channels < 256
    modifies br
    ensures br.Valid() && br.src == old(br.src)
    ensures MappingList(old(br.View()), channels, left, acc) ==
              if r.Ok? then MappingList(br.View(), channels, left - 1, acc + [r.value]) else Fail(r.error)
    ensures r.Fail? ==> r.error in MappingErrors
    ensures r.Ok? ==> MappingSetup.Valid(r.value, channels)
  {
    ghost var s := br.View();
    assert MappingList(s, channels, left, acc) == MappingsNext(s, channels, left, acc);
    r := ReadMappingEntry(br, channels);
  }

  /** The mapping loop of Vorbis_DecodeSetup. */
  method ReadMappings(br: BitReader, count: nat, channels: nat) returns (r: Result<seq<MappingSetup.Mapping>>)
    requires br.Valid() && channels < 256
    modifies br
    ensures br.Valid() && br.src == old(br.src)
    ensures MappingList(old(br.View()), channels, count, []) ==
              if r.Ok? then Ok((r.value, br.View())) else Fail(r.error)
    ensures r.Fail? ==> r.error in MappingErrors
    ensures r.Ok? ==> |r.value| == count && forall k | 0 <= k < count :: MappingSetup.Valid(r.value[k], channels)
  {
    MappingListOk(br.View(), channels, count, []);
    r := MappingLoop(br, count, channels);
  }

  /** The loop itself, one mapping per pass. */
  method MappingLoop(br: BitReader, count: nat, channels: nat) returns (r: Result<seq<MappingSetup.Mapping>>)
    requires br.Valid() && channels < 256
    modifies br
    ensures br.Valid() && br.src == old(br.src)
    ensures MappingList(old(br.View()), channels, count, []) ==
              if r.Ok? then Ok((r.value, br.View())) else Fail(r.error)
  {
    ghost var s := br.View();
    var left := count;
    var mappings: seq<MappingSetup.Mapping> := [];
    while left > 0
      invariant br.Valid() && br.src == old(br.src)
      invariant MappingList(s, channels, count, []) ==
                MappingList(br.View(), channels, left, mappings)
    {
      var mapping :- ReadMappingStep(br, channels, left, mappings);
      mappings := mappings + [mapping];
      left := left - 1;
    }
    return Ok(mappings);
  }

  /** One pass of the mode loop: the list from here goes on after the entry read. */
  method ReadModeStep(br: BitReader, ghost left: nat, ghost acc: seq<MappingSetup.Mode>)
    returns (r: Result<MappingSetup.Mode>)
    requires br.Valid() && left > 0
    modifies br
    ensures br.Valid() && br.src == old(br.src)
    ensures ModeList(old(br.View()), left, acc) ==
              if r.Ok? then ModeList(br.View(), left - 1, acc + [r.value]) else Fail(r.error)
    ensures r.Fail? ==> r.error in ModeErrors
    ensures r.Ok? ==> ModeOk(r.value)
  {
    ghost var s := br.View();
    assert ModeList(s, left, acc) == ModesNext(s, left, acc);
    ModeEntryOk(s);
    r := MappingSetup.DecodeMode(br);
  }

  /** The mode loop of Vorbis_DecodeSetup. */
  method ReadModes(br: BitReader, count: nat) returns (r: Result<seq<MappingSetup.Mode>>)
    requires br.Valid()
    modifies br
    ensures br.Valid() && br.src == old(br.src)
    ensures ModeList(old(br.View()), count, []) ==
              if r.Ok? then Ok((r.value, br.View())) else Fail(r.error)
    ensures r.Fail? ==> r.error in ModeErrors
    ensures r.Ok? ==> |r.value| == count && forall k | 0 <= k < count :: ModeOk(r.value[k])
  {
    ModeListOk(br.View(), count, []);
    r := ModeLoop(br, count);
  }

  /** The loop itself, one mode per pass. */
  method ModeLoop(br: BitReader, count: nat) returns (r: Result<seq<MappingSetup.Mode>>)
    requires br.Valid()
    modifies br
    ensures br.Valid() && br.src == old(br.src)
    ensures ModeList(old(br.View()), count, []) ==
              if r.Ok? then Ok((r.value, br.View())) else Fail(r.error)
  {
    ghost var s := br.View();
    var left := count;
    var modes: seq<MappingSetup.Mode> := [];
    while left > 0
      invariant br.Valid() && br.src == old(br.src)
      invariant ModeList(s, count, []) == ModeList(br.View(), left, modes)
    {
      var mode :- ReadModeStep(br, left, modes);
      modes := modes + [mode];
      left := left - 1;
    }
    return Ok(modes);
  }

  /** The codebook loop: count codebooks, stopping at the first that fails. */
  method ReadCodebooks(br: BitReader, count: nat) returns (r: Result<seq<CodebookSetup.Codebook>>)
    requires br.Valid()
    modifies br
    ensures br.Valid() && br.src == old(br.src)
    ensures CodebookList(old(br.View()), count, []) ==
              if r.Ok? then Ok((r.value, br.View())) else Fail(r.error)
    ensures r.Fail? ==> r.error in CodebookErrors
    ensures r.Ok? ==> |r.value| == count && forall k | 0 <= k < count :: TableOk(r.value[k])
  {
    CodebookListOk(br.View(), count, []);
    r := CodebookLoop(br, count);
  }

  /** One pass of the codebook loop: the list from here goes on after the codebook read. */
  method ReadCodebookStep(br: BitReader, ghost left: nat, ghost acc: seq<CodebookSetup.Codebook>)
    returns (r: Result<CodebookSetup.Codebook>)
    requires br.Valid() && left > 0
    modifies br
    ensures br.Valid() && br.src == old(br.src)
    ensures CodebookList(old(br.View()), left, acc) ==
              if r.Ok? then CodebookList(br.View(), left - 1, acc + [r.value]) else Fail(r.error)
  {
    ghost var s := br.View();
    assert CodebookList(s, left, acc) == CodebooksNext(s, left, acc);
    r := CodebookSetup.DecodeSetup(br);
  }

  /** The loop itself, one codebook per pass. */
  method CodebookLoop(br: BitReader, count: nat) returns (r: Result<seq<CodebookSetup.Codebook>>)
    requires br.Valid()
    modifies br
    ensures br.Valid() && br.src == old(br.src)
    ensures CodebookList(old(br.View()), count, []) ==
              if r.Ok? then Ok((r.value, br.View())) else Fail(r.error)
  {
    ghost var s := br.View();
    var left := count;
    var books: seq<CodebookSetup.Codebook> := [];
    while left > 0
      invariant br.Valid() && br.src == old(br.src)
      invariant CodebookList(s, count, []) == CodebookList(br.View(), left, books)
    {
      var book :- ReadCodebookStep(br, left, books);
      books := books + [book];
      left := left - 1;
    }
    return Ok(books);
  }

  // ---------------------------------------------------------------------
  // Vorbis_DecodeSetup

  /** Everything the setup header sets up. */
  datatype Setup = Setup(codebooks: seq<CodebookSetup.Codebook>, floors: seq<FloorOne.Floor>,
                         residues: seq<ResidueSetup.Residue>, mappings: seq<MappingSetup.Mapping>,
                         modes: seq<MappingSetup.Mode>, modeNumBits: nat)

  /**
   * A setup read for a stream of the given channel count: 1 to 256
   * codebooks, 1 to 64 floors, residues, mappings and modes, each valid,
   * and mode numbers of iLog(modes - 1) bits.
   */
  predicate Valid(st: Setup, channels: nat)
  {
    1 <= |st.codebooks| <= 256 && (forall k | 0 <= k < |st.codebooks| :: TableOk(st.codebooks[k])) &&
    1 <= |st.floors| <= 64 && (forall k | 0 <= k < |st.floors| :: FloorOne.Valid(st.floors[k])) &&
    1 <= |st.residues| <= 64 && (forall k | 0 <= k < |st.residues| :: ResidueOk(st.residues[k])) &&
    1 <= |st.mappings| <= 64 &&
    (forall k | 0 <= k < |st.mappings| :: MappingSetup.Valid(st.mappings[k], channels)) &&
    1 <= |st.modes| <= 64 && (forall k | 0 <= k < |st.modes| :: ModeOk(st.modes[k])) &&
    st.modeNumBits == Base4Length(|st.modes| - 1)
  }

  const SetupErrors: set<Error> :=
    {CodebookSync, CodebookEntry, CodebookLookup, EndOfStream, OutOfBounds, Hangs,
     TimeType, FloorType, MappingType, MappingChans, MappingReserved, ModeWindow, ModeTransform, Framing}

  /** A count of width bits plus one. */
  method ReadCount(br: BitReader, width: nat) returns (r: Result<nat>)
    requires br.Valid() && width <= 24
    modifies br
    ensures br.Valid() && br.src == old(br.src)
    ensures r.Fail? ==> r.error == EndOfStream
    ensures r.Ok? ==> 1 <= r.value <= Pow2(width)
    ensures var f := ReadField(old(br.View()), width);
            if r.Ok? then f == Ok((r.value - 1, br.View())) else f.Fail?
  {
    var n :- br.ReadBits(width);
    return Ok(n + 1);
  }

  /** The codebooks: a count of 8 bits plus one, then that many codebooks. */
  method ReadCodebookList(br: BitReader) returns (r: Result<seq<CodebookSetup.Codebook>>)
    requires br.Valid()
    modifies br
    ensures br.Valid() && br.src == old(br.src)
    ensures CodebookSection(old(br.View())) == if r.Ok? then Ok((r.value, br.View())) else Fail(r.error)
    ensures r.Fail? ==> r.error in SetupErrors
    ensures r.Ok? ==> 1 <= |r.value| <= 256 && forall k | 0 <= k < |r.value| :: TableOk(r.value[k])
  {
    Pow2Small();
    var n :- ReadCount(br, 8);
    r := ReadCodebooks(br, n);
  }

  /** The time entries: a count of 6 bits plus one, then that many zero entries. */
  method ReadTimeList(br: BitReader) returns (r: Outcome)
    requires br.Valid()
    modifies br
    ensures br.Valid() && br.src == old(br.src)
    ensures TimeList(old(br.View())) == if r.Pass? then Ok(br.View()) else Fail(r.error)
    ensures r.Stop? ==> r.error in {EndOfStream, TimeType}
  {
    var n := ReadCount(br, 6);
    if n.Fail? {
      return Stop(n.error);
    }
    r := ReadTimes(br, n.value);
  }

  method ReadFloorList(br: BitReader) returns (r: Result<seq<FloorOne.Floor>>)
    requires br.Valid()
    modifies br
    ensures br.Valid() && br.src == old(br.src)
    ensures FloorSection(old(br.View())) == if r.Ok? then Ok((r.value, br.View())) else Fail(r.error)
    ensures r.Fail? ==> r.error in FloorErrors
    ensures r.Ok? ==> 1 <= |r.value| <= 64 && forall k | 0 <= k < |r.value| :: FloorOne.Valid(r.value[k])
  {
    Pow2Values();
    var n :- ReadCount(br, 6);
    r := ReadFloors(br, n);
  }

  method ReadResidueList(br: BitReader) returns (r: Result<seq<ResidueSetup.Residue>>)
    requires br.Valid()
    modifies br
    ensures br.Valid() && br.src == old(br.src)
    ensures ResidueSection(old(br.View())) == if r.Ok? then Ok((r.value, br.View())) else Fail(r.error)
    ensures r.Fail? ==> r.error in FloorErrors
    ensures r.Ok? ==> 1 <= |r.value| <= 64 && forall k | 0 <= k < |r.value| :: ResidueOk(r.value[k])
  {
    Pow2Values();
    var n :- ReadCount(br, 6);
    r := ReadResidues(br, n);
  }

  method ReadMappingList(br: BitReader, channels: nat) returns (r: Result<seq<MappingSetup.Mapping>>)
    requires br.Valid() && channels < 256
    modifies br
    ensures br.Valid() && br.src == old(br.src)
    ensures MappingSection(old(br.View()), channels) == if r.Ok? then Ok((r.value, br.View())) else Fail(r.error)
    ensures r.Fail? ==> r.error in MappingErrors
    ensures r.Ok? ==>
              1 <= |r.value| <= 64 && forall k | 0 <= k < |r.value| :: MappingSetup.Valid(r.value[k], channels)
  {
    Pow2Values();
    var n :- ReadCount(br, 6);
    r := ReadMappings(br, n, channels);
  }

  method ReadModeList(br: BitReader) returns (r: Result<seq<MappingSetup.Mode>>)
    requires br.Valid()
    modifies br
    ensures br.Valid() && br.src == old(br.src)
    ensures ModeSection(old(br.View())) == if r.Ok? then Ok((r.value, br.View())) else Fail(r.error)
    ensures r.Fail? ==> r.error in ModeErrors
    ensures r.Ok? ==> 1 <= |r.value| <= 64 && forall k | 0 <= k < |r.value| :: ModeOk(r.value[k])
  {
    Pow2Values();
    var n :- ReadCount(br, 6);
    r := ReadModes(br, n);
  }

  /*
   * The sections of the setup header: each list behind its count, a field
   * of 8 bits for the codebooks and of 6 bits for the others, holding the
   * number of entries less one.
   */

  function CodebookSection(s: Bits): Result<(seq<CodebookSetup.Codebook>, Bits)>
  {
    var n := ReadField(s, 8);
    if n.Fail? then Fail(n.error) else CodebookList(n.value.1, n.value.0 + 1, [])
  }

  function FloorSection(s: Bits): Result<(seq<FloorOne.Floor>, Bits)>
  {
    var n := ReadField(s, 6);
    if n.Fail? then Fail(n.error) else FloorList(n.value.1, n.value.0 + 1, [])
  }

  function ResidueSection(s: Bits): Result<(seq<ResidueSetup.Residue>, Bits)>
  {
    var n := ReadField(s, 6);
    if n.Fail? then Fail(n.error) else ResidueList(n.value.1, n.value.0 + 1, [])
  }

  function MappingSection(s: Bits, channels: nat): Result<(seq<MappingSetup.Mapping>, Bits)>
  {
    var n := ReadField(s, 6);
    if n.Fail? then Fail(n.error) else MappingList(n.value.1, channels, n.value.0 + 1, [])
  }

  function ModeSection(s: Bits): Result<(seq<MappingSetup.Mode>, Bits)>
  {
    var n := ReadField(s, 6);
    if n.Fail? then Fail(n.error) else ModeList(n.value.1, n.value.0 + 1, [])
  }

  /**
   * The lists of the setup header in the order Vorbis_DecodeSetup reads
   * them: codebooks, time entries, floors, residues, mappings and modes;
   * the setup and the stream after the last mode.  Written in three stages
   * (SetupLists, AfterCodebooks, AfterFloors), each taking the lists read
   * so far.
   */
  function SetupLists(s: Bits, channels: nat): Result<(Setup, Bits)>
  {
    var codebooks := CodebookSection(s);
    if codebooks.Fail? then Fail(codebooks.error)
    else AfterCodebooks(codebooks.value.1, channels, codebooks.value.0)
  }

  function AfterCodebooks(s: Bits, channels: nat, codebooks: seq<CodebookSetup.Codebook>)
    : Result<(Setup, Bits)>
  {
    var times := TimeList(s);
    if times.Fail? then Fail(times.error) else
    var floors := FloorSection(times.value);
    if floors.Fail? then Fail(floors.error)
    else AfterFloors(floors.value.1, channels, codebooks, floors.value.0)
  }

  function AfterFloors(s: Bits, channels: nat, codebooks: seq<CodebookSetup.Codebook>,
                       floors: seq<FloorOne.Floor>): Result<(Setup, Bits)>
  {
    var residues := ResidueSection(s);
    if residues.Fail? then Fail(residues.error) else
    var mappings := MappingSection(residues.value.1, channels);
    if mappings.Fail? then Fail(mappings.error) else
    var modes := ModeSection(mappings.value.1);
    if modes.Fail? then Fail(modes.error) else
    Ok((Setup(codebooks, floors, residues.value.0, mappings.value.0, modes.value.0,
              Base4Length(|modes.value.0| - 1)),
        modes.value.1))
  }

  /**
   * The setup header after its packet header: the lists, then the framing
   * bit, which must be set.
   */
  function SetupSpec(s: Bits, channels: nat): Result<Setup>
  {
    AfterLists(SetupLists(s, channels))
  }

  /** The framing bit after the lists, when they were read. */
  function AfterLists(lists: Result<(Setup, Bits)>): Result<Setup>
  {
    if lists.Fail? then Fail(lists.error)
    else
      var framing := ReadField(lists.value.1, 1);
      if framing.Fail? then Fail(EndOfStream)
      else if framing.value.0 % 2 == 0 then Fail(Framing)
      else Ok(lists.value.0)
  }

  /** Each section has 1 to 2^width valid entries, or fails with one of its list's errors. */
  lemma CodebookSectionOk(s: Bits)
    ensures var r := CodebookSection(s);
            (r.Fail? ==> r.error in CodebookErrors) &&
            (r.Ok? ==> 1 <= |r.value.0| <= 256 && forall k | 0 <= k < |r.value.0| :: TableOk(r.value.0[k]))
  {
    Pow2Values();
    var n := ReadField(s, 8);
    if n.Ok? {
      CodebookListOk(n.value.1, n.value.0 + 1, []);
    }
  }

  lemma FloorSectionOk(s: Bits)
    ensures var r := FloorSection(s);
            (r.Fail? ==> r.error in FloorErrors) &&
            (r.Ok? ==> 1 <= |r.value.0| <= 64 && forall k | 0 <= k < |r.value.0| :: FloorOne.Valid(r.value.0[k]))
  {
    Pow2Values();
    var n := ReadField(s, 6);
    if n.Ok? {
      FloorListOk(n.value.1, n.value.0 + 1, []);
    }
  }

  lemma ResidueSectionOk(s: Bits)
    ensures var r := ResidueSection(s);
            (r.Fail? ==> r.error in FloorErrors) &&
            (r.Ok? ==> 1 <= |r.value.0| <= 64 && forall k | 0 <= k < |r.value.0| :: ResidueOk(r.value.0[k]))
  {
    Pow2Values();
    var n := ReadField(s, 6);
    if n.Ok? {
      ResidueListOk(n.value.1, n.value.0 + 1, []);
    }
  }

  lemma MappingSectionOk(s: Bits, channels: nat)
    ensures var r := MappingSection(s, channels);
            (r.Fail? ==> r.error in MappingErrors) &&
            (r.Ok? ==> 1 <= |r.value.0| <= 64 && forall k | 0 <= k < |r.value.0| :: MappingSetup.Valid(r.value.0[k], channels))
  {
    Pow2Values();
    var n := ReadField(s, 6);
    if n.Ok? {
      MappingListOk(n.value.1, channels, n.value.0 + 1, []);
    }
  }

  lemma ModeSectionOk(s: Bits)
    ensures var r := ModeSection(s);
            (r.Fail? ==> r.error in ModeErrors) &&
            (r.Ok? ==> 1 <= |r.value.0| <= 64 && forall k | 0 <= k < |r.value.0| :: ModeOk(r.value.0[k]))
  {
    Pow2Values();
    var n := ReadField(s, 6);
    if n.Ok? {
      ModeListOk(n.value.1, n.value.0 + 1, []);
    }
  }

  /** The time entries fail only with a time error. */
  lemma TimeListOk(s: Bits)
    ensures TimeList(s).Fail? ==> TimeList(s).error in {EndOfStream, TimeType}
  {
    var n := ReadField(s, 6);
    if n.Ok? {
      TimesSpecOk(n.value.1, n.value.0 + 1);
    }
  }

  /** The last three lists complete a valid setup from valid codebooks and floors. */
  lemma AfterFloorsOk(s: Bits, channels: nat, codebooks: seq<CodebookSetup.Codebook>,
                      floors: seq<FloorOne.Floor>)
    requires 1 <= |codebooks| <= 256 && forall k | 0 <= k < |codebooks| :: TableOk(codebooks[k])
    requires 1 <= |floors| <= 64 && forall k | 0 <= k < |floors| :: FloorOne.Valid(floors[k])
    ensures var r := AfterFloors(s, channels, codebooks, floors);
            (r.Fail? ==> r.error in SetupErrors) && (r.Ok? ==> Valid(r.value.0, channels))
  {
    ResidueSectionOk(s);
    var residues := ResidueSection(s);
    if residues.Ok? {
      MappingSectionOk(residues.value.1, channels);
      var mappings := MappingSection(residues.value.1, channels);
      if mappings.Ok? {
        ModeSectionOk(mappings.value.1);
      }
    }
  }

  lemma AfterCodebooksOk(s: Bits, channels: nat, codebooks: seq<CodebookSetup.Codebook>)
    requires 1 <= |codebooks| <= 256 && forall k | 0 <= k < |codebooks| :: TableOk(codebooks[k])
    ensures var r := AfterCodebooks(s, channels, codebooks);
            (r.Fail? ==> r.error in SetupErrors) && (r.Ok? ==> Valid(r.value.0, channels))
  {
    TimeListOk(s);
    var times := TimeList(s);
    if times.Ok? {
      FloorSectionOk(times.value);
      var floors := FloorSection(times.value);
      if floors.Ok? {
        AfterFloorsOk(floors.value.1, channels, codebooks, floors.value.0);
      }
    }
  }

  /** The lists fail only with one of the setup errors, and make a valid setup. */
  lemma SetupListsOk(s: Bits, channels: nat)
    ensures var r := SetupLists(s, channels);
            (r.Fail? ==> r.error in SetupErrors) && (r.Ok? ==> Valid(r.value.0, channels))
  {
    CodebookSectionOk(s);
    var codebooks := CodebookSection(s);
    if codebooks.Ok? {
      AfterCodebooksOk(codebooks.value.1, channels, codebooks.value.0);
    }
  }

  /**
   * What the setup header promises: it fails only with one of the setup
   * errors, and a setup it yields is valid for the channel count: 1 to
   * 256 codebooks, 1 to 64 of each other list, every entry valid, and mode
   * numbers wide enough for every mode.
   */
  lemma SetupSpecOk(s: Bits, channels: nat)
    ensures SetupSpec(s, channels).Fail? ==> SetupSpec(s, channels).error in SetupErrors
    ensures SetupSpec(s, channels).Ok? ==> Valid(SetupSpec(s, channels).value, channels)
  {
    SetupListsOk(s, channels);
  }

  /** Every mode number of a setup names a mode: 2^modeNumBits modes at most. */
  lemma ModeNumberInRange(st: Setup, channels: nat, modeIdx: nat)
    requires Valid(st, channels) && modeIdx < Pow2(st.modeNumBits)
    ensures modeIdx < |st.modes|
  {
    Base4LengthWidth(|st.modes| - 1);
  }

  /** The residues, mappings and modes of Vorbis_DecodeSetup, after the floors. */
  method ReadAfterFloors(br: BitReader, channels: nat, codebooks: seq<CodebookSetup.Codebook>,
                         floors: seq<FloorOne.Floor>) returns (r: Result<Setup>)
    requires br.Valid() && channels < 256
    modifies br
    ensures br.Valid() && br.src == old(br.src)
    ensures AfterFloors(old(br.View()), channels, codebooks, floors) ==
            if r.Ok? then Ok((r.value, br.View())) else Fail(r.error)
  {
    var residues :- ReadResidueList(br);
    var mappings :- ReadMappingList(br, channels);
    var modes :- ReadModeList(br);
    var modeNumBits := ILog(|modes| - 1);
    return Ok(Setup(codebooks, floors, residues, mappings, modes, modeNumBits));
  }

  /** The time entries and the rest of Vorbis_DecodeSetup's lists, after the codebooks. */
  method ReadAfterCodebooks(br: BitReader, channels: nat, codebooks: seq<CodebookSetup.Codebook>)
    returns (r: Result<Setup>)
    requires br.Valid() && channels < 256
    modifies br
    ensures br.Valid() && br.src == old(br.src)
    ensures AfterCodebooks(old(br.View()), channels, codebooks) ==
            if r.Ok? then Ok((r.value, br.View())) else Fail(r.error)
  {
    var times := ReadTimeList(br);
    if times.Stop? {
      return Fail(times.error);
    }
    var floors :- ReadFloorList(br);
    r := ReadAfterFloors(br, channels, codebooks, floors);
  }

  /** The lists of Vorbis_DecodeSetup, from the codebooks to the modes. */
  method ReadSetupLists(br: BitReader, channels: nat) returns (r: Result<Setup>)
    requires br.Valid() && channels < 256
    modifies br
    ensures br.Valid() && br.src == old(br.src)
    ensures SetupLists(old(br.View()), channels) == if r.Ok? then Ok((r.value, br.View())) else Fail(r.error)
    ensures r.Fail? ==> r.error in SetupErrors
    ensures r.Ok? ==> Valid(r.value, channels)
  {
    SetupListsOk(br.View(), channels);
    var codebooks :- ReadCodebookList(br);
    r := ReadAfterCodebooks(br, channels, codebooks);
  }

  /** Once the lists are read and the framing bit after them, the setup header's outcome is the bit's. */
  lemma FramingAfterLists(lists: Result<(Setup, Bits)>, setup: Setup, rest: Bits, bit: nat)
    requires lists == Ok((setup, rest))
    requires ReadField(rest, 1).Ok? && ReadField(rest, 1).value.0 == bit
    ensures AfterLists(lists) == if bit % 2 == 0 then Fail(Framing) else Ok(setup)
  {
  }

  /** The framing bit of Vorbis_DecodeSetup, read before the bit buffer is aligned to a byte. */
  method ReadFramingBit(br: BitReader) returns (r: Result<nat>)
    requires br.Valid()
    modifies br
    ensures br.Valid() && br.src == old(br.src)
    ensures var bit := ReadField(old(br.View()), 1);
            if bit.Ok? then r == Ok(bit.value.0) else r == Fail(bit.error)
    ensures r.Ok? ==> br.numBits % 8 == 0
  {
    var framing :- br.ReadBits(1);
    br.AlignBits();
    return Ok(framing);
  }

  /**
   * Vorbis_DecodeSetup: the lists, then the framing bit, read before the
   * bit buffer is aligned to a byte and checked after.
   */
  method DecodeSetup(br: BitReader, channels: nat) returns (r: Result<Setup>)
    requires br.Valid() && channels < 256
    modifies br
    ensures br.Valid() && br.src == old(br.src)
    ensures r == SetupSpec(old(br.View()), channels)
    ensures r.Fail? ==> r.error in SetupErrors
    ensures r.Ok? ==> Valid(r.value, channels) && br.numBits % 8 == 0
  {
    ghost var s := br.View();
    var setup :- ReadSetupLists(br, channels);
    ghost var rest := br.View();
    var framing :- ReadFramingBit(br);
    FramingAfterLists(SetupLists(s, channels), setup, rest, framing);
    if framing % 2 == 0 {
      return Fail(Framing);
    }
    return Ok(setup);
  }

  // ---------------------------------------------------------------------
  // Vorbis_DecodeHeaders

  /** What the three header packets set up. */
  datatype Session = Session(id: HeaderPackets.Identifier, setup: Setup)

  /**
   * What the headers leave for the audio packets: 1 to 8 channels, two
   * valid block sizes in order, and a setup valid for that many channels.
   */
  predicate SessionOk(se: Session)
  {
    1 <= se.id.channels <= HeaderPackets.MaxChans &&
    HeaderPackets.ValidBlockSize(se.id.blockSize0) &&
    HeaderPackets.ValidBlockSize(se.id.blockSize1) &&
    se.id.blockSize0 <= se.id.blockSize1 &&
    Valid(se.setup, se.id.channels)
  }

  const HeaderErrors: set<Error> :=
    SetupErrors + {WrongHeader, InvalidArg, Version, BlockSize, Chans}

  /**
   * The stream a bit reader presents when its accumulator holds numBits
   * bits and the bytes rest follow: the same value and length as View.
   */
  function Resume(bits: nat, numBits: nat, rest: seq<byte>): (r: Bits)
    ensures r.length == numBits + 8 * |rest|
  {
    MulNat(Pow2(numBits), LE(rest));
    Bits(bits + Pow2(numBits) * LE(rest), numBits + 8 * |rest|)
  }

  /**
   * The setup packet: its packet header, read a byte at a time past an
   * accumulator of numBits bits, then the setup on the bits that follow,
   * the accumulator first.
   */
  function SetupPacketSpec(bits: nat, numBits: nat, bytes: seq<byte>, channels: nat): Result<Setup>
  {
    var header := HeaderPackets.HeaderSpec(bytes, HeaderPackets.SetupPacket);
    if header.Fail? then Fail(header.error)
    else SetupSpec(Resume(bits, numBits, header.value), channels)
  }

  /** The comment packet, then the setup packet, for the channels of id. */
  function AfterIdentifier(bits: nat, numBits: nat, bytes: seq<byte>, id: HeaderPackets.Identifier)
    : Result<Session>
  {
    var header := HeaderPackets.HeaderSpec(bytes, HeaderPackets.CommentsPacket);
    if header.Fail? then Fail(header.error) else
    var comments := HeaderPackets.CommentsSpec(header.value);
    if comments.Fail? then Fail(comments.error) else
    var setup := SetupPacketSpec(bits, numBits, comments.value, id.channels);
    if setup.Fail? then Fail(setup.error) else Ok(Session(id, setup.value))
  }

  /**
   * The three header packets as one function: the identification packet
   * and its 23 bytes, then the comment and setup packets.  The packet
   * headers and the first two packets are read a byte at a time past an
   * accumulator of numBits bits, which the setup then reads first.
   */
  function SessionSpec(bits: nat, numBits: nat, bytes: seq<byte>): Result<Session>
  {
    var header := HeaderPackets.HeaderSpec(bytes, HeaderPackets.IdentifierPacket);
    if header.Fail? then Fail(header.error) else
    var id := HeaderPackets.IdentifierSpec(header.value);
    if id.Fail? then Fail(id.error) else AfterIdentifier(bits, numBits, id.value.1, id.value.0)
  }

  lemma SetupPacketOk(bits: nat, numBits: nat, bytes: seq<byte>, channels: nat)
    ensures var r := SetupPacketSpec(bits, numBits, bytes, channels);
            (r.Fail? ==> r.error in HeaderErrors) && (r.Ok? ==> Valid(r.value, channels))
  {
    HeaderPackets.HeaderSpecErrors(bytes, HeaderPackets.SetupPacket);
    var header := HeaderPackets.HeaderSpec(bytes, HeaderPackets.SetupPacket);
    if header.Ok? {
      SetupSpecOk(Resume(bits, numBits, header.value), channels);
    }
  }

  lemma AfterIdentifierOk(bits: nat, numBits: nat, bytes: seq<byte>, id: HeaderPackets.Identifier)
    ensures var r := AfterIdentifier(bits, numBits, bytes, id);
            (r.Fail? ==> r.error in HeaderErrors) && (r.Ok? ==> r.value.id == id && Valid(r.value.setup, id.channels))
  {
    HeaderPackets.HeaderSpecErrors(bytes, HeaderPackets.CommentsPacket);
    var header := HeaderPackets.HeaderSpec(bytes, HeaderPackets.CommentsPacket);
    if header.Ok? {
      HeaderPackets.CommentsSpecErrors(header.value);
      var comments := HeaderPackets.CommentsSpec(header.value);
      if comments.Ok? {
        SetupPacketOk(bits, numBits, comments.value, id.channels);
      }
    }
  }

  /**
   * What the headers promise: they fail only with a header or setup error,
   * and a session they yield has 1 to 8 channels, valid block sizes in
   * order, and a setup valid for its channels.
   */
  lemma SessionSpecOk(bits: nat, numBits: nat, bytes: seq<byte>)
    ensures var r := SessionSpec(bits, numBits, bytes);
            (r.Fail? ==> r.error in HeaderErrors) && (r.Ok? ==> SessionOk(r.value))
  {
    HeaderPackets.HeaderSpecErrors(bytes, HeaderPackets.IdentifierPacket);
    var header := HeaderPackets.HeaderSpec(bytes, HeaderPackets.IdentifierPacket);
    if header.Ok? && |header.value| >= 23 {
      HeaderPackets.IdentifierCheckIff(header.value[..23]);
      var id := HeaderPackets.IdentifierSpec(header.value);
      if id.Ok? {
        AfterIdentifierOk(bits, numBits, id.value.1, id.value.0);
      }
    }
  }

  /** The setup packet of Vorbis_DecodeHeaders: its packet header, then Vorbis_DecodeSetup. */
  method ReadSetupPacket(br: BitReader, channels: nat) returns (r: Result<Setup>)
    requires br.Valid() && channels < 256
    modifies br
    ensures br.Valid() && br.src == old(br.src)
    ensures r == SetupPacketSpec(old(br.bits), old(br.numBits), old(br.src[br.pos..]), channels)
  {
    var result := HeaderPackets.DecodeHeader(br, HeaderPackets.SetupPacket);
    if result.Stop? {
      return Fail(result.error);
    }
    assert br.View() == Resume(br.bits, br.numBits, br.src[br.pos..]);
    r := DecodeSetup(br, channels);
  }

  /** The comment and setup packets of Vorbis_DecodeHeaders, after the identification packet. */
  method ReadAfterIdentifier(br: BitReader, id: HeaderPackets.Identifier) returns (r: Result<Session>)
    requires br.Valid() && id.channels < 256
    modifies br
    ensures br.Valid() && br.src == old(br.src)
    ensures r == AfterIdentifier(old(br.bits), old(br.numBits), old(br.src[br.pos..]), id)
  {
    var result := HeaderPackets.DecodeHeader(br, HeaderPackets.CommentsPacket);
    if result.Stop? {
      return Fail(result.error);
    }
    result := HeaderPackets.DecodeComments(br);
    if result.Stop? {
      return Fail(result.error);
    }
    var setup :- ReadSetupPacket(br, id.channels);
    return Ok(Session(id, setup));
  }

  /**
   * Vorbis_DecodeHeaders: the identification, comment and setup packets,
   * each behind its packet header, stopping at the first error.
   */
  method DecodeHeaders(br: BitReader) returns (r: Result<Session>)
    requires br.Valid()
    modifies br
    ensures br.Valid() && br.src == old(br.src)
    ensures r == SessionSpec(old(br.bits), old(br.numBits), old(br.src[br.pos..]))
    ensures r.Fail? ==> r.error in HeaderErrors
    ensures r.Ok? ==> SessionOk(r.value)
  {
    SessionSpecOk(br.bits, br.numBits, br.src[br.pos..]);
    var result := HeaderPackets.DecodeHeader(br, HeaderPackets.IdentifierPacket);
    if result.Stop? {
      return Fail(result.error);
    }
    ghost var afterHeader := br.src[br.pos..];
    var id :- HeaderPackets.DecodeIdentifier(br);
    HeaderPackets.IdentifierCheckIff(afterHeader[..23]);
    r := ReadAfterIdentifier(br, id);
  }
}
