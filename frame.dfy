/**
 * The integer front of Vorbis_DecodeFrame (section 4.3 of the Vorbis I
 * specification): the packet type and mode, the block size and window
 * flags, the floor of every channel, the propagation of nonzero vectors
 * through the coupling steps, and for every submap the channels it
 * decodes and the window of its residue.
 *
 * Two things are as the source has them.  A submap takes its residue
 * number from the mapping's floor table, not from its residue table.
 * And the mode number is read in iLog(modes - 1) bits, which count
 * base-4 digits, so every mode number read names a mode.
 */
module VorbisFrame {
  import opened Common
  import opened BitStream
  import opened Integers
  import Codewords
  import FloorOne
  import ResidueSetup
  import MappingSetup
  import HeaderPackets
  import VorbisSetup

  // ---------------------------------------------------------------------
  // Packet type, mode and window flags

  /**
   * The start of an audio packet: the mode and its number, the block size
   * the mode picks and half of it, and the previous and next window flags,
   * which only a long block carries.
   */
  datatype Head = Head(modeIdx: nat, mode: MappingSetup.Mode, blockSize: nat, dataSize: nat,
                       windowFlags: seq<nat>)

  /** With at most 64 modes, a mode number takes at most 3 bits. */
  lemma ModeNumBitsSmall(st: VorbisSetup.Setup, channels: nat)
    requires VorbisSetup.Valid(st, channels)
    ensures st.modeNumBits <= 3
  {
    assert Pow(4, 3) == 64;
    Base4LengthAtMost(|st.modes| - 1, 3);
  }

  /** Block sizes are powers of two of at least 64, so halving one is exact. */
  lemma BlockSizeEven(b: nat)
    requires HeaderPackets.ValidBlockSize(b)
    ensures b % 2 == 0
  {
    HeaderPackets.PowerOfTwoIff(b);
    var k := HeaderPackets.Log2(b);
    if k > 0 {
      assert Pow2(k) == 2 * Pow2(k - 1);
    }
  }

  /**
   * The packet type bit, which must be 0, and the mode number in
   * modeNumBits bits; every number that fits names a mode.
   */
  function PacketMode(s: Bits, se: VorbisSetup.Session): (r: Result<(nat, Bits)>)
    requires VorbisSetup.SessionOk(se)
    ensures r.Ok? ==> r.value.0 < |se.setup.modes|
  {
    var packetType := ReadField(s, 1);
    if packetType.Fail? then Fail(packetType.error)
    else if packetType.value.0 != 0 then Fail(FrameType)
    else
      var m := ReadField(packetType.value.1, se.setup.modeNumBits);
      if m.Fail? then m
      else
        VorbisSetup.ModeNumberInRange(se.setup, se.id.channels, m.value.0);
        m
  }

  /**
   * The packet type and mode; the mapping the mode names, read without a
   * bounds check; and for a long block the two window flags.
   */
  function HeadSpec(s: Bits, se: VorbisSetup.Session): Result<(Head, Bits)>
    requires VorbisSetup.SessionOk(se)
  {
    var m := PacketMode(s, se);
    if m.Fail? then Fail(m.error)
    else
      var (modeIdx, rest) := m.value;
      var mode := se.setup.modes[modeIdx];
      if mode.mappingIdx >= |se.setup.mappings| then Fail(OutOfBounds)
      else
        var blockSize := if mode.blockFlag == 0 then se.id.blockSize0 else se.id.blockSize1;
        if mode.blockFlag == 0 then Ok((Head(modeIdx, mode, blockSize, blockSize / 2, []), rest))
        else
          var prev := ReadField(rest, 1);
          if prev.Fail? then Fail(prev.error)
          else
            var next := ReadField(prev.value.1, 1);
            if next.Fail? then Fail(next.error)
            else Ok((Head(modeIdx, mode, blockSize, blockSize / 2, [prev.value.0, next.value.0]), next.value.1))
  }

  const HeadErrors: set<Error> := {EndOfStream, FrameType, OutOfBounds}

  /**
   * A packet whose first bit is set is not an audio packet, and a mode
   * naming a mapping past the setup's table reads outside it; otherwise
   * the head names a mode of the setup and a mapping of the setup, its block
   * size is the short or long one as the mode's flag says, the data size
   * is exactly half of it, and only a long block has window flags.
   */
  lemma HeadSpecOk(s: Bits, se: VorbisSetup.Session)
    requires VorbisSetup.SessionOk(se)
    ensures var h := HeadSpec(s, se);
            (h.Fail? ==> h.error in HeadErrors) &&
            (h.Fail? && h.error == FrameType <==> ReadField(s, 1).Ok? && ReadField(s, 1).value.0 == 1)
    ensures var h := HeadSpec(s, se);
            var m := PacketMode(s, se);
            h.Fail? && h.error == OutOfBounds <==>
              m.Ok? && se.setup.modes[m.value.0].mappingIdx >= |se.setup.mappings|
    ensures var h := HeadSpec(s, se);
            h.Ok? ==>
              var hd := h.value.0;
              hd.modeIdx < |se.setup.modes| && hd.mode == se.setup.modes[hd.modeIdx] &&
              hd.mode.mappingIdx < |se.setup.mappings| &&
              hd.blockSize == (if hd.mode.blockFlag == 0 then se.id.blockSize0 else se.id.blockSize1) &&
              HeaderPackets.ValidBlockSize(hd.blockSize) && hd.dataSize * 2 == hd.blockSize &&
              |hd.windowFlags| == 2 * hd.mode.blockFlag
  {
    var m := PacketMode(s, se);
    if m.Ok? {
      var mode := se.setup.modes[m.value.0];
      assert VorbisSetup.ModeOk(mode);
      BlockSizeEven(se.id.blockSize0);
      BlockSizeEven(se.id.blockSize1);
    }
  }

  /** The start of Vorbis_DecodeFrame, up to the window flags. */
  method ReadHead(br: BitReader, se: VorbisSetup.Session) returns (r: Result<Head>)
    requires br.Valid() && VorbisSetup.SessionOk(se)
    modifies br
    ensures br.Valid() && br.src == old(br.src)
    ensures HeadSpec(old(br.View()), se) == if r.Ok? then Ok((r.value, br.View())) else Fail(r.error)
  {
    var packetType :- br.ReadBits(1);
    if packetType != 0 {
      return Fail(FrameType);
    }
    var st := se.setup;
    ModeNumBitsSmall(st, se.id.channels);
    ghost var v := br.View();
    var modeIdx :- br.ReadBits(st.modeNumBits);
    assert ReadField(v, st.modeNumBits) == Ok((modeIdx, br.View()));
    assert PacketMode(old(br.View()), se) == Ok((modeIdx, br.View()));
    var mode := st.modes[modeIdx];
    if mode.mappingIdx >= |st.mappings| {
      return Fail(OutOfBounds);
    }
    var blockSize := if mode.blockFlag == 0 then se.id.blockSize0 else se.id.blockSize1;
    if mode.blockFlag == 0 {
      return Ok(Head(modeIdx, mode, blockSize, blockSize / 2, []));
    }
    v := br.View();
    var prev :- br.ReadBits(1);
    assert ReadField(v, 1) == Ok((prev, br.View()));
    var next :- br.ReadBits(1);
    return Ok(Head(modeIdx, mode, blockSize, blockSize / 2, [prev, next]));
  }

  // ---------------------------------------------------------------------
  // The floor of every channel

  /** The codeword tables of the setup's codebooks, by codebook number. */
  function Books(st: VorbisSetup.Setup): (books: seq<Codewords.CodeTable>)
    requires forall k | 0 <= k < |st.codebooks| :: VorbisSetup.TableOk(st.codebooks[k])
    ensures |books| == |st.codebooks| && FloorOne.BooksOk(books)
  {
    var books := seq(|st.codebooks|, k requires 0 <= k < |st.codebooks| => st.codebooks[k].codes.table);
    assert forall k | 0 <= k < |books| :: books[k] == st.codebooks[k].codes.table && VorbisSetup.TableOk(st.codebooks[k]);
    books
  }

  /**
   * The floor of channel i: its submap's floor number, read from a table
   * with one entry per submap, names a floor of the setup; a number past
   * either table reads outside it.
   */
  function ChannelFloor(s: Bits, st: VorbisSetup.Setup, m: MappingSetup.Mapping, i: nat)
    : Result<(FloorOne.FrameFloor, Bits)>
    requires VorbisSetup.Valid(st, |m.mux|) && i < |m.mux|
  {
    var submap := m.mux[i];
    if submap >= |m.floorIdx| then Fail(OutOfBounds)
    else if m.floorIdx[submap] >= |st.floors| then Fail(OutOfBounds)
    else FloorOne.FrameSpec(s, st.floors[m.floorIdx[submap]], Books(st))
  }

  /** The floor a channel uses, when its submap and floor numbers are in range. */
  predicate FloorFits(st: VorbisSetup.Setup, m: MappingSetup.Mapping, i: nat, f: FloorOne.FrameFloor)
    requires i < |m.mux|
  {
    m.mux[i] < |m.floorIdx| && m.floorIdx[m.mux[i]] < |st.floors| &&
    (f.Curve? ==> |f.yList| == |st.floors[m.floorIdx[m.mux[i]]].xList|)
  }

  const FloorErrors: set<Error> := {EndOfStream, OutOfBounds, Aborted}

  /**
   * A channel's floor fails only at the end of the stream or on a number
   * out of range; a used floor has one Y value per X value of the floor
   * its submap names.
   */
  lemma ChannelFloorOk(s: Bits, st: VorbisSetup.Setup, m: MappingSetup.Mapping, i: nat)
    requires VorbisSetup.Valid(st, |m.mux|) && i < |m.mux|
    ensures var c := ChannelFloor(s, st, m, i);
            (c.Fail? ==> c.error in FloorErrors) &&
            (c.Ok? ==> FloorFits(st, m, i, c.value.0))
    ensures m.mux[i] >= |m.floorIdx| ==> ChannelFloor(s, st, m, i) == Fail(OutOfBounds)
  {
    var submap := m.mux[i];
    if submap < |m.floorIdx| && m.floorIdx[submap] < |st.floors| {
      assert FloorOne.Valid(st.floors[m.floorIdx[submap]]);
    }
  }

  /** Floor_DecodeFrame for channel i, through its submap. */
  method ReadChannelFloor(br: BitReader, st: VorbisSetup.Setup, m: MappingSetup.Mapping, i: nat)
    returns (r: Result<FloorOne.FrameFloor>)
    requires br.Valid() && VorbisSetup.Valid(st, |m.mux|) && i < |m.mux|
    modifies br
    ensures br.Valid() && br.src == old(br.src)
    ensures ChannelFloor(old(br.View()), st, m, i) == if r.Ok? then Ok((r.value, br.View())) else Fail(r.error)
  {
    var submap := m.mux[i];
    if submap >= |m.floorIdx| || m.floorIdx[submap] >= |st.floors| {
      return Fail(OutOfBounds);
    }
    assert FloorOne.Valid(st.floors[m.floorIdx[submap]]);
    r := FloorOne.DecodeFrame(br, st.floors[m.floorIdx[submap]], Books(st));
  }

  /**
   * The floors of channels i onwards, appended to acc, each read where the
   * one before it ended, stopping at the first that fails.
   */
  function FloorsFrom(s: Bits, st: VorbisSetup.Setup, m: MappingSetup.Mapping, i: nat,
                      acc: seq<FloorOne.FrameFloor>): Result<(seq<FloorOne.FrameFloor>, Bits)>
    requires VorbisSetup.Valid(st, |m.mux|) && i <= |m.mux|
    decreases |m.mux| - i, 1
  {
    if i == |m.mux| then Ok((acc, s)) else FloorsNext(s, st, m, i, acc)
  }

  function FloorsNext(s: Bits, st: VorbisSetup.Setup, m: MappingSetup.Mapping, i: nat,
                      acc: seq<FloorOne.FrameFloor>): Result<(seq<FloorOne.FrameFloor>, Bits)>
    requires VorbisSetup.Valid(st, |m.mux|) && i < |m.mux|
    decreases |m.mux| - i, 0
  {
    var c := ChannelFloor(s, st, m, i);
    if c.Fail? then Fail(c.error) else FloorsFrom(c.value.1, st, m, i + 1, acc + [c.value.0])
  }

  /**
   * The floors of a frame fail only with a floor error, and there is one
   * per channel, each fitting the floor its submap names.
   */
  lemma {:induction false} FloorsFromOk(s: Bits, st: VorbisSetup.Setup, m: MappingSetup.Mapping, i: nat,
                                        acc: seq<FloorOne.FrameFloor>)
    requires VorbisSetup.Valid(st, |m.mux|) && i <= |m.mux| && |acc| == i
    requires forall k | 0 <= k < i :: FloorFits(st, m, k, acc[k])
    decreases |m.mux| - i
    ensures var r := FloorsFrom(s, st, m, i, acc);
            (r.Fail? ==> r.error in FloorErrors) &&
            (r.Ok? ==> |r.value.0| == |m.mux| && forall k | 0 <= k < |m.mux| :: FloorFits(st, m, k, r.value.0[k]))
  {
    if i < |m.mux| {
      ChannelFloorOk(s, st, m, i);
      var c := ChannelFloor(s, st, m, i);
      if c.Ok? {
        var acc' := acc + [c.value.0];
        assert forall k | 0 <= k < i + 1 :: FloorFits(st, m, k, acc'[k]) by {
          forall k | 0 <= k < i + 1 ensures FloorFits(st, m, k, acc'[k]) {
            if k < i { assert acc'[k] == acc[k]; }
          }
        }
        FloorsFromOk(c.value.1, st, m, i + 1, acc');
      }
    }
  }

  /** One pass of the floor loop: the floors from here go on after channel i's. */
  method ReadFloorStep(br: BitReader, st: VorbisSetup.Setup, m: MappingSetup.Mapping, i: nat,
                       ghost acc: seq<FloorOne.FrameFloor>) returns (r: Result<FloorOne.FrameFloor>)
    requires br.Valid() && VorbisSetup.Valid(st, |m.mux|) && i < |m.mux|
    modifies br
    ensures br.Valid() && br.src == old(br.src)
    ensures FloorsFrom(old(br.View()), st, m, i, acc) ==
              if r.Ok? then FloorsFrom(br.View(), st, m, i + 1, acc + [r.value]) else Fail(r.error)
  {
    r := ReadChannelFloor(br, st, m, i);
  }

  /** The floor loop: one floor per channel, stopping at the first that fails. */
  method ReadFloors(br: BitReader, st: VorbisSetup.Setup, m: MappingSetup.Mapping)
    returns (r: Result<seq<FloorOne.FrameFloor>>)
    requires br.Valid() && VorbisSetup.Valid(st, |m.mux|)
    modifies br
    ensures br.Valid() && br.src == old(br.src)
    ensures FloorsFrom(old(br.View()), st, m, 0, []) == if r.Ok? then Ok((r.value, br.View())) else Fail(r.error)
  {
    ghost var s := br.View();
    var floors: seq<FloorOne.FrameFloor> := [];
    var i := 0;
    while i < |m.mux|
      invariant br.Valid() && br.src == old(br.src) && i <= |m.mux|
      invariant FloorsFrom(s, st, m, 0, []) == FloorsFrom(br.View(), st, m, i, floors)
    {
      var f :- ReadFloorStep(br, st, m, i, floors);
      floors := floors + [f];
      i := i + 1;
    }
    return Ok(floors);
  }

  /** Which channels have a floor in this frame. */
  function HasFloor(floors: seq<FloorOne.FrameFloor>): (has: seq<bool>)
    ensures |has| == |floors|
    ensures forall i | 0 <= i < |floors| :: has[i] <==> floors[i].Curve?
  {
    seq(|floors|, i requires 0 <= i < |floors| => floors[i].Curve?)
  }

  // ---------------------------------------------------------------------
  // Nonzero vector propagation

  /** One coupling step: when either of its channels has a residue, both do. */
  function Couple(has: seq<bool>, mag: nat, ang: nat): seq<bool>
    requires mag < |has| && ang < |has|
  {
    if has[mag] || has[ang] then has[mag := true][ang := true] else has
  }

  /** The coupling steps applied in order. */
  function Propagated(has: seq<bool>, mags: seq<nat>, angs: seq<nat>): (r: seq<bool>)
    requires MappingSetup.CouplingOk(mags, angs, |has|)
    ensures |r| == |has|
    decreases |mags|
  {
    if |mags| == 0 then has
    else
      var n := |mags| - 1;
      Couple(Propagated(has, mags[..n], angs[..n]), mags[n], angs[n])
  }

  /** Propagation only sets flags: a channel with a floor keeps its residue. */
  lemma {:induction false} PropagatedKeeps(has: seq<bool>, mags: seq<nat>, angs: seq<nat>, k: nat)
    requires MappingSetup.CouplingOk(mags, angs, |has|) && k < |has| && has[k]
    ensures Propagated(has, mags, angs)[k]
    decreases |mags|
  {
    if |mags| > 0 {
      var n := |mags| - 1;
      PropagatedKeeps(has, mags[..n], angs[..n], k);
    }
  }

  /** A channel that no coupling step names keeps its flag. */
  lemma {:induction false} PropagatedUntouched(has: seq<bool>, mags: seq<nat>, angs: seq<nat>, k: nat)
    requires MappingSetup.CouplingOk(mags, angs, |has|) && k < |has|
    requires k !in mags && k !in angs
    ensures Propagated(has, mags, angs)[k] == has[k]
    decreases |mags|
  {
    if |mags| > 0 {
      var n := |mags| - 1;
      assert mags[..n] <= mags && angs[..n] <= angs;
      PropagatedUntouched(has, mags[..n], angs[..n], k);
    }
  }

  /** When no channel has a floor, no channel gets a residue. */
  lemma {:induction false} PropagatedSilent(has: seq<bool>, mags: seq<nat>, angs: seq<nat>)
    requires MappingSetup.CouplingOk(mags, angs, |has|)
    requires forall k | 0 <= k < |has| :: !has[k]
    ensures forall k | 0 <= k < |has| :: !Propagated(has, mags, angs)[k]
    decreases |mags|
  {
    if |mags| > 0 {
      var n := |mags| - 1;
      PropagatedSilent(has, mags[..n], angs[..n]);
    }
  }

  /** The two channels of the last coupling step end up alike. */
  lemma LastStepAlike(has: seq<bool>, mags: seq<nat>, angs: seq<nat>)
    requires MappingSetup.CouplingOk(mags, angs, |has|) && |mags| > 0
    ensures var r := Propagated(has, mags, angs);
            r[mags[|mags| - 1]] == r[angs[|angs| - 1]]
  {
  }

  /** The propagation loop, over the flags each channel's floor left. */
  method Propagate(hasFloor: seq<bool>, m: MappingSetup.Mapping) returns (hasResidue: seq<bool>)
    requires MappingSetup.CouplingOk(m.magnitude, m.angle, |hasFloor|)
    ensures hasResidue == Propagated(hasFloor, m.magnitude, m.angle)
  {
    hasResidue := hasFloor;
    var i := 0;
    while i < |m.magnitude|
      invariant i <= |m.magnitude|
      invariant hasResidue == Propagated(hasFloor, m.magnitude[..i], m.angle[..i])
    {
      var mag, ang := m.magnitude[i], m.angle[i];
      if hasResidue[mag] || hasResidue[ang] {
        hasResidue := hasResidue[mag := true][ang := true];
      }
      assert m.magnitude[..i + 1][..i] == m.magnitude[..i];
      assert m.angle[..i + 1][..i] == m.angle[..i];
      i := i + 1;
    }
    assert m.magnitude[..i] == m.magnitude && m.angle[..i] == m.angle;
  }

  // ---------------------------------------------------------------------
  // The residue of every submap

  /** The channels whose submap is i, in channel order. */
  function SubmapChannels(mux: seq<nat>, i: nat): (cs: seq<nat>)
    ensures forall k | 0 <= k < |cs| :: cs[k] < |mux| && mux[cs[k]] == i
  {
    if |mux| == 0 then []
    else
      var n := |mux| - 1;
      SubmapChannels(mux[..n], i) + if mux[n] == i then [n] else []
  }

  /** Every channel of submap i is listed, and the list is in increasing order. */
  lemma {:induction false} SubmapChannelsSpec(mux: seq<nat>, i: nat)
    ensures var cs := SubmapChannels(mux, i);
            (forall j | 0 <= j < |mux| && mux[j] == i :: j in cs) &&
            (forall a, b | 0 <= a < b < |cs| :: cs[a] < cs[b])
  {
    if |mux| > 0 {
      var n := |mux| - 1;
      SubmapChannelsSpec(mux[..n], i);
      var prev := SubmapChannels(mux[..n], i);
      var cs := SubmapChannels(mux, i);
      assert cs == prev + if mux[n] == i then [n] else [];
      forall j | 0 <= j < |mux| && mux[j] == i
        ensures j in cs
      {
        if j < n {
          assert mux[..n][j] == i;
          assert j in prev;
        }
      }
    }
  }

  /** The do-not-decode flag of each channel of submap i: it has no residue. */
  function DoNotDecode(has: seq<bool>, mux: seq<nat>, i: nat): (flags: seq<bool>)
    requires |has| == |mux|
  {
    var cs := SubmapChannels(mux, i);
    seq(|cs|, k requires 0 <= k < |cs| => !has[cs[k]])
  }

  /**
   * Each channel belongs to exactly one submap's list, so every channel's
   * flag reaches the residue of its submap and no other.
   */
  lemma ChannelInOwnSubmap(mux: seq<nat>, j: nat, i: nat)
    requires j < |mux|
    ensures j in SubmapChannels(mux, i) <==> mux[j] == i
  {
    SubmapChannelsSpec(mux, i);
  }

  /** The flags of channel j and earlier are those of the submap's channels before j. */
  lemma DoNotDecodePrefix(has: seq<bool>, mux: seq<nat>, i: nat, j: nat)
    requires |has| == |mux| && j < |mux|
    ensures DoNotDecode(has[..j + 1], mux[..j + 1], i) ==
              DoNotDecode(has[..j], mux[..j], i) + if mux[j] == i then [!has[j]] else []
  {
    assert mux[..j + 1][..j] == mux[..j];
    var cs := SubmapChannels(mux[..j], i);
    var cs' := SubmapChannels(mux[..j + 1], i);
    assert forall k | 0 <= k < |cs| :: has[..j + 1][cs[k]] == has[..j][cs[k]];
  }

  /** The first loop of a submap: the flags of its channels, in order. */
  method SubmapFlags(hasResidue: seq<bool>, mux: seq<nat>, i: nat) returns (doNotDecode: seq<bool>)
    requires |hasResidue| == |mux|
    ensures doNotDecode == DoNotDecode(hasResidue, mux, i)
  {
    doNotDecode := [];
    var j := 0;
    while j < |mux|
      invariant j <= |mux|
      invariant doNotDecode == DoNotDecode(hasResidue[..j], mux[..j], i)
    {
      DoNotDecodePrefix(hasResidue, mux, i, j);
      if mux[j] == i {
        doNotDecode := doNotDecode + [!hasResidue[j]];
      }
      j := j + 1;
    }
    assert hasResidue[..j] == hasResidue && mux[..j] == mux;
  }

  /**
   * The residue a submap decodes with, the flags it is given, its window,
   * and the dimensions of the residue's classbook (classwordsPerCodeword).
   */
  datatype ResidueJob = ResidueJob(residueIdx: nat, doNotDecode: seq<bool>, window: ResidueSetup.Window,
                                   classwords: nat)

  /**
   * Submap i reads outside a table: its floor number, used as a residue
   * number, is past the residue table, or that residue's classbook is
   * past the codebook table.
   */
  predicate JobMissing(st: VorbisSetup.Setup, m: MappingSetup.Mapping, i: nat)
    requires i < |m.floorIdx|
  {
    m.floorIdx[i] >= |st.residues| || st.residues[m.floorIdx[i]].classbook >= |st.codebooks|
  }

  /**
   * What submap i hands to Residue_DecodeFrame: the residue its floor
   * number names, the flags of its channels, the window for that many
   * channels, and the dimensions of the classbook, which is read before
   * the window is known to be empty.
   */
  function SubmapJob(st: VorbisSetup.Setup, m: MappingSetup.Mapping, has: seq<bool>, dataSize: u32, i: nat)
    : Result<ResidueJob>
    requires Partitioned(st) && |has| == |m.mux| && |m.mux| < WordModulus && i < |m.floorIdx|
  {
    var residueIdx := m.floorIdx[i];
    if residueIdx >= |st.residues| then Fail(OutOfBounds)
    else
      var classbook := st.residues[residueIdx].classbook;
      if classbook >= |st.codebooks| then Fail(OutOfBounds)
      else
        var flags := DoNotDecode(has, m.mux, i);
        assert |SubmapChannels(m.mux, i)| <= |m.mux| by {
          SubmapChannelsBound(m.mux, i);
        }
        Ok(ResidueJob(residueIdx, flags,
                      ResidueSetup.FrameWindow(st.residues[residueIdx], dataSize, |flags|),
                      st.codebooks[classbook].dimensions))
  }

  /** A submap has no more channels than the stream. */
  lemma {:induction false} SubmapChannelsBound(mux: seq<nat>, i: nat)
    ensures |SubmapChannels(mux, i)| <= |mux|
    decreases |mux|
  {
    if |mux| > 0 {
      SubmapChannelsBound(mux[..|mux| - 1], i);
    }
  }

  /** Every residue of the setup has a nonzero partition size, so its window can be divided. */
  predicate Partitioned(st: VorbisSetup.Setup)
  {
    forall k | 0 <= k < |st.residues| :: st.residues[k].partitionSize >= 1
  }

  /** The jobs of the first n submaps, stopping at the first that reads outside a table. */
  function JobsUpTo(st: VorbisSetup.Setup, m: MappingSetup.Mapping, has: seq<bool>, dataSize: u32, n: nat)
    : Result<seq<ResidueJob>>
    requires Partitioned(st) && |has| == |m.mux| && |m.mux| < WordModulus && n <= |m.floorIdx|
  {
    if n == 0 then Ok([])
    else
      var prev := JobsUpTo(st, m, has, dataSize, n - 1);
      if prev.Fail? then prev
      else
        var job := SubmapJob(st, m, has, dataSize, n - 1);
        if job.Fail? then Fail(job.error) else Ok(prev.value + [job.value])
  }

  /**
   * A submap's job fails exactly when its residue number is past the
   * residue table or its residue's classbook is past the codebook table;
   * otherwise it carries that residue and its classbook's dimensions.
   */
  lemma SubmapJobFails(st: VorbisSetup.Setup, m: MappingSetup.Mapping, has: seq<bool>, dataSize: u32, i: nat)
    requires Partitioned(st) && |has| == |m.mux| && |m.mux| < WordModulus && i < |m.floorIdx|
    ensures SubmapJob(st, m, has, dataSize, i).Fail? <==>
              m.floorIdx[i] >= |st.residues| || st.residues[m.floorIdx[i]].classbook >= |st.codebooks|
    ensures var j := SubmapJob(st, m, has, dataSize, i);
            j.Ok? ==> j.value.residueIdx == m.floorIdx[i] &&
                      j.value.classwords == st.codebooks[st.residues[m.floorIdx[i]].classbook].dimensions &&
                      j.value.doNotDecode == DoNotDecode(has, m.mux, i)
    ensures SubmapJob(st, m, has, dataSize, i).Fail? ==> SubmapJob(st, m, has, dataSize, i).error == OutOfBounds
  {
  }

  /**
   * The jobs fail exactly when some submap reads outside the residue or
   * the codebook table, and then with OutOfBounds.
   */
  lemma {:induction false} JobsUpToFails(st: VorbisSetup.Setup, m: MappingSetup.Mapping, has: seq<bool>,
                                         dataSize: u32, n: nat)
    requires Partitioned(st) && |has| == |m.mux| && |m.mux| < WordModulus && n <= |m.floorIdx|
    ensures var r := JobsUpTo(st, m, has, dataSize, n);
            (r.Fail? <==> exists i | 0 <= i < n :: JobMissing(st, m, i)) &&
            (r.Fail? ==> r.error == OutOfBounds)
  {
    if n > 0 {
      JobsUpToFails(st, m, has, dataSize, n - 1);
      SubmapJobFails(st, m, has, dataSize, n - 1);
      var prev := JobsUpTo(st, m, has, dataSize, n - 1);
      assert SubmapJob(st, m, has, dataSize, n - 1).Fail? <==> JobMissing(st, m, n - 1);
      if prev.Fail? {
        var i :| 0 <= i < n - 1 && JobMissing(st, m, i);
        assert 0 <= i < n && JobMissing(st, m, i);
      } else if JobMissing(st, m, n - 1) {
        assert 0 <= n - 1 < n && JobMissing(st, m, n - 1);
      }
    }
  }

  /** Otherwise there is one job per submap, each the job of that submap. */
  lemma {:induction false} JobsUpToJobs(st: VorbisSetup.Setup, m: MappingSetup.Mapping, has: seq<bool>,
                                        dataSize: u32, n: nat)
    requires Partitioned(st) && |has| == |m.mux| && |m.mux| < WordModulus && n <= |m.floorIdx|
    ensures var r := JobsUpTo(st, m, has, dataSize, n);
            r.Ok? ==> |r.value| == n && forall i | 0 <= i < n :: SubmapJob(st, m, has, dataSize, i) == Ok(r.value[i])
  {
    if n > 0 {
      JobsUpToJobs(st, m, has, dataSize, n - 1);
      var r := JobsUpTo(st, m, has, dataSize, n);
      var p := JobsUpTo(st, m, has, dataSize, n - 1);
      var job := SubmapJob(st, m, has, dataSize, n - 1);
      if r.Ok? {
        assert p.Ok? && job.Ok? && r.value == p.value + [job.value];
        assert |p.value| == n - 1;
        forall i | 0 <= i < n
          ensures SubmapJob(st, m, has, dataSize, i) == Ok(r.value[i])
        {
          if i < n - 1 {
            assert r.value[i] == p.value[i];
          }
        }
      }
    }
  }

  /** Once a submap's job fails, the later submaps are never reached. */
  lemma {:induction false} JobsUpToStaysFailed(st: VorbisSetup.Setup, m: MappingSetup.Mapping, has: seq<bool>,
                                               dataSize: u32, k: nat, n: nat)
    requires Partitioned(st) && |has| == |m.mux| && |m.mux| < WordModulus && k <= n <= |m.floorIdx|
    requires JobsUpTo(st, m, has, dataSize, k).Fail?
    ensures JobsUpTo(st, m, has, dataSize, n) == JobsUpTo(st, m, has, dataSize, k)
    decreases n - k
  {
    if k < n {
      JobsUpToStaysFailed(st, m, has, dataSize, k, n - 1);
    }
  }

  /** The residue loop: one job per submap, stopping at the first that reads outside a table. */
  method SubmapJobs(st: VorbisSetup.Setup, m: MappingSetup.Mapping, has: seq<bool>, dataSize: u32)
    returns (r: Result<seq<ResidueJob>>)
    requires VorbisSetup.Valid(st, |m.mux|) && MappingSetup.Valid(m, |m.mux|) && |has| == |m.mux|
    requires |m.mux| < WordModulus
    ensures r == JobsUpTo(st, m, has, dataSize, m.submaps)
    ensures r.Fail? <==> exists i | 0 <= i < m.submaps :: JobMissing(st, m, i)
    ensures r.Fail? ==> r.error == OutOfBounds
    ensures r.Ok? ==> |r.value| == m.submaps &&
                      forall i | 0 <= i < m.submaps :: SubmapJob(st, m, has, dataSize, i) == Ok(r.value[i])
  {
    r := JobsLoop(st, m, has, dataSize);
    JobsUpToFails(st, m, has, dataSize, m.submaps);
    JobsUpToJobs(st, m, has, dataSize, m.submaps);
  }

  /** The loop itself, one pass per submap. */
  method JobsLoop(st: VorbisSetup.Setup, m: MappingSetup.Mapping, has: seq<bool>, dataSize: u32)
    returns (r: Result<seq<ResidueJob>>)
    requires Partitioned(st) && |has| == |m.mux| && |m.mux| < WordModulus && m.submaps <= |m.floorIdx|
    ensures r == JobsUpTo(st, m, has, dataSize, m.submaps)
  {
    var jobs: seq<ResidueJob> := [];
    var i := 0;
    while i < m.submaps
      invariant i <= m.submaps
      invariant JobsUpTo(st, m, has, dataSize, i) == Ok(jobs)
    {
      var job := SubmapJobStep(st, m, has, dataSize, i);
      if job.Fail? {
        JobsUpToStaysFailed(st, m, has, dataSize, i + 1, m.submaps);
        return Fail(job.error);
      }
      jobs := jobs + [job.value];
      i := i + 1;
    }
    return Ok(jobs);
  }

  /** One pass of the residue loop: the flags of submap i, then its residue's window and classbook. */
  method SubmapJobStep(st: VorbisSetup.Setup, m: MappingSetup.Mapping, has: seq<bool>, dataSize: u32, i: nat)
    returns (r: Result<ResidueJob>)
    requires Partitioned(st) && |has| == |m.mux| && |m.mux| < WordModulus && i < |m.floorIdx|
    ensures r == SubmapJob(st, m, has, dataSize, i)
  {
    var doNotDecode := SubmapFlags(has, m.mux, i);
    var residueIdx := m.floorIdx[i];
    if residueIdx >= |st.residues| {
      return Fail(OutOfBounds);
    }
    var residue := st.residues[residueIdx];
    if residue.classbook >= |st.codebooks| {
      return Fail(OutOfBounds);
    }
    var classwords := st.codebooks[residue.classbook].dimensions;
    SubmapChannelsBound(m.mux, i);
    var window := ResidueSetup.FrameWindow(residue, dataSize, |doNotDecode|);
    return Ok(ResidueJob(residueIdx, doNotDecode, window, classwords));
  }

  // ---------------------------------------------------------------------
  // Vorbis_DecodeFrame

  /** What the integer front of a frame decodes. */
  datatype Frame = Frame(head: Head, floors: seq<FloorOne.FrameFloor>, hasResidue: seq<bool>,
                         residues: seq<ResidueJob>)

  const FrameErrors: set<Error> := {EndOfStream, FrameType, OutOfBounds, Aborted}

  /**
   * The frame after its head: the floor of every channel for the mapping
   * the mode names, the residue flags after the coupling steps, and the
   * job of every submap.
   */
  function AfterHead(s: Bits, se: VorbisSetup.Session, hd: Head): Result<Frame>
    requires VorbisSetup.SessionOk(se) && hd.mode.mappingIdx < |se.setup.mappings| && hd.dataSize < WordModulus
  {
    var st := se.setup;
    var m := st.mappings[hd.mode.mappingIdx];
    assert MappingSetup.Valid(m, se.id.channels);
    var floors := FloorsFrom(s, st, m, 0, []);
    if floors.Fail? then Fail(floors.error)
    else
      FloorsFromOk(s, st, m, 0, []);
      var hasResidue := Propagated(HasFloor(floors.value.0), m.magnitude, m.angle);
      var jobs := JobsUpTo(st, m, hasResidue, hd.dataSize, m.submaps);
      if jobs.Fail? then Fail(jobs.error) else Ok(Frame(hd, floors.value.0, hasResidue, jobs.value))
  }

  /** The integer front of a frame: the head, then the rest of the frame for it. */
  function FrameSpec(s: Bits, se: VorbisSetup.Session): Result<Frame>
    requires VorbisSetup.SessionOk(se)
  {
    var h := HeadSpec(s, se);
    if h.Fail? then Fail(h.error)
    else
      HeadSpecOk(s, se);
      AfterHead(h.value.1, se, h.value.0)
  }

  /**
   * What the rest of a frame promises: it fails only with a floor error
   * or a residue or classbook number out of range; otherwise there is a
   * floor per channel fitting the floor its submap names, the residue
   * flags are the floor flags after the coupling steps, and there is one
   * job per submap.
   */
  lemma AfterHeadOk(s: Bits, se: VorbisSetup.Session, hd: Head)
    requires VorbisSetup.SessionOk(se) && hd.mode.mappingIdx < |se.setup.mappings| && hd.dataSize < WordModulus
    ensures var r := AfterHead(s, se, hd);
            var m := se.setup.mappings[hd.mode.mappingIdx];
            (r.Fail? ==> r.error in FrameErrors) &&
            (r.Ok? ==>
              r.value.head == hd &&
              |r.value.floors| == se.id.channels &&
              (forall i | 0 <= i < se.id.channels :: FloorFits(se.setup, m, i, r.value.floors[i])) &&
              MappingSetup.Valid(m, se.id.channels) &&
              r.value.hasResidue == Propagated(HasFloor(r.value.floors), m.magnitude, m.angle) &&
              |r.value.residues| == m.submaps &&
              forall i | 0 <= i < m.submaps ::
                SubmapJob(se.setup, m, r.value.hasResidue, hd.dataSize, i) == Ok(r.value.residues[i]))
  {
    var st := se.setup;
    var m := st.mappings[hd.mode.mappingIdx];
    assert MappingSetup.Valid(m, se.id.channels);
    FloorsFromOk(s, st, m, 0, []);
    var floors := FloorsFrom(s, st, m, 0, []);
    if floors.Ok? {
      var hasResidue := Propagated(HasFloor(floors.value.0), m.magnitude, m.angle);
      JobsUpToFails(st, m, hasResidue, hd.dataSize, m.submaps);
      JobsUpToJobs(st, m, hasResidue, hd.dataSize, m.submaps);
    }
  }

  /** The frame's outcome is its head's failure, or what follows the head. */
  lemma FrameSpecOk(s: Bits, se: VorbisSetup.Session)
    requires VorbisSetup.SessionOk(se)
    ensures var r := FrameSpec(s, se);
            var h := HeadSpec(s, se);
            (h.Fail? ==> r == Fail(h.error)) &&
            (r.Fail? ==> r.error in FrameErrors) &&
            (r.Ok? ==> h.Ok? && r.value.head == h.value.0 && r.value.head.dataSize <= 4096)
  {
    HeadSpecOk(s, se);
    var h := HeadSpec(s, se);
    if h.Ok? {
      AfterHeadOk(h.value.1, se, h.value.0);
    }
  }

  /** Vorbis_DecodeFrame after the head: the floors, the propagation and the residue jobs. */
  method ReadAfterHead(br: BitReader, se: VorbisSetup.Session, hd: Head) returns (r: Result<Frame>)
    requires br.Valid() && VorbisSetup.SessionOk(se)
    requires hd.mode.mappingIdx < |se.setup.mappings| && hd.dataSize < WordModulus
    modifies br
    ensures br.Valid() && br.src == old(br.src)
    ensures r == AfterHead(old(br.View()), se, hd)
  {
    ghost var s := br.View();
    var st := se.setup;
    var m := st.mappings[hd.mode.mappingIdx];
    assert MappingSetup.Valid(m, se.id.channels);
    var floors :- ReadFloors(br, st, m);
    FloorsFromOk(s, st, m, 0, []);
    var hasResidue := Propagate(HasFloor(floors), m);
    var jobs :- SubmapJobs(st, m, hasResidue, hd.dataSize);
    return Ok(Frame(hd, floors, hasResidue, jobs));
  }

  /**
   * Vorbis_DecodeFrame up to the residue decoding: the head, the floor
   * of every channel, the residue flags after the coupling steps, and the
   * job of every submap.
   */
  method DecodeFrame(br: BitReader, se: VorbisSetup.Session) returns (r: Result<Frame>)
    requires br.Valid() && VorbisSetup.SessionOk(se)
    modifies br
    ensures br.Valid() && br.src == old(br.src)
    ensures r == FrameSpec(old(br.View()), se)
    ensures r.Fail? ==> r.error in FrameErrors
    ensures r.Ok? ==>
              var h := HeadSpec(old(br.View()), se);
              h.Ok? && h.value.0 == r.value.head
  {
    ghost var s := br.View();
    FrameSpecOk(s, se);
    var head := ReadHead(br, se);
    HeadSpecOk(s, se);
    if head.Fail? {
      return Fail(head.error);
    }
    r := ReadAfterHead(br, se, head.value);
  }
}
