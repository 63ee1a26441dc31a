/**
 * Mapping and mode setup of the Vorbis decoder (sections 4.2.4 and 4.2.5
 * of the Vorbis I specification) as Mapping_DecodeSetup and
 * Mode_DecodeSetup read them.
 *
 * The coupling channel numbers are sized by iLog(Channels - 1), which
 * counts base-4 digits; with that many bits a channel number can never
 * reach Channels.  The mapping keeps FloorIdx and ResidueIdx tables of
 * MAPPING_MAX_SUBMAPS = 15 entries although a submap count of 16 can be
 * read; filling the sixteenth entry is a write outside the table.
 */
module MappingSetup {
  import opened Common
  import opened BitStream
  import opened Integers

  /** MAPPING_MAX_SUBMAPS: the size of the FloorIdx and ResidueIdx tables. */
  const MaxSubmaps: nat := 15

  /**
   * A mapping as the setup header describes it: the submap count, the
   * coupling steps as magnitude and angle channel lists, the submap of
   * each channel, and the floor and residue numbers of each submap.
   */
  datatype Mapping = Mapping(submaps: nat, magnitude: seq<nat>, angle: seq<nat>,
                             mux: seq<nat>, floorIdx: seq<nat>, residueIdx: seq<nat>)

  /** The coupling steps name two different channels each, both below the channel count. */
  predicate CouplingOk(magnitude: seq<nat>, angle: seq<nat>, channels: nat)
  {
    |magnitude| == |angle| &&
    forall i | 0 <= i < |magnitude| ::
      magnitude[i] != angle[i] && magnitude[i] < channels && angle[i] < channels
  }

  /**
   * What the setup leaves in a mapping for a stream of the given channel
   * count: 1 to 15 submaps, at most 256 coupling steps, a 4-bit submap per
   * channel (all 0 with one submap), and byte-sized floor and residue
   * numbers per submap.
   */
  predicate Valid(m: Mapping, channels: nat)
  {
    1 <= m.submaps <= MaxSubmaps && |m.magnitude| <= 256 &&
    CouplingOk(m.magnitude, m.angle, channels) &&
    |m.mux| == channels &&
    (forall i | 0 <= i < channels :: m.mux[i] < 16 && (m.submaps == 1 ==> m.mux[i] == 0)) &&
    |m.floorIdx| == m.submaps && |m.residueIdx| == m.submaps &&
    forall i | 0 <= i < m.submaps :: m.floorIdx[i] < 256 && m.residueIdx[i] < 256
  }

  // ---------------------------------------------------------------------
  // Mapping_DecodeSetup

  /** The submap count: 1, or when the flag bit is set a 4-bit count plus one. */
  function SubmapCount(s: Bits): Result<(nat, Bits)>
  {
    var flag :- ReadField(s, 1);
    if flag.0 == 0 then Ok((1, flag.1))
    else
      var n :- ReadField(flag.1, 4);
      Ok((n.0 + 1, n.1))
  }

  /**
   * count coupling steps of bits-wide magnitude and angle channels,
   * appended to the lists; a step whose two channels are equal stops the
   * setup.
   */
  function CouplingSteps(s: Bits, bits: nat, count: nat, mags: seq<nat>, angs: seq<nat>)
    : Result<(seq<nat>, seq<nat>, Bits)>
    decreases count
  {
    if count == 0 then Ok((mags, angs, s))
    else
      var m :- ReadField(s, bits);
      var a :- ReadField(m.1, bits);
      if m.0 == a.0 then Fail(MappingChans)
      else CouplingSteps(a.1, bits, count - 1, mags + [m.0], angs + [a.0])
  }

  /**
   * The steps read keep the ones before them and name two different
   * channels below 2^bits; the setup stops only at the end of the stream
   * or at a step with equal channels.
   */
  lemma {:induction false} CouplingStepsOk(s: Bits, bits: nat, count: nat, mags: seq<nat>, angs: seq<nat>)
    requires |mags| == |angs|
    decreases count
    ensures var r := CouplingSteps(s, bits, count, mags, angs);
            (r.Fail? ==> r.error in {EndOfStream, MappingChans}) &&
            (r.Ok? ==> |r.value.0| == |r.value.1| == |mags| + count &&
                       r.value.0[..|mags|] == mags && r.value.1[..|angs|] == angs) &&
            (r.Ok? ==> forall k | |mags| <= k < |r.value.0| ::
                         r.value.0[k] != r.value.1[k] &&
                         r.value.0[k] < Pow2(bits) && r.value.1[k] < Pow2(bits))
  {
    if count > 0 {
      var m := ReadField(s, bits);
      if m.Ok? {
        var a := ReadField(m.value.1, bits);
        if a.Ok? && m.value.0 != a.value.0 {
          var mags', angs' := mags + [m.value.0], angs + [a.value.0];
          CouplingStepsOk(a.value.1, bits, count - 1, mags', angs');
          var r := CouplingSteps(a.value.1, bits, count - 1, mags', angs');
          if r.Ok? {
            assert r.value.0[..|mags|] == mags'[..|mags|];
            assert r.value.1[..|angs|] == angs'[..|angs|];
            assert r.value.0[|mags|] == m.value.0 && r.value.1[|mags|] == a.value.0;
          }
        }
      }
    }
  }

  /** The coupling part: none, or when the flag bit is set an 8-bit step count plus one. */
  function CouplingSpec(s: Bits, channels: nat): Result<(seq<nat>, seq<nat>, Bits)>
  {
    var flag := ReadField(s, 1);
    if flag.Fail? then Fail(flag.error)
    else if flag.value.0 == 0 then Ok(([], [], flag.value.1))
    else
      var steps := ReadField(flag.value.1, 8);
      if steps.Fail? then Fail(steps.error)
      else CouplingSteps(steps.value.1, Base4Length(channels - 1), steps.value.0 + 1, [], [])
  }

  /** The coupling steps read are at most 256 and name distinct channels below the channel count. */
  lemma CouplingSpecOk(s: Bits, channels: nat)
    ensures var r := CouplingSpec(s, channels);
            (r.Fail? ==> r.error in {EndOfStream, MappingChans}) &&
            (r.Ok? ==> |r.value.0| <= 256 && CouplingOk(r.value.0, r.value.1, channels))
  {
    var flag := ReadField(s, 1);
    if flag.Ok? && flag.value.0 != 0 {
      var steps := ReadField(flag.value.1, 8);
      if steps.Ok? {
        var bits := Base4Length(channels - 1);
        Pow2Small();
        CouplingStepsOk(steps.value.1, bits, steps.value.0 + 1, [], []);
        if channels >= 1 {
          Base4LengthWidth(channels - 1);
        } else {
          assert bits == 0 && Pow2(bits) == 1;
        }
      }
    }
  }

  /** n channels all in submap 0. */
  function Zeros(n: nat): (z: seq<nat>)
    ensures |z| == n && forall i | 0 <= i < n :: z[i] == 0
  {
    seq(n, _ => 0)
  }

  /** The submap of each channel: 4 bits each with more than one submap, otherwise all 0. */
  function MuxSpec(s: Bits, submaps: nat, channels: nat): Result<(seq<nat>, Bits)>
  {
    if submaps > 1 then Fields(s, channels, 4, [])
    else Ok((Zeros(channels), s))
  }

  /**
   * The submaps from i on, appended to the floor and residue lists: a
   * discarded time byte, then the floor and residue numbers in 8 bits
   * each.  The tables hold MaxSubmaps entries: storing the floor number of
   * submap 15 falls outside them.
   */
  function SubmapsSpec(s: Bits, count: nat, i: nat, floors: seq<nat>, residues: seq<nat>)
    : Result<(seq<nat>, seq<nat>, Bits)>
    decreases count - i
  {
    if i >= count then Ok((floors, residues, s))
    else
      var time :- ReadField(s, 8);
      var fl :- ReadField(time.1, 8);
      if i >= MaxSubmaps then Fail(OutOfBounds)
      else
        var res :- ReadField(fl.1, 8);
        SubmapsSpec(res.1, count, i + 1, floors + [fl.0], residues + [res.0])
  }

  /**
   * Reading the submaps fails at the end of the stream or, only when
   * there are more than MaxSubmaps of them, outside the tables; otherwise
   * it gives one byte-sized floor and residue number per submap.
   */
  lemma {:induction false} SubmapsSpecOk(s: Bits, count: nat, i: nat, floors: seq<nat>, residues: seq<nat>)
    requires i <= count && |floors| == |residues| == i
    decreases count - i
    ensures var r := SubmapsSpec(s, count, i, floors, residues);
            (r.Fail? ==> r.error in {EndOfStream, OutOfBounds}) &&
            (r.Fail? && r.error == OutOfBounds ==> count > MaxSubmaps) &&
            (r.Ok? ==> count <= MaxSubmaps || count == i) &&
            (r.Ok? ==> |r.value.0| == |r.value.1| == count &&
                       r.value.0[..i] == floors && r.value.1[..i] == residues) &&
            (r.Ok? ==> forall k | i <= k < count :: r.value.0[k] < 256 && r.value.1[k] < 256)
  {
    if i < count {
      Pow2Small();
      var time := ReadField(s, 8);
      if time.Ok? {
        var fl := ReadField(time.value.1, 8);
        if fl.Ok? && i < MaxSubmaps {
          var res := ReadField(fl.value.1, 8);
          if res.Ok? {
            var floors', residues' := floors + [fl.value.0], residues + [res.value.0];
            SubmapsSpecOk(res.value.1, count, i + 1, floors', residues');
            var r := SubmapsSpec(res.value.1, count, i + 1, floors', residues');
            if r.Ok? {
              assert r.value.0[..i] == r.value.0[..i + 1][..i] == floors'[..i];
              assert r.value.1[..i] == r.value.1[..i + 1][..i] == residues'[..i];
              assert r.value.0[i] == r.value.0[..i + 1][i] == floors'[i];
              assert r.value.1[i] == r.value.1[..i + 1][i] == residues'[i];
            }
          }
        }
      }
    }
  }

  /**
   * Mapping_DecodeSetup: the submap count, the coupling steps, two
   * reserved bits that must be zero, the channel submaps, then the
   * submaps.
   */
  function MappingSpec(s: Bits, channels: nat): Result<(Mapping, Bits)>
  {
    var sub :- SubmapCount(s);
    var cp :- CouplingSpec(sub.1, channels);
    var reserved :- ReadField(cp.2, 2);
    if reserved.0 != 0 then Fail(MappingReserved)
    else
      var mux :- MuxSpec(reserved.1, sub.0, channels);
      var maps :- SubmapsSpec(mux.1, sub.0, 0, [], []);
      Ok((Mapping(sub.0, cp.0, cp.1, mux.0, maps.0, maps.1), maps.2))
  }

  /** A mapping read off the stream is valid for the channel count it was read with. */
  lemma MappingSpecOk(s: Bits, channels: nat)
    ensures MappingSpec(s, channels).Fail? ==>
              MappingSpec(s, channels).error in {EndOfStream, MappingChans, MappingReserved, OutOfBounds}
    ensures MappingSpec(s, channels).Ok? ==> Valid(MappingSpec(s, channels).value.0, channels)
  {
    var sub := SubmapCount(s);
    if sub.Ok? {
      Pow2Small();
      assert 1 <= sub.value.0 <= 16;
      CouplingSpecOk(sub.value.1, channels);
      var cp := CouplingSpec(sub.value.1, channels);
      if cp.Ok? {
        var reserved := ReadField(cp.value.2, 2);
        if reserved.Ok? && reserved.value.0 == 0 {
          var mux := MuxSpec(reserved.value.1, sub.value.0, channels);
          if sub.value.0 > 1 {
            FieldsSpec(reserved.value.1, channels, 4, []);
          }
          if mux.Ok? {
            SubmapsSpecOk(mux.value.1, sub.value.0, 0, [], []);
          }
        }
      }
    }
  }

  /** A submap count of 16 can be read, but such a mapping never sets up. */
  lemma SixteenSubmapsFail(s: Bits, channels: nat)
    requires SubmapCount(s).Ok? && SubmapCount(s).value.0 == 16
    ensures MappingSpec(s, channels).Fail?
  {
    MappingSpecOk(s, channels);
  }

  method ReadSubmapCount(br: BitReader) returns (r: Result<nat>)
    requires br.Valid()
    modifies br
    ensures br.Valid() && br.src == old(br.src)
    ensures SubmapCount(old(br.View())) == if r.Ok? then Ok((r.value, br.View())) else Fail(r.error)
  {
    var flag :- br.ReadBits(1);
    if flag == 0 {
      return Ok(1);
    }
    var n :- br.ReadBits(4);
    return Ok(n + 1);
  }

  /** The coupling loop of Mapping_DecodeSetup. */
  method ReadCouplingSteps(br: BitReader, bits: nat, count: nat) returns (r: Result<(seq<nat>, seq<nat>)>)
    requires br.Valid() && bits <= 24
    modifies br
    ensures br.Valid() && br.src == old(br.src)
    ensures CouplingSteps(old(br.View()), bits, count, [], []) ==
              if r.Ok? then Ok((r.value.0, r.value.1, br.View())) else Fail(r.error)
  {
    ghost var s := br.View();
    var mags: seq<nat> := [];
    var angs: seq<nat> := [];
    var i := 0;
    while i < count
      invariant br.Valid() && br.src == old(br.src) && i <= count
      invariant CouplingSteps(s, bits, count, [], []) == CouplingSteps(br.View(), bits, count - i, mags, angs)
    {
      ghost var v := br.View();
      var m := br.ReadBits(bits);
      if m.Fail? {
        assert ReadField(v, bits).Fail?;
        return Fail(EndOfStream);
      }
      ghost var v1 := br.View();
      assert ReadField(v, bits) == Ok((m.value, v1));
      var a := br.ReadBits(bits);
      if a.Fail? {
        assert ReadField(v1, bits).Fail?;
        return Fail(EndOfStream);
      }
      assert ReadField(v1, bits) == Ok((a.value, br.View()));
      if m.value == a.value {
        return Fail(MappingChans);
      }
      mags := mags + [m.value];
      angs := angs + [a.value];
      i := i + 1;
    }
    return Ok((mags, angs));
  }

  /** The coupling part; the channel count is a byte. */
  method ReadCoupling(br: BitReader, channels: nat) returns (r: Result<(seq<nat>, seq<nat>)>)
    requires br.Valid() && channels < 256
    modifies br
    ensures br.Valid() && br.src == old(br.src)
    ensures CouplingSpec(old(br.View()), channels) ==
              if r.Ok? then Ok((r.value.0, r.value.1, br.View())) else Fail(r.error)
  {
    ghost var s := br.View();
    var flag :- br.ReadBits(1);
    if flag == 0 {
      return Ok(([], []));
    }
    ghost var s1 := br.View();
    assert ReadField(s, 1) == Ok((flag, s1));
    var steps :- br.ReadBits(8);
    var bits := ILog(channels - 1);
    assert bits <= 4 by {
      assert Pow(4, 4) == 256;
      Base4LengthAtMost(channels - 1, 4);
    }
    r := ReadCouplingSteps(br, bits, steps + 1);
  }

  /** The channel submaps: 4 bits each with more than one submap, otherwise all 0. */
  method ReadMux(br: BitReader, submaps: nat, channels: nat) returns (r: Result<seq<nat>>)
    requires br.Valid()
    modifies br
    ensures br.Valid() && br.src == old(br.src)
    ensures MuxSpec(old(br.View()), submaps, channels) ==
              if r.Ok? then Ok((r.value, br.View())) else Fail(r.error)
  {
    ghost var s := br.View();
    if submaps > 1 {
      r := ReadFields(br, channels, 4);
      assert MuxSpec(s, submaps, channels) == Fields(s, channels, 4, []);
    } else {
      r := Ok(Zeros(channels));
    }
  }

  /** The submap loop of Mapping_DecodeSetup. */
  method ReadSubmaps(br: BitReader, count: nat) returns (r: Result<(seq<nat>, seq<nat>)>)
    requires br.Valid()
    modifies br
    ensures br.Valid() && br.src == old(br.src)
    ensures SubmapsSpec(old(br.View()), count, 0, [], []) ==
              if r.Ok? then Ok((r.value.0, r.value.1, br.View())) else Fail(r.error)
  {
    ghost var s := br.View();
    var floors: seq<nat> := [];
    var residues: seq<nat> := [];
    var i := 0;
    while i < count
      invariant br.Valid() && br.src == old(br.src) && i <= count
      invariant SubmapsSpec(s, count, 0, [], []) == SubmapsSpec(br.View(), count, i, floors, residues)
    {
      ghost var v := br.View();
      var time := br.ReadBits(8);
      if time.Fail? {
        assert ReadField(v, 8).Fail?;
        return Fail(EndOfStream);
      }
      ghost var v1 := br.View();
      assert ReadField(v, 8) == Ok((time.value, v1));
      var fl := br.ReadBits(8);
      if fl.Fail? {
        assert ReadField(v1, 8).Fail?;
        return Fail(EndOfStream);
      }
      ghost var v2 := br.View();
      assert ReadField(v1, 8) == Ok((fl.value, v2));
      if i >= MaxSubmaps {
        return Fail(OutOfBounds);
      }
      var res := br.ReadBits(8);
      if res.Fail? {
        assert ReadField(v2, 8).Fail?;
        return Fail(EndOfStream);
      }
      assert ReadField(v2, 8) == Ok((res.value, br.View()));
      floors := floors + [fl.value];
      residues := residues + [res.value];
      i := i + 1;
    }
    return Ok((floors, residues));
  }

  /** Mapping_DecodeSetup. */
  method DecodeSetup(br: BitReader, channels: nat) returns (r: Result<Mapping>)
    requires br.Valid() && channels < 256
    modifies br
    ensures br.Valid() && br.src == old(br.src)
    ensures MappingSpec(old(br.View()), channels) ==
              if r.Ok? then Ok((r.value, br.View())) else Fail(r.error)
    ensures r.Ok? ==> Valid(r.value, channels)
  {
    MappingSpecOk(br.View(), channels);
    ghost var s := br.View();
    var submaps :- ReadSubmapCount(br);
    ghost var s1 := br.View();
    assert SubmapCount(s) == Ok((submaps, s1));
    var coupling :- ReadCoupling(br, channels);
    ghost var s2 := br.View();
    assert CouplingSpec(s1, channels) == Ok((coupling.0, coupling.1, s2));
    var reserved :- br.ReadBits(2);
    if reserved != 0 {
      return Fail(MappingReserved);
    }
    ghost var s3 := br.View();
    assert ReadField(s2, 2) == Ok((reserved, s3));
    var mux :- ReadMux(br, submaps, channels);
    ghost var s4 := br.View();
    assert MuxSpec(s3, submaps, channels) == Ok((mux, s4));
    var maps :- ReadSubmaps(br, submaps);
    return Ok(Mapping(submaps, coupling.0, coupling.1, mux, maps.0, maps.1));
  }

  // ---------------------------------------------------------------------
  // Mode_DecodeSetup

  /** A mode: its block size flag and the number of its mapping. */
  datatype Mode = Mode(blockFlag: nat, mappingIdx: nat)

  /**
   * Mode_DecodeSetup: the block size flag in 1 bit, a window type and a
   * transform type in 16 bits each that must be 0, the mapping in 8 bits.
   */
  function ModeSpec(s: Bits): Result<(Mode, Bits)>
  {
    var flag :- ReadField(s, 1);
    var window :- ReadField(flag.1, 16);
    if window.0 != 0 then Fail(ModeWindow)
    else
      var transform :- ReadField(window.1, 16);
      if transform.0 != 0 then Fail(ModeTransform)
      else
        var m :- ReadField(transform.1, 8);
        Ok((Mode(flag.0, m.0), m.1))
  }

  /**
   * A mode takes 41 bits; its flag is a bit and its mapping a byte.  It
   * fails at the end of the stream or at a nonzero window or transform
   * type, in that order.
   */
  lemma ModeSpecOk(s: Bits)
    ensures ModeSpec(s).Fail? ==> ModeSpec(s).error in {EndOfStream, ModeWindow, ModeTransform}
    ensures ModeSpec(s).Fail? && ModeSpec(s).error == EndOfStream ==> s.length < 41
    ensures ModeSpec(s).Ok? ==>
              var (m, s') := ModeSpec(s).value;
              m.blockFlag < 2 && m.mappingIdx < 256 && s'.length == s.length - 41
  {
    Pow2Small();
  }

  method DecodeMode(br: BitReader) returns (r: Result<Mode>)
    requires br.Valid()
    modifies br
    ensures br.Valid() && br.src == old(br.src)
    ensures ModeSpec(old(br.View())) == if r.Ok? then Ok((r.value, br.View())) else Fail(r.error)
  {
    ghost var s := br.View();
    var flag :- br.ReadBits(1);
    ghost var s1 := br.View();
    assert ReadField(s, 1) == Ok((flag, s1));
    var window :- br.ReadBits(16);
    if window != 0 {
      return Fail(ModeWindow);
    }
    ghost var s2 := br.View();
    assert ReadField(s1, 16) == Ok((window, s2));
    var transform :- br.ReadBits(16);
    if transform != 0 {
      return Fail(ModeTransform);
    }
    var mappingIdx :- br.ReadBits(8);
    return Ok(Mode(flag, mappingIdx));
  }
}
