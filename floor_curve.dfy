/**
 * The integer side of floor 1 synthesis: render_point and render_line
 * (sections 9.2.6 and 9.2.7 of the Vorbis I specification), the
 * low_neighbor and high_neighbor searches (sections 9.2.4 and 9.2.5), and
 * the amplitude value synthesis that starts Floor_Synthesis.
 *
 * Division follows C: it truncates toward zero.  The Int32 intermediate
 * products are unbounded here.
 */
module FloorCurve {
  import opened Common
  import opened FloorOne

  function Abs(x: int): nat
  {
    if x < 0 then -x else x
  }

  /** C integer division: the quotient of the magnitudes, negated when the signs differ. */
  function TruncDiv(a: int, b: int): int
    requires b != 0
  {
    if (a < 0) != (b < 0) then -(Abs(a) / Abs(b)) else Abs(a) / Abs(b)
  }

  // ---------------------------------------------------------------------
  // render_point

  /**
   * render_point: the Y value at X on the line from (x0, y0) to (x1, y1),
   * the offset from y0 rounded toward zero.  x0 == x1 divides by zero.
   */
  function RenderPoint(x0: int, y0: int, x1: int, y1: int, X: int): int
    requires x0 != x1
  {
    var dy := y1 - y0;
    var adx := x1 - x0;
    var ady := Abs(dy);
    var err := ady * (X - x0);
    var off := TruncDiv(err, adx);
    if dy < 0 then y0 - off else y0 + off
  }

  /** The line passes through both of its end points. */
  lemma RenderPointEnds(x0: int, y0: int, x1: int, y1: int)
    requires x0 != x1
    ensures RenderPoint(x0, y0, x1, y1, x0) == y0
    ensures RenderPoint(x0, y0, x1, y1, x1) == y1
  {
    var adx := x1 - x0;
    var ady := Abs(y1 - y0);
    assert ady * (x0 - x0) == 0;
    DivModUnique(Abs(ady * adx), ady, Abs(adx), 0) by {
      assert Abs(ady * adx) == ady * Abs(adx);
    }
  }

  /** Between its end points the line stays between their Y values. */
  lemma RenderPointBetween(x0: int, y0: int, x1: int, y1: int, X: int)
    requires x0 < x1 && x0 <= X <= x1
    ensures Min(y0, y1) <= RenderPoint(x0, y0, x1, y1, X) <= Max(y0, y1)
  {
    var adx := x1 - x0;
    var ady := Abs(y1 - y0);
    var err := ady * (X - x0);
    MulMonotone(X - x0, adx, ady);
    assert 0 <= err <= ady * adx;
    DivBetween(err, ady, adx);
  }

  lemma DivBetween(err: int, a: nat, p: int)
    requires p > 0 && 0 <= err <= a * p
    ensures 0 <= err / p <= a
  {
    assert err == (err / p) * p + err % p;
    if err / p > a {
      MulMonotone(a + 1, err / p, p);
      MulStep(a, p);
    }
  }

  /**
   * The Y value X - x0 steps along a line of positive width: y0 moved by
   * whole steps of |dy| / adx, plus the remainder spread over the steps.
   */
  lemma RenderPointSplit(x0: int, y0: int, x1: int, y1: int, k: nat)
    requires x0 < x1
    ensures var adx := x1 - x0;
            var ady := Abs(y1 - y0);
            var off := (ady / adx) * k + ((ady % adx) * k) / adx;
            RenderPoint(x0, y0, x1, y1, x0 + k) == if y1 - y0 < 0 then y0 - off else y0 + off
  {
    var adx := x1 - x0;
    var ady := Abs(y1 - y0);
    var m, a := ady / adx, ady % adx;
    var q, e := (a * k) / adx, (a * k) % adx;
    assert ady * k == (m * k + q) * adx + e by {
      assert ady == m * adx + a;
      assert a * k == q * adx + e;
      assert ady * k == m * adx * k + a * k;
      assert (m * k + q) * adx == m * k * adx + q * adx;
    }
    DivModUnique(ady * k, m * k + q, adx, e);
  }

  // ---------------------------------------------------------------------
  // render_line

  /**
   * The state of render_line k steps past x0 on a line of positive width:
   * err is the remainder |dy| % adx times k, modulo adx, and y the line's
   * Y value there.
   */
  ghost predicate LineState(x0: int, y0: int, x1: int, y1: int, k: nat, err: int, y: int)
    requires x0 < x1
  {
    var adx := x1 - x0;
    0 <= err < adx && err == ((Abs(y1 - y0) % adx) * k) % adx &&
    y == RenderPoint(x0, y0, x1, y1, x0 + k)
  }

  /** The whole step of render_line and what is left of |dy| after it. */
  lemma BaseStep(dy: int, adx: int)
    requires adx > 0
    ensures TruncDiv(dy, adx) == if dy < 0 then -(Abs(dy) / adx) else Abs(dy) / adx
    ensures Abs(dy) - Abs(TruncDiv(dy, adx)) * adx == Abs(dy) % adx
  {
    var q := Abs(dy) / adx;
    DivNat(Abs(dy), adx);
    assert Abs(TruncDiv(dy, adx)) == q;
    assert Abs(dy) == q * adx + Abs(dy) % adx;
  }

  /** Adding a to the running remainder: it wraps past adx exactly when the quotient grows. */
  lemma RemainderNext(a: nat, k: nat, adx: int, err: int)
    requires 0 <= a < adx && err == (a * k) % adx
    ensures err + a >= adx ==> (a * (k + 1)) % adx == err + a - adx &&
                               (a * (k + 1)) / adx == (a * k) / adx + 1
    ensures err + a < adx ==> (a * (k + 1)) % adx == err + a &&
                              (a * (k + 1)) / adx == (a * k) / adx
  {
    var q := (a * k) / adx;
    assert a * k == q * adx + err;
    MulStep(k, a);
    assert a * (k + 1) == a * k + a;
    if err + a >= adx {
      DivModUnique(a * (k + 1), q + 1, adx, err + a - adx);
    } else {
      DivModUnique(a * (k + 1), q, adx, err + a);
    }
  }

  /** One step of render_line keeps its state. */
  lemma LineStep(x0: int, y0: int, x1: int, y1: int, k: nat, err: int, y: int)
    requires x0 < x1 && LineState(x0, y0, x1, y1, k, err, y)
    ensures var adx := x1 - x0;
            var dy := y1 - y0;
            var base := TruncDiv(dy, adx);
            var sy := if dy < 0 then base - 1 else base + 1;
            var a := Abs(dy) - Abs(base) * adx;
            if err + a >= adx then LineState(x0, y0, x1, y1, k + 1, err + a - adx, y + sy)
            else LineState(x0, y0, x1, y1, k + 1, err + a, y + base)
  {
    var adx := x1 - x0;
    var dy := y1 - y0;
    var m, a := Abs(dy) / adx, Abs(dy) % adx;
    BaseStep(dy, adx);
    OffsetStep(m, a, adx, k, err);
    RenderPointSplit(x0, y0, x1, y1, k);
    RenderPointSplit(x0, y0, x1, y1, k + 1);
  }

  /** The offset from y0 grows by the whole step, and by one more when the remainder wraps. */
  lemma OffsetStep(m: nat, a: nat, adx: int, k: nat, err: int)
    requires 0 <= a < adx && err == (a * k) % adx
    ensures m * (k + 1) + (a * (k + 1)) / adx ==
            m * k + (a * k) / adx + m + (if err + a >= adx then 1 else 0)
    ensures (a * (k + 1)) % adx == if err + a >= adx then err + a - adx else err + a
  {
    RemainderNext(a, k, adx, err);
    MulStep(k, m);
  }

  /**
   * render_line: v[x0] gets y0 and every x strictly between x0 and x1 gets
   * the line's Y value, stepping by |dy| / adx and carrying the remainder
   * in err.  Nothing else in v changes.
   */
  method RenderLine(x0: int, y0: int, x1: int, y1: int, v: array<int>)
    requires x0 != x1 && 0 <= x0 < v.Length && x1 <= v.Length
    modifies v
    ensures v[x0] == y0
    ensures forall x | x0 < x < x1 :: v[x] == RenderPoint(x0, y0, x1, y1, x)
    ensures forall x | 0 <= x < v.Length && x != x0 && !(x0 < x < x1) :: v[x] == old(v[x])
  {
    var dy := y1 - y0;
    var adx := x1 - x0;
    var ady := Abs(dy);
    var base := TruncDiv(dy, adx);
    var sy := if dy < 0 then base - 1 else base + 1;
    ady := ady - Abs(base) * adx;
    v[x0] := y0;
    if x1 <= x0 {
      return;
    }
    var x := x0 + 1;
    var y := y0;
    var err := 0;
    assert LineState(x0, y0, x1, y1, 0, err, y) by {
      RenderPointEnds(x0, y0, x1, y1);
    }
    while x < x1
      invariant x0 + 1 <= x <= x1 && LineState(x0, y0, x1, y1, x - 1 - x0, err, y)
      invariant v[x0] == y0
      invariant forall z | x0 < z < x :: v[z] == RenderPoint(x0, y0, x1, y1, z)
      invariant forall z | 0 <= z < v.Length && z != x0 && !(x0 < z < x) :: v[z] == old(v[z])
    {
      LineStep(x0, y0, x1, y1, x - 1 - x0, err, y);
      err := err + ady;
      if err >= adx {
        err := err - adx;
        y := y + sy;
      } else {
        y := y + base;
      }
      v[x] := y;
      x := x + 1;
    }
  }

  // ---------------------------------------------------------------------
  // low_neighbor and high_neighbor

  /**
   * Among v[0..i), the first position of the largest value below v[x];
   * -1 when there is none.
   */
  function LowBest(v: seq<int>, x: nat, i: nat): (n: int)
    requires x < |v| && i <= |v|
    ensures -1 <= n < i
    ensures n != -1 ==> v[n] < v[x]
  {
    if i == 0 then -1
    else
      var n := LowBest(v, x, i - 1);
      if v[i - 1] < v[x] && (n == -1 || v[i - 1] > v[n]) then i - 1 else n
  }

  /** LowBest is the first position of the best candidate, and -1 only when there is none. */
  lemma {:induction false} LowBestSpec(v: seq<int>, x: nat, i: nat)
    requires x < |v| && i <= |v|
    ensures var n := LowBest(v, x, i);
            (n == -1 <==> forall j | 0 <= j < i :: v[j] >= v[x]) &&
            (n != -1 ==> forall j | 0 <= j < i && v[j] < v[x] :: v[j] <= v[n]) &&
            (n != -1 ==> forall j | 0 <= j < n && v[j] < v[x] :: v[j] < v[n])
  {
    if i > 0 {
      LowBestSpec(v, x, i - 1);
    }
  }

  /**
   * Among v[0..i), the first position of the smallest value above v[x];
   * -1 when there is none.
   */
  function HighBest(v: seq<int>, x: nat, i: nat): (n: int)
    requires x < |v| && i <= |v|
    ensures -1 <= n < i
    ensures n != -1 ==> v[n] > v[x]
  {
    if i == 0 then -1
    else
      var n := HighBest(v, x, i - 1);
      if v[i - 1] > v[x] && (n == -1 || v[i - 1] < v[n]) then i - 1 else n
  }

  /** HighBest is the first position of the best candidate, and -1 only when there is none. */
  lemma {:induction false} HighBestSpec(v: seq<int>, x: nat, i: nat)
    requires x < |v| && i <= |v|
    ensures var n := HighBest(v, x, i);
            (n == -1 <==> forall j | 0 <= j < i :: v[j] <= v[x]) &&
            (n != -1 ==> forall j | 0 <= j < i && v[j] > v[x] :: v[j] >= v[n]) &&
            (n != -1 ==> forall j | 0 <= j < n && v[j] > v[x] :: v[j] > v[n])
  {
    if i > 0 {
      HighBestSpec(v, x, i - 1);
    }
  }

  /** low_neighbor: the closest smaller value before position x, or position 0 when none is. */
  function LowNeighbor(v: seq<int>, x: nat): (n: nat)
    requires x < |v|
    ensures x > 0 ==> n < x
  {
    var n := LowBest(v, x, x);
    if n < 0 then 0 else n
  }

  /** high_neighbor: the closest larger value before position x, or position 0 when none is. */
  function HighNeighbor(v: seq<int>, x: nat): (n: nat)
    requires x < |v|
    ensures x > 0 ==> n < x
  {
    var n := HighBest(v, x, x);
    if n < 0 then 0 else n
  }

  /** An Int16 table. */
  predicate Int16s(v: seq<int>)
  {
    forall k | 0 <= k < |v| :: -0x8000 <= v[k] < 0x8000
  }

  /** low_neighbor's scan, its running maximum starting from the smallest Int32. */
  method LowNeighborScan(v: seq<int>, x: nat) returns (n: nat)
    requires x < |v| && Int16s(v)
    ensures n == LowNeighbor(v, x)
  {
    n := 0;
    var max := -0x8000_0000;
    var i := 0;
    while i < x
      invariant i <= x
      invariant LowBest(v, x, i) == -1 ==> n == 0 && max == -0x8000_0000
      invariant LowBest(v, x, i) != -1 ==> n == LowBest(v, x, i) && max == v[n]
    {
      if v[i] < v[x] && v[i] > max {
        n := i;
        max := v[i];
      }
      i := i + 1;
    }
  }

  /** high_neighbor's scan, its running minimum starting from the largest Int32. */
  method HighNeighborScan(v: seq<int>, x: nat) returns (n: nat)
    requires x < |v| && Int16s(v)
    ensures n == HighNeighbor(v, x)
  {
    n := 0;
    var min := 0x7FFF_FFFF;
    var i := 0;
    while i < x
      invariant i <= x
      invariant HighBest(v, x, i) == -1 ==> n == 0 && min == 0x7FFF_FFFF
      invariant HighBest(v, x, i) != -1 ==> n == HighBest(v, x, i) && min == v[n]
    {
      if v[i] > v[x] && v[i] < min {
        n := i;
        min := v[i];
      }
      i := i + 1;
    }
  }

  // ---------------------------------------------------------------------
  // Floor_Synthesis: amplitude value synthesis

  /**
   * The final Y value at one point: the prediction, moved by the coded
   * value within the room left between the prediction and 0 or range.
   */
  function Amplitude(predicted: int, val: nat, range: int): int
  {
    var highroom := range - predicted;
    var lowroom := predicted;
    var room := if highroom < lowroom then highroom * 2 else lowroom * 2;
    if val == 0 then predicted
    else if val >= room then
      if highroom > lowroom then val - lowroom + predicted else predicted - val + highroom - 1
    else if val % 2 == 1 then predicted - (val + 1) / 2
    else predicted + val / 2
  }

  /** A prediction inside [0, range) and a coded value below range give a value inside [0, range). */
  lemma AmplitudeInRange(predicted: int, val: nat, range: int)
    requires 0 <= predicted < range && val < range
    ensures 0 <= Amplitude(predicted, val, range) < range
  {
  }

  /**
   * The prediction for point i from the final values of its neighbours;
   * it divides by zero when the two neighbours share an X.
   */
  function Predict(xs: seq<int>, prev: seq<int>, i: nat): (r: Result<int>)
    requires 2 <= i <= |prev| && i < |xs|
    ensures r.Fail? <==> xs[LowNeighbor(xs, i)] == xs[HighNeighbor(xs, i)]
    ensures r.Fail? ==> r.error == DivideByZero
  {
    var lo, hi := LowNeighbor(xs, i), HighNeighbor(xs, i);
    if xs[lo] == xs[hi] then Fail(DivideByZero)
    else Ok(RenderPoint(xs[lo], prev[lo], xs[hi], prev[hi], xs[i]))
  }

  /**
   * YFinal[0..n): the first two values are copied, every later one is
   * predicted from its neighbours' final values and then moved by its
   * coded value; the prediction divides by zero when the two neighbours
   * share an X.
   */
  function Amplified(xs: seq<int>, ys: seq<nat>, range: int, n: nat): (r: Result<seq<int>>)
    requires 2 <= n <= |xs| && |ys| == |xs|
    decreases n
    ensures r.Fail? ==> r.error == DivideByZero
    ensures r.Ok? ==> |r.value| == n && r.value[0] == ys[0] && r.value[1] == ys[1]
  {
    if n == 2 then Ok([ys[0], ys[1]])
    else
      var prev :- Amplified(xs, ys, range, n - 1);
      var p :- Predict(xs, prev, n - 1);
      Ok(prev + [Amplitude(p, ys[n - 1], range)])
  }

  /** Step2 after point i: its neighbours and itself are marked when its coded value is nonzero. */
  function Mark(prev: seq<bool>, xs: seq<int>, ys: seq<nat>, i: nat): (r: seq<bool>)
    requires 0 < i == |prev| < |xs| && |ys| == |xs|
    ensures |r| == i + 1 && r[i] == (ys[i] != 0)
    ensures forall k | 0 <= k < i ::
              r[k] == (prev[k] || (ys[i] != 0 && (k == LowNeighbor(xs, i) || k == HighNeighbor(xs, i))))
  {
    if ys[i] != 0 then prev[LowNeighbor(xs, i) := true][HighNeighbor(xs, i) := true] + [true]
    else prev + [false]
  }

  /** Step2[0..n): which points the curve goes through. */
  function Flags(xs: seq<int>, ys: seq<nat>, n: nat): (r: seq<bool>)
    requires 2 <= n <= |xs| && |ys| == |xs|
    decreases n
    ensures |r| == n
  {
    if n == 2 then [true, true] else Mark(Flags(xs, ys, n - 1), xs, ys, n - 1)
  }

  /**
   * A point is on the curve exactly when it is one of the two ends, its
   * own coded value is nonzero, or it is a neighbour of a later point
   * whose coded value is nonzero.
   */
  lemma {:induction false} FlagsAt(xs: seq<int>, ys: seq<nat>, n: nat, k: nat)
    requires 2 <= n <= |xs| && |ys| == |xs| && k < n
    decreases n
    ensures Flags(xs, ys, n)[k] <==>
              k < 2 || ys[k] != 0 ||
              exists j | k < j < n :: ys[j] != 0 && (LowNeighbor(xs, j) == k || HighNeighbor(xs, j) == k)
  {
    if n > 2 && k < n - 1 {
      FlagsAt(xs, ys, n - 1, k);
    }
  }

  /** Once a prefix divides by zero, every longer one does. */
  lemma {:induction false} AmplifiedFails(xs: seq<int>, ys: seq<nat>, range: int, n: nat, m: nat)
    requires 2 <= n <= m <= |xs| && |ys| == |xs| && Amplified(xs, ys, range, n).Fail?
    decreases m
    ensures Amplified(xs, ys, range, m).Fail?
  {
    if n < m {
      AmplifiedFails(xs, ys, range, n, m - 1);
    }
  }

  /** Every interior X lies strictly between the two ends, XList[0] and XList[1]. */
  predicate Inside(xs: seq<int>, n: nat)
    requires 2 <= n <= |xs|
  {
    forall k | 2 <= k < n :: xs[0] < xs[k] < xs[1]
  }

  /** With every interior X strictly inside, both neighbours bracket the point. */
  lemma NeighboursBracket(xs: seq<int>, i: nat)
    requires 2 <= i < |xs| && xs[0] < xs[i] < xs[1]
    ensures xs[LowNeighbor(xs, i)] < xs[i] < xs[HighNeighbor(xs, i)]
  {
    LowBestSpec(xs, i, i);
    HighBestSpec(xs, i, i);
  }

  /**
   * With every interior X strictly inside and every coded value below the
   * range, synthesis never divides by zero and every final value lies in
   * [0, range).
   */
  lemma {:induction false} AmplifiedInRange(xs: seq<int>, ys: seq<nat>, range: int, n: nat)
    requires 2 <= n <= |xs| && |ys| == |xs| && Inside(xs, n)
    requires forall k | 0 <= k < n :: ys[k] < range
    decreases n
    ensures Amplified(xs, ys, range, n).Ok?
    ensures forall k | 0 <= k < n :: 0 <= Amplified(xs, ys, range, n).value[k] < range
  {
    if n > 2 {
      AmplifiedInRange(xs, ys, range, n - 1);
      var prev := Amplified(xs, ys, range, n - 1).value;
      var i := n - 1;
      var lo, hi := LowNeighbor(xs, i), HighNeighbor(xs, i);
      NeighboursBracket(xs, i);
      RenderPointBetween(xs[lo], prev[lo], xs[hi], prev[hi], xs[i]);
      var p := Predict(xs, prev, i).value;
      AmplitudeInRange(p, ys[i], range);
      assert Amplified(xs, ys, range, n) == Ok(prev + [Amplitude(p, ys[i], range)]);
    }
  }

  /**
   * When every interior coded value is zero, each final value is the bare
   * prediction from its neighbours, and no interior point is on the curve.
   */
  lemma AllZeroPredicted(xs: seq<int>, ys: seq<nat>, range: int, n: nat)
    requires 2 <= n <= |xs| && |ys| == |xs| && Amplified(xs, ys, range, n).Ok?
    requires forall k | 2 <= k < n :: ys[k] == 0
    ensures var r := Amplified(xs, ys, range, n).value;
            forall k | 2 <= k < n ::
              xs[LowNeighbor(xs, k)] != xs[HighNeighbor(xs, k)] &&
              r[k] == RenderPoint(xs[LowNeighbor(xs, k)], r[LowNeighbor(xs, k)],
                                  xs[HighNeighbor(xs, k)], r[HighNeighbor(xs, k)], xs[k])
    ensures forall k | 2 <= k < n :: !Flags(xs, ys, n)[k]
  {
    var r := Amplified(xs, ys, range, n).value;
    forall k | 2 <= k < n
      ensures xs[LowNeighbor(xs, k)] != xs[HighNeighbor(xs, k)] &&
              r[k] == RenderPoint(xs[LowNeighbor(xs, k)], r[LowNeighbor(xs, k)],
                                  xs[HighNeighbor(xs, k)], r[HighNeighbor(xs, k)], xs[k])
    {
      AmplifiedPrefix(xs, ys, range, k + 1, n);
    }
    forall k | 2 <= k < n
      ensures !Flags(xs, ys, n)[k]
    {
      FlagsAt(xs, ys, n, k);
    }
  }

  /** A successful longer run extends every shorter one. */
  lemma {:induction false} AmplifiedPrefix(xs: seq<int>, ys: seq<nat>, range: int, n: nat, m: nat)
    requires 2 <= n <= m <= |xs| && |ys| == |xs| && Amplified(xs, ys, range, m).Ok?
    decreases m
    ensures Amplified(xs, ys, range, n).Ok?
    ensures Amplified(xs, ys, range, n).value == Amplified(xs, ys, range, m).value[..n]
  {
    if n < m {
      AmplifiedPrefix(xs, ys, range, n, m - 1);
      var prev := Amplified(xs, ys, range, m - 1).value;
      assert Amplified(xs, ys, range, m).value[..m - 1] == prev;
    }
  }

  /** The Step2 writes of one pass of the amplitude loop. */
  method MarkPoint(xs: seq<int>, yList: seq<nat>, step2: array<bool>, i: nat, lo: nat, hi: nat)
    requires 2 <= i < |xs| == |yList| == step2.Length
    requires lo == LowNeighbor(xs, i) && hi == HighNeighbor(xs, i)
    requires step2[..i] == Flags(xs, yList, i)
    modifies step2
    ensures step2[..i + 1] == Flags(xs, yList, i + 1)
  {
    ghost var before := step2[..i];
    if yList[i] != 0 {
      step2[lo] := true;
      step2[hi] := true;
      step2[i] := true;
    } else {
      step2[i] := false;
    }
    assert step2[..i + 1] == Mark(before, xs, yList, i);
  }

  /**
   * One pass of the amplitude loop of Floor_Synthesis: point i's final
   * value and Step2 flags, or false when its prediction divides by zero.
   */
  method SynthesizePoint(xs: seq<int>, yList: seq<nat>, range: int,
                         yFinal: array<int>, step2: array<bool>, i: nat) returns (ok: bool)
    requires Int16s(xs) && 2 <= i < |xs| == |yList| == yFinal.Length == step2.Length
    requires Amplified(xs, yList, range, i) == Ok(yFinal[..i])
    requires step2[..i] == Flags(xs, yList, i)
    modifies yFinal, step2
    ensures ok <==> Amplified(xs, yList, range, i + 1).Ok?
    ensures ok ==> Amplified(xs, yList, range, i + 1) == Ok(yFinal[..i + 1])
    ensures ok ==> step2[..i + 1] == Flags(xs, yList, i + 1)
  {
    var lo := LowNeighborScan(xs, i);
    var hi := HighNeighborScan(xs, i);
    ghost var prev := yFinal[..i];
    if xs[lo] == xs[hi] {
      assert Predict(xs, prev, i).Fail?;
      return false;
    }
    var predicted := RenderPoint(xs[lo], yFinal[lo], xs[hi], yFinal[hi], xs[i]);
    assert Predict(xs, prev, i) == Ok(predicted);
    var val := yList[i];
    var highroom := range - predicted;
    var lowroom := predicted;
    var room;
    if highroom < lowroom {
      room := highroom * 2;
    } else {
      room := lowroom * 2;
    }
    var y;
    if val != 0 {
      if val >= room {
        if highroom > lowroom {
          y := val - lowroom + predicted;
        } else {
          y := predicted - val + highroom - 1;
        }
      } else {
        if val % 2 == 1 {
          y := predicted - (val + 1) / 2;
        } else {
          y := predicted + val / 2;
        }
      }
    } else {
      y := predicted;
    }
    assert y == Amplitude(predicted, val, range);
    MarkPoint(xs, yList, step2, i, lo, hi);
    yFinal[i] := y;
    assert yFinal[..i + 1] == prev + [y];
    ok := true;
  }

  /** The X list of a floor read by Floor_DecodeSetup is an Int16 table with both end points. */
  lemma ValidXList(f: Floor)
    requires Valid(f)
    ensures Int16s(f.xList) && 2 <= |f.xList|
  {
  }

  /**
   * The amplitude loop of Floor_Synthesis over YFinal and Step2, given the
   * X list and range of a floor and the YList of one frame.
   */
  method Amplitudes(xs: seq<int>, range: int, yList: seq<nat>) returns (r: Result<(seq<int>, seq<bool>)>)
    requires Int16s(xs) && 2 <= |xs| == |yList|
    ensures Amplified(xs, yList, range, |xs|) == if r.Ok? then Ok(r.value.0) else Fail(DivideByZero)
    ensures r.Ok? ==> r.value.1 == Flags(xs, yList, |xs|)
  {
    var values := |xs|;
    var yFinal := new int[values];
    var step2 := new bool[values];
    step2[0] := true;
    step2[1] := true;
    yFinal[0] := yList[0];
    yFinal[1] := yList[1];
    assert yFinal[..2] == [yList[0], yList[1]];
    assert step2[..2] == [true, true];
    var i := 2;
    while i < values
      invariant 2 <= i <= values
      invariant Amplified(xs, yList, range, i) == Ok(yFinal[..i])
      invariant step2[..i] == Flags(xs, yList, i)
    {
      var ok := SynthesizePoint(xs, yList, range, yFinal, step2, i);
      if !ok {
        AmplifiedFails(xs, yList, range, i + 1, values);
        return Fail(DivideByZero);
      }
      i := i + 1;
    }
    assert yFinal[..] == yFinal[..values];
    assert step2[..] == step2[..values];
    r := Ok((yFinal[..], step2[..]));
  }
}
