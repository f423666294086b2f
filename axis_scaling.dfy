/**
 * The adaptive Y axis of the two-series chart's paint path: the table of
 * tick increments and the first one that spans the data in ten ticks, the
 * bottom rounded down to a multiple of it, the clamp on the number of ticks,
 * and the frame counter that decides when the axis is refitted. Doubles are
 * modelled as exact reals.
 */
module AxisScaling {
  import opened Wrappers

  /** The initial `_yAxisIncrements`: the tick spacings the axis may use, smallest first. */
  const DefaultIncrements: seq<real> := [100.0, 200.0, 300.0, 500.0, 1000.0, 2000.0, 5000.0, 10000.0]

  /** A table a refit can use: not empty, and every increment positive. */
  predicate IncrementTable(incs: seq<real>)
  {
    |incs| > 0 && forall k :: 0 <= k < |incs| ==> incs[k] > 0.0
  }

  /** The default table is one a refit can use. */
  lemma DefaultIncrementsUsable()
    ensures IncrementTable(DefaultIncrements)
  {
  }

  /** The first increment of `incs` with `range <= inc * 10`, or the last one when none qualifies. */
  function FirstFit(incs: seq<real>, range: real): (inc: real)
    requires |incs| > 0
    ensures (forall k :: 0 <= k < |incs| ==> incs[k] > 0.0) ==> inc > 0.0
  {
    if |incs| == 1 || range <= incs[0] * 10.0 then incs[0] else FirstFit(incs[1..], range)
  }

  /**
   * The increment is one of the table's; it spans the range in ten ticks
   * unless it is the last, and every earlier one spans less.
   */
  lemma {:induction false} FirstFitIsFirst(incs: seq<real>, range: real)
    requires |incs| > 0
    ensures exists k :: (0 <= k < |incs| && FirstFit(incs, range) == incs[k]
      && (range <= incs[k] * 10.0 || k == |incs| - 1)
      && forall j :: 0 <= j < k ==> range > incs[j] * 10.0)
  {
    if |incs| > 1 && range > incs[0] * 10.0 {
      var rest := incs[1..];
      FirstFitIsFirst(rest, range);
      var k :| 0 <= k < |rest| && FirstFit(rest, range) == rest[k]
        && (range <= rest[k] * 10.0 || k == |rest| - 1)
        && forall j :: 0 <= j < k ==> range > rest[j] * 10.0;
      forall j | 0 <= j < k + 1 ensures range > incs[j] * 10.0 {
        if j > 0 { assert incs[j] == rest[j - 1]; }
      }
      assert FirstFit(incs, range) == incs[k + 1];
    } else {
      assert FirstFit(incs, range) == incs[0];
    }
  }

  /** The converse: an increment that spans the range after only failing ones is the one chosen. */
  lemma {:induction false} FirstFitAt(incs: seq<real>, range: real, k: nat)
    requires k < |incs|
    requires forall j :: 0 <= j < k ==> range > incs[j] * 10.0
    requires range <= incs[k] * 10.0 || k == |incs| - 1
    ensures FirstFit(incs, range) == incs[k]
  {
    if k > 0 {
      var rest := incs[1..];
      assert forall j :: 0 <= j < k - 1 ==> rest[j] == incs[j + 1];
      assert range > incs[0] * 10.0;
      FirstFitAt(rest, range, k - 1);
    }
  }

  /**
   * The increment selection of the paint path: the `foreach` over the table
   * that keeps the last increment seen and stops at the first that spans the
   * range in ten ticks. Indexing the first entry of an empty table throws,
   * so the table is not empty.
   */
  method SelectIncrement(table: seq<real>, range: real) returns (selected: real)
    requires |table| > 0
    ensures selected == FirstFit(table, range)
  {
    var increments := table;
    selected := increments[0];
    var k := 0;
    while k < |increments|
      invariant 0 <= k <= |increments|
      invariant k > 0 ==> selected == increments[k - 1]
      invariant forall j :: 0 <= j < k ==> range > increments[j] * 10.0
    {
      selected := increments[k];
      if range <= selected * 10.0 {
        break;
      }
      k := k + 1;
    }
    FirstFitAt(increments, range, if k == |increments| then k - 1 else k);
  }

  /** `(int)Math.Ceiling(x)` */
  function Ceil(x: real): int
  {
    -((-x).Floor)
  }

  /** The two `if`s that keep the tick count in [5, 10]. */
  function ClampTicks(ticksNeeded: int): (ticks: int)
    ensures 5 <= ticks <= 10
    ensures 5 <= ticksNeeded <= 10 ==> ticks == ticksNeeded
    ensures ticksNeeded < 5 ==> ticks == 5
    ensures ticksNeeded > 10 ==> ticks == 10
  {
    var t := if ticksNeeded < 5 then 5 else ticksNeeded;
    if t > 10 then 10 else t
  }

  /** The Y axis a rescale picks: its tick increment, its bottom and its number of ticks. */
  datatype Axis = Axis(increment: real, bottom: real, ticks: int)

  /** `minY + currentIncrement * ticksNeeded`: the top of the axis. */
  function Top(a: Axis): real
  {
    a.bottom + a.increment * (a.ticks as real)
  }

  /**
   * The rescale of the paint path for data spanning `[lo, hi]`: the range,
   * at least 1, picks the increment from the chart's table; the bottom is
   * `lo` rounded down to a multiple of it; the ticks are those needed to
   * reach `hi`, kept in [5, 10].
   */
  function AxisFor(incs: seq<real>, lo: real, hi: real): (a: Axis)
    requires IncrementTable(incs)
    ensures a.increment > 0.0 && 5 <= a.ticks <= 10
    ensures a.increment in incs
  {
    FirstFitIsFirst(incs, if hi - lo < 1.0 then 1.0 else hi - lo);
    var inc := FirstFit(incs, if hi - lo < 1.0 then 1.0 else hi - lo);
    var bottom := Bottom(lo, inc);
    Axis(inc, bottom, Ticks(hi, bottom, inc))
  }

  /** The axis in terms of the increment the table gives and the clamped ticks. */
  lemma AxisOf(incs: seq<real>, lo: real, hi: real, inc: real, ticks: int)
    requires IncrementTable(incs)
    requires inc == FirstFit(incs, if hi - lo < 1.0 then 1.0 else hi - lo)
    requires inc > 0.0 && ticks == Ticks(hi, Bottom(lo, inc), inc)
    ensures AxisFor(incs, lo, hi) == Axis(inc, Bottom(lo, inc), ticks)
  {
  }

  /** `Math.Floor(lo / inc) * inc` */
  function Bottom(lo: real, inc: real): real
    requires inc > 0.0
  {
    ((lo / inc).Floor as real) * inc
  }

  /** `ticksNeeded` after its clamp. */
  function Ticks(hi: real, bottom: real, inc: real): int
    requires inc > 0.0
  {
    ClampTicks(Ceil((hi - bottom) / inc))
  }

  /**
   * Ten ticks of the chosen increment need not reach the data's top: data
   * from 50 to 1040 picks increment 100 (the range 990 fits ten of them),
   * starts the axis at 0 and clamps the eleven ticks needed to ten, so the
   * axis ends at 1000, below the data.
   */
  lemma AxisCanEndBelowData()
    ensures AxisFor(DefaultIncrements, 50.0, 1040.0) == Axis(100.0, 0.0, 10)
    ensures Top(AxisFor(DefaultIncrements, 50.0, 1040.0)) == 1000.0 < 1040.0
  {
    assert FirstFit(DefaultIncrements, 990.0) == 100.0;
    assert (50.0 / 100.0).Floor == 0;
    assert Ceil(1040.0 / 100.0) == 11;
  }

  /**
   * The refit depends on the chart's table: data from 0 to 80 gets eight
   * ticks of 10 from the breathing-rate chart's table, but five ticks of 100
   * from the default one.
   */
  lemma AxisFollowsTable()
    ensures AxisFor([5.0, 10.0, 20.0, 25.0, 50.0, 100.0], 0.0, 80.0) == Axis(10.0, 0.0, 8)
    ensures AxisFor(DefaultIncrements, 0.0, 80.0) == Axis(100.0, 0.0, 5)
  {
    assert FirstFit([5.0, 10.0, 20.0, 25.0, 50.0, 100.0], 80.0) == 10.0;
    assert FirstFit(DefaultIncrements, 80.0) == 100.0;
    assert Ceil(80.0 / 10.0) == 8;
    assert Ceil(80.0 / 100.0) == 1;
  }

  /**
   * The adaptive-axis state of the control: the axis `[minY, maxY]`, the
   * data range it was last fitted to (`None` stands for the
   * `double.MaxValue`/`double.MinValue` sentinels it starts from), the
   * frames painted since the last refit, and the tick increment.
   */
  datatype Scale = Scale(minY: real, maxY: real, display: Option<(real, real)>, frames: int, increment: real)

  /** The frame counter once this frame is counted; it restarts while there is no range yet. */
  function FramesNow(s: Scale): int
  {
    (if s.display.None? then 0 else s.frames) + 1
  }

  /** A refit is due on the tenth frame, while `minY` is 0, or when the data leaves the axis. */
  predicate RescaleDue(s: Scale, lo: real, hi: real)
  {
    FramesNow(s) >= 10 || s.minY == 0.0 || lo < s.minY || hi > s.maxY
  }

  /** The state after one auto-scaled paint of data spanning `[lo, hi]`, with increments from `incs`. */
  function Adapted(s: Scale, incs: seq<real>, lo: real, hi: real): Scale
    requires IncrementTable(incs)
  {
    if RescaleDue(s, lo, hi) then
      var a := AxisFor(incs, lo, hi);
      Scale(a.bottom, Top(a), Some((lo, hi)), 0, a.increment)
    else
      Scale(s.minY, s.maxY, if s.display.None? then Some((lo, hi)) else s.display, FramesNow(s), s.increment)
  }

  /**
   * The frame counter stays in [0, 10): it is reset on every refit, and a
   * tenth frame without one forces one.
   */
  lemma FramesStayBelowTen(s: Scale, incs: seq<real>, lo: real, hi: real)
    requires s.frames >= 0 && IncrementTable(incs)
    ensures 0 <= Adapted(s, incs, lo, hi).frames < 10
    ensures Adapted(s, incs, lo, hi).frames == 0 <==> RescaleDue(s, lo, hi)
  {
  }

  /** Without a refit the data lies inside the axis, which stays where it was. */
  lemma NoRefitKeepsAxis(s: Scale, incs: seq<real>, lo: real, hi: real)
    requires IncrementTable(incs)
    ensures !RescaleDue(s, lo, hi) ==> s.minY <= lo && hi <= s.maxY
    ensures !RescaleDue(s, lo, hi) ==> Adapted(s, incs, lo, hi).minY == s.minY && Adapted(s, incs, lo, hi).maxY == s.maxY
  {
  }
}
