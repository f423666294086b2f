/**
 * The two-series chart control: its ring buffer of points carrying a raw and
 * a processed Y, the windowed visibility query whose Y bounds cover both
 * series, and the state changes of its paint path, which feeds those bounds
 * to the adaptive Y axis. Doubles are modelled as exact reals.
 */
module DualCharts {
  import opened Wrappers
  import opened Rings
  import opened AxisScaling

  datatype DualDataPoint = DualDataPoint(x: real, rawY: real, processedY: real)

  /** The points whose X is at least `minX`, oldest first. */
  function Visible(s: seq<DualDataPoint>, minX: real): (r: seq<DualDataPoint>)
    ensures |r| <= |s|
  {
    if |s| == 0 then []
    else if s[|s| - 1].x >= minX then Visible(s[..|s| - 1], minX) + [s[|s| - 1]]
    else Visible(s[..|s| - 1], minX)
  }

  /** A point is visible exactly when it is stored and lies at or right of `minX`. */
  lemma {:induction false} VisibleMembers(s: seq<DualDataPoint>, minX: real, p: DualDataPoint)
    ensures p in Visible(s, minX) <==> p in s && p.x >= minX
  {
    if |s| > 0 {
      var init := s[..|s| - 1];
      VisibleMembers(init, minX, p);
      assert s == init + [s[|s| - 1]];
    }
  }

  function Min(a: real, b: real): real { if b < a then b else a }

  function Max(a: real, b: real): real { if b > a then b else a }

  /** The smallest raw or processed Y of a non-empty run of points. */
  function LowY(s: seq<DualDataPoint>): (m: real)
    requires |s| > 0
    ensures forall k :: 0 <= k < |s| ==> m <= s[k].rawY && m <= s[k].processedY
    ensures exists k :: 0 <= k < |s| && (s[k].rawY == m || s[k].processedY == m)
  {
    if |s| == 1 then Min(s[0].rawY, s[0].processedY)
    else
      var m := LowY(s[..|s| - 1]);
      assert forall k :: 0 <= k < |s| - 1 ==> s[..|s| - 1][k] == s[k];
      Min(Min(m, s[|s| - 1].rawY), s[|s| - 1].processedY)
  }

  /** The largest raw or processed Y of a non-empty run of points. */
  function HighY(s: seq<DualDataPoint>): (m: real)
    requires |s| > 0
    ensures forall k :: 0 <= k < |s| ==> s[k].rawY <= m && s[k].processedY <= m
    ensures exists k :: 0 <= k < |s| && (s[k].rawY == m || s[k].processedY == m)
  {
    if |s| == 1 then Max(s[0].rawY, s[0].processedY)
    else
      var m := HighY(s[..|s| - 1]);
      assert forall k :: 0 <= k < |s| - 1 ==> s[..|s| - 1][k] == s[k];
      Max(Max(m, s[|s| - 1].rawY), s[|s| - 1].processedY)
  }

  function LowOf(s: seq<DualDataPoint>): Option<real>
  {
    if |s| == 0 then None else Some(LowY(s))
  }

  function HighOf(s: seq<DualDataPoint>): Option<real>
  {
    if |s| == 0 then None else Some(HighY(s))
  }

  /** One more point of the counting loop: the visible run grows by it exactly when it is visible. */
  lemma VisibleStep(s: seq<DualDataPoint>, i: nat, minX: real)
    requires i < |s|
    ensures s[i].x >= minX ==> Visible(s[..i + 1], minX) == Visible(s[..i], minX) + [s[i]]
    ensures s[i].x < minX ==> Visible(s[..i + 1], minX) == Visible(s[..i], minX)
  {
    assert s[..i + 1][..i] == s[..i];
  }

  /** One more visible point: its raw Y, then its processed Y, go into both bounds. */
  lemma BoundsSnoc(v: seq<DualDataPoint>, p: DualDataPoint)
    ensures LowOf(v + [p]) == TakeMin(TakeMin(LowOf(v), p.rawY), p.processedY)
    ensures HighOf(v + [p]) == TakeMax(TakeMax(HighOf(v), p.rawY), p.processedY)
  {
    if |v| > 0 {
      var w := v + [p];
      assert w[..|v|] == v;
    }
  }


  /**
   * `DualRingBuffer`: a fixed array of points written at `head`, holding the
   * `count` newest ones. `items` is what the buffer logically holds, oldest
   * first, and `added` every point added since construction or the last
   * `Clear`.
   */
  class DualRingBuffer {
    const buffer: array<DualDataPoint>
    var head: int
    var count: int
    ghost var items: seq<DualDataPoint>
    ghost var added: seq<DualDataPoint>

    ghost predicate Valid()
      reads this, buffer
    {
      && (if buffer.Length == 0 then head == 0 else 0 <= head < buffer.Length)
      && 0 <= count <= buffer.Length
      && |items| == count
      && items == Last(added, buffer.Length)
      && (forall i :: 0 <= i < count ==> buffer[Slot(head, count, i, buffer.Length)] == items[i])
    }

    constructor (capacity: nat)
      ensures Valid() && fresh(buffer) && buffer.Length == capacity
      ensures head == 0 && count == 0 && items == [] && added == []
    {
      buffer := new DualDataPoint[capacity](_ => DualDataPoint(0.0, 0.0, 0.0));
      head, count := 0, 0;
      items, added := [], [];
    }

    /**
     * `Add`: writes at `head`, advances it by one modulo the capacity and
     * counts the point while below capacity, so the oldest point is
     * overwritten once the buffer is full. (An empty array throws.)
     */
    method Add(x: real, rawY: real, processedY: real)
      requires Valid() && buffer.Length > 0
      modifies this`head, this`count, this`items, this`added, buffer
      ensures Valid()
      ensures head == Advance(old(head), buffer.Length)
      ensures count == if old(count) < buffer.Length then old(count) + 1 else old(count)
      ensures added == old(added) + [DualDataPoint(x, rawY, processedY)]
      ensures items == Last(old(items) + [DualDataPoint(x, rawY, processedY)], buffer.Length)
    {
      var p := DualDataPoint(x, rawY, processedY);
      var L := buffer.Length;
      ghost var h0, c0, old0 := head, count, items;
      buffer[head] := p;
      head := Advance(head, L);
      if count < L {
        count := count + 1;
      }
      LastSnoc(added, p, L);
      LastSnoc(old0, p, L);
      added := added + [p];
      items := Last(old0 + [p], L);
      forall i | 0 <= i < count
        ensures buffer[Slot(head, count, i, L)] == items[i]
      {
        SlotValue(head, count, i, L);
        if i < count - 1 {
          var j := if c0 < L then i else i + 1;
          SlotValue(h0, c0, j, L);
          assert Slot(head, count, i, L) == Slot(h0, c0, j, L) != h0;
          assert items[i] == old0[j];
        }
      }
    }

    /** `Clear`: forgets every point; the array keeps its stale contents. */
    method Clear()
      requires Valid()
      modifies this`head, this`count, this`items, this`added
      ensures Valid()
      ensures head == 0 && count == 0 && items == [] && added == []
    {
      head, count := 0, 0;
      items, added := [], [];
    }

    /**
     * `GetVisibleData`: the points of the window that ends at the newest X,
     * oldest first, returned once for each series (the same points), with
     * the window's X range and the smallest and largest Y of either series
     * among them; an empty buffer gives no points and all-zero bounds, and a
     * window with no point in it gives zero Y bounds.
     */
    method GetVisibleData(windowSize: real)
      returns (rawPoints: seq<DualDataPoint>, procPoints: seq<DualDataPoint>,
               minX: real, maxX: real, minY: real, maxY: real, actualMaxX: real)
      requires Valid()
      ensures rawPoints == procPoints
      ensures count == 0 ==> rawPoints == [] && minX == maxX == minY == maxY == actualMaxX == 0.0
      ensures count > 0 ==> actualMaxX == items[count - 1].x
      ensures count > 0 && actualMaxX <= windowSize ==> minX == 0.0 && maxX == windowSize
      ensures count > 0 && actualMaxX > windowSize ==> minX == actualMaxX - windowSize && maxX == actualMaxX
      ensures count > 0 ==> rawPoints == Visible(items, minX)
      ensures rawPoints == [] ==> minY == 0.0 && maxY == 0.0
      ensures rawPoints != [] ==> minY == LowY(rawPoints) && maxY == HighY(rawPoints)
    {
      if count == 0 {
        return [], [], 0.0, 0.0, 0.0, 0.0, 0.0;
      }
      var L := buffer.Length;
      var lastIndex := (head - 1 + L) % L;
      NewestSlot(head, count, L);
      actualMaxX := buffer[lastIndex].x;
      var window := Window(actualMaxX, windowSize);
      minX, maxX := window.0, window.1;
      var visibleCount, low, high := CountVisible(minX);
      if visibleCount == 0 {
        return [], [], minX, maxX, 0.0, 0.0, actualMaxX;
      }
      var result := CollectVisible(minX);
      return result, result, minX, maxX, low.value, high.value, actualMaxX;
    }

    /** The first loop of `GetVisibleData`: how many points are visible, and their Y bounds. */
    method CountVisible(minX: real) returns (visibleCount: nat, low: Option<real>, high: Option<real>)
      requires Valid()
      ensures visibleCount == |Visible(items, minX)|
      ensures low == LowOf(Visible(items, minX)) && high == HighOf(Visible(items, minX))
    {
      var L := buffer.Length;
      visibleCount, low, high := 0, None, None;
      var i := 0;
      assert items[..0] == [];
      while i < count
        invariant 0 <= i <= count
        invariant visibleCount == |Visible(items[..i], minX)|
        invariant low == LowOf(Visible(items[..i], minX))
        invariant high == HighOf(Visible(items[..i], minX))
      {
        var index := Slot(head, count, i, L);
        SlotValue(head, count, i, L);
        var point := buffer[index];
        assert point == items[i];
        VisibleStep(items, i, minX);
        BoundsSnoc(Visible(items[..i], minX), point);
        if point.x >= minX {
          visibleCount := visibleCount + 1;
          low := TakeMin(low, point.rawY);
          high := TakeMax(high, point.rawY);
          low := TakeMin(low, point.processedY);
          high := TakeMax(high, point.processedY);
        }
        i := i + 1;
      }
      assert items[..count] == items;
    }

    /** The second loop of `GetVisibleData`: the visible points, oldest first. */
    method CollectVisible(minX: real) returns (result: seq<DualDataPoint>)
      requires Valid()
      ensures result == Visible(items, minX)
    {
      var L := buffer.Length;
      result := [];
      var i := 0;
      assert items[..0] == [];
      while i < count
        invariant 0 <= i <= count
        invariant result == Visible(items[..i], minX)
      {
        var index := Slot(head, count, i, L);
        SlotValue(head, count, i, L);
        var point := buffer[index];
        assert point == items[i];
        VisibleStep(items, i, minX);
        if point.x >= minX {
          result := result + [point];
        }
        i := i + 1;
      }
      assert items[..count] == items;
    }
  }

  class DualSeriesChart {
    const data: DualRingBuffer
    var minY: real
    var maxY: real
    var windowSize: real
    var autoScaleY: bool
    var display: Option<(real, real)>
    var framesSinceLastScale: int
    var currentIncrement: real
    /** `YAxisIncrements`, which the program may replace (the breathing-rate chart uses its own table). */
    var increments: seq<real>

    function ScaleOf(): Scale
      reads this`minY, this`maxY, this`display, this`framesSinceLastScale, this`currentIncrement
    {
      Scale(minY, maxY, display, framesSinceLastScale, currentIncrement)
    }

    /** The control's field initialisers and its 10000-point buffer. */
    constructor ()
      ensures fresh(data) && data.Valid() && data.buffer.Length == 10000 && data.items == []
      ensures ScaleOf() == Scale(0.0, 5000.0, None, 0, 100.0) && windowSize == 1500.0 && autoScaleY
      ensures increments == DefaultIncrements && IncrementTable(increments)
    {
      data := new DualRingBuffer(10000);
      minY, maxY, windowSize, autoScaleY := 0.0, 5000.0, 1500.0, true;
      display, framesSinceLastScale, currentIncrement := None, 0, 100.0;
      increments := DefaultIncrements;
      DefaultIncrementsUsable();
    }

    /**
     * `Clear`: empties the buffer and restarts the axis from its sentinels
     * and the first increment of the chart's table (indexing an empty table
     * throws).
     */
    method Clear()
      requires data.Valid() && |increments| > 0
      modifies data`head, data`count, data`items, data`added
      modifies this`framesSinceLastScale, this`display, this`currentIncrement
      ensures data.Valid() && data.count == 0 && data.items == []
      ensures ScaleOf() == Scale(old(minY), old(maxY), None, 0, increments[0])
    {
      data.Clear();
      framesSinceLastScale := 0;
      display := None;
      currentIncrement := increments[0];
    }

    /** The `_autoScaleY` branch of `OnPaintSurface`, for visible data spanning `[lo, hi]`. */
    method AdaptScale(lo: real, hi: real) returns (rescaled: bool)
      requires IncrementTable(increments)
      modifies this`minY, this`maxY, this`display, this`framesSinceLastScale, this`currentIncrement
      ensures rescaled == RescaleDue(old(ScaleOf()), lo, hi)
      ensures ScaleOf() == Adapted(old(ScaleOf()), increments, lo, hi)
    {
      ghost var s0 := ScaleOf();
      if display.None? {
        display := Some((lo, hi));
        framesSinceLastScale := 0;
      }
      framesSinceLastScale := framesSinceLastScale + 1;
      var needsImmediateScale := lo < minY || hi > maxY;
      rescaled := framesSinceLastScale >= 10 || minY == 0.0 || needsImmediateScale;
      if rescaled {
        framesSinceLastScale := 0;
        display := Some((lo, hi));
        var range := hi - lo;
        if range < 1.0 {
          range := 1.0;
        }
        var selected := SelectIncrement(increments, range);
        var bottom := Bottom(lo, selected);
        var rangeNeeded := hi - bottom;
        var ticksNeeded := Ceil(rangeNeeded / selected);
        if ticksNeeded < 5 {
          ticksNeeded := 5;
        }
        if ticksNeeded > 10 {
          ticksNeeded := 10;
        }
        var axis := Axis(selected, bottom, ticksNeeded);
        AxisOf(increments, lo, hi, selected, ticksNeeded);
        currentIncrement, minY, maxY := selected, bottom, Top(axis);
      }
      assert rescaled == RescaleDue(s0, lo, hi);
    }

    /**
     * The state changes of `OnPaintSurface` before it draws: nothing with
     * fewer than two stored or two visible points; otherwise the adaptive
     * scaling over the visible Y bounds of both series, or with a fixed axis
     * the first increment of the chart's table.
     */
    method Paint() returns (drawn: bool)
      requires data.Valid() && |increments| > 0 && (autoScaleY ==> IncrementTable(increments))
      modifies this`minY, this`maxY, this`display, this`framesSinceLastScale, this`currentIncrement
      ensures drawn <==> data.count >= 2 && |Shown(data.items, windowSize)| >= 2
      ensures !drawn ==> ScaleOf() == old(ScaleOf())
      ensures drawn && !autoScaleY ==> ScaleOf() == old(ScaleOf()).(increment := increments[0])
      ensures drawn && autoScaleY ==>
        ScaleOf() == Adapted(old(ScaleOf()), increments, LowY(Shown(data.items, windowSize)), HighY(Shown(data.items, windowSize)))
    {
      drawn := false;
      if data.count < 2 {
        return;
      }
      var rawPoints, procPoints, minX, maxX, lo, hi, actualMaxX := data.GetVisibleData(windowSize);
      assert minX == Window(actualMaxX, windowSize).0 && data.items[data.count - 1] == data.items[|data.items| - 1];
      if |rawPoints| < 2 {
        return;
      }
      drawn := true;
      if autoScaleY {
        var _ := AdaptScale(lo, hi);
      } else {
        currentIncrement := increments[0];
      }
    }
  }

  /** The points a paint shows: those of the window that ends at the newest X. */
  ghost function Shown(items: seq<DualDataPoint>, windowSize: real): seq<DualDataPoint>
  {
    if |items| == 0 then [] else Visible(items, Window(items[|items| - 1].x, windowSize).0)
  }
}
