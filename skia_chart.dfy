/**
 * The single-series chart control: its ring buffer of (X, Y) points with the
 * windowed visibility query the paint path uses, and the time labels of the
 * X axis. Doubles are modelled as exact reals.
 */
module SkiaCharts {
  import opened Text
  import opened Rings
  import opened Wrappers

  datatype DataPoint = DataPoint(x: real, y: real)

  /** The points whose X is at least `minX`, oldest first. */
  function Visible(s: seq<DataPoint>, minX: real): (r: seq<DataPoint>)
    ensures |r| <= |s|
  {
    if |s| == 0 then []
    else if s[|s| - 1].x >= minX then Visible(s[..|s| - 1], minX) + [s[|s| - 1]]
    else Visible(s[..|s| - 1], minX)
  }

  /** A point is visible exactly when it is stored and lies at or right of `minX`. */
  lemma {:induction false} VisibleMembers(s: seq<DataPoint>, minX: real, p: DataPoint)
    ensures p in Visible(s, minX) <==> p in s && p.x >= minX
  {
    if |s| > 0 {
      var init := s[..|s| - 1];
      VisibleMembers(init, minX, p);
      assert s == init + [s[|s| - 1]];
    }
  }

  /** The smallest Y of a non-empty run of points. */
  function LowY(s: seq<DataPoint>): (m: real)
    requires |s| > 0
    ensures forall k :: 0 <= k < |s| ==> m <= s[k].y
    ensures exists k :: 0 <= k < |s| && s[k].y == m
  {
    if |s| == 1 then s[0].y
    else
      var m := LowY(s[..|s| - 1]);
      assert forall k :: 0 <= k < |s| - 1 ==> s[..|s| - 1][k] == s[k];
      if s[|s| - 1].y < m then s[|s| - 1].y else m
  }

  /** The largest Y of a non-empty run of points. */
  function HighY(s: seq<DataPoint>): (m: real)
    requires |s| > 0
    ensures forall k :: 0 <= k < |s| ==> s[k].y <= m
    ensures exists k :: 0 <= k < |s| && s[k].y == m
  {
    if |s| == 1 then s[0].y
    else
      var m := HighY(s[..|s| - 1]);
      assert forall k :: 0 <= k < |s| - 1 ==> s[..|s| - 1][k] == s[k];
      if s[|s| - 1].y > m then s[|s| - 1].y else m
  }

  /** The accumulators after the visible points of `s` have been seen. */
  function LowOf(s: seq<DataPoint>): Option<real>
  {
    if |s| == 0 then None else Some(LowY(s))
  }

  function HighOf(s: seq<DataPoint>): Option<real>
  {
    if |s| == 0 then None else Some(HighY(s))
  }

  /** One more point of the counting loop: the visible run grows by it exactly when it is visible. */
  lemma VisibleStep(s: seq<DataPoint>, i: nat, minX: real)
    requires i < |s|
    ensures s[i].x >= minX ==> Visible(s[..i + 1], minX) == Visible(s[..i], minX) + [s[i]]
    ensures s[i].x < minX ==> Visible(s[..i + 1], minX) == Visible(s[..i], minX)
  {
    assert s[..i + 1][..i] == s[..i];
  }

  /** One more visible point moves each bound to it when it lies beyond. */
  lemma BoundsSnoc(v: seq<DataPoint>, p: DataPoint)
    ensures LowOf(v + [p]) == TakeMin(LowOf(v), p.y)
    ensures HighOf(v + [p]) == TakeMax(HighOf(v), p.y)
  {
    if |v| > 0 {
      var w := v + [p];
      assert w[..|v|] == v;
    }
  }


  /** `"{(int)x}"`: C#'s cast of a double to int truncates toward zero. */
  function Trunc(r: real): int
  {
    if r >= 0.0 then r.Floor else -((-r).Floor)
  }

  /** C#'s `%` on doubles: the remainder of the quotient truncated toward zero. */
  function Rem(a: real, b: real): real
    requires b != 0.0
  {
    a - (Trunc(a / b) as real) * b
  }

  /**
   * `CounterToTimeString`: the X-axis label of a sample counter, at
   * `sampleRate` samples per second: seconds below a minute, `m:ss` below
   * an hour, `h:mm:ss` beyond.
   */
  function CounterToTimeString(counter: real, sampleRate: real): string
    requires sampleRate != 0.0
  {
    var seconds := counter / sampleRate;
    if seconds < 60.0 then IntToString(Trunc(seconds)) + "s"
    else if seconds < 3600.0 then MinutesText(seconds)
    else HoursText(seconds)
  }

  /** `"{mins}:{secs:D2}"` */
  function MinutesText(seconds: real): string
  {
    IntToString(Trunc(seconds / 60.0)) + ":" + Format00(Trunc(Rem(seconds, 60.0)))
  }

  /** `"{hours}:{mins:D2}:{secs:D2}"` */
  function HoursText(seconds: real): string
  {
    IntToString(Trunc(seconds / 3600.0)) + ":" + Format00(Trunc(Rem(seconds, 3600.0) / 60.0))
      + ":" + Format00(Trunc(Rem(seconds, 60.0)))
  }

  /** Real division of whole numbers truncates to their integer division. */
  lemma TruncDiv(n: nat, d: nat)
    requires d > 0
    ensures Trunc((n as real) / (d as real)) == n / d
    ensures Rem(n as real, d as real) == (n % d) as real
  {
    var q, r := n / d, n % d;
    assert (n as real) / (d as real) == (q as real) + (r as real) / (d as real);
    assert 0.0 <= (r as real) / (d as real) < 1.0;
  }

  /**
   * For a counter worth a whole number `s` of seconds the label is `"{s}s"`
   * below a minute, `"m:ss"` below an hour and `"h:mm:ss"` otherwise, with
   * the fields after a colon printed as two digits.
   */
  lemma WholeSeconds(counter: real, sampleRate: real, s: nat)
    requires sampleRate != 0.0 && counter / sampleRate == s as real
    ensures s < 60 ==> CounterToTimeString(counter, sampleRate) == NatToString(s) + "s"
    ensures 60 <= s < 3600 ==>
      CounterToTimeString(counter, sampleRate) == NatToString(s / 60) + ":" + Pad2(s % 60)
    ensures 3600 <= s ==>
      CounterToTimeString(counter, sampleRate)
        == NatToString(s / 3600) + ":" + Pad2(s % 3600 / 60) + ":" + Pad2(s % 60)
  {
    if s < 60 {
      TruncDiv(s, 1);
    } else if s < 3600 {
      MinutesOfWhole(s);
    } else {
      HoursOfWhole(s);
    }
  }

  lemma MinutesOfWhole(s: nat)
    ensures MinutesText(s as real) == NatToString(s / 60) + ":" + Pad2(s % 60)
  {
    TruncDiv(s, 60);
    assert Trunc(s as real / 60.0) == s / 60;
    assert Trunc(Rem(s as real, 60.0)) == s % 60;
  }

  lemma HoursOfWhole(s: nat)
    ensures HoursText(s as real) == NatToString(s / 3600) + ":" + Pad2(s % 3600 / 60) + ":" + Pad2(s % 60)
  {
    HoursFields(s);
    HoursTextOf(s as real, s / 3600, s % 3600 / 60, s % 60);
  }

  /** `HoursText` once its three truncated fields are known. */
  lemma HoursTextOf(seconds: real, h: nat, m: nat, sec: nat)
    requires Trunc(seconds / 3600.0) == h
    requires Trunc(Rem(seconds, 3600.0) / 60.0) == m
    requires Trunc(Rem(seconds, 60.0)) == sec
    ensures HoursText(seconds) == NatToString(h) + ":" + Pad2(m) + ":" + Pad2(sec)
  {
  }

  /** The three fields of `HoursText` for a whole number of seconds. */
  lemma HoursFields(s: nat)
    ensures Trunc(s as real / 3600.0) == s / 3600
    ensures Trunc(Rem(s as real, 3600.0) / 60.0) == s % 3600 / 60
    ensures Trunc(Rem(s as real, 60.0)) == s % 60
  {
    TruncDiv(s, 60);
    TruncDiv(s, 3600);
    TruncDiv(s % 3600, 60);
  }

  /** The fields of the label recombine to the whole seconds it shows. */
  lemma ClockFields(s: nat)
    ensures s / 60 * 60 + s % 60 == s && s % 60 < 60
    ensures s / 3600 * 3600 + s % 3600 / 60 * 60 + s % 60 == s && s % 3600 / 60 < 60
    ensures 60 <= s < 3600 ==> 1 <= s / 60 < 60
  {
    assert s % 3600 == s % 3600 / 60 * 60 + s % 3600 % 60;
    DivUnique(s, 60, s / 3600 * 60 + s % 3600 / 60, s % 3600 % 60);
  }

  /**
   * `RingBuffer`: a fixed array of points written at `head`, holding the
   * `count` newest ones. `items` is what the buffer logically holds, oldest
   * first, and `added` every point added since construction or the last
   * `Clear`.
   */
  class RingBuffer {
    const buffer: array<DataPoint>
    var head: int
    var count: int
    ghost var items: seq<DataPoint>
    ghost var added: seq<DataPoint>

    ghost predicate Valid()
      reads this, buffer
    {
      && (if buffer.Length == 0 then head == 0 else 0 <= head < buffer.Length)
      && 0 <= count <= buffer.Length
      && |items| == count
      && items == Last(added, buffer.Length)
      && (forall i :: 0 <= i < count ==> buffer[Slot(head, count, i, buffer.Length)] == items[i])
    }

    constructor (capacity: nat)
      ensures Valid() && fresh(buffer) && buffer.Length == capacity
      ensures head == 0 && count == 0 && items == [] && added == []
    {
      buffer := new DataPoint[capacity](_ => DataPoint(0.0, 0.0));
      head, count := 0, 0;
      items, added := [], [];
    }

    /**
     * `Add`: writes at `head`, advances it by one modulo the capacity and
     * counts the point while below capacity, so the oldest point is
     * overwritten once the buffer is full. (An empty array throws.)
     */
    method Add(x: real, y: real)
      requires Valid() && buffer.Length > 0
      modifies this`head, this`count, this`items, this`added, buffer
      ensures Valid()
      ensures head == Advance(old(head), buffer.Length)
      ensures count == if old(count) < buffer.Length then old(count) + 1 else old(count)
      ensures added == old(added) + [DataPoint(x, y)]
      ensures items == Last(old(items) + [DataPoint(x, y)], buffer.Length)
    {
      var p := DataPoint(x, y);
      var L := buffer.Length;
      ghost var h0, c0, old0 := head, count, items;
      buffer[head] := p;
      head := Advance(head, L);
      if count < L {
        count := count + 1;
      }
      LastSnoc(added, p, L);
      LastSnoc(old0, p, L);
      added := added + [p];
      items := Last(old0 + [p], L);
      forall i | 0 <= i < count
        ensures buffer[Slot(head, count, i, L)] == items[i]
      {
        SlotValue(head, count, i, L);
        if i < count - 1 {
          var j := if c0 < L then i else i + 1;
          SlotValue(h0, c0, j, L);
          assert Slot(head, count, i, L) == Slot(h0, c0, j, L) != h0;
          assert items[i] == old0[j];
        }
      }
    }

    /** `Clear`: forgets every point; the array keeps its stale contents. */
    method Clear()
      requires Valid()
      modifies this`head, this`count, this`items, this`added
      ensures Valid()
      ensures head == 0 && count == 0 && items == [] && added == []
    {
      head, count := 0, 0;
      items, added := [], [];
    }

    /**
     * `GetVisibleData`: the points of the window that ends at the newest X,
     * oldest first, with the window's X range and the smallest and largest
     * Y among them; an empty buffer gives no points and all-zero bounds, and
     * a window with no point in it gives zero Y bounds.
     */
    method GetVisibleData(windowSize: real)
      returns (points: seq<DataPoint>, minX: real, maxX: real, minY: real, maxY: real, actualMaxX: real)
      requires Valid()
      ensures count == 0 ==> points == [] && minX == maxX == minY == maxY == actualMaxX == 0.0
      ensures count > 0 ==> actualMaxX == items[count - 1].x
      ensures count > 0 && actualMaxX <= windowSize ==> minX == 0.0 && maxX == windowSize
      ensures count > 0 && actualMaxX > windowSize ==> minX == actualMaxX - windowSize && maxX == actualMaxX
      ensures count > 0 ==> points == Visible(items, minX)
      ensures points == [] ==> minY == 0.0 && maxY == 0.0
      ensures points != [] ==> minY == LowY(points) && maxY == HighY(points)
    {
      if count == 0 {
        return [], 0.0, 0.0, 0.0, 0.0, 0.0;
      }
      var L := buffer.Length;
      var lastIndex := (head - 1 + L) % L;
      NewestSlot(head, count, L);
      actualMaxX := buffer[lastIndex].x;
      var window := Window(actualMaxX, windowSize);
      minX, maxX := window.0, window.1;

      var visibleCount, low, high := CountVisible(minX);
      if visibleCount == 0 {
        return [], minX, maxX, 0.0, 0.0, actualMaxX;
      }
      var result := CollectVisible(minX);
      return result, minX, maxX, low.value, high.value, actualMaxX;
    }

    /** The first loop of `GetVisibleData`: how many points are visible, and their Y bounds. */
    method CountVisible(minX: real) returns (visibleCount: nat, low: Option<real>, high: Option<real>)
      requires Valid()
      ensures visibleCount == |Visible(items, minX)|
      ensures low == LowOf(Visible(items, minX)) && high == HighOf(Visible(items, minX))
    {
      var L := buffer.Length;
      visibleCount, low, high := 0, None, None;
      var i := 0;
      assert items[..0] == [];
      while i < count
        invariant 0 <= i <= count
        invariant visibleCount == |Visible(items[..i], minX)|
        invariant low == LowOf(Visible(items[..i], minX))
        invariant high == HighOf(Visible(items[..i], minX))
      {
        var index := Slot(head, count, i, L);
        SlotValue(head, count, i, L);
        var point := buffer[index];
        assert point == items[i];
        VisibleStep(items, i, minX);
        BoundsSnoc(Visible(items[..i], minX), point);
        if point.x >= minX {
          visibleCount := visibleCount + 1;
          low := TakeMin(low, point.y);
          high := TakeMax(high, point.y);
        }
        i := i + 1;
      }
      assert items[..count] == items;
    }

    /** The second loop of `GetVisibleData`: the visible points, oldest first. */
    method CollectVisible(minX: real) returns (result: seq<DataPoint>)
      requires Valid()
      ensures result == Visible(items, minX)
    {
      var L := buffer.Length;
      result := [];
      var i := 0;
      assert items[..0] == [];
      while i < count
        invariant 0 <= i <= count
        invariant result == Visible(items[..i], minX)
      {
        var index := Slot(head, count, i, L);
        SlotValue(head, count, i, L);
        var point := buffer[index];
        assert point == items[i];
        VisibleStep(items, i, minX);
        if point.x >= minX {
          result := result + [point];
        }
        i := i + 1;
      }
      assert items[..count] == items;
    }
  }
}
