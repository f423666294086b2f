/**
 * The arithmetic shared by the two chart ring buffers: a buffer of `size`
 * slots whose next write goes to `head` and which holds the `count` newest
 * points. The i-th oldest point lives in slot `(head - count + i + size) % size`,
 * and the visible window is chosen from the newest X alone.
 */
module Rings {
  import opened Text
  import opened Wrappers

  /** The slot of the i-th oldest point, as both `GetVisibleData` loops compute it. */
  function Slot(head: int, count: int, i: int, size: int): int
    requires size > 0
  {
    (head - count + i + size) % size
  }

  /** Inside a consistent buffer the slot is `head - count + i`, wrapped once. */
  lemma SlotValue(head: int, count: int, i: int, size: int)
    requires 0 <= head < size && 0 <= i < count <= size
    ensures 0 <= Slot(head, count, i, size) < size
    ensures Slot(head, count, i, size) == if head - count + i < 0 then head - count + i + size else head - count + i
  {
    if head - count + i < 0 {
      DivUnique(head - count + i + size, size, 0, head - count + i + size);
    } else {
      DivUnique(head - count + i + size, size, 1, head - count + i);
    }
  }

  /** `(_head + 1) % _buffer.Length`: the write position after an `Add`. */
  function Advance(head: int, size: int): (next: int)
    requires 0 <= head < size
    ensures 0 <= next < size
    ensures next == if head + 1 == size then 0 else head + 1
  {
    DivUnique(head + 1, size, if head + 1 == size then 1 else 0, if head + 1 == size then 0 else head + 1);
    (head + 1) % size
  }

  /** The newest point is in the slot just before `head`: `(_head - 1 + L) % L`. */
  lemma NewestSlot(head: int, count: int, size: int)
    requires 0 <= head < size && 0 < count <= size
    ensures Slot(head, count, count - 1, size) == (head - 1 + size) % size
  {
    SlotValue(head, count, count - 1, size);
    if head == 0 {
      DivUnique(head - 1 + size, size, 0, size - 1);
    } else {
      DivUnique(head - 1 + size, size, 1, head - 1);
    }
  }

  /** The last `n` elements of `s`, or all of `s` when it is shorter. */
  function Last<T>(s: seq<T>, n: nat): (r: seq<T>)
    ensures |r| == if |s| < n then |s| else n
  {
    if |s| <= n then s else s[|s| - n..]
  }

  /** Appending to a full window drops its oldest element; otherwise the window grows. */
  lemma LastSnoc<T>(s: seq<T>, x: T, n: nat)
    requires n > 0
    ensures Last(s + [x], n) == if |Last(s, n)| < n then Last(s, n) + [x] else Last(s, n)[1..] + [x]
  {
    var w := Last(s, n);
    if |w| == n {
      assert (s + [x])[|s| + 1 - n..] == s[|s| - n + 1..] + [x];
      assert w[1..] == s[|s| - n + 1..];
    } else {
      assert s + [x] == w + [x];
    }
  }

  /**
   * A `double.MaxValue`/`double.MinValue` accumulator: `None` is the
   * sentinel, which the first visible point always replaces.
   */
  function TakeMin(acc: Option<real>, y: real): Option<real>
  {
    if acc.None? || y < acc.value then Some(y) else acc
  }

  function TakeMax(acc: Option<real>, y: real): Option<real>
  {
    if acc.None? || y > acc.value then Some(y) else acc
  }

  /**
   * The X range a chart shows for a window of `windowSize` ending at the
   * newest X: the first window `[0, windowSize]` while the data fits in it,
   * then a window that slides with the newest point.
   */
  function Window(newestX: real, windowSize: real): (r: (real, real))
    ensures newestX <= windowSize ==> r == (0.0, windowSize)
    ensures newestX > windowSize ==> r == (newestX - windowSize, newestX)
  {
    if newestX <= windowSize then (0.0, windowSize) else (newestX - windowSize, newestX)
  }
}
