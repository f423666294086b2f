/**
 * The UI batcher: items posted from any thread wait in a queue, and each
 * tick of a dispatcher timer drains the whole queue into one list that is
 * handed to the flush callback, unless it is empty.
 */
module Batching {
  /** The batches handed to the flush callback, concatenated in order. */
  function Flatten<T>(batches: seq<seq<T>>): seq<T>
  {
    if |batches| == 0 then [] else Flatten(batches[..|batches| - 1]) + batches[|batches| - 1]
  }

  lemma FlattenSnoc<T>(batches: seq<seq<T>>, batch: seq<T>)
    ensures Flatten(batches + [batch]) == Flatten(batches) + batch
  {
    assert (batches + [batch])[..|batches|] == batches;
  }

  class UiBatcher<T> {
    /** The concurrent queue, oldest first. */
    var queue: seq<T>
    /** Every list passed to the flush callback so far, in order. */
    var flushed: seq<seq<T>>
    /** Whether the dispatcher timer is started. */
    var running: bool
    /** Every item ever posted, in order. */
    ghost var posted: seq<T>

    /** Each posted item is either flushed or still queued, exactly once and in order. */
    ghost predicate Valid()
      reads this
    {
      Flatten(flushed) + queue == posted &&
      forall k :: 0 <= k < |flushed| ==> |flushed[k]| > 0
    }

    /** The constructor starts the timer at once. */
    constructor ()
      ensures Valid() && running
      ensures queue == [] && flushed == [] && posted == []
    {
      queue := [];
      flushed := [];
      running := true;
      posted := [];
    }

    method Post(item: T)
      requires Valid()
      modifies this`queue, this`posted
      ensures Valid()
      ensures queue == old(queue) + [item] && posted == old(posted) + [item]
    {
      queue := queue + [item];
      posted := posted + [item];
    }

    /**
     * The timer's `Tick` handler; the dispatcher raises it only while the
     * timer is started. It returns the list it built, which reaches the
     * flush callback when it is not empty.
     */
    method Tick() returns (batch: seq<T>)
      requires Valid() && running
      modifies this`queue, this`flushed
      ensures Valid()
      ensures batch == old(queue) && queue == []
      ensures flushed == if |batch| > 0 then old(flushed) + [batch] else old(flushed)
      ensures Flatten(flushed) == posted
    {
      var list: seq<T> := [];
      while |queue| > 0
        invariant list + queue == old(queue)
        invariant flushed == old(flushed)
        decreases |queue|
      {
        list := list + [queue[0]];
        queue := queue[1..];
      }
      if |list| > 0 {
        FlattenSnoc(flushed, list);
        flushed := flushed + [list];
      }
      batch := list;
    }

    /** `Dispose` stops the timer; posting is still possible, flushing is not. */
    method Dispose()
      modifies this`running
      ensures !running
    {
      running := false;
    }
  }
}
