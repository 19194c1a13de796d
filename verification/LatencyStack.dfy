/**
 The double-buffered stack that collects latencies: pushes go into one buffer while a callback, possibly still running
 in its own goroutine, reads the other. Calls to `Push` and `Swap` are taken one at a time; the steps of the callback
 may come anywhere between them.
 */
module LatencyStack {

  function Max(a: int, b: int): int { if a < b then b else a }

  class Stack {
    var data: array<int>
    var swap: array<int>
    var current: nat
    const upperLimit: nat
    /** Whether a callback was set; without one, flushed values are dropped. */
    const hasCallback: bool

    // The goroutine that holds `cbInProgress`, if any, has still to read `swap[next..itemCount]`.
    var cbInProgress: bool
    var itemCount: nat
    var next: nat

    /** The values handed to the callback so far, in order. */
    var delivered: seq<int>
    /** Every value ever pushed, in order. */
    ghost var pushed: seq<int>

    ghost predicate Shape()
      reads this
    {
      data != swap && data.Length == swap.Length == upperLimit + 1 && next <= itemCount <= swap.Length
    }

    /** Every value pushed has been delivered, waits in the running callback, or is among the first `n` buffered. */
    ghost predicate Conserved(n: nat)
      requires Shape() && n <= data.Length
      reads this, data, swap
    {
      hasCallback ==> pushed == delivered + InCallback() + data[..n]
    }

    ghost function InCallback(): seq<int>
      requires Shape()
      reads this, swap
    {
      if cbInProgress then swap[next..itemCount] else []
    }

    ghost predicate Valid()
      reads this, data, swap
    {
      Shape() && current <= Max(upperLimit - 1, 1) && Conserved(current)
    }

    constructor (elementsLimit: nat, hasCallback: bool)
      ensures Valid() && fresh(data) && fresh(swap)
      ensures upperLimit == elementsLimit && this.hasCallback == hasCallback
      ensures pushed == [] && delivered == [] && current == 0 && !cbInProgress
    {
      data := new int[elementsLimit + 1];
      swap := new int[elementsLimit + 1];
      current := 0;
      upperLimit := elementsLimit;
      this.hasCallback := hasCallback;
      cbInProgress, itemCount, next := false, 0, 0;
      delivered, pushed := [], [];
    }

    /** One step of the callback: it records the next value, or finishes and unlocks; it writes no buffer. */
    method CallbackStep(ghost n: nat)
      requires Shape() && n <= data.Length && Conserved(n)
      modifies this`cbInProgress, this`next, this`delivered
      ensures Shape() && Conserved(n)
      ensures if old(cbInProgress) && hasCallback && old(next) < itemCount
              then cbInProgress && next == old(next) + 1 && delivered == old(delivered) + [swap[old(next)]]
              else !cbInProgress && next == old(next) && delivered == old(delivered)
    {
      if !cbInProgress {
        return;
      }
      if hasCallback && next < itemCount {
        delivered := delivered + [swap[next]];
        next := next + 1;
      } else {
        cbInProgress := false;
      }
    }

    /** Blocks on `cbInProgress`: the running callback goes on until it is done. */
    method AwaitCallback(ghost n: nat)
      requires Shape() && n <= data.Length && Conserved(n)
      modifies this`cbInProgress, this`next, this`delivered
      ensures Shape() && Conserved(n) && !cbInProgress
    {
      while cbInProgress
        invariant Shape() && Conserved(n)
        decreases cbInProgress, itemCount - next
      {
        CallbackStep(n);
      }
    }

    /** Exchanges the buffers and starts the callback on the first `count` values of the one just filled. */
    method SwapData(runCbInParallel: bool, count: nat) returns (isThereNewData: bool)
      requires Shape() && count <= data.Length && Conserved(count)
      modifies this
      ensures Valid() && pushed == old(pushed) && isThereNewData
      ensures data == old(swap) && swap == old(data) && current == 0
      ensures !runCbInParallel ==> !cbInProgress && (hasCallback ==> delivered == pushed)
      ensures runCbInParallel ==> cbInProgress && itemCount == count && next == 0
    {
      AwaitCallback(count);
      data, swap, current := swap, data, 0;
      isThereNewData := swap.Length > 0;
      cbInProgress, itemCount, next := true, count, 0;
      assert Conserved(0) by {
        assert data[..0] == [];
      }
      if !runCbInParallel {
        AwaitCallback(0);
      }
    }

    /** Hands over everything buffered; when it waits for the callback, everything ever pushed has been delivered. */
    method Swap(runCbInParallel: bool) returns (isThereNewData: bool)
      requires Valid()
      modifies this
      ensures Valid() && pushed == old(pushed) && isThereNewData
      ensures data == old(swap) && swap == old(data) && current == 0
      ensures !runCbInParallel && hasCallback ==> delivered == pushed
    {
      isThereNewData := SwapData(runCbInParallel, current);
    }

    /**
     Buffers a value, after flushing the buffer if it is full. The buffer a callback reads is never the one written:
     whichever array is being read afterwards holds what it held before.
     */
    method Push(value: int)
      requires Valid()
      modifies this, data, swap
      ensures Valid() && pushed == old(pushed) + [value]
      ensures {data, swap} == old({data, swap})
      ensures old(current) + 1 < upperLimit ==> swap == old(swap) && current == old(current) + 1
      ensures old(current) + 1 >= upperLimit ==>
                swap == old(data) && current == 1 && cbInProgress && itemCount == old(current)
      ensures swap[..] == if swap == old(swap) then old(swap[..]) else old(data[..])
    {
      current := current + 1;
      var idx := current;
      if idx >= upperLimit {
        if current >= upperLimit {
          var _ := SwapData(true, idx - 1);
        }
        current := current + 1;
        idx := current;
      }
      data[idx - 1] := value;
      pushed := pushed + [value];
    }
  }

  // ---- whole runs ----

  datatype Event = Pushed(value: int) | Swapped(inParallel: bool) | CallbackMoves

  /** The values pushed by a run, in order. */
  function Pushes(events: seq<Event>): seq<int> {
    if events == [] then []
    else
      Pushes(events[..|events| - 1])
      + match events[|events| - 1]
        case Pushed(value) => [value]
        case _ => []
  }

  /**
   Any run of pushes, swaps and callback steps, followed by a swap that waits: the callback has received every value
   pushed, each once and in the order of the pushes.
   */
  method RunAndFlush(elementsLimit: nat, events: seq<Event>) returns (received: seq<int>)
    ensures received == Pushes(events)
  {
    var s := new Stack(elementsLimit, true);
    var i := 0;
    while i < |events|
      invariant 0 <= i <= |events|
      invariant s.Valid() && s.hasCallback && fresh(s) && fresh(s.data) && fresh(s.swap)
      invariant s.pushed == Pushes(events[..i])
    {
      assert events[..i + 1][..i] == events[..i];
      match events[i] {
        case Pushed(value) => s.Push(value);
        case Swapped(inParallel) => var _ := s.Swap(inParallel);
        case CallbackMoves => s.CallbackStep(s.current);
      }
      i := i + 1;
    }
    assert events[..i] == events;
    var _ := s.Swap(false);
    received := s.delivered;
  }
}
