/**
 * The promise-based `BlockingQueue` of bot/blocking_queue.ts as a state
 * machine. A pending `poll` is represented by the id of its waiter (the
 * promise's resolve callback); resolving it is an event the operations
 * report, not a callback they run.
 */
module BlockingQueues {

  /** The id of a pending poll. */
  type Waiter = nat

  /** The queued items and the waiters of pending polls, oldest first. */
  datatype Queue<T> = Queue(items: seq<T>, waiters: seq<Waiter>)

  /** What a `poll` gives back: an item at once, or a promise left pending under a waiter id. */
  datatype Polled<T> = Ready(item: T) | Pending(waiter: Waiter)

  /** What a `push` does with its item: resolve a waiter's promise with it, or queue it. */
  datatype Pushed<T> = Handed(waiter: Waiter, item: T) | Queued

  /** Items and waiters never wait at the same time. */
  predicate Inv<T>(q: Queue<T>) {
    q.items == [] || q.waiters == []
  }

  /** The constructor: no items, no waiters. */
  function Empty<T>(): (q: Queue<T>)
    ensures Inv(q) && Size(q) == 0
  {
    Queue([], [])
  }

  /**
   * `poll`: the head item at once when there is one; otherwise the caller's
   * waiter joins the back of the pending list.
   */
  function Poll<T>(q: Queue<T>, w: Waiter): (r: (Queue<T>, Polled<T>))
    requires Inv(q)
    ensures Inv(r.0)
    ensures q.items != [] ==> r.1 == Ready(q.items[0]) && r.0 == Queue(q.items[1..], q.waiters)
    ensures q.items == [] ==> r.1 == Pending(w) && r.0 == Queue([], q.waiters + [w])
  {
    if |q.items| > 0 then (Queue(q.items[1..], q.waiters), Ready(q.items[0]))
    else (Queue(q.items, q.waiters + [w]), Pending(w))
  }

  /**
   * `push`: the oldest waiter, when there is one, is resolved with the
   * item and leaves the pending list; otherwise the item joins the back of
   * the queue.
   */
  function Push<T>(q: Queue<T>, x: T): (r: (Queue<T>, Pushed<T>))
    requires Inv(q)
    ensures Inv(r.0)
    ensures q.waiters != [] ==> r.1 == Handed(q.waiters[0], x) && r.0 == Queue(q.items, q.waiters[1..])
    ensures q.waiters == [] ==> r.1 == Queued && r.0 == Queue(q.items + [x], [])
  {
    if |q.waiters| > 0 then (Queue(q.items, q.waiters[1..]), Handed(q.waiters[0], x))
    else (Queue(q.items + [x], q.waiters), Queued)
  }

  /** `entries`: a copy of the queued items, in order. */
  function Entries<T>(q: Queue<T>): seq<T> {
    q.items
  }

  /** `size`: the number of queued items. */
  function Size<T>(q: Queue<T>): nat {
    |q.items|
  }

  /** `isEmpty`: no item is queued. */
  function IsEmpty<T>(q: Queue<T>): (b: bool)
    ensures b <==> Size(q) == 0
    ensures b <==> Entries(q) == []
  {
    |q.items| == 0
  }

  /** `clear`: the queued items are dropped and the pending polls stay pending. */
  function Clear<T>(q: Queue<T>): (r: Queue<T>)
    requires Inv(q)
    ensures Inv(r) && Size(r) == 0 && r.waiters == q.waiters
  {
    Queue([], q.waiters)
  }

  // ---------------------------------------------------------------------
  // Runs of operations
  // ---------------------------------------------------------------------

  /** Pushing the items of `xs` one after another, with what each push did. */
  function PushAll<T>(q: Queue<T>, xs: seq<T>): (r: (Queue<T>, seq<Pushed<T>>))
    requires Inv(q)
    ensures Inv(r.0) && |r.1| == |xs|
    decreases |xs|
  {
    if xs == [] then (q, [])
    else
      var (q1, p) := Push(q, xs[0]);
      var (q2, ps) := PushAll(q1, xs[1..]);
      (q2, [p] + ps)
  }

  /** Polling once for each waiter id of `ws`, one after another, with what each poll gave back. */
  function PollAll<T>(q: Queue<T>, ws: seq<Waiter>): (r: (Queue<T>, seq<Polled<T>>))
    requires Inv(q)
    ensures Inv(r.0) && |r.1| == |ws|
    decreases |ws|
  {
    if ws == [] then (q, [])
    else
      var (q1, p) := Poll(q, ws[0]);
      var (q2, ps) := PollAll(q1, ws[1..]);
      (q2, [p] + ps)
  }

  /** With nobody waiting, pushes queue their items at the back, in order. */
  lemma {:induction false} PushAllQueues<T>(q: Queue<T>, xs: seq<T>)
    requires Inv(q) && q.waiters == []
    ensures PushAll(q, xs).0 == Queue(q.items + xs, [])
    ensures forall k :: 0 <= k < |xs| ==> PushAll(q, xs).1[k] == Queued
    decreases |xs|
  {
    if xs != [] {
      var q1 := Push(q, xs[0]).0;
      PushAllQueues(q1, xs[1..]);
      assert q.items + xs == q1.items + xs[1..];
    }
  }

  /** Polls take the queued items from the front, first queued first polled. */
  lemma {:induction false} PollAllFifo<T>(q: Queue<T>, ws: seq<Waiter>)
    requires Inv(q) && |ws| <= |q.items|
    ensures PollAll(q, ws).0 == Queue(q.items[|ws|..], q.waiters)
    ensures forall k :: 0 <= k < |ws| ==> PollAll(q, ws).1[k] == Ready(q.items[k])
    decreases |ws|
  {
    if ws != [] {
      var q1 := Poll(q, ws[0]).0;
      PollAllFifo(q1, ws[1..]);
      assert q1.items[|ws| - 1..] == q.items[|ws|..];
      var ps := PollAll(q1, ws[1..]).1;
      forall k | 1 <= k < |ws|
        ensures ps[k - 1] == Ready(q.items[k])
      {
        assert q1.items[k - 1] == q.items[k];
      }
    }
  }

  /** Items pushed onto a queue nobody waits on come out of later polls in the order they went in. */
  lemma FifoOrder<T>(xs: seq<T>, ws: seq<Waiter>)
    requires |ws| == |xs|
    ensures var q := PushAll(Empty<T>(), xs).0;
      && PollAll(q, ws).0 == Empty<T>()
      && forall k :: 0 <= k < |xs| ==> PollAll(q, ws).1[k] == Ready(xs[k])
  {
    PushAllQueues(Empty<T>(), xs);
    var q := PushAll(Empty<T>(), xs).0;
    assert q.items == xs;
    PollAllFifo(q, ws);
  }

  /** With nothing queued, polls wait at the back of the pending list, in order. */
  lemma {:induction false} PollAllWaits<T>(q: Queue<T>, ws: seq<Waiter>)
    requires Inv(q) && q.items == []
    ensures PollAll(q, ws).0 == Queue([], q.waiters + ws)
    ensures forall k :: 0 <= k < |ws| ==> PollAll(q, ws).1[k] == Pending(ws[k])
    decreases |ws|
  {
    if ws != [] {
      var q1 := Poll(q, ws[0]).0;
      PollAllWaits(q1, ws[1..]);
      assert q.waiters + ws == q1.waiters + ws[1..];
    }
  }

  /** Pushes resolve the pending polls from the oldest, one item each. */
  lemma {:induction false} PushAllHandsOff<T>(q: Queue<T>, xs: seq<T>)
    requires Inv(q) && |xs| <= |q.waiters|
    ensures PushAll(q, xs).0 == Queue(q.items, q.waiters[|xs|..])
    ensures forall k :: 0 <= k < |xs| ==> PushAll(q, xs).1[k] == Handed(q.waiters[k], xs[k])
    decreases |xs|
  {
    if xs != [] {
      var q1 := Push(q, xs[0]).0;
      PushAllHandsOff(q1, xs[1..]);
      assert q1.waiters[|xs| - 1..] == q.waiters[|xs|..];
      var ps := PushAll(q1, xs[1..]).1;
      forall k | 1 <= k < |xs|
        ensures ps[k - 1] == Handed(q.waiters[k], xs[k])
      {
        assert q1.waiters[k - 1] == q.waiters[k];
      }
    }
  }

  /** Polls that had to wait are served by later pushes in the order they polled. */
  lemma WaitersServedInOrder<T>(ws: seq<Waiter>, xs: seq<T>)
    requires |xs| == |ws|
    ensures var q := PollAll(Empty<T>(), ws).0;
      && PushAll(q, xs).0 == Empty<T>()
      && forall k :: 0 <= k < |xs| ==> PushAll(q, xs).1[k] == Handed(ws[k], xs[k])
  {
    PollAllWaits(Empty<T>(), ws);
    var q := PollAll(Empty<T>(), ws).0;
    assert q.waiters == ws;
    PushAllHandsOff(q, xs);
  }
}
