/**
 * The job-per-first-charm split of `eval_charms_parallel` and the
 * dispatch `eval_charms` (src/common/eval_naive.cpp).
 *
 * Threads, the atomic job counter and the joins are replaced by an
 * arbitrary assignment of jobs to workers: job j runs on worker
 * `assign(j) % threads`, and every worker runs its own jobs in increasing
 * order, as successive `fetch_add` results are. Each worker is a fresh
 * helper (running best -1, empty buffer); the reduction then keeps the
 * first strictly best worker result, starting from utility 0 and an
 * empty buffer.
 */
module Parallel {
  import opened Charms
  import opened Aligned
  import opened Stats
  import opened Search
  import opened Enumeration

  /** The reduction's starting point: utility 0 and a default (all MISSING_ID) buffer. */
  function ReduceInit(): (r: Best)
    ensures r.utility == 0 && SlotsIn(r.slots, 0)
  {
    Best(0, EmptySlots())
  }

  /**
   * Job j: the stats and power of charm j, slot 0 holding j, six picks
   * left and lower bound j + offset[j], run on a worker's running best.
   */
  function Job(k: Kernel, j: nat, best: Best): (r: Best)
    requires Valid(k) && j < |k.stats|
    ensures r.utility >= best.utility
  {
    EvalCharm(k, CHARM_COUNT_MAX - 1, k.stats[j], k.cp[j], EmptySlots()[0 := j], j + k.offset[j], best)
  }

  /** The jobs below `count` that worker w takes, in the increasing order it takes them. */
  function WorkerJobs(count: nat, threads: nat, assign: nat -> nat, w: nat): (r: seq<nat>)
    requires threads > 0
    ensures forall a :: 0 <= a < |r| ==> r[a] < count
    ensures forall a, b :: 0 <= a < b < |r| ==> r[a] < r[b]
    ensures forall j: nat :: j in r <==> j < count && assign(j) % threads == w
    decreases count
  {
    if count == 0 then []
    else
      var prev := WorkerJobs(count - 1, threads, assign, w);
      if assign(count - 1) % threads == w then prev + [count - 1] else prev
  }

  /** Every index of `js` names a job of the kernel. */
  predicate JobsIn(k: Kernel, js: seq<nat>) {
    forall a :: 0 <= a < |js| ==> js[a] < |k.stats|
  }

  /** One worker's loop: its jobs in order, on one running best. */
  function RunJobs(k: Kernel, js: seq<nat>, best: Best): (r: Best)
    requires Valid(k) && JobsIn(k, js)
    ensures r.utility >= best.utility
    decreases |js|
  {
    if js == [] then best else RunJobs(k, js[1..], Job(k, js[0], best))
  }

  /** The helper of worker w after all its jobs, starting from the helper state `start`. */
  function Worker(k: Kernel, threads: nat, assign: nat -> nat, w: nat, start: Best): (r: Best)
    requires Valid(k) && threads > 0
    ensures r.utility >= start.utility
  {
    RunJobs(k, WorkerJobs(|k.stats|, threads, assign, w), start)
  }

  /**
   * The reduction over workers 0 .. n-1 from the accumulator `init`: a
   * worker result replaces the accumulator only when its utility is
   * strictly greater.
   */
  function Reduce(k: Kernel, threads: nat, assign: nat -> nat, n: nat, start: Best, init: Best): (r: Best)
    requires Valid(k) && threads > 0
    ensures r.utility >= init.utility
    ensures forall w :: 0 <= w < n ==> Worker(k, threads, assign, w, start).utility <= r.utility
    ensures || r == init
            || (r.utility > init.utility && exists w :: 0 <= w < n && r == Worker(k, threads, assign, w, start))
    decreases n
  {
    if n == 0 then init
    else
      var acc := Reduce(k, threads, assign, n - 1, start, init);
      var res := Worker(k, threads, assign, n - 1, start);
      if res.utility > acc.utility then res else acc
  }

  /**
   * `eval_charms_parallel`: every worker a fresh helper, then the
   * reduction over all of them from utility 0 and an empty buffer.
   */
  function ParallelSearch(k: Kernel, threads: nat, assign: nat -> nat): (r: Best)
    requires Valid(k) && threads > 0
    ensures r.utility >= 0
  {
    Reduce(k, threads, assign, threads, InitialBest(), ReduceInit())
  }

  // ---------------------------------------------------------------------
  // The jobs visit the nonempty candidates of the serial search.
  // ---------------------------------------------------------------------

  /** The candidates a job list visits: for each job j, j followed by a subtree of j. */
  function JobCands(offset: seq<nat>, js: seq<nat>): (r: seq<seq<nat>>)
    requires forall a :: 0 <= a < |js| ==> js[a] < |offset|
    decreases |js|
  {
    if js == [] then []
    else Prepend(js[0], Cands(offset, CHARM_COUNT_MAX - 1, js[0] + offset[js[0]])) + JobCands(offset, js[1..])
  }

  /** A job from a worker's running best is the fold over its subtree, seen from the root. */
  lemma JobIsFold(k: Kernel, j: nat, best: Best)
    requires Valid(k) && j < |k.stats|
    ensures AllInRange(Prepend(j, Cands(k.offset, CHARM_COUNT_MAX - 1, j + k.offset[j])), |k.stats|)
    ensures Job(k, j, best) == FoldSel(k, Root(k), Prepend(j, Cands(k.offset, CHARM_COUNT_MAX - 1, j + k.offset[j])), best)
  {
    var sub := Cands(k.offset, CHARM_COUNT_MAX - 1, j + k.offset[j]);
    AddZerosLeft(k.stats[j]);
    assert Child(k, Root(k), j) == Node(k.stats[j], k.cp[j], EmptySlots()[0 := j], 1);
    SearchIsFold(k, CHARM_COUNT_MAX - 1, k.stats[j], k.cp[j], EmptySlots()[0 := j], j + k.offset[j], best);
    FoldPrepend(k, Root(k), j, sub, best);
  }

  lemma {:induction false} RunJobsIsFold(k: Kernel, js: seq<nat>, best: Best)
    requires Valid(k) && JobsIn(k, js)
    ensures AllInRange(JobCands(k.offset, js), |k.stats|)
    ensures RunJobs(k, js, best) == FoldSel(k, Root(k), JobCands(k.offset, js), best)
    decreases |js|
  {
    if js != [] {
      var j := js[0];
      var here := Prepend(j, Cands(k.offset, CHARM_COUNT_MAX - 1, j + k.offset[j]));
      var rest := JobCands(k.offset, js[1..]);
      assert JobCands(k.offset, js) == here + rest;
      JobIsFold(k, j, best);
      RunJobsIsFold(k, js[1..], Job(k, j, best));
      FoldAppend(k, Root(k), here, rest, best);
    }
  }

  /** The candidates of one job j are the chains of at most seven picks starting with j. */
  lemma JobHeadMembers(offset: seq<nat>, j: nat, e: seq<nat>)
    requires j < |offset|
    ensures e in Prepend(j, Cands(offset, CHARM_COUNT_MAX - 1, j + offset[j]))
        <==> e != [] && e[0] == j && |e| <= CHARM_COUNT_MAX && Chain(offset, 0, e)
  {
    var sub := Cands(offset, CHARM_COUNT_MAX - 1, j + offset[j]);
    PrependMembers(j, sub, e);
    if e != [] {
      CandsMembers(offset, CHARM_COUNT_MAX - 1, j + offset[j], e[1..]);
    }
  }

  /**
   * The candidates of a job list are exactly the nonempty chains of at
   * most seven picks whose first pick is one of the jobs.
   */
  lemma {:induction false} JobCandsMembers(offset: seq<nat>, js: seq<nat>, e: seq<nat>)
    requires forall a :: 0 <= a < |js| ==> js[a] < |offset|
    ensures e in JobCands(offset, js) <==> e != [] && |e| <= CHARM_COUNT_MAX && Chain(offset, 0, e) && e[0] in js
    decreases |js|
  {
    if js != [] {
      var j := js[0];
      var here := Prepend(j, Cands(offset, CHARM_COUNT_MAX - 1, j + offset[j]));
      var rest := JobCands(offset, js[1..]);
      assert JobCands(offset, js) == here + rest;
      JobCandsMembers(offset, js[1..], e);
      JobHeadMembers(offset, j, e);
      if e != [] {
        assert e[0] in js <==> e[0] == j || e[0] in js[1..] by {
          assert js == [j] + js[1..];
        }
      }
    }
  }

  /** A nonempty chain of at most seven picks from 0 is a selection shape the serial search considers. */
  lemma ChainSelection(k: Kernel, e: seq<nat>)
    requires Valid(k)
    ensures |e| <= CHARM_COUNT_MAX && Chain(k.offset, 0, e) <==> |e| <= CHARM_COUNT_MAX && FlatChain(k.offset, 0, e)
  {
    ChainIsFlat(k.offset, 0, e);
  }

  /**
   * A worker's result is at least the value of every valid nonempty
   * selection whose first pick it owns; it is either the helper's starting
   * state or the record of such a selection.
   */
  lemma WorkerBounds(k: Kernel, threads: nat, assign: nat -> nat, w: nat, start: Best)
    requires Valid(k) && threads > 0
    ensures forall e :: e != [] && ValidSelection(k, e) && assign(e[0]) % threads == w
                        ==> Value(k, e) <= Worker(k, threads, assign, w, start).utility
    ensures || Worker(k, threads, assign, w, start) == start
            || exists e :: e != [] && ValidSelection(k, e) && Worker(k, threads, assign, w, start) == Record(k, Root(k), e)
  {
    var js := WorkerJobs(|k.stats|, threads, assign, w);
    var cs := JobCands(k.offset, js);
    RunJobsIsFold(k, js, start);
    FoldBest(k, Root(k), cs, start);
    forall e | e != [] && ValidSelection(k, e) && assign(e[0]) % threads == w
      ensures Value(k, e) <= Worker(k, threads, assign, w, start).utility
    {
      ChainSelection(k, e);
      JobCandsMembers(k.offset, js, e);
      var a :| 0 <= a < |cs| && cs[a] == e;
    }
    var r := Worker(k, threads, assign, w, start);
    if r != start {
      var a :| 0 <= a < |cs| && Fits(k, Root(k), cs[a]) && r == Record(k, Root(k), cs[a]);
      JobCandsMembers(k.offset, js, cs[a]);
      ChainSelection(k, cs[a]);
      assert ValidSelection(k, cs[a]);
    }
  }

  /** The empty selection is valid and worth 0. */
  lemma EmptySelection(k: Kernel)
    requires Valid(k)
    ensures ValidSelection(k, []) && Value(k, []) == 0
    ensures Record(k, Root(k), []) == ReduceInit()
  {
    UtilityOfZeros(k.weights);
  }

  /** A kernel without charms admits the empty selection only. */
  lemma NoCharmsOnlyEmpty(k: Kernel)
    requires Valid(k) && |k.stats| == 0
    ensures forall e :: ValidSelection(k, e) ==> e == []
  {
    forall e | ValidSelection(k, e)
      ensures e == []
    {
      assert e == [] by {
        PicksNeedCharms(e, |k.stats|);
      }
    }
  }

  /**
   * Whatever the assignment of jobs to workers, the reduction over all
   * workers reports the serial search's utility, provided the workers
   * start below every selection's value and the reduction starts at 0.
   */
  lemma ReduceMatchesSerial(k: Kernel, threads: nat, assign: nat -> nat, start: Best, init: Best)
    requires Valid(k) && threads > 0 && start.utility < 0 && init.utility == 0
    ensures Reduce(k, threads, assign, threads, start, init).utility == Serial(k).utility
  {
    var r := Reduce(k, threads, assign, threads, start, init);
    var s := Serial(k);
    SerialOptimal(k);
    EmptySelection(k);
    var e :| ValidSelection(k, e) && Value(k, e) == s.utility && s.slots == Fill(EmptySlots(), 0, e);
    if e != [] {
      var w := assign(e[0]) % threads;
      WorkerBounds(k, threads, assign, w, start);
      assert Value(k, e) <= Worker(k, threads, assign, w, start).utility;
    }
    if r != init {
      var w :| 0 <= w < threads && r == Worker(k, threads, assign, w, start);
      WorkerBounds(k, threads, assign, w, start);
      var e' :| e' != [] && ValidSelection(k, e') && r == Record(k, Root(k), e');
      assert r.utility == Value(k, e');
    }
  }

  /**
   * The reduction leaves its starting accumulator exactly when no valid
   * nonempty selection has positive value; otherwise its buffer holds a
   * valid nonempty selection whose value is the reported utility.
   */
  lemma ReduceShape(k: Kernel, threads: nat, assign: nat -> nat, start: Best, init: Best)
    requires Valid(k) && threads > 0 && start.utility < 0 && init.utility == 0
    ensures (forall e :: e != [] && ValidSelection(k, e) ==> Value(k, e) <= 0)
            <==> Reduce(k, threads, assign, threads, start, init) == init
    ensures || Reduce(k, threads, assign, threads, start, init) == init
            || exists e :: && e != [] && ValidSelection(k, e) && Value(k, e) > 0
                           && Reduce(k, threads, assign, threads, start, init) == Best(Value(k, e), Fill(EmptySlots(), 0, e))
  {
    var r := Reduce(k, threads, assign, threads, start, init);
    if r != init {
      var w :| 0 <= w < threads && r == Worker(k, threads, assign, w, start);
      WorkerBounds(k, threads, assign, w, start);
      var e :| e != [] && ValidSelection(k, e) && r == Record(k, Root(k), e);
      assert Value(k, e) > 0;
    } else {
      forall e | e != [] && ValidSelection(k, e)
        ensures Value(k, e) <= 0
      {
        var w := assign(e[0]) % threads;
        WorkerBounds(k, threads, assign, w, start);
      }
    }
  }

  /** The result of either path: a valid selection, its value as the utility, its picks in the buffer. */
  ghost predicate Reached(k: Kernel, r: Best)
    requires Valid(k)
  {
    exists e :: ValidSelection(k, e) && Value(k, e) == r.utility && r.slots == Fill(EmptySlots(), 0, e)
  }

  /** A reached buffer holds MISSING_ID or compacted indices only. */
  lemma ReachedSlots(k: Kernel, r: Best)
    requires Valid(k) && Reached(k, r)
    ensures SlotsIn(r.slots, |k.stats|)
  {
    var e :| ValidSelection(k, e) && Value(k, e) == r.utility && r.slots == Fill(EmptySlots(), 0, e);
    FillAt(EmptySlots(), 0, e);
  }

  /**
   * `eval_charms`: the serial search for at most one thread, the parallel
   * search otherwise. Both report the best utility of any valid selection
   * and a buffer holding a selection that reaches it; when no selection
   * gains anything, both report 0 and an empty buffer.
   */
  function EvalCharms(k: Kernel, threads: nat, assign: nat -> nat): (r: Best)
    requires Valid(k)
    ensures forall e :: ValidSelection(k, e) ==> Value(k, e) <= r.utility
    ensures Reached(k, r)
    ensures SlotsIn(r.slots, |k.stats|)
    ensures (forall e :: ValidSelection(k, e) ==> Value(k, e) <= 0) ==> r == ReduceInit()
  {
    SerialOptimal(k);
    SerialNoGain(k);
    if threads <= 1 then Serial(k)
    else
      ReduceMatchesSerial(k, threads, assign, InitialBest(), ReduceInit());
      ReduceShape(k, threads, assign, InitialBest(), ReduceInit());
      EmptySelection(k);
      assert Fill(EmptySlots(), 0, []) == EmptySlots();
      ReachedSlots(k, ParallelSearch(k, threads, assign));
      ParallelSearch(k, threads, assign)
  }
}
