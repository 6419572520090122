/**
 * The ordered worker pool: tasks are stamped with their submission index,
 * executed in whatever order the workers finish them, and their tagged
 * results are scattered into an output array by index. The goroutines and
 * channels are replaced by a completion order, a permutation of the task
 * indices that the caller supplies; the properties hold for every such order.
 */
module WorkerPool {
  import Sets

  /** A queued unit of work: its submission index and the function to run. */
  datatype Task<T> = Task(index: int, work: () -> T)

  /** A worker's output, tagged with the index of the task that produced it. */
  datatype Result<T> = Result(index: int, value: T)

  /** The number of tasks the task queue buffers. */
  const QueueCapacity := 100

  /** Task `k` of the queue carries index `k`. */
  ghost predicate Stamped<T>(ts: seq<Task<T>>)
  {
    forall k :: 0 <= k < |ts| ==> ts[k].index == k
  }

  /** `order` lists the indices below `n`, each one once: an order of completion. */
  predicate IsPermutation(order: seq<nat>, n: nat)
  {
    && |order| == n
    && (forall j :: 0 <= j < |order| ==> order[j] < n)
    && (forall j1, j2 :: 0 <= j1 < j2 < |order| ==> order[j1] != order[j2])
  }

  /** What the caller expects: the value of task `i` at position `i`. */
  function Sequential<T>(ts: seq<Task<T>>): (r: seq<T>)
    ensures |r| == |ts|
    ensures forall i :: 0 <= i < |ts| ==> r[i] == ts[i].work()
  {
    seq(|ts|, i requires 0 <= i < |ts| => ts[i].work())
  }

  /** The tagged results, in the order the tasks complete. */
  function Arrivals<T>(ts: seq<Task<T>>, order: seq<nat>): (r: seq<Result<T>>)
    requires forall j :: 0 <= j < |order| ==> order[j] < |ts|
    ensures |r| == |order|
    ensures forall j :: 0 <= j < |order| ==> r[j] == Result(ts[order[j]].index, ts[order[j]].work())
  {
    seq(|order|, j requires 0 <= j < |order| => Result(ts[order[j]].index, ts[order[j]].work()))
  }

  /**
   * The output after writing each result, in turn, to the slot its index
   * names, starting from `n` slots of `zero`.
   */
  function Scatter<T>(rs: seq<Result<T>>, n: nat, zero: T): (r: seq<T>)
    requires forall j :: 0 <= j < |rs| ==> 0 <= rs[j].index < n
    ensures |r| == n
  {
    if rs == [] then seq(n, _ => zero)
    else
      var last := rs[|rs| - 1];
      Scatter(rs[..|rs| - 1], n, zero)[last.index := last.value]
  }

  /** A result that no later result overwrites is what its slot finally holds. */
  lemma {:induction false} ScatterLast<T>(rs: seq<Result<T>>, n: nat, zero: T, j: nat)
    requires forall j :: 0 <= j < |rs| ==> 0 <= rs[j].index < n
    requires j < |rs|
    requires forall k :: j < k < |rs| ==> rs[k].index != rs[j].index
    ensures Scatter(rs, n, zero)[rs[j].index] == rs[j].value
  {
    if j < |rs| - 1 {
      ScatterLast(rs[..|rs| - 1], n, zero, j);
    }
  }

  /** A slot that no result names keeps `zero`. */
  lemma {:induction false} ScatterUntouched<T>(rs: seq<Result<T>>, n: nat, zero: T, i: nat)
    requires forall j :: 0 <= j < |rs| ==> 0 <= rs[j].index < n
    requires i < n
    requires forall j :: 0 <= j < |rs| ==> rs[j].index != i
    ensures Scatter(rs, n, zero)[i] == zero
  {
    if rs != [] {
      ScatterUntouched(rs[..|rs| - 1], n, zero, i);
    }
  }

  /** The values a sequence holds. */
  function Elements(s: seq<nat>): (r: set<nat>)
    ensures forall x :: x in r <==> x in s
  {
    if s == [] then {} else Elements(s[..|s| - 1]) + {s[|s| - 1]}
  }

  /** The elements of a sequence without repeats are as many as its length. */
  lemma {:induction false} DistinctSize(s: seq<nat>)
    requires forall j1, j2 :: 0 <= j1 < j2 < |s| ==> s[j1] != s[j2]
    ensures |Elements(s)| == |s|
  {
    if s != [] {
      var p := s[..|s| - 1];
      DistinctSize(p);
      assert s[|s| - 1] !in p;
    }
  }

  /** The indices below `n`. */
  function Below(n: nat): (r: set<nat>)
    ensures forall k: int :: k in r <==> 0 <= k < n
  {
    if n == 0 then {} else Below(n - 1) + {n - 1}
  }

  /** There are `n` indices below `n`. */
  lemma {:induction false} BelowSize(n: nat)
    ensures |Below(n)| == n
  {
    if n > 0 {
      BelowSize(n - 1);
      assert n - 1 !in Below(n - 1);
    }
  }

  /** Every index below `n` completes: a completion order leaves no task out. */
  lemma {:induction false} EveryIndexArrives(order: seq<nat>, n: nat)
    requires IsPermutation(order, n)
    ensures forall k :: 0 <= k < n ==> k in order
  {
    DistinctSize(order);
    BelowSize(n);
    Sets.SubsetOfSameSize(Elements(order), Below(n));
  }

  /** The number of times a sequence without repeats holds `x` is at most one. */
  lemma {:induction false} DistinctCount(s: seq<nat>, x: nat)
    requires forall j1, j2 :: 0 <= j1 < j2 < |s| ==> s[j1] != s[j2]
    ensures multiset(s)[x] == if x in s then 1 else 0
  {
    if s != [] {
      var p := s[..|s| - 1];
      assert s == p + [s[|s| - 1]];
      DistinctCount(p, x);
    }
  }

  /** Each task of the queue is executed exactly once, whatever the completion order. */
  lemma {:induction false} EachTaskOnce(order: seq<nat>, n: nat)
    requires IsPermutation(order, n)
    ensures forall i :: 0 <= i < n ==> multiset(order)[i] == 1
  {
    EveryIndexArrives(order, n);
    forall i | 0 <= i < n ensures multiset(order)[i] == 1 {
      DistinctCount(order, i);
    }
  }

  /** The indices the results are tagged with, in arrival order. */
  function Indices<T>(rs: seq<Result<T>>): (r: seq<int>)
    ensures |r| == |rs|
    ensures forall j :: 0 <= j < |rs| ==> r[j] == rs[j].index
  {
    seq(|rs|, j requires 0 <= j < |rs| => rs[j].index)
  }

  /**
   * The tagged results carry every task index exactly once: no slot of the
   * output is skipped and none is written twice.
   */
  lemma {:induction false} ArrivalsCoverIndices<T>(ts: seq<Task<T>>, order: seq<nat>)
    requires Stamped(ts) && IsPermutation(order, |ts|)
    ensures forall i :: 0 <= i < |ts| ==> multiset(Indices(Arrivals(ts, order)))[i] == 1
  {
    var ix := Indices(Arrivals(ts, order));
    assert ix == order;
    EachTaskOnce(order, |ts|);
  }

  /**
   * The ordering guarantee: for every completion order, scattering the
   * tagged results of stamped tasks gives the value of task `i` at `i`.
   */
  lemma {:induction false} ScatterInOrder<T>(ts: seq<Task<T>>, order: seq<nat>, zero: T)
    requires Stamped(ts) && IsPermutation(order, |ts|)
    ensures Scatter(Arrivals(ts, order), |ts|, zero) == Sequential(ts)
  {
    var rs := Arrivals(ts, order);
    var out := Scatter(rs, |ts|, zero);
    EveryIndexArrives(order, |ts|);
    forall i | 0 <= i < |ts| ensures out[i] == ts[i].work() {
      assert i in order;
      var j :| 0 <= j < |order| && order[j] == i;
      assert rs[j].index == i;
      ScatterLast(rs, |ts|, zero, j);
    }
  }

  /** The collector: each result is written to the slot its index names. */
  method Collect<T>(results: seq<Result<T>>, n: nat, zero: T) returns (output: array<T>)
    requires forall j :: 0 <= j < |results| ==> 0 <= results[j].index < n
    ensures fresh(output)
    ensures output[..] == Scatter(results, n, zero)
  {
    output := new T[n](_ => zero);
    for j := 0 to |results|
      invariant output[..] == Scatter(results[..j], n, zero)
    {
      assert results[..j + 1][..j] == results[..j];
      output[results[j].index] := results[j].value;
    }
    assert results[..|results|] == results;
  }

  class Pool<T> {
    const workerCount: int
    /** The task queue: submitted tasks that no worker has taken yet. */
    var tasks: seq<Task<T>>
    var taskCount: int
    /** Whether `Run` has closed the task queue. */
    var closed: bool

    /**
     * Before `Run`, the queue holds every submitted task, task `k` carrying
     * index `k`, and fits the buffer.
     */
    ghost predicate Valid()
      reads this
    {
      && 0 <= taskCount
      && (!closed ==> |tasks| == taskCount <= QueueCapacity && Stamped(tasks))
    }

    /** A pool with the given number of workers and an empty, open queue. */
    constructor (workerCount: int)
      ensures Valid()
      ensures this.workerCount == workerCount && tasks == [] && taskCount == 0 && !closed
    {
      this.workerCount := workerCount;
      tasks := [];
      taskCount := 0;
      closed := false;
    }

    /**
     * Queues `work` under the next index. The queue must be open and, with
     * no worker running yet, not full: the send would block forever.
     */
    method Submit(work: () -> T)
      requires Valid() && !closed && taskCount < QueueCapacity
      modifies this`tasks, this`taskCount
      ensures Valid()
      ensures tasks == old(tasks) + [Task(old(taskCount), work)]
      ensures taskCount == old(taskCount) + 1
    {
      tasks := tasks + [Task(taskCount, work)];
      taskCount := taskCount + 1;
    }

    /**
     * Closes the queue; the workers execute every task once, finishing in
     * `order`, and the collector scatters their results. Without workers
     * nothing runs and every slot keeps `zero`, the nil of the output.
     */
    method Run(order: seq<nat>, zero: T) returns (output: array<T>)
      requires Valid() && !closed && IsPermutation(order, taskCount)
      modifies this`tasks, this`closed
      ensures Valid() && closed
      ensures tasks == if workerCount > 0 then [] else old(tasks)
      ensures fresh(output) && output.Length == taskCount
      ensures output[..] == if workerCount > 0 then Sequential(old(tasks)) else seq(taskCount, _ => zero)
    {
      closed := true;
      var results: seq<Result<T>> := [];
      if workerCount > 0 {
        for j := 0 to |order|
          invariant results == Arrivals(tasks, order[..j])
        {
          var t := tasks[order[j]];
          results := results + [Result(t.index, t.work())];
        }
        assert order[..|order|] == order;
        ScatterInOrder(tasks, order, zero);
        tasks := [];
      }
      output := Collect(results, taskCount, zero);
    }
  }

  /**
   * Three workers run three tasks returning the squares of 0, 1 and 2: in
   * whatever order they finish, the output lists 0, 1 and 4.
   */
  method SquaresInOrder(order: seq<nat>) returns (output: array<int>)
    requires IsPermutation(order, 3)
    ensures output[..] == [0, 1, 4]
  {
    var pool := new Pool<int>(3);
    pool.Submit(() => 0 * 0);
    pool.Submit(() => 1 * 1);
    pool.Submit(() => 2 * 2);
    output := pool.Run(order, 0);
  }

  /** With nothing submitted, `Run` returns an empty output. */
  method RunWithoutTasks(workerCount: int) returns (output: array<int>)
    ensures output.Length == 0
  {
    var pool := new Pool<int>(workerCount);
    output := pool.Run([], 0);
  }
}
