/** The concurrent queue built with an atomic exchange of its tail: every push exchanges the tail, then
    links the node it found there, then counts, and other workers may run in between. */
module AtomicQueue {
  import opened Wrappers
  import opened PushOrder

  /** A list item; items are numbered in the order of their exchanges. */
  datatype Item = Item(value: int, next: Option<nat>)

  /** Where a worker is in `list_push`. */
  datatype Phase = Idle | Linking(item: nat, prev: Option<nat>) | Counting

  /** A worker's loop index and place. */
  datatype Worker = Worker(i: int, phase: Phase)

  datatype Queue = Queue(items: seq<Item>, head: Option<nat>, tail: Option<nat>, size: nat, workers: seq<Worker>)

  function Start(n: nat, k: nat): Queue {
    Queue([], None, None, 0, seq(n, w requires 0 <= w < n => Worker(w * k, Idle)))
  }

  function Values(items: seq<Item>): (vs: seq<int>)
    ensures |vs| == |items| && forall j :: 0 <= j < |items| ==> vs[j] == items[j].value
  {
    seq(|items|, j requires 0 <= j < |items| => items[j].value)
  }

  /** The worker still has a value to push, or is in the middle of a push. */
  predicate CanStep(q: Queue, w: nat, k: nat) {
    w < |q.workers| && (q.workers[w].phase.Idle? ==> q.workers[w].i < (w + 1) * k)
    && (q.workers[w].phase.Linking? && q.workers[w].phase.prev.Some? ==> q.workers[w].phase.prev.value < |q.items|)
  }

  /** One atomic step of worker `w`: the exchange, the link, or the count. */
  function Step(q: Queue, w: nat, k: nat): Queue
    requires CanStep(q, w, k)
  {
    var Worker(i, phase) := q.workers[w];
    match phase
    case Idle =>
      var item := |q.items|;
      q.(items := q.items + [Item(i, None)], tail := Some(item),
         workers := q.workers[w := Worker(i, Linking(item, q.tail))])
    case Linking(item, prev) =>
      var t := q.(workers := q.workers[w := Worker(i, Counting)]);
      if prev.None? then t.(head := Some(item))
      else t.(items := q.items[prev.value := q.items[prev.value].(next := Some(item))])
    case Counting =>
      q.(size := q.size + 1, workers := q.workers[w := Worker(i + 1, Idle)])
  }

  /** `t` is reached from `q` by steps of the workers in `schedule`. */
  ghost predicate Leads(q: Queue, schedule: seq<nat>, t: Queue, k: nat)
    decreases |schedule|
  {
    if schedule == [] then q == t
    else CanStep(q, schedule[0], k) && Leads(Step(q, schedule[0], k), schedule[1..], t, k)
  }

  /** Every worker has returned. */
  predicate AllJoined(q: Queue, k: nat) {
    forall w :: 0 <= w < |q.workers| ==> q.workers[w] == Worker((w + 1) * k, Idle)
  }

  // ---------------------------------------------------------------------------------------------
  // The invariant
  // ---------------------------------------------------------------------------------------------

  /** Item `j` can be reached from the one before it, or from the head when it is the first. */
  predicate Linked(q: Queue, j: nat)
    requires j < |q.items|
  {
    if j == 0 then q.head == Some(0) else q.items[j - 1].next == Some(j)
  }

  ghost predicate BeingLinked(q: Queue, j: nat) {
    exists w :: 0 <= w < |q.workers| && q.workers[w].phase == Linking(j, if j == 0 then None else Some(j - 1))
  }

  /** Items already exchanged but not yet counted. */
  function Busy(workers: seq<Worker>): nat {
    if workers == [] then 0 else (if workers[0].phase.Idle? then 0 else 1) + Busy(workers[1..])
  }

  lemma {:induction false} BusyUpdate(workers: seq<Worker>, w: nat, x: Worker)
    requires w < |workers|
    ensures Busy(workers[w := x]) + (if workers[w].phase.Idle? then 0 else 1)
         == Busy(workers) + (if x.phase.Idle? then 0 else 1)
  {
    if w > 0 {
      BusyUpdate(workers[1..], w - 1, x);
      assert workers[w := x][1..] == workers[1..][w - 1 := x];
    } else {
      assert workers[w := x][1..] == workers[1..];
    }
  }

  /** How far worker `w` has come, counting a push from its exchange on. */
  function Pushed(x: Worker): int { if x.phase.Idle? then x.i else x.i + 1 }

  ghost predicate WorkersOk(q: Queue, n: nat, k: nat) {
    && |q.workers| == n
    && (forall w: nat :: w < n ==> w * k <= q.workers[w].i && Pushed(q.workers[w]) <= (w + 1) * k)
    && forall w: nat :: w < n ==> Mine(Values(q.items), w, k) == Range(w * k, Pushed(q.workers[w]))
  }

  ghost predicate LinksOk(q: Queue) {
    && q.tail == (if q.items == [] then None else Some(|q.items| - 1))
    && (q.head.Some? ==> q.head == Some(0) && q.items != [])
    && (forall j :: 0 <= j < |q.items| ==> q.items[j].next.None? || (q.items[j].next == Some(j + 1) && j + 1 < |q.items|))
    && (forall w :: 0 <= w < |q.workers| && q.workers[w].phase.Linking? ==>
          var x := q.workers[w].phase;
          x.item < |q.items| && x.prev == (if x.item == 0 then None else Some(x.item - 1)))
    && forall j: nat :: j < |q.items| ==> Linked(q, j) || BeingLinked(q, j)
  }

  ghost predicate Inv(q: Queue, n: nat, k: nat) {
    && WorkersOk(q, n, k) && LinksOk(q)
    && q.size + Busy(q.workers) == |q.items|
    && forall v <- Values(q.items) :: 0 <= v < n * k
  }

  lemma {:induction false} BusyNone(workers: seq<Worker>)
    requires forall w :: 0 <= w < |workers| ==> workers[w].phase.Idle?
    ensures Busy(workers) == 0
  {
    if workers != [] {
      BusyNone(workers[1..]);
    }
  }

  lemma StartInv(n: nat, k: nat)
    ensures Inv(Start(n, k), n, k)
  {
    BusyNone(Start(n, k).workers);
    forall w: nat | w < n ensures w * k <= (w + 1) * k {
      MulMonotone(w, w + 1, k);
    }
  }

  lemma StepKeepsLinks(q: Queue, w: nat, k: nat)
    requires LinksOk(q) && CanStep(q, w, k)
    ensures LinksOk(Step(q, w, k))
  {
    var t := Step(q, w, k);
    forall j: nat | j < |t.items| ensures Linked(t, j) || BeingLinked(t, j) {
      if j < |q.items| {
        if Linked(q, j) {
          assert Linked(t, j);
        } else {
          var u :| 0 <= u < |q.workers| && q.workers[u].phase == Linking(j, if j == 0 then None else Some(j - 1));
          if u == w {
            assert Linked(t, j);
          } else {
            assert t.workers[u].phase == q.workers[u].phase;
          }
        }
      } else {
        assert t.workers[w].phase == Linking(j, if j == 0 then None else Some(j - 1));
      }
    }
  }

  lemma StepKeepsWorkers(q: Queue, n: nat, k: nat, w: nat)
    requires Inv(q, n, k) && CanStep(q, w, k)
    ensures WorkersOk(Step(q, w, k), n, k)
    ensures forall v <- Values(Step(q, w, k).items) :: 0 <= v < n * k
  {
    hide Values, Mine, Range, LinksOk;
    StepValues(q, w, k);
    if q.workers[w].phase.Idle? {
      var v := q.workers[w].i;
      ValueBound(w, n, k, v);
      MineAfterPush(Values(q.items), v, w, k);
      RangeGrows(w * k, v);
    }
  }

  lemma StepValues(q: Queue, w: nat, k: nat)
    requires CanStep(q, w, k) && LinksOk(q)
    ensures Values(Step(q, w, k).items)
         == if q.workers[w].phase.Idle? then Values(q.items) + [q.workers[w].i] else Values(q.items)
  {
  }

  lemma RangeGrows(a: int, b: int)
    requires a <= b
    ensures Range(a, b + 1) == Range(a, b) + [b]
  {
  }

  lemma StepKeepsInv(q: Queue, n: nat, k: nat, w: nat)
    requires Inv(q, n, k) && CanStep(q, w, k)
    ensures Inv(Step(q, w, k), n, k)
  {
    StepKeepsLinks(q, w, k);
    StepKeepsWorkers(q, n, k, w);
    BusyUpdate(q.workers, w, Step(q, w, k).workers[w]);
  }

  lemma {:induction false} LeadsKeepsInv(q: Queue, n: nat, k: nat, schedule: seq<nat>, t: Queue)
    requires Inv(q, n, k) && Leads(q, schedule, t, k)
    ensures Inv(t, n, k)
    decreases |schedule|
  {
    if schedule != [] {
      StepKeepsInv(q, n, k, schedule[0]);
      LeadsKeepsInv(Step(q, schedule[0], k), n, k, schedule[1..], t);
    }
  }

  /** In every interleaving, once all workers have returned: the chain from the head runs through all
      items in exchange order, its length is counted exactly, every value from 0 to `n * k` is in it
      once, and each worker's values are in its own order. */
  lemma QueueIsComplete(n: nat, k: nat, schedule: seq<nat>, t: Queue)
    requires Leads(Start(n, k), schedule, t, k) && AllJoined(t, k)
    ensures Chained(t) && t.size == |t.items|
    ensures Complete(Values(t.items), n, k)
    ensures |t.items| == n * k && forall v :: multiset(Values(t.items))[v] == if 0 <= v < n * k then 1 else 0
    ensures OwnOrder(Values(t.items), n, k)
  {
    StartInv(n, k);
    LeadsKeepsInv(Start(n, k), n, k, schedule, t);
    BusyNone(t.workers);
    AllLinked(t);
    AllPushed(t, n, k);
    CompleteIsPermutation(Values(t.items), n, k);
    CompleteKeepsOrder(Values(t.items), n, k);
  }

  lemma AllLinked(t: Queue)
    requires LinksOk(t) && forall w :: 0 <= w < |t.workers| ==> t.workers[w].phase.Idle?
    ensures Chained(t)
  {
    assert forall j: nat :: j < |t.items| ==> !BeingLinked(t, j);
    forall j | 0 <= j < |t.items|
      ensures t.items[j].next == if j + 1 < |t.items| then Some(j + 1) else None
    {
      if j + 1 < |t.items| {
        assert Linked(t, j + 1);
      }
    }
    assert t.items != [] ==> Linked(t, 0);
  }

  lemma AllPushed(t: Queue, n: nat, k: nat)
    requires Inv(t, n, k) && AllJoined(t, k)
    ensures Complete(Values(t.items), n, k)
  {
    forall w: nat | w < n ensures Mine(Values(t.items), w, k) == Range(w * k, (w + 1) * k) {
      assert t.workers[w] == Worker((w + 1) * k, Idle);
    }
  }

  /** Every item is linked behind the one exchanged before it. */
  predicate Chained(q: Queue) {
    && q.head == (if q.items == [] then None else Some(0))
    && forall j :: 0 <= j < |q.items| ==> q.items[j].next == if j + 1 < |q.items| then Some(j + 1) else None
  }

  /** The traversal of `main`: it never follows a null link and prints the values in exchange order. */
  method Traverse(q: Queue) returns (printed: seq<int>)
    requires Chained(q) && q.size == |q.items|
    ensures |printed| == |q.items| && forall j :: 0 <= j < |q.items| ==> printed[j] == q.items[j].value
  {
    printed := [];
    var item := q.head;
    for i := 0 to q.size
      invariant printed == Values(q.items)[..i]
      invariant item == if i < |q.items| then Some(i) else None
    {
      printed := printed + [q.items[item.value].value];
      item := q.items[item.value].next;
    }
  }

  /** A worker that has not returned can always step: nothing ever blocks. */
  lemma NothingBlocks(n: nat, k: nat, schedule: seq<nat>, t: Queue, w: nat)
    requires Leads(Start(n, k), schedule, t, k) && w < n
    ensures t.workers != [] && w < |t.workers| && (CanStep(t, w, k) <==> t.workers[w] != Worker((w + 1) * k, Idle))
  {
    StartInv(n, k);
    LeadsKeepsInv(Start(n, k), n, k, schedule, t);
  }
}
