/** The parallel map that throttles its threads with a semaphore: a thread is created for each input
    after a wait, every thread posts when it has stored its result, and the main thread finally takes
    all the posts back. */
module ParallelMap {
  import opened Wrappers

  /** Where the main thread is; `Drain(j)` has taken `j` posts back. */
  datatype Main = Fill(i: nat) | Wait(i: nat) | Create(i: nat) | Drain(j: nat) | Join(i: nat) | Returned

  /** Where a created thread is. */
  datatype Thread<V> = Compute | Store(value: V) | Post | Return | Ended

  datatype State<V> = State(sem: nat, main: Main, args: seq<V>, threads: seq<Thread<V>>, out: seq<Option<V>>)

  /** The map that is asked for, and the number of processors. */
  datatype Task<!V> = Task(func: V -> V, input: seq<V>, processors: nat)

  function Start<V>(task: Task<V>): State<V> {
    State(task.processors, Fill(0), [], [], seq(|task.input|, _ => None))
  }

  /** `sem_wait` blocks at zero, `pthread_join` until the thread has ended. */
  predicate MainCanStep<V(==)>(s: State<V>, task: Task<V>) {
    match s.main
    case Wait(_) => s.sem > 0
    case Drain(j) => j < task.processors ==> s.sem > 0
    case Join(i) => i < |task.input| ==> i < |s.threads| && s.threads[i].Ended?
    case Returned => false
    case _ => true
  }

  function StepMain<V(==)>(s: State<V>, task: Task<V>): State<V>
    requires MainCanStep(s, task)
  {
    match s.main
    case Fill(i) =>
      if i < |task.input| then s.(args := s.args + [task.input[i]], main := Wait(i)) else s.(main := Drain(0))
    case Wait(i) => s.(sem := s.sem - 1, main := Create(i))
    case Create(i) => s.(threads := s.threads + [Compute], main := Fill(i + 1))
    case Drain(j) => if j < task.processors then s.(sem := s.sem - 1, main := Drain(j + 1)) else s.(main := Join(0))
    case Join(i) => if i < |task.input| then s.(main := Join(i + 1)) else s.(main := Returned)
  }

  predicate ThreadCanStep<V>(s: State<V>, i: nat) {
    i < |s.threads| && i < |s.args| && i < |s.out| && !s.threads[i].Ended?
  }

  function StepThread<V>(s: State<V>, i: nat, task: Task<V>): State<V>
    requires ThreadCanStep(s, i)
  {
    match s.threads[i]
    case Compute => s.(threads := s.threads[i := Store(task.func(s.args[i]))])
    case Store(value) => s.(out := s.out[i := Some(value)], threads := s.threads[i := Post])
    case Post => s.(sem := s.sem + 1, threads := s.threads[i := Return])
    case Return => s.(threads := s.threads[i := Ended])
  }

  datatype Event = MainSteps | ThreadSteps(i: nat)

  predicate CanHappen<V(==)>(s: State<V>, e: Event, task: Task<V>) {
    match e case MainSteps => MainCanStep(s, task) case ThreadSteps(i) => ThreadCanStep(s, i)
  }

  function Happen<V(==)>(s: State<V>, e: Event, task: Task<V>): State<V>
    requires CanHappen(s, e, task)
  {
    match e case MainSteps => StepMain(s, task) case ThreadSteps(i) => StepThread(s, i, task)
  }

  ghost predicate Leads<V>(s: State<V>, events: seq<Event>, t: State<V>, task: Task<V>)
    decreases |events|
  {
    if events == [] then s == t
    else CanHappen(s, events[0], task) && Leads(Happen(s, events[0], task), events[1..], t, task)
  }

  // ---------------------------------------------------------------------------------------------
  // The invariant
  // ---------------------------------------------------------------------------------------------

  predicate IsActive<V>(t: Thread<V>) { t.Compute? || t.Store? || t.Post? }

  /** Threads between their creation and their post. */
  function Active<V>(threads: seq<Thread<V>>): nat {
    if threads == [] then 0 else Active(threads[..|threads| - 1]) + (if IsActive(threads[|threads| - 1]) then 1 else 0)
  }

  lemma {:induction false} ActiveUpdate<V>(threads: seq<Thread<V>>, i: nat, t: Thread<V>)
    requires i < |threads|
    ensures Active(threads[i := t]) + (if IsActive(threads[i]) then 1 else 0)
         == Active(threads) + (if IsActive(t) then 1 else 0)
  {
    var n := |threads| - 1;
    if i < n {
      ActiveUpdate(threads[..n], i, t);
      assert threads[i := t][..n] == threads[..n][i := t];
    } else {
      assert threads[i := t][..n] == threads[..n];
    }
  }

  lemma {:induction false} SomeActive<V>(threads: seq<Thread<V>>)
    ensures Active(threads) > 0 <==> exists i :: 0 <= i < |threads| && IsActive(threads[i])
  {
    if threads != [] {
      var n := |threads| - 1;
      SomeActive(threads[..n]);
      if Active(threads[..n]) > 0 {
        var i :| 0 <= i < n && IsActive(threads[..n][i]);
        assert IsActive(threads[i]);
      } else if !IsActive(threads[n]) {
        assert forall i :: 0 <= i < n ==> threads[..n][i] == threads[i];
      }
    }
  }

  /** Posts the main thread holds: taken for a thread about to be created, or taken back. */
  function Held(main: Main): nat {
    match main case Create(_) => 1 case Drain(j) => j case _ => 0
  }

  /** The semaphore accounts for every processor. */
  ghost predicate Accounted<V>(s: State<V>, task: Task<V>) {
    match s.main
    case Join(_) => s.sem == 0 && Active(s.threads) == 0
    case Returned => s.sem == 0 && Active(s.threads) == 0
    case _ => s.sem + Active(s.threads) + Held(s.main) == task.processors
  }

  ghost predicate Progress<V>(s: State<V>, task: Task<V>) {
    var n := |task.input|;
    match s.main
    case Fill(i) => i <= n && |s.threads| == i && |s.args| == i
    case Wait(i) => i < n && |s.threads| == i && |s.args| == i + 1
    case Create(i) => i < n && |s.threads| == i && |s.args| == i + 1
    case Drain(j) => j <= task.processors && |s.threads| == |s.args| == n
    case Join(i) => i <= n && |s.threads| == |s.args| == n
    case Returned => |s.threads| == |s.args| == n
  }

  ghost predicate ThreadOk<V>(s: State<V>, i: nat, task: Task<V>)
    requires i < |s.threads| && i < |s.out| && i < |task.input|
  {
    match s.threads[i]
    case Compute => true
    case Store(value) => value == task.func(task.input[i])
    case _ => s.out[i] == Some(task.func(task.input[i]))
  }

  ghost predicate Inv<V>(s: State<V>, task: Task<V>) {
    && Accounted(s, task) && Progress(s, task)
    && |s.out| == |task.input| && s.args <= task.input
    && (forall i: nat :: i < |s.threads| ==> ThreadOk(s, i, task))
    && (s.main.Returned? ==> forall i :: 0 <= i < |s.threads| ==> s.threads[i].Ended?)
    && (s.main.Join? ==> forall i :: 0 <= i < s.main.i ==> s.threads[i].Ended?)
  }

  lemma MainKeepsInv<V>(s: State<V>, task: Task<V>)
    requires Inv(s, task) && MainCanStep(s, task)
    ensures Inv(StepMain(s, task), task)
  {
    if s.main.Create? {
      assert (s.threads + [Compute])[..|s.threads|] == s.threads;
    }
    var t := StepMain(s, task);
    forall i: nat | i < |t.threads| ensures ThreadOk(t, i, task) {
      if i < |s.threads| {
        assert ThreadOk(s, i, task);
      }
    }
  }

  lemma ThreadKeepsInv<V>(s: State<V>, i: nat, task: Task<V>)
    requires Inv(s, task) && ThreadCanStep(s, i)
    ensures Inv(StepThread(s, i, task), task)
  {
    var t := StepThread(s, i, task);
    ActiveUpdate(s.threads, i, t.threads[i]);
    SomeActive(s.threads);
    assert ThreadOk(s, i, task);
    forall j: nat | j < |t.threads| ensures ThreadOk(t, j, task) {
      assert ThreadOk(s, j, task);
    }
  }

  lemma {:induction false} LeadsKeepsInv<V>(s: State<V>, events: seq<Event>, t: State<V>, task: Task<V>)
    requires Inv(s, task) && Leads(s, events, t, task)
    ensures Inv(t, task)
    decreases |events|
  {
    if events != [] {
      match events[0] {
        case MainSteps => MainKeepsInv(s, task);
        case ThreadSteps(i) => ThreadKeepsInv(s, i, task);
      }
      LeadsKeepsInv(Happen(s, events[0], task), events[1..], t, task);
    }
  }

  // ---------------------------------------------------------------------------------------------
  // Main results
  // ---------------------------------------------------------------------------------------------

  /** In every interleaving: no more threads than processors are between their creation and their
      post; once all posts are taken back, every thread has posted; nothing blocks for ever; and when
      the function returns, every result is in its place. */
  lemma ParallelMapIsCorrect<V>(task: Task<V>, events: seq<Event>, t: State<V>)
    requires task.processors >= 1 && Leads(Start(task), events, t, task)
    ensures Active(t.threads) <= task.processors
    ensures t.main.Join? || t.main.Returned? || t.main == Drain(task.processors) ==>
              |t.threads| == |task.input| && forall i :: 0 <= i < |t.threads| ==> !IsActive(t.threads[i])
    ensures !t.main.Returned? ==> exists e :: CanHappen(t, e, task)
    ensures t.main.Returned? ==>
              |t.out| == |task.input| &&
              forall i :: 0 <= i < |t.out| ==> t.out[i] == Some(task.func(task.input[i]))
  {
    LeadsKeepsInv(Start(task), events, t, task);
    SomeActive(t.threads);
    if !t.main.Returned? {
      var e := SomeEvent(t, task);
    }
    if t.main.Returned? {
      forall i | 0 <= i < |t.out| ensures t.out[i] == Some(task.func(task.input[i])) {
        assert ThreadOk(t, i, task);
      }
    }
  }

  lemma SomeEvent<V>(s: State<V>, task: Task<V>) returns (e: Event)
    requires Inv(s, task) && task.processors >= 1 && !s.main.Returned?
    ensures CanHappen(s, e, task)
  {
    if MainCanStep(s, task) {
      e := MainSteps;
    } else if s.main.Join? {
      e := ThreadSteps(s.main.i);
    } else {
      SomeActive(s.threads);
      var i: nat :| i < |s.threads| && IsActive(s.threads[i]);
      e := ThreadSteps(i);
    }
  }

  // ---------------------------------------------------------------------------------------------
  // Termination
  // ---------------------------------------------------------------------------------------------

  function ThreadWork<V>(t: Thread<V>): nat {
    match t case Compute => 4 case Store(_) => 3 case Post => 2 case Return => 1 case Ended => 0
  }

  function ThreadsWork<V>(threads: seq<Thread<V>>): nat {
    if threads == [] then 0 else ThreadsWork(threads[..|threads| - 1]) + ThreadWork(threads[|threads| - 1])
  }

  /** Steps the main thread has left, with four for every thread still to be created. */
  function MainWork<V>(s: State<V>, task: Task<V>): int {
    var n, p := |task.input|, task.processors;
    match s.main
    case Fill(i) => 7 * (n - i) + p + n + 3
    case Wait(i) => 7 * (n - i) + p + n + 2
    case Create(i) => 7 * (n - i) + p + n + 1
    case Drain(j) => p - j + n + 2
    case Join(i) => n - i + 1
    case Returned => 0
  }

  lemma {:induction false} ThreadsWorkUpdate<V>(threads: seq<Thread<V>>, i: nat, t: Thread<V>)
    requires i < |threads|
    ensures ThreadsWork(threads[i := t]) + ThreadWork(threads[i]) == ThreadsWork(threads) + ThreadWork(t)
  {
    var n := |threads| - 1;
    if i < n {
      ThreadsWorkUpdate(threads[..n], i, t);
      assert threads[i := t][..n] == threads[..n][i := t];
    } else {
      assert threads[i := t][..n] == threads[..n];
    }
  }

  lemma EventWorks<V>(s: State<V>, e: Event, task: Task<V>)
    requires Progress(s, task) && CanHappen(s, e, task)
    ensures var t := Happen(s, e, task);
            MainWork(t, task) + ThreadsWork(t.threads) < MainWork(s, task) + ThreadsWork(s.threads)
  {
    match e
    case MainSteps => MainWorks(s, task);
    case ThreadSteps(i) =>
      hide ThreadsWork;
      ThreadsWorkUpdate(s.threads, i, StepThread(s, i, task).threads[i]);
  }

  lemma WorkIsNatural<V>(s: State<V>, task: Task<V>)
    requires Progress(s, task)
    ensures 0 <= MainWork(s, task)
  {
  }

  lemma MainWorks<V>(s: State<V>, task: Task<V>)
    requires Progress(s, task) && MainCanStep(s, task)
    ensures var t := StepMain(s, task);
            MainWork(t, task) + ThreadsWork(t.threads) < MainWork(s, task) + ThreadsWork(s.threads)
  {
    if s.main.Create? {
      assert (s.threads + [Compute])[..|s.threads|] == s.threads;
    }
  }

  lemma {:induction false} RunIsBounded<V>(s: State<V>, events: seq<Event>, t: State<V>, task: Task<V>)
    requires Inv(s, task) && Leads(s, events, t, task)
    ensures |events| <= MainWork(s, task) + ThreadsWork(s.threads)
    decreases |events|
  {
    if events == [] {
      WorkIsNatural(s, task);
    } else {
      EventWorks(s, events[0], task);
      match events[0] {
        case MainSteps => MainKeepsInv(s, task);
        case ThreadSteps(i) => ThreadKeepsInv(s, i, task);
      }
      RunIsBounded(Happen(s, events[0], task), events[1..], t, task);
    }
  }

  /** Every interleaving ends: with nothing ever blocked, the function returns. */
  lemma ParallelMapTerminates<V>(task: Task<V>, events: seq<Event>, t: State<V>)
    requires Leads(Start(task), events, t, task)
    ensures |events| <= 8 * |task.input| + task.processors + 3
  {
    RunIsBounded(Start(task), events, t, task);
  }
}
