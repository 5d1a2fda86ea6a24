/** The concurrent stack built with an atomic exchange of its head: every push exchanges the head, then
    stores what it found there as the item's successor, then stores the value. */
module AtomicStack {
  import opened Wrappers
  import opened PushOrder

  /** A list item; a field not stored yet is `None`. Items are numbered in exchange order. */
  datatype Item = Item(value: Option<int>, next: Option<Option<nat>>)

  /** Where a worker is in `add_item`. */
  datatype Phase = Idle | StoreNext(item: nat, found: Option<nat>) | StoreValue(item: nat)

  datatype Worker = Worker(i: int, phase: Phase)

  /** `order` records the values of the items in exchange order. */
  datatype Stack = Stack(items: seq<Item>, head: Option<nat>, workers: seq<Worker>, order: seq<int>)

  function Start(n: nat, k: nat): Stack {
    Stack([], None, seq(n, w requires 0 <= w < n => Worker(w * k, Idle)), [])
  }

  predicate CanStep(s: Stack, w: nat, k: nat) {
    w < |s.workers|
    && match s.workers[w].phase
       case Idle => s.workers[w].i < (w + 1) * k
       case StoreNext(item, _) => item < |s.items|
       case StoreValue(item) => item < |s.items|
  }

  /** One atomic step of worker `w`: the exchange, or one of the two stores. */
  function Step(s: Stack, w: nat, k: nat): Stack
    requires CanStep(s, w, k)
  {
    var Worker(i, phase) := s.workers[w];
    match phase
    case Idle =>
      var item := |s.items|;
      s.(items := s.items + [Item(None, None)], head := Some(item), order := s.order + [i],
         workers := s.workers[w := Worker(i, StoreNext(item, s.head))])
    case StoreNext(item, found) =>
      s.(items := s.items[item := s.items[item].(next := Some(found))],
         workers := s.workers[w := Worker(i, StoreValue(item))])
    case StoreValue(item) =>
      s.(items := s.items[item := s.items[item].(value := Some(i))],
         workers := s.workers[w := Worker(i + 1, Idle)])
  }

  ghost predicate Leads(s: Stack, schedule: seq<nat>, t: Stack, k: nat)
    decreases |schedule|
  {
    if schedule == [] then s == t
    else CanStep(s, schedule[0], k) && Leads(Step(s, schedule[0], k), schedule[1..], t, k)
  }

  predicate AllJoined(s: Stack, k: nat) {
    forall w :: 0 <= w < |s.workers| ==> s.workers[w] == Worker((w + 1) * k, Idle)
  }

  // ---------------------------------------------------------------------------------------------
  // The invariant
  // ---------------------------------------------------------------------------------------------

  function Below(j: nat): Option<nat> { if j == 0 then None else Some(j - 1) }

  /** Worker `w` is between the exchange of item `j` and the end of its push. */
  ghost predicate Owns(s: Stack, w: nat, j: nat) {
    w < |s.workers| && match s.workers[w].phase
                       case Idle => false
                       case StoreNext(item, _) => item == j
                       case StoreValue(item) => item == j
  }

  ghost predicate ItemOk(s: Stack, j: nat)
    requires j < |s.items| && j < |s.order|
  {
    && (s.items[j].next.Some? ==> s.items[j].next.value == Below(j))
    && (s.items[j].value.Some? ==> s.items[j].value.value == s.order[j])
    && ((s.items[j].next.Some? && s.items[j].value.Some?) || exists w: nat :: Owns(s, w, j))
  }

  ghost predicate PhaseOk(s: Stack, w: nat)
    requires w < |s.workers| && |s.items| == |s.order|
  {
    match s.workers[w].phase
    case Idle => true
    case StoreNext(item, found) => item < |s.items| && found == Below(item) && s.order[item] == s.workers[w].i
    case StoreValue(item) => item < |s.items| && s.items[item].next.Some? && s.order[item] == s.workers[w].i
  }

  function Pushed(x: Worker): int { if x.phase.Idle? then x.i else x.i + 1 }

  ghost predicate ItemsOk(s: Stack) {
    && |s.items| == |s.order| && s.head == Below(|s.items|)
    && (forall j: nat :: j < |s.items| ==> ItemOk(s, j))
    && forall w: nat :: w < |s.workers| ==> PhaseOk(s, w)
  }

  ghost predicate OrderOk(s: Stack, n: nat, k: nat) {
    && |s.workers| == n && (forall v <- s.order :: 0 <= v < n * k)
    && (forall w: nat :: w < n ==> w * k <= s.workers[w].i && Pushed(s.workers[w]) <= (w + 1) * k)
    && forall w: nat :: w < n ==> Mine(s.order, w, k) == Range(w * k, Pushed(s.workers[w]))
  }

  lemma StartInv(n: nat, k: nat)
    ensures ItemsOk(Start(n, k)) && OrderOk(Start(n, k), n, k)
  {
    forall w: nat | w < n ensures w * k <= (w + 1) * k {
      MulMonotone(w, w + 1, k);
    }
  }

  lemma StepKeepsItems(s: Stack, w: nat, k: nat)
    requires ItemsOk(s) && CanStep(s, w, k)
    ensures ItemsOk(Step(s, w, k))
  {
    var t := Step(s, w, k);
    forall j: nat | j < |t.items| ensures ItemOk(t, j) {
      StepKeepsItem(s, w, k, j);
    }
    forall u: nat | u < |t.workers| ensures PhaseOk(t, u) {
      assert PhaseOk(s, u) && PhaseOk(s, w);
    }
  }

  lemma StepKeepsItem(s: Stack, w: nat, k: nat, j: nat)
    requires ItemsOk(s) && CanStep(s, w, k) && j < |Step(s, w, k).items|
    ensures ItemOk(Step(s, w, k), j)
  {
    var t := Step(s, w, k);
    assert PhaseOk(s, w);
    if j < |s.items| {
      assert ItemOk(s, j);
      if !(t.items[j].next.Some? && t.items[j].value.Some?) {
        var u: nat :| Owns(s, u, j);
        assert Owns(t, u, j);
      }
    } else {
      assert Owns(t, w, j);
    }
  }

  lemma StepKeepsOrder(s: Stack, n: nat, k: nat, w: nat)
    requires OrderOk(s, n, k) && CanStep(s, w, k)
    ensures OrderOk(Step(s, w, k), n, k)
  {
    if s.workers[w].phase.Idle? {
      var v := s.workers[w].i;
      ValueBound(w, n, k, v);
      MineAfterPush(s.order, v, w, k);
    }
  }

  lemma {:induction false} LeadsKeepsInv(s: Stack, n: nat, k: nat, schedule: seq<nat>, t: Stack)
    requires ItemsOk(s) && OrderOk(s, n, k) && Leads(s, schedule, t, k)
    ensures ItemsOk(t) && OrderOk(t, n, k)
    decreases |schedule|
  {
    if schedule != [] {
      StepKeepsItems(s, schedule[0], k);
      StepKeepsOrder(s, n, k, schedule[0]);
      LeadsKeepsInv(Step(s, schedule[0], k), n, k, schedule[1..], t);
    }
  }

  // ---------------------------------------------------------------------------------------------
  // Main results
  // ---------------------------------------------------------------------------------------------

  /** Every item holds its value and leads to the one exchanged before it. */
  predicate Chained(s: Stack) {
    && |s.items| == |s.order| && s.head == Below(|s.items|)
    && forall j :: 0 <= j < |s.items| ==> s.items[j] == Item(Some(s.order[j]), Some(Below(j)))
  }

  /** In every interleaving, once all workers have returned, no store is missing, every value from 0
      to `n * k` was exchanged once, and each worker's values in its own order. */
  lemma StackIsComplete(n: nat, k: nat, schedule: seq<nat>, t: Stack)
    requires Leads(Start(n, k), schedule, t, k) && AllJoined(t, k)
    ensures Chained(t) && Complete(t.order, n, k)
    ensures |t.order| == n * k && forall v :: multiset(t.order)[v] == if 0 <= v < n * k then 1 else 0
    ensures OwnOrder(t.order, n, k)
  {
    StartInv(n, k);
    LeadsKeepsInv(Start(n, k), n, k, schedule, t);
    AllStored(t, k);
    forall w: nat | w < n ensures Mine(t.order, w, k) == Range(w * k, (w + 1) * k) {
      assert t.workers[w] == Worker((w + 1) * k, Idle);
    }
    CompleteIsPermutation(t.order, n, k);
    CompleteKeepsOrder(t.order, n, k);
  }

  lemma AllStored(t: Stack, k: nat)
    requires ItemsOk(t) && AllJoined(t, k)
    ensures Chained(t)
  {
    assert forall w: nat, j: nat :: !Owns(t, w, j);
    forall j | 0 <= j < |t.items| ensures t.items[j] == Item(Some(t.order[j]), Some(Below(j))) {
      assert ItemOk(t, j);
    }
  }

  function Reversed(s: seq<int>): seq<int> {
    if s == [] then [] else [s[|s| - 1]] + Reversed(s[..|s| - 1])
  }

  /** The first value comes last. */
  lemma {:induction false} ReversedAt(s: seq<int>, j: nat)
    ensures |Reversed(s)| == |s|
    ensures j < |s| ==> Reversed(s)[j] == s[|s| - 1 - j]
  {
    if s != [] {
      var front := s[..|s| - 1];
      ReversedAt(front, if j > 0 then j - 1 else 0);
      assert Reversed(s) == [s[|s| - 1]] + Reversed(front);
      hide Reversed;
    }
  }

  /** `print_list`: recursion down the chain, on an item that must exist. */
  method PrintList(s: Stack, cur: nat) returns (printed: seq<int>)
    requires Chained(s) && cur < |s.items|
    ensures printed == Reversed(s.order[..cur + 1])
    decreases cur
  {
    printed := [s.items[cur].value.value];
    assert s.order[..cur + 1][..cur] == s.order[..cur];
    if s.items[cur].next.value != None {
      var rest := PrintList(s, s.items[cur].next.value.value);
      printed := printed + rest;
    } else {
      assert s.order[..0] == [];
    }
  }

  /** `main` after the joins: the values come out in reverse exchange order; with nothing pushed the
      null head would be dereferenced, which is `None` here. */
  method PrintAll(s: Stack) returns (printed: Option<seq<int>>)
    requires Chained(s)
    ensures printed == None <==> s.order == []
    ensures printed.Some? ==>
              |printed.value| == |s.order|
              && forall j :: 0 <= j < |s.order| ==> printed.value[j] == s.order[|s.order| - 1 - j]
  {
    if s.head.None? { return None; }
    var all := PrintList(s, s.head.value);
    assert s.order[..|s.order|] == s.order;
    ReversedAt(s.order, 0);
    forall j | 0 <= j < |s.order| ensures all[j] == s.order[|s.order| - 1 - j] {
      ReversedAt(s.order, j);
    }
    return Some(all);
  }

  /** The program dereferences a null head exactly when there is nothing to push. */
  lemma PrintableExactly(n: nat, k: nat, schedule: seq<nat>, t: Stack)
    requires Leads(Start(n, k), schedule, t, k) && AllJoined(t, k)
    ensures t.head.Some? <==> n > 0 && k > 0
  {
    StackIsComplete(n, k, schedule, t);
    if n > 0 && k > 0 {
      MulMonotone(1, n, k);
    }
  }
}
