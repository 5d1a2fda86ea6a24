/** The prime generator and the printing main thread that hand numbers over through one shared
    variable, one mutex and one condition variable, as a step system. */
module Condvar {
  import opened Primes

  // ---------------------------------------------------------------------------------------------
  // Primes
  // ---------------------------------------------------------------------------------------------

  /** A proper divisor is at most half. */
  lemma DivisorAtMostHalf(n: int, d: int)
    requires 2 <= d < n && n % d == 0
    ensures d <= n / 2
  {
    var k := n / d;
    assert n == d * k;
    Multiples(d, k);
  }

  lemma Multiples(d: int, k: int)
    requires d >= 2
    ensures if k <= 1 then d * k <= d else d * k >= 2 * d
  {
  }

  /** `prime`: trial division up to half of the number. */
  method Prime(number: int) returns (r: bool)
    ensures r <==> IsPrime(number)
  {
    if number <= 1 { return false; }
    if number % 2 == 0 { return number == 2; }
    var i := 2;
    while i <= number / 2
      invariant 2 <= i && forall d :: 2 <= d < i ==> number % d != 0
      decreases number - i
    {
      if number % i == 0 { return false; }
      i := i + 1;
    }
    forall d | 2 <= d < number ensures number % d != 0 {
      if number % d == 0 {
        DivisorAtMostHalf(number, d);
      }
    }
    return true;
  }

  /** The primes from `a` to `b`, ascending. */
  ghost function PrimesIn(a: int, b: int): seq<int>
    decreases b - a
  {
    if a > b then [] else (if IsPrime(a) then [a] else []) + PrimesIn(a + 1, b)
  }

  /** Exactly the primes of the range, each once, from the smallest up. */
  lemma {:induction false} PrimesInRange(a: int, b: int)
    ensures forall p :: p in PrimesIn(a, b) <==> a <= p <= b && IsPrime(p)
    ensures forall i, j :: 0 <= i < j < |PrimesIn(a, b)| ==> PrimesIn(a, b)[i] < PrimesIn(a, b)[j]
    decreases b - a
  {
    hide IsPrime;
    if a <= b {
      var rest := PrimesIn(a + 1, b);
      PrimesInRange(a + 1, b);
      assert forall i :: 0 <= i < |rest| ==> rest[i] in rest;
    }
  }

  // ---------------------------------------------------------------------------------------------
  // The two threads
  // ---------------------------------------------------------------------------------------------

  /** Where the generator is: about to do what the name says. */
  datatype Generator =
    | GLockFirst | GScan | GUnlock | GSignal | GLock | GCheck | GWaiting | GRelock
    | GFinish | GUnlockLast | GSignalLast | GDone

  /** Where the main thread is. */
  datatype Printer =
    | PLockFirst | PLoop | PUnlock | PSignal | PLock | PCheck | PWaiting | PRelock
    | PUnlockLast | PSignalLast | PJoin | PDone

  datatype Owner = Nobody | TheGenerator | ThePrinter

  const EMPTY: int := -1
  const END: int := -2

  /** The arguments of the program: the range and how many primes to print. */
  datatype Args = Args(a: int, b: int, n: int)

  /** The shared variable and mutex, the program counters and locals, and the output so far. */
  datatype State = State(owner: Owner, shared: int, g: Generator, i: int, found: nat,
                         p: Printer, readed: nat, printed: seq<int>)

  function Start(args: Args): State {
    State(Nobody, EMPTY, GLockFirst, args.a, 0, PLockFirst, 0, [])
  }

  predicate Finished(s: State) { s.g == GDone && s.p == PDone }

  /** A lock can be taken when nobody holds it; a waiting or finished thread takes no step. */
  predicate GeneratorCanStep(s: State) {
    match s.g
    case GLockFirst => s.owner == Nobody
    case GLock => s.owner == Nobody
    case GRelock => s.owner == Nobody
    case GWaiting => false
    case GDone => false
    case _ => true
  }

  predicate PrinterCanStep(s: State) {
    match s.p
    case PLockFirst => s.owner == Nobody
    case PLock => s.owner == Nobody
    case PRelock => s.owner == Nobody
    case PWaiting => false
    case PJoin => s.g == GDone
    case PDone => false
    case _ => true
  }

  /** A signal wakes the other thread if it is waiting, and is lost otherwise. */
  function WakePrinter(p: Printer): Printer { if p == PWaiting then PRelock else p }

  function WakeGenerator(g: Generator): Generator { if g == GWaiting then GRelock else g }

  ghost function StepGenerator(s: State, args: Args): State
    requires GeneratorCanStep(s)
  {
    match s.g
    case GLockFirst => s.(owner := TheGenerator, g := GScan)
    case GScan =>
      if s.i > args.b then s.(g := GFinish)
      else if IsPrime(s.i) then s.(shared := s.i, g := GUnlock)
      else s.(i := s.i + 1)
    case GUnlock => s.(owner := Nobody, g := GSignal)
    case GSignal => s.(p := WakePrinter(s.p), g := GLock)
    case GLock => s.(owner := TheGenerator, g := GCheck)
    case GCheck =>
      if s.shared != EMPTY then s.(owner := Nobody, g := GWaiting)
      else if s.found + 1 == args.n then s.(found := s.found + 1, g := GFinish)
      else s.(found := s.found + 1, i := s.i + 1, g := GScan)
    case GRelock => s.(owner := TheGenerator, g := GCheck)
    case GFinish => s.(shared := END, g := GUnlockLast)
    case GUnlockLast => s.(owner := Nobody, g := GSignalLast)
    case GSignalLast => s.(p := WakePrinter(s.p), g := GDone)
  }

  function StepPrinter(s: State, args: Args): State
    requires PrinterCanStep(s)
  {
    match s.p
    case PLockFirst => s.(owner := ThePrinter, p := PLoop)
    case PLoop => if s.readed < args.n then s.(p := PUnlock) else s.(p := PUnlockLast)
    case PUnlock => s.(owner := Nobody, p := PSignal)
    case PSignal => s.(g := WakeGenerator(s.g), p := PLock)
    case PLock => s.(owner := ThePrinter, p := PCheck)
    case PCheck =>
      if s.shared == EMPTY then s.(owner := Nobody, p := PWaiting)
      else if s.shared == END then s.(p := PUnlockLast)
      else s.(printed := s.printed + [s.shared], readed := s.readed + 1, shared := EMPTY, p := PLoop)
    case PRelock => s.(owner := ThePrinter, p := PCheck)
    case PUnlockLast => s.(owner := Nobody, p := PSignalLast)
    case PSignalLast => s.(g := WakeGenerator(s.g), p := PJoin)
    case PJoin => s.(p := PDone)
  }

  /** What may happen next: a step of either thread, or a spurious wakeup. */
  datatype Event = GeneratorSteps | PrinterSteps | GeneratorWakes | PrinterWakes

  predicate CanHappen(s: State, e: Event) {
    match e
    case GeneratorSteps => GeneratorCanStep(s)
    case PrinterSteps => PrinterCanStep(s)
    case GeneratorWakes => s.g == GWaiting
    case PrinterWakes => s.p == PWaiting
  }

  ghost function Happen(s: State, e: Event, args: Args): State
    requires CanHappen(s, e)
  {
    match e
    case GeneratorSteps => StepGenerator(s, args)
    case PrinterSteps => StepPrinter(s, args)
    case GeneratorWakes => s.(g := GRelock)
    case PrinterWakes => s.(p := PRelock)
  }

  /** `t` is reached from `s` by the interleaving `events`. */
  ghost predicate Leads(s: State, events: seq<Event>, t: State, args: Args)
    decreases |events|
  {
    if events == [] then s == t
    else CanHappen(s, events[0]) && Leads(Happen(s, events[0], args), events[1..], t, args)
  }

  /** No thread can step, although not both have finished. */
  predicate Stuck(s: State) {
    !Finished(s) && !GeneratorCanStep(s) && !PrinterCanStep(s)
  }

  // ---------------------------------------------------------------------------------------------
  // The invariant
  // ---------------------------------------------------------------------------------------------

  predicate GeneratorHolds(g: Generator) {
    g == GScan || g == GUnlock || g == GCheck || g == GFinish || g == GUnlockLast
  }

  predicate PrinterHolds(p: Printer) {
    p == PLoop || p == PUnlock || p == PCheck || p == PUnlockLast
  }

  ghost predicate MutexHeld(s: State) {
    && (s.owner == TheGenerator <==> GeneratorHolds(s.g))
    && (s.owner == ThePrinter <==> PrinterHolds(s.p))
  }

  /** What is printed, handed over and still to come makes up all the primes of the range. */
  ghost predicate HandedOver(s: State, args: Args) {
    var all := PrimesIn(args.a, args.b);
    && |s.printed| == s.readed
    && match s.g
       case GLockFirst => s.shared == EMPTY && s.readed == s.found && s.found < args.n && s.printed + PrimesIn(s.i, args.b) == all
       case GScan => s.shared == EMPTY && s.readed == s.found && s.found < args.n && s.printed + PrimesIn(s.i, args.b) == all
       case GFinish => s.shared == EMPTY && Complete(s, args)
       case GUnlockLast => s.shared == END && Complete(s, args)
       case GSignalLast => s.shared == END && Complete(s, args)
       case GDone => s.shared == END && Complete(s, args)
       case _ =>
         && IsPrime(s.i) && s.i <= args.b && s.found < args.n
         && if s.shared == EMPTY
            then s.g != GUnlock && s.readed == s.found + 1 && s.printed + PrimesIn(s.i + 1, args.b) == all
            else s.shared == s.i && s.readed == s.found && s.printed + [s.i] + PrimesIn(s.i + 1, args.b) == all
  }

  /** The generator has stopped searching: all that was asked for, or all there is, is printed. */
  ghost predicate Complete(s: State, args: Args) {
    var all := PrimesIn(args.a, args.b);
    s.readed == s.found && s.printed <= all && (s.readed == args.n || s.printed == all)
  }

  /** The main thread's own part: it reads on only while fewer than `n` are printed. */
  ghost predicate PrinterCounts(s: State, args: Args) {
    && s.readed <= args.n
    && (s.p in {PUnlock, PSignal, PLock, PCheck, PWaiting, PRelock} ==> s.readed < args.n)
    && (s.p in {PUnlockLast, PSignalLast, PJoin, PDone} ==> s.readed == args.n || s.shared == END)
    && (s.p == PDone ==> s.g == GDone)
  }

  /** No wakeup is lost: a thread waits in vain only while the other one is about to signal. */
  ghost predicate WakeupPending(s: State) {
    && (s.p == PWaiting ==> s.shared == EMPTY || s.g in {GUnlock, GSignal, GUnlockLast, GSignalLast})
    && (s.g == GWaiting ==> s.shared != EMPTY || s.p in {PLoop, PUnlock, PSignal, PUnlockLast, PSignalLast})
  }

  ghost predicate Inv(s: State, args: Args) {
    MutexHeld(s) && HandedOver(s, args) && PrinterCounts(s, args) && WakeupPending(s)
  }

  lemma StartInv(args: Args)
    requires args.n >= 1
    ensures Inv(Start(args), args)
  {
    assert [] + PrimesIn(args.a, args.b) == PrimesIn(args.a, args.b);
  }

  /** A step of the search: one more number of the range is decided. */
  lemma ScanOne(i: int, b: int)
    requires i <= b
    ensures PrimesIn(i, b) == (if IsPrime(i) then [i] else []) + PrimesIn(i + 1, b)
  {
  }

  lemma GeneratorKeepsInv(s: State, args: Args)
    requires Inv(s, args) && GeneratorCanStep(s)
    ensures Inv(StepGenerator(s, args), args)
  {
    hide PrimesIn, IsPrime;
    if s.g == GScan {
      ScanKeepsInv(s, args);
    }
  }

  lemma ScanKeepsInv(s: State, args: Args)
    requires Inv(s, args) && s.g == GScan
    ensures Inv(StepGenerator(s, args), args)
  {
    hide PrimesIn, IsPrime;
    var rest := PrimesIn(s.i + 1, args.b);
    if s.i <= args.b {
      ScanOne(s.i, args.b);
      PrimeIsNoSentinel(s.i);
      assert s.printed + ([s.i] + rest) == s.printed + [s.i] + rest;
      assert [] + rest == rest;
    } else {
      assert PrimesIn(s.i, args.b) == [] by { ScanNone(s.i, args.b); }
      assert s.printed + [] == s.printed;
    }
  }

  lemma PrimeIsNoSentinel(n: int)
    ensures IsPrime(n) ==> n != EMPTY && n != END
  {
  }

  lemma ScanNone(i: int, b: int)
    requires i > b
    ensures PrimesIn(i, b) == []
  {
  }

  lemma PrinterKeepsInv(s: State, args: Args)
    requires Inv(s, args) && PrinterCanStep(s)
    ensures Inv(StepPrinter(s, args), args)
  {
    hide PrimesIn, IsPrime;
  }

  lemma EventKeepsInv(s: State, e: Event, args: Args)
    requires Inv(s, args) && CanHappen(s, e)
    ensures Inv(Happen(s, e, args), args)
  {
    match e
    case GeneratorSteps => GeneratorKeepsInv(s, args);
    case PrinterSteps => PrinterKeepsInv(s, args);
    case _ =>
  }

  lemma {:induction false} LeadsKeepsInv(s: State, events: seq<Event>, t: State, args: Args)
    requires Inv(s, args) && Leads(s, events, t, args)
    ensures Inv(t, args)
    decreases |events|
  {
    if events != [] {
      EventKeepsInv(s, events[0], args);
      LeadsKeepsInv(Happen(s, events[0], args), events[1..], t, args);
    }
  }

  // ---------------------------------------------------------------------------------------------
  // Main results
  // ---------------------------------------------------------------------------------------------

  /** In every interleaving: what is printed is a prefix of the primes of the range; nothing is ever
      stuck; and when both threads have finished, exactly the first `n` primes, or all of them, are
      printed. */
  lemma HandoffIsSafe(args: Args, events: seq<Event>, t: State)
    requires args.n >= 1 && Leads(Start(args), events, t, args)
    ensures t.printed <= PrimesIn(args.a, args.b)
    ensures !Stuck(t)
    ensures |t.printed| <= args.n
    ensures Finished(t) ==> |t.printed| == args.n || t.printed == PrimesIn(args.a, args.b)
  {
    StartInv(args);
    LeadsKeepsInv(Start(args), events, t, args);
    PrintsPrefix(t, args);
    NotStuck(t, args);
  }

  lemma PrintsPrefix(s: State, args: Args)
    requires Inv(s, args)
    ensures s.printed <= PrimesIn(args.a, args.b)
    ensures |s.printed| <= args.n
    ensures Finished(s) ==> |s.printed| == args.n || s.printed == PrimesIn(args.a, args.b)
  {
    hide PrimesIn, IsPrime;
  }

  lemma NotStuck(s: State, args: Args)
    requires Inv(s, args) && args.n >= 1
    ensures !Stuck(s)
  {
    hide PrimesIn;
  }

  /** Steps the generator has left at most, counting what its signals may cost the other thread. */
  function GeneratorWork(s: State, args: Args): nat {
    var numbers := if args.b - s.i + 1 > 0 then args.b - s.i + 1 else 0;
    match s.g
    case GLockFirst => 8 * numbers + 8
    case GScan => 8 * numbers + 7
    case GUnlock => 8 * numbers + 6
    case GSignal => 8 * numbers + 5
    case GLock => 8 * numbers + 2
    case GRelock => 8 * numbers + 2
    case GCheck => 8 * numbers + 1
    case GWaiting => 8 * numbers
    case GFinish => 6
    case GUnlockLast => 5
    case GSignalLast => 4
    case GDone => 0
  }

  function PrinterWork(s: State, args: Args): nat {
    var left := if args.n - s.readed > 0 then args.n - s.readed else 0;
    match s.p
    case PLockFirst => 8 * left + 8
    case PLoop => 8 * left + 7
    case PUnlock => 8 * left + 6
    case PSignal => 8 * left + 5
    case PLock => 8 * left + 2
    case PRelock => 8 * left + 2
    case PCheck => 8 * left + 1
    case PWaiting => 8 * left
    case PUnlockLast => 6
    case PSignalLast => 5
    case PJoin => 1
    case PDone => 0
  }

  function Work(s: State, args: Args): nat { GeneratorWork(s, args) + PrinterWork(s, args) }

  lemma GeneratorWorks(s: State, args: Args)
    requires Inv(s, args) && GeneratorCanStep(s)
    ensures Work(StepGenerator(s, args), args) < Work(s, args)
  {
    InRange(s, args);
    hide Inv, IsPrime;
  }

  /** While a number is handed over it is one of the range. */
  lemma InRange(s: State, args: Args)
    requires Inv(s, args)
    ensures s.g in {GUnlock, GSignal, GLock, GRelock, GCheck, GWaiting} ==> s.i <= args.b
    ensures s.p in {PUnlock, PSignal, PLock, PCheck, PWaiting, PRelock} ==> s.readed < args.n
  {
    hide PrimesIn, IsPrime;
  }

  lemma PrinterWorks(s: State, args: Args)
    requires Inv(s, args) && PrinterCanStep(s)
    ensures Work(StepPrinter(s, args), args) < Work(s, args)
  {
    InRange(s, args);
    hide Inv, IsPrime;
  }

  lemma EventWorks(s: State, e: Event, args: Args)
    requires Inv(s, args) && CanHappen(s, e)
    ensures var t := Happen(s, e, args);
            if e.GeneratorSteps? || e.PrinterSteps? then Work(t, args) < Work(s, args)
            else Work(t, args) == Work(s, args) + 2
  {
    match e
    case GeneratorSteps => GeneratorWorks(s, args);
    case PrinterSteps => PrinterWorks(s, args);
    case _ => hide Inv;
  }

  function Spurious(events: seq<Event>): nat {
    if events == [] then 0
    else (if events[0].GeneratorWakes? || events[0].PrinterWakes? then 1 else 0) + Spurious(events[1..])
  }

  lemma {:induction false} RunIsBounded(s: State, events: seq<Event>, t: State, args: Args)
    requires Inv(s, args) && Leads(s, events, t, args)
    ensures |events| + Work(t, args) <= Work(s, args) + 3 * Spurious(events)
    decreases |events|
  {
    if events != [] {
      EventWorks(s, events[0], args);
      EventKeepsInv(s, events[0], args);
      RunIsBounded(Happen(s, events[0], args), events[1..], t, args);
    }
  }

  /** Every interleaving ends, whatever the scheduler does: its length is bounded by the size of the
      range, the number asked for and the number of spurious wakeups. With `HandoffIsSafe` this means
      that both threads finish once the spurious wakeups stop. */
  lemma HandoffTerminates(args: Args, events: seq<Event>, t: State)
    requires args.n >= 1 && Leads(Start(args), events, t, args)
    ensures |events| <= 8 * ((if args.b >= args.a then args.b - args.a + 1 else 0) + args.n) + 16 + 3 * Spurious(events)
  {
    StartInv(args);
    RunIsBounded(Start(args), events, t, args);
  }

  // ---------------------------------------------------------------------------------------------
  // Asking for no primes
  // ---------------------------------------------------------------------------------------------

  /** With nothing to print, the main thread goes straight to its end, and the generator never gets
      past a prime. */
  ghost predicate IdleInv(s: State, args: Args) {
    && MutexHeld(s) && s.p in {PLockFirst, PLoop, PUnlockLast, PSignalLast, PJoin, PDone}
    && (s.p == PDone ==> s.g == GDone)
    && (s.g in {GLockFirst, GScan} ==> PrimesIn(s.i, args.b) == [])
    && s.g in {GLockFirst, GScan, GFinish, GUnlockLast, GSignalLast, GDone}
  }

  lemma {:induction false} IdleNeverStuck(s: State, events: seq<Event>, t: State, args: Args)
    requires args.n < 1 && IdleInv(s, args) && Leads(s, events, t, args)
    ensures !Stuck(t)
    decreases |events|
  {
    if events != [] {
      var u := Happen(s, events[0], args);
      if s.g == GScan && s.i <= args.b {
        ScanOne(s.i, args.b);
      }
      assert IdleInv(u, args);
      IdleNeverStuck(u, events[1..], t, args);
    }
  }

  /** The state with the main thread waiting to join and the generator scanning from `i`. */
  function Joining(i: int): State { State(TheGenerator, EMPTY, GScan, i, 0, PJoin, 0, []) }

  /** The generator scans on to the first prime, hands it over and waits for ever. */
  lemma {:induction false} ScanToStuck(i: int, args: Args) returns (events: seq<Event>, t: State)
    requires PrimesIn(i, args.b) != []
    ensures Leads(Joining(i), events, t, args) && Stuck(t)
    decreases args.b - i
  {
    if i > args.b {
      ScanNone(i, args.b);
    }
    ScanOne(i, args.b);
    var g := GeneratorSteps;
    if IsPrime(i) {
      events, t := StuckAtPrime(i, args);
    } else {
      var rest;
      rest, t := ScanToStuck(i + 1, args);
      events := [g] + rest;
      assert events[1..] == rest;
    }
  }

  lemma StuckAtPrime(i: int, args: Args) returns (events: seq<Event>, t: State)
    requires IsPrime(i) && i <= args.b
    ensures Leads(Joining(i), events, t, args) && Stuck(t)
  {
    var g := GeneratorSteps;
    PrimeIsNoSentinel(i);
    hide IsPrime;
    var s1 := Joining(i).(shared := i, g := GUnlock);
    var s2 := s1.(owner := Nobody, g := GSignal);
    var s3 := s2.(g := GLock);
    var s4 := s3.(owner := TheGenerator, g := GCheck);
    t := s4.(owner := Nobody, g := GWaiting);
    events := [g, g, g, g, g];
    assert events[1..] == [g, g, g, g] && events[1..][1..] == [g, g, g];
    assert events[1..][1..][1..] == [g, g] && events[1..][1..][1..][1..] == [g];
    assert Leads(s4, [g], t, args) && Leads(s3, [g, g], t, args);
    assert Leads(s2, [g, g, g], t, args) && Leads(s1, [g, g, g, g], t, args);
  }

  /** The main thread first runs to its join, then the generator takes the mutex. */
  lemma StartToJoining(args: Args, rest: seq<Event>, t: State) returns (events: seq<Event>)
    requires args.n < 1 && Leads(Joining(args.a), rest, t, args)
    ensures Leads(Start(args), events, t, args)
  {
    var p, g := PrinterSteps, GeneratorSteps;
    var s1 := Start(args).(owner := ThePrinter, p := PLoop);
    var s2 := s1.(p := PUnlockLast);
    var s3 := s2.(owner := Nobody, p := PSignalLast);
    var s4 := s3.(p := PJoin);
    assert Leads(s4, [g] + rest, t, args) by { assert ([g] + rest)[1..] == rest; }
    assert Leads(s3, [p] + ([g] + rest), t, args) by { assert ([p] + ([g] + rest))[1..] == [g] + rest; }
    var tail := [p] + ([g] + rest);
    assert Leads(s2, [p] + tail, t, args) by { assert ([p] + tail)[1..] == tail; }
    assert Leads(s1, [p] + ([p] + tail), t, args) by { assert ([p] + ([p] + tail))[1..] == [p] + tail; }
    events := [p] + ([p] + ([p] + tail));
    assert events[1..] == [p] + ([p] + tail);
  }

  ghost predicate CanGetStuck(args: Args) {
    exists events, t :: StuckAfter(args, events, t)
  }

  ghost predicate StuckAfter(args: Args, events: seq<Event>, t: State) {
    Leads(Start(args), events, t, args) && Stuck(t)
  }

  /** Some interleaving gets stuck if and only if fewer than one prime is asked for although the range
      has one: the handed-over number is then never taken. */
  lemma StuckExactly(args: Args)
    ensures CanGetStuck(args) <==> args.n < 1 && PrimesIn(args.a, args.b) != []
  {
    if args.n >= 1 {
      forall events, t ensures !StuckAfter(args, events, t) {
        if Leads(Start(args), events, t, args) {
          HandoffIsSafe(args, events, t);
        }
      }
    } else if PrimesIn(args.a, args.b) == [] {
      forall events, t ensures !StuckAfter(args, events, t) {
        if Leads(Start(args), events, t, args) {
          IdleNeverStuck(Start(args), events, t, args);
        }
      }
    } else {
      var rest, t := ScanToStuck(args.a, args);
      var events := StartToJoining(args, rest, t);
      assert StuckAfter(args, events, t);
    }
  }
}
