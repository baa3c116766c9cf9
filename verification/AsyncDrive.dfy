/** The windowed scheduler behind `lur.async`: tasks start in order, at most a
    window of them is in flight, and whichever finishes next is reported. */
module AsyncDrive {
  import opened Prelude
  import opened Recency

  /** What task `i` comes to, whenever it runs. */
  datatype Outcome<V, E> = Good(value: V) | Bad(error: E)

  datatype Event = Start(index: nat) | Finish(index: nat)

  // ------------------------------------------------------- legal histories

  function Started(events: seq<Event>): nat {
    if events == [] then 0 else
      Started(events[..|events| - 1]) + if events[|events| - 1].Start? then 1 else 0
  }

  function InFlight(events: seq<Event>): set<nat> {
    if events == [] then {} else
      var before := InFlight(events[..|events| - 1]);
      match events[|events| - 1]
      case Start(i) => before + {i}
      case Finish(i) => before - {i}
  }

  /** The indices reported, in order. */
  function Reported(events: seq<Event>): seq<nat> {
    if events == [] then [] else
      Reported(events[..|events| - 1]) + if events[|events| - 1].Finish? then [events[|events| - 1].index] else []
  }

  /** `n` tasks, at most `window` at once; `stops` says which of them the caller
      breaks at. */
  datatype Plan = Plan(n: nat, window: nat, stops: nat -> bool) {
    predicate Stopped(events: seq<Event>) {
      events != [] && events[|events| - 1].Finish? && stops(events[|events| - 1].index)
    }

    /** The scheduler starts the next task whenever the window has room, reports any
        one in flight when it has none (or nothing is left to start), and does
        nothing after a break. */
    predicate Allows(events: seq<Event>, e: Event) {
      && !Stopped(events)
      && match e
         case Start(i) => i == Started(events) < n && |InFlight(events)| < window
         case Finish(i) => i in InFlight(events) && (|InFlight(events)| == window || Started(events) == n)
    }

    predicate Legal(events: seq<Event>) {
      events == [] || (Legal(events[..|events| - 1]) && Allows(events[..|events| - 1], events[|events| - 1]))
    }

    /** Nothing more to start or report. */
    predicate Complete(events: seq<Event>) {
      Legal(events) && Started(events) == n && InFlight(events) == {}
    }
  }

  lemma {:induction false} LegalMeans(p: Plan, events: seq<Event>)
    requires p.Legal(events)
    ensures Started(events) <= p.n && |InFlight(events)| <= p.window
    ensures Distinct(Reported(events))
    ensures forall i :: i in InFlight(events) <==> 0 <= i < Started(events) && i !in Reported(events)
    ensures forall i | i in Reported(events) :: i < Started(events)
  {
    if events != [] {
      var most, e := events[..|events| - 1], events[|events| - 1];
      LegalMeans(p, most);
      Unfold(events);
      assert p.Legal(most) && p.Allows(most, e);
      hide Started, Reported, InFlight;
    }
  }

  /** At every moment of a legal history the window holds, the tasks started are a
      prefix of the list, and none was reported twice or before its start. */
  lemma WindowHolds(p: Plan, events: seq<Event>, k: nat)
    requires p.Legal(events) && k <= |events|
    ensures p.Legal(events[..k])
    ensures |InFlight(events[..k])| <= p.window
    ensures forall i :: i in InFlight(events[..k]) <==> 0 <= i < Started(events[..k]) && i !in Reported(events[..k])
    ensures forall i | i in Reported(events[..k]) :: i < Started(events[..k])
    ensures Distinct(Reported(events[..k]))
    ensures k < |events| && events[k].Start? ==> events[k].index == Started(events[..k])
    decreases |events| - k
  {
    LegalPrefix(p, events, k);
    LegalMeans(p, events[..k]);
    if k < |events| {
      LegalPrefix(p, events, k + 1);
      assert events[..k + 1][..k] == events[..k];
    }
  }

  lemma {:induction false} LegalPrefix(p: Plan, events: seq<Event>, k: nat)
    requires p.Legal(events) && k <= |events|
    ensures p.Legal(events[..k])
  {
    if k == |events| {
      assert events[..k] == events;
    } else {
      LegalPrefix(p, events[..|events| - 1], k);
      assert events[..|events| - 1][..k] == events[..k];
    }
  }

  /** Nothing is started or reported after a break. */
  lemma NothingAfterBreak(p: Plan, events: seq<Event>, k: nat)
    requires p.Legal(events) && k < |events|
    ensures !p.Stopped(events[..k])
  {
    LegalPrefix(p, events, k + 1);
    assert events[..k + 1][..k] == events[..k];
  }

  /** A history that ends without a break reported each index exactly once, none of
      them one to break at. */
  lemma EachReportedOnce(p: Plan, events: seq<Event>)
    requires p.Complete(events)
    ensures Distinct(Reported(events)) && forall i: nat :: i in Reported(events) <==> i < p.n
    ensures !p.Stopped(events) ==> forall i | 0 <= i < p.n :: !p.stops(i)
  {
    LegalMeans(p, events);
    if !p.Stopped(events) {
      forall i | 0 <= i < p.n ensures !p.stops(i) { ReportedGoOn(p, events, i); }
    }
  }

  lemma {:induction false} ReportedGoOn(p: Plan, events: seq<Event>, i: nat)
    requires p.Legal(events) && !p.Stopped(events) && i in Reported(events)
    ensures !p.stops(i)
  {
    if i in Reported(events[..|events| - 1]) {
      ReportedGoOn(p, events[..|events| - 1], i);
    }
  }

  /** One at a time, tasks are reported in order. */
  lemma {:induction false} OneAtATime(p: Plan, events: seq<Event>)
    requires p.Legal(events) && p.window == 1
    ensures forall k | 0 <= k < |Reported(events)| :: Reported(events)[k] == k
    ensures Started(events) == |Reported(events)| + |InFlight(events)|
    ensures forall i | i in InFlight(events) :: i == |Reported(events)|
  {
    if events != [] {
      var most := events[..|events| - 1];
      OneAtATime(p, most);
      OneMoreAtATime(p, most, events[|events| - 1], events);
    }
  }

  lemma OneMoreAtATime(p: Plan, most: seq<Event>, e: Event, events: seq<Event>)
    requires events == most + [e] && p.Allows(most, e) && p.window == 1
    requires forall k | 0 <= k < |Reported(most)| :: Reported(most)[k] == k
    requires Started(most) == |Reported(most)| + |InFlight(most)|
    requires forall i | i in InFlight(most) :: i == |Reported(most)|
    ensures forall k | 0 <= k < |Reported(events)| :: Reported(events)[k] == k
    ensures Started(events) == |Reported(events)| + |InFlight(events)|
    ensures forall i | i in InFlight(events) :: i == |Reported(events)|
  {
    hide *;
    assert events[..|events| - 1] == most && events[|events| - 1] == e;
    Unfold(events);
    AllowsMeans(p, most, e);
    match e
    case Start(i) => OnlyAdded(InFlight(most), i);
    case Finish(i) => OnlyRemoved(InFlight(most), i, |Reported(most)|);
  }

  lemma AllowsMeans(p: Plan, events: seq<Event>, e: Event)
    requires p.Allows(events, e)
    ensures e.Start? ==> e.index == Started(events) && |InFlight(events)| < p.window
    ensures e.Finish? ==> e.index in InFlight(events)
  {
    hide Started, InFlight;
  }

  lemma OnlyAdded(s: set<nat>, i: nat)
    requires |s| < 1
    ensures |s| == 0 && s + {i} == {i}
  {
    assert s == {};
  }

  lemma OnlyRemoved(s: set<nat>, i: nat, n: nat)
    requires i in s && forall x | x in s :: x == n
    ensures i == n && |s| == 1 && s - {i} == {}
  {
    assert s == {i};
  }

  lemma Unfold(events: seq<Event>)
    requires events != []
    ensures
      var most, e := events[..|events| - 1], events[|events| - 1];
      && Started(events) == Started(most) + (if e.Start? then 1 else 0)
      && Reported(events) == Reported(most) + (if e.Finish? then [e.index] else [])
      && InFlight(events) == if e.Start? then InFlight(most) + {e.index} else InFlight(most) - {e.index}
  {
  }

  /** No result is waited for while a task could start; and the window is what was asked
      for, or one. */
  lemma NoneIdle<V, E>(n: nat, window: nat, outcome: nat -> Outcome<V, E>, stops: Outcome<V, E> -> bool,
                       events: seq<Event>, k: nat)
    requires PlanOf(n, window, outcome, stops).Legal(events) && k < |events|
    ensures
      var flying := |InFlight(events[..k])|;
      var room := if window > 0 then window else 1;
      && flying <= room
      && (events[k].Finish? ==>
            events[k].index in InFlight(events[..k]) && (flying == room || Started(events[..k]) == n))
      && (events[k].Start? ==> events[k].index < n && flying < room)
  {
    var p := PlanOf(n, window, outcome, stops);
    LegalPrefix(p, events, k + 1);
    LegalMeans(p, events[..k + 1]);
    assert events[..k + 1][..k] == events[..k] && events[..k + 1][k] == events[k];
    LegalPrefix(p, events, k);
    LegalMeans(p, events[..k]);
  }

  // ---------------------------------------------------------- the scheduler

  function AtLeastOne(window: nat): (w: nat)
    ensures w > 0
  {
    if window == 0 then 1 else window
  }

  lemma StartsNext(p: Plan, events: seq<Event>, i: nat)
    requires p.Legal(events) && p.Allows(events, Start(i))
    ensures
      var more := events + [Start(i)];
      && p.Legal(more) && !p.Stopped(more)
      && Started(more) == Started(events) + 1 && InFlight(more) == InFlight(events) + {i}
      && Reported(more) == Reported(events)
  {
    assert (events + [Start(i)])[..|events|] == events;
  }

  lemma FinishesOne(p: Plan, events: seq<Event>, i: nat)
    requires p.Legal(events) && p.Allows(events, Finish(i))
    ensures
      var more := events + [Finish(i)];
      && p.Legal(more) && p.Stopped(more) == p.stops(i)
      && Started(more) == Started(events) && InFlight(more) == InFlight(events) - {i}
      && Reported(more) == Reported(events) + [i]
  {
    assert (events + [Finish(i)])[..|events|] == events;
  }

  function PlanOf<V, E>(n: nat, window: nat, outcome: nat -> Outcome<V, E>, stops: Outcome<V, E> -> bool): Plan {
    Plan(n, AtLeastOne(window), (i: nat) => stops(outcome(i)))
  }

  /** Where the scheduler stands: after `events`, none of them a break. */
  ghost predicate Along(p: Plan, events: seq<Event>, next: nat, pending: set<nat>) {
    && p.window > 0 && p.Legal(events) && !p.Stopped(events)
    && next == Started(events) <= p.n && pending == InFlight(events)
  }

  /** Exactly the reported results are in their slots. */
  ghost predicate Slotted<V, E, S(!new)>(slots: seq<Option<S>>, next: nat, pending: set<nat>,
                                         outcome: nat -> Outcome<V, E>, record: Outcome<V, E> -> Option<S>)
  {
    forall i | 0 <= i < |slots| :: slots[i] == if i < next && i !in pending then record(outcome(i)) else None
  }

  /** Run tasks `0..n`, writing what `record` keeps of each result into its slot;
      stop at the first reported result that `stops`. Which task in flight finishes
      next is anyone's choice. */
  method Drive<V, E, S(!new)>(n: nat, window: nat, outcome: nat -> Outcome<V, E>,
                              stops: Outcome<V, E> -> bool, record: Outcome<V, E> -> Option<S>, slots: array<Option<S>>)
    returns (broke: Option<nat>, ghost events: seq<Event>)
    requires slots.Length == n && forall i | 0 <= i < n :: slots[i] == None
    modifies slots
    ensures
      var p := PlanOf(n, window, outcome, stops);
      match broke
      case None => p.Complete(events) && !p.Stopped(events)
      case Some(i) =>
        && p.Legal(events) && p.Stopped(events) && events[|events| - 1] == Finish(i)
        && i < n && stops(outcome(i))
    ensures broke.None? ==> forall i | 0 <= i < n :: slots[i] == record(outcome(i))
  {
    hide *;
    ghost var p := PlanOf(n, window, outcome, stops);
    var room := AtLeastOne(window);
    events := [];
    var next: nat, pending: set<nat> := 0, {};
    NothingDone(n, window, outcome, stops);
    EmptySlots(slots[..], outcome, record);
    while true
      invariant Along(p, events, next, pending) && next <= n
      invariant Slotted(slots[..], next, pending, outcome, record)
      decreases 2 * (n - next) + |pending|
    {
      ghost var left := 2 * (n - next) + |pending|;
      while |pending| < room && next < n
        invariant Along(p, events, next, pending) && next <= n
        invariant Slotted(slots[..], next, pending, outcome, record)
        invariant 2 * (n - next) + |pending| <= left
        decreases n - next
      {
        Starting(p, events, next, pending);
        StillSlotted(slots[..], next, pending, outcome, record);
        events := events + [Start(next)];
        pending := pending + {next};
        next := next + 1;
      }
      if pending == {} {
        AllDone(p, events, next);
        AllSlotted(slots[..], n, outcome, record);
        return None, events;
      }
      var i :| i in pending;
      Finishing(p, events, next, pending, i);
      events := events + [Finish(i)];
      if stops(outcome(i)) {
        return Some(i), events;
      }
      SlotWritten(slots[..], next, pending, outcome, record, i);
      pending := pending - {i};
      slots[i] := record(outcome(i));
    }
  }

  lemma NothingDone<V, E>(n: nat, window: nat, outcome: nat -> Outcome<V, E>, stops: Outcome<V, E> -> bool)
    ensures PlanOf(n, window, outcome, stops).n == n && PlanOf(n, window, outcome, stops).window == AtLeastOne(window)
    ensures Along(PlanOf(n, window, outcome, stops), [], 0, {})
    ensures forall i: nat :: PlanOf(n, window, outcome, stops).stops(i) == stops(outcome(i))
  {
  }

  lemma Starting(p: Plan, events: seq<Event>, next: nat, pending: set<nat>)
    requires Along(p, events, next, pending) && |pending| < p.window && next < p.n
    ensures Along(p, events + [Start(next)], next + 1, pending + {next})
    ensures |pending + {next}| == |pending| + 1
  {
    LegalMeans(p, events);
    StartsNext(p, events, next);
  }

  lemma Finishing(p: Plan, events: seq<Event>, next: nat, pending: set<nat>, i: nat)
    requires Along(p, events, next, pending) && i in pending && (|pending| >= p.window || next == p.n)
    ensures i < next <= p.n
    ensures !p.stops(i) ==> Along(p, events + [Finish(i)], next, pending - {i})
    ensures p.stops(i) ==> p.Legal(events + [Finish(i)]) && p.Stopped(events + [Finish(i)])
    ensures |pending - {i}| == |pending| - 1
  {
    LegalMeans(p, events);
    FinishesOne(p, events, i);
  }

  lemma AllDone(p: Plan, events: seq<Event>, next: nat)
    requires Along(p, events, next, {}) && (p.window <= 0 || next == p.n)
    ensures p.Complete(events) && !p.Stopped(events)
  {
  }

  lemma EmptySlots<V, E, S(!new)>(slots: seq<Option<S>>, outcome: nat -> Outcome<V, E>,
                                  record: Outcome<V, E> -> Option<S>)
    requires forall i | 0 <= i < |slots| :: slots[i] == None
    ensures Slotted(slots, 0, {}, outcome, record)
  {
  }

  lemma StillSlotted<V, E, S(!new)>(slots: seq<Option<S>>, next: nat, pending: set<nat>,
                                    outcome: nat -> Outcome<V, E>, record: Outcome<V, E> -> Option<S>)
    requires Slotted(slots, next, pending, outcome, record)
    ensures Slotted(slots, next + 1, pending + {next}, outcome, record)
  {
  }

  lemma SlotWritten<V, E, S(!new)>(slots: seq<Option<S>>, next: nat, pending: set<nat>,
                                   outcome: nat -> Outcome<V, E>, record: Outcome<V, E> -> Option<S>, i: nat)
    requires Slotted(slots, next, pending, outcome, record) && i < next && i < |slots|
    ensures Slotted(slots[i := record(outcome(i))], next, pending - {i}, outcome, record)
  {
  }

  lemma AllSlotted<V, E, S(!new)>(slots: seq<Option<S>>, n: nat, outcome: nat -> Outcome<V, E>,
                                  record: Outcome<V, E> -> Option<S>)
    requires Slotted(slots, n, {}, outcome, record) && |slots| == n
    ensures forall i | 0 <= i < n :: slots[i] == record(outcome(i))
  {
  }

  // --------------------------------------------------------- the combinators

  datatype Answer<R, E> = Returned(result: R) | Raised(error: E)

  function ToGood<V, E>(o: Outcome<V, E>): Option<V> { if o.Good? then Some(o.value) else None }

  /** The successful results, in input order. */
  function Values<V, E>(n: nat, outcome: nat -> Outcome<V, E>): seq<V> {
    if n == 0 then [] else
      Values(n - 1, outcome) + match outcome(n - 1) case Good(v) => [v] case Bad(_) => []
  }

  /** `at` are the tasks that succeed, in order. */
  predicate Succeed<V, E>(n: nat, outcome: nat -> Outcome<V, E>, at: seq<nat>) {
    && Rising(at)
    && (forall k | 0 <= k < |at| :: at[k] < n && outcome(at[k]).Good?)
    && forall i: nat | i < n && outcome(i).Good? :: i in at
  }

  ghost predicate ResultsAt<V(!new), E(!new)>(outcome: nat -> Outcome<V, E>, at: seq<nat>, r: seq<V>) {
    |r| == |at| && forall k | 0 <= k < |at| :: outcome(at[k]) == Good(r[k])
  }

  /** The results of exactly those that succeed, in input order. */
  ghost predicate Successes<V(!new), E(!new)>(n: nat, outcome: nat -> Outcome<V, E>, r: seq<V>) {
    exists at :: Succeed(n, outcome, at) && ResultsAt(outcome, at, r)
  }

  lemma {:induction false} ValuesMean<V(!new), E(!new)>(n: nat, outcome: nat -> Outcome<V, E>) returns (at: seq<nat>)
    ensures Succeed(n, outcome, at) && ResultsAt(outcome, at, Values(n, outcome))
  {
    hide *;
    if n == 0 {
      at := [];
      NoneSucceed(outcome);
    } else {
      var most := ValuesMean(n - 1, outcome);
      SucceedMore(n, outcome, most);
      ValuesStep(n, outcome);
      if outcome(n - 1).Good? { ResultsMore(n, outcome, most, Values(n - 1, outcome)); }
      at := if outcome(n - 1).Good? then most + [n - 1] else most;
    }
  }

  lemma NoneSucceed<V(!new), E(!new)>(outcome: nat -> Outcome<V, E>)
    ensures Succeed(0, outcome, []) && ResultsAt(outcome, [], Values(0, outcome))
  {
  }

  lemma ValuesStep<V, E>(n: nat, outcome: nat -> Outcome<V, E>)
    requires n > 0
    ensures
      var most, last := Values(n - 1, outcome), outcome(n - 1);
      Values(n, outcome) == if last.Good? then most + [last.value] else most
  {
    assert Values(n - 1, outcome) + [] == Values(n - 1, outcome);
  }

  lemma ResultsMore<V(!new), E(!new)>(n: nat, outcome: nat -> Outcome<V, E>, at: seq<nat>, r: seq<V>)
    requires n > 0 && ResultsAt(outcome, at, r) && outcome(n - 1).Good?
    ensures ResultsAt(outcome, at + [n - 1], r + [outcome(n - 1).value])
  {
  }

  lemma SucceedMore<V(!new), E(!new)>(n: nat, outcome: nat -> Outcome<V, E>, at: seq<nat>)
    requires n > 0 && Succeed(n - 1, outcome, at)
    ensures Succeed(n, outcome, if outcome(n - 1).Good? then at + [n - 1] else at)
  {
    if outcome(n - 1).Good? {
      var more := at + [n - 1];
      assert more[|at|] == n - 1;
      forall i | i in at ensures i in more { }
    }
  }

  /** The error raised is that of a task that failed; one at a time, of the first. */
  ghost predicate FailedBy<V(!new), E(!new)>(n: nat, window: nat, outcome: nat -> Outcome<V, E>, e: E) {
    exists i: nat :: i < n && outcome(i) == Bad(e) && (window <= 1 ==> forall j: nat | j < i :: outcome(j).Good?)
  }

  /** One at a time, everything before the break went on. */
  lemma FirstStop(p: Plan, events: seq<Event>, i: nat)
    requires p.window == 1 && p.Legal(events) && p.Stopped(events) && events[|events| - 1] == Finish(i)
    ensures forall j: nat | j < i :: !p.stops(j)
  {
    var most := events[..|events| - 1];
    OneAtATime(p, events);
    OneAtATime(p, most);
    Unfold(events);
    hide Reported, Started, InFlight;
    assert Reported(events)[|Reported(most)|] == i;
    forall j: nat | j < i ensures !p.stops(j) {
      assert Reported(most)[j] == j;
      ReportedGoOn(p, most, j);
    }
  }

  /** A break at a failed task raises as `FailedBy` says. */
  lemma BreakIsFailure<V(!new), E(!new)>(n: nat, window: nat, outcome: nat -> Outcome<V, E>,
                                         stops: Outcome<V, E> -> bool,
                                         events: seq<Event>, i: nat)
    requires i < n && outcome(i).Bad? && forall o :: stops(o) == o.Bad?
    requires
      var p := PlanOf(n, window, outcome, stops);
      p.Legal(events) && p.Stopped(events) && events[|events| - 1] == Finish(i)
    ensures FailedBy(n, window, outcome, outcome(i).error)
  {
    var p := PlanOf(n, window, outcome, stops);
    if window <= 1 {
      FirstStop(p, events, i);
      forall j: nat | j < i ensures outcome(j).Good? { assert !p.stops(j); }
    }
  }

  function Gathered<V>(slots: seq<Option<V>>): seq<V> {
    if slots == [] then [] else
      Gathered(slots[..|slots| - 1]) + if slots[|slots| - 1].Some? then [slots[|slots| - 1].value] else []
  }

  lemma {:induction false} GatheredValues<V, E>(n: nat, outcome: nat -> Outcome<V, E>, slots: seq<Option<V>>)
    requires |slots| == n && forall i | 0 <= i < n :: slots[i] == ToGood(outcome(i))
    ensures Gathered(slots) == Values(n, outcome)
  {
    if n > 0 {
      GatheredValues(n - 1, outcome, slots[..n - 1]);
    }
  }

  lemma {:induction false} AllGood<V, E>(n: nat, outcome: nat -> Outcome<V, E>)
    requires forall i | 0 <= i < n :: outcome(i).Good?
    ensures |Values(n, outcome)| == n && forall i | 0 <= i < n :: Values(n, outcome)[i] == outcome(i).value
  {
    if n > 0 {
      AllGood(n - 1, outcome);
    }
  }

  lemma NoneStopped<V, E>(n: nat, window: nat, outcome: nat -> Outcome<V, E>, stops: Outcome<V, E> -> bool,
                          events: seq<Event>)
    requires PlanOf(n, window, outcome, stops).Complete(events) && !PlanOf(n, window, outcome, stops).Stopped(events)
    ensures forall i | 0 <= i < n :: !stops(outcome(i))
  {
    var p := PlanOf(n, window, outcome, stops);
    EachReportedOnce(p, events);
    forall i | 0 <= i < n ensures !stops(outcome(i)) { assert !p.stops(i); }
  }

  /** `settled`: what became of every task, in input order, whatever the schedule. */
  method Settled<V(!new), E(!new)>(n: nat, window: nat, outcome: nat -> Outcome<V, E>) returns (r: seq<Outcome<V, E>>)
    ensures |r| == n && forall i | 0 <= i < n :: r[i] == outcome(i)
  {
    var slots := new Option<Outcome<V, E>>[n](_ => None);
    var stops := (o: Outcome<V, E>) => false;
    var failed, events := Drive(n, window, outcome, stops, (o: Outcome<V, E>) => Some(o), slots);
    r := [];
    for k := 0 to n
      invariant |r| == k && forall i | 0 <= i < k :: r[i] == outcome(i)
    {
      r := r + [slots[k].value];
    }
  }

  /** `all`: every result in input order, or the error of a task that failed. */
  method All<V(!new), E(!new)>(n: nat, window: nat, outcome: nat -> Outcome<V, E>) returns (r: Answer<seq<V>, E>)
    ensures (forall i | 0 <= i < n :: outcome(i).Good?) <==> r.Returned?
    ensures r.Returned? ==> |r.result| == n && forall i | 0 <= i < n :: outcome(i) == Good(r.result[i])
    ensures r.Raised? ==> FailedBy(n, window, outcome, r.error)
  {
    var slots := new Option<V>[n](_ => None);
    var stops := (o: Outcome<V, E>) => o.Bad?;
    var failed, events := Drive(n, window, outcome, stops, ToGood, slots);
    if failed.Some? {
      BreakIsFailure(n, window, outcome, stops, events, failed.value);
      return Raised(outcome(failed.value).error);
    }
    NoneStopped(n, window, outcome, stops, events);
    hide FailedBy, PlanOf, AtLeastOne;
    AllGood(n, outcome);
    var out: seq<V>, k := [], 0;
    while k < n
      invariant k <= n && out == Values(k, outcome)
    {
      assert slots[k] == ToGood(outcome(k));
      out := out + [slots[k].value];
      k := k + 1;
    }
    return Returned(out);
  }

  /** `map`: results in input order; a failure is dropped or raised. */
  method Map<V(!new), E(!new)>(n: nat, window: nat, outcome: nat -> Outcome<V, E>, dropErrors: bool)
    returns (r: Answer<seq<V>, E>)
    ensures dropErrors || (forall i | 0 <= i < n :: outcome(i).Good?) <==> r.Returned?
    ensures r.Returned? ==> r.result == Values(n, outcome) && Successes(n, outcome, r.result)
    ensures r.Raised? ==> FailedBy(n, window, outcome, r.error)
  {
    ghost var at := ValuesMean(n, outcome);
    assert Successes(n, outcome, Values(n, outcome));
    hide Successes, Succeed, ResultsAt;
    var slots := new Option<V>[n](_ => None);
    var stops := (o: Outcome<V, E>) => o.Bad? && !dropErrors;
    var failed, events := Drive(n, window, outcome, stops, ToGood, slots);
    if failed.Some? {
      BreakIsFailure(n, window, outcome, stops, events, failed.value);
      return Raised(outcome(failed.value).error);
    }
    NoneStopped(n, window, outcome, stops, events);
    GatheredValues(n, outcome, slots[..]);
    var out, k := [], 0;
    while k < n
      invariant k <= n && out == Gathered(slots[..k])
    {
      assert slots[..k + 1][..k] == slots[..k];
      if slots[k].Some? {
        out := out + [slots[k].value];
      }
      k := k + 1;
    }
    assert slots[..n] == slots[..];
    return Returned(out);
  }
}
