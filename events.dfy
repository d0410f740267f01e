/** The discrete-event scheduler of `src/event.rs`: events ordered by an
    inverted comparator so that a max-heap yields the earliest time, a queue
    of them, an executor that records the current time and throttles a
    progress log, and the `run` loop that dispatches and reschedules. */
module Events {
  import opened Primitives
  import Queue

  /** Stands for the boxed `EventAction` trait object an event owns. By
      convention each action has its own id and rescheduling moves the id to
      the new event; no predicate enforces that ids are unique (the
      ownership of the `Box` is not modelled). */
  type ActionId = nat

  /** `EventDisposition`: what an action decides after it ran. */
  datatype Disposition = Delete | Reschedule(time: I32)

  /** What the actions do: `act(a, t)` is the disposition action `a` returns
      when executed at time `t`. The implementations are outside the core. */
  type Behaviour = (ActionId, I32) -> Disposition

  /** `Event`; `Event::new` is the constructor. */
  datatype Event = Event(executionTime: I32, action: ActionId)

  /** The key the queue orders by. */
  function TimeOf(e: Event): int {
    e.executionTime
  }

  /** `PartialEq::eq`: two events are equal when their times are, whatever
      their actions. */
  function Equals(a: Event, b: Event): (r: bool)
    ensures r <==> TimeOf(a) == TimeOf(b)
  {
    a.executionTime == b.executionTime
  }

  /** `Ord::cmp`: the time order reversed, so a smaller time ranks greater. */
  function Compare(a: Event, b: Event): (r: Ordering)
    ensures r == Reverse(CompareInt(a.executionTime, b.executionTime))
    ensures r == Greater <==> a.executionTime < b.executionTime
    ensures r == Equal <==> Equals(a, b)
  {
    CompareInt(b.executionTime, a.executionTime)
  }

  /** `PartialOrd::partial_cmp`: always defined, and agrees with `cmp`. */
  function PartialCompare(a: Event, b: Event): (r: Option<Ordering>)
    ensures r == Some(Compare(a, b))
  {
    Some(CompareInt(b.executionTime, a.executionTime))
  }

  /** `Compare` is a total order that is consistent with `Equals`, as Rust's
      `Ord` requires: swapping reverses the answer, `Equal` means `eq`, and
      `Greater` and `Equal` are transitive. */
  lemma CompareIsTotalOrder(a: Event, b: Event, c: Event)
    ensures Compare(b, a) == Reverse(Compare(a, b))
    ensures Compare(a, b) == Equal <==> Equals(a, b)
    ensures Compare(a, b) == Greater && Compare(b, c) == Greater ==> Compare(a, c) == Greater
    ensures Compare(a, b) == Equal && Compare(b, c) == Equal ==> Compare(a, c) == Equal
  {
  }

  /** The max-heap's greatest event under the inverted order is exactly an
      event of earliest time, which is why `pop` returns the earliest. */
  lemma GreatestIsEarliest(e: Event, m: multiset<Event>)
    ensures (forall x :: x in m ==> Compare(e, x) != Less) <==>
            (forall x :: x in m ==> e.executionTime <= x.executionTime)
  {
  }

  // ---------------------------------------------------------------------
  // EventExecutor
  // ---------------------------------------------------------------------

  /** The throttle test of `execute`: log when at least `logFrequency` time
      units passed since the last log line. */
  predicate ShouldLog(currentTime: int, lastLogTime: int, logFrequency: int) {
    currentTime - lastLogTime >= logFrequency
  }

  /** Consecutive entries of `s` are at least `gap` apart. */
  ghost predicate Spaced(s: seq<int>, gap: int) {
    forall i :: 0 < i < |s| ==> s[i - 1] + gap <= s[i]
  }

  /** Entries `gap`-spaced cover at least `(|s| - 1) * gap` time units. */
  lemma {:induction false} SpacedSpan(s: seq<int>, gap: int)
    requires |s| > 0 && Spaced(s, gap)
    ensures s[|s| - 1] - s[0] >= (|s| - 1) * gap
    decreases |s|
  {
    if |s| > 1 {
      var p := s[..|s| - 1];
      assert Spaced(p, gap);
      SpacedSpan(p, gap);
      assert (|s| - 1) * gap == (|p| - 1) * gap + gap;
    }
  }

  /** With a positive interval, a log whose spacing is counted from time 0
      holds at most one line per `gap` units up to its last line. */
  lemma LogCountBound(log: seq<int>, gap: int)
    requires gap > 0 && Spaced([0] + log, gap)
    ensures |log| > 0 ==> |log| * gap <= log[|log| - 1]
  {
    SpacedSpan([0] + log, gap);
  }

  /** `EventExecutor`: the dispatch helper of the run loop. The ghost `log`
      holds the times of the `t = …` lines printed so far. */
  class EventExecutor {
    var logFrequency: I32
    var lastLogTime: I32
    var currentTime: I32
    ghost var log: seq<I32>

    /** Log lines are spaced by at least `logFrequency`, counted from the
        initial `lastLogTime` of 0, and `lastLogTime` is the last of them. */
    ghost predicate Valid()
      reads this
    {
      Spaced([0] + log, logFrequency) &&
      lastLogTime == ([0] + log)[|log|]
    }

    /** `EventExecutor::new`. */
    constructor (logFrequency: I32)
      ensures Valid()
      ensures this.logFrequency == logFrequency
      ensures lastLogTime == 0 && currentTime == 0
      ensures log == []
    {
      this.logFrequency := logFrequency;
      lastLogTime := 0;
      currentTime := 0;
      log := [];
    }

    /** `EventExecutor::execute`: move to the event's time, log when the
        throttle allows it, and return the action's disposition. The caller
        must keep `current_time - last_log_time` within `i32`. */
    method Execute(event: Event, act: Behaviour) returns (d: Disposition)
      requires Valid()
      requires InI32(event.executionTime - lastLogTime)
      modifies this
      ensures Valid()
      ensures currentTime == event.executionTime
      ensures logFrequency == old(logFrequency)
      ensures ShouldLog(event.executionTime, old(lastLogTime), logFrequency) ==>
                lastLogTime == event.executionTime && log == old(log) + [event.executionTime]
      ensures !ShouldLog(event.executionTime, old(lastLogTime), logFrequency) ==>
                lastLogTime == old(lastLogTime) && log == old(log)
      ensures d == act(event.action, event.executionTime)
    {
      currentTime := event.executionTime;
      var timeSinceLastLog: I32 := currentTime - lastLogTime;
      if timeSinceLastLog >= logFrequency {
        ghost var before := [0] + log;
        log := log + [currentTime];
        assert [0] + log == before + [currentTime];
        lastLogTime := currentTime;
      }
      d := act(event.action, currentTime);
    }
  }

  // ---------------------------------------------------------------------
  // EventManager
  // ---------------------------------------------------------------------

  /** The loop bound and the log interval `run` hardcodes. */
  const MaxTime: I32 := 990
  const LogInterval: I32 := 100

  /** Every queued event lies at a non-negative time. */
  ghost predicate TimesNonNegative(m: multiset<Event>) {
    forall e :: e in m ==> e.executionTime >= 0
  }

  /** The actions never reschedule to a negative time. Together with
      `TimesNonNegative` this keeps `current_time - last_log_time` in `i32`. */
  ghost predicate ReschedulesNonNegative(act: Behaviour) {
    forall a, t :: act(a, t).Reschedule? ==> act(a, t).time >= 0
  }

  /** The queue after the popped event `e` was dispatched with outcome `d`,
      given the queue `before` it was popped. */
  ghost predicate Dispatched(e: Event, d: Disposition, before: multiset<Event>, after: multiset<Event>) {
    match d
    case Delete => after == before - multiset{e}
    case Reschedule(t) => after == before - multiset{e} + multiset{Event(t, e.action)}
  }

  /** Rescheduling keeps the queue's size, deleting shrinks it by one, and a
      rescheduled event carries the popped event's action. */
  lemma DispatchedSize(e: Event, d: Disposition, before: multiset<Event>, after: multiset<Event>)
    requires e in before && Dispatched(e, d, before, after)
    ensures d.Delete? ==> |after| == |before| - 1
    ensures d.Reschedule? ==> |after| == |before| && Event(d.time, e.action) in after
  {
  }

  /** `EventManager`: `queue` is the storage of its `BinaryHeap`. */
  class EventManager {
    var queue: seq<Event>

    ghost function Contents(): multiset<Event>
      reads this
    {
      multiset(queue)
    }

    /** `EventManager::new`. */
    constructor ()
      ensures Contents() == multiset{}
    {
      queue := [];
    }

    /** `EventManager::add`: the queue gains exactly `event`. */
    method Add(event: Event)
      modifies this
      ensures Contents() == old(Contents()) + multiset{event}
    {
      queue := queue + [event];
    }

    /** `EventManager::next`: `None` exactly on an empty queue; otherwise an
        event of earliest time (the greatest under `Compare`), which leaves
        the queue while everything else stays. */
    method Next() returns (r: Option<Event>)
      modifies this
      ensures r.None? <==> old(Contents()) == multiset{}
      ensures r.None? ==> Contents() == old(Contents())
      ensures r.Some? ==> Queue.IsEarliest(r.value, old(Contents()), TimeOf)
      ensures r.Some? ==> forall x :: x in old(Contents()) ==> Compare(r.value, x) != Less
      ensures r.Some? ==> Contents() == old(Contents()) - multiset{r.value}
    {
      if queue == [] {
        r := None;
      } else {
        var k := Queue.IndexOfEarliest(queue, TimeOf);
        r := Some(queue[k]);
        forall x | x in multiset(queue)
          ensures TimeOf(queue[k]) <= TimeOf(x)
        {
          var j :| 0 <= j < |queue| && queue[j] == x;
        }
        queue := Queue.RemoveAt(queue, k);
      }
    }

    /** One iteration of the `run` loop at loop time `currentTime`. On an
        empty queue nothing changes (the loop spins). Otherwise the earliest
        event is popped, the loop time becomes its time, the executor runs
        it, and a `Reschedule(t)` puts the same action back at time `t`. */
    method RunStep(executor: EventExecutor, currentTime: I32, act: Behaviour)
      returns (time: I32, ghost popped: Option<Event>)
      requires executor.Valid() && executor.lastLogTime >= 0
      requires TimesNonNegative(Contents()) && ReschedulesNonNegative(act)
      modifies this, executor
      ensures executor.Valid() && executor.lastLogTime >= 0
      ensures executor.logFrequency == old(executor.logFrequency)
      ensures TimesNonNegative(Contents())
      ensures popped.None? <==> old(Contents()) == multiset{}
      ensures popped.None? ==>
                time == currentTime && Contents() == old(Contents()) && unchanged(executor)
      ensures popped.Some? ==>
                Queue.IsEarliest(popped.value, old(Contents()), TimeOf) &&
                time == popped.value.executionTime &&
                executor.currentTime == time &&
                Dispatched(popped.value, act(popped.value.action, time), old(Contents()), Contents())
      ensures popped.Some? ==>
                executor.log == old(executor.log) +
                  (if ShouldLog(time, old(executor.lastLogTime), executor.logFrequency) then [time] else [])
    {
      time := currentTime;
      var next := Next();
      popped := next;
      if next.Some? {
        var event := next.value;
        time := event.executionTime;
        var d := executor.Execute(event, act);
        if d.Reschedule? {
          Add(Event(d.time, event.action));
        }
      }
    }

    /** Calls `next` until it returns `None`. The events come back as a pop
        sequence of the queue: in non-decreasing time order, and exactly the
        events that were queued. */
    method Drain() returns (pops: seq<Event>)
      modifies this
      ensures Queue.IsPopSequence(old(Contents()), pops, TimeOf)
      ensures multiset(pops) == old(Contents())
      ensures forall i, j :: 0 <= i < j < |pops| ==> TimeOf(pops[i]) <= TimeOf(pops[j])
      ensures Contents() == multiset{}
    {
      ghost var start := Contents();
      pops := [];
      while true
        invariant Queue.IsPopSequence(start, pops, TimeOf)
        invariant Contents() == start - multiset(pops)
        decreases |Contents()|
      {
        var r := Next();
        if r.None? {
          Queue.PopSequenceComplete(start, pops, TimeOf);
          return;
        }
        Queue.PopStep(start, pops, r.value, TimeOf);
        pops := pops + [r.value];
      }
    }

    /** `EventManager::run`, bounded by `fuel` iterations: start at time 0
        with an executor logging every `LogInterval` units and step until
        the loop time reaches `MaxTime`. `steps` counts the iterations done;
        the loop stops short of `MaxTime` only when the fuel is used up. An
        empty queue spins: time stays 0 and every iteration is spent. No
        iteration grows the queue. `log` is the executor's log at the end. */
    method Run(act: Behaviour, fuel: nat)
      returns (time: I32, finished: bool, ghost steps: nat, ghost log: seq<I32>)
      requires TimesNonNegative(Contents()) && ReschedulesNonNegative(act)
      modifies this
      ensures finished <==> time >= MaxTime
      ensures steps <= fuel
      ensures !finished ==> steps == fuel
      ensures old(Contents()) == multiset{} ==>
                !finished && time == 0 && steps == fuel && Contents() == multiset{}
      ensures |Contents()| <= |old(Contents())|
      ensures TimesNonNegative(Contents())
      ensures Spaced([0] + log, LogInterval)
    {
      var executor := new EventExecutor(LogInterval);
      time := 0;
      steps := 0;
      var left := fuel;
      while time < MaxTime && left > 0
        invariant fresh(executor)
        invariant executor.Valid() && executor.lastLogTime >= 0
        invariant executor.logFrequency == LogInterval
        invariant TimesNonNegative(Contents())
        invariant steps + left == fuel
        invariant |Contents()| <= |old(Contents())|
        invariant old(Contents()) == multiset{} ==> time == 0 && Contents() == multiset{}
        decreases left
      {
        ghost var before := Contents();
        ghost var popped;
        time, popped := RunStep(executor, time, act);
        if popped.Some? {
          DispatchedSize(popped.value, act(popped.value.action, time), before, Contents());
        }
        steps := steps + 1;
        left := left - 1;
      }
      finished := time >= MaxTime;
      log := executor.log;
    }
  }
}
