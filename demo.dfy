/** `src/main.rs`: a second, action-less copy of the event queue, and the
    demo that pushes four times and pops them back in ascending order. */
module Demo {
  import opened Primitives
  import Queue

  /** `Event` with derived `Eq`/`PartialEq`: an event is just its time. */
  datatype Event = Event(executionTime: I32)

  function TimeOf(e: Event): int {
    e.executionTime
  }

  /** Derived `PartialEq::eq`: structural equality, which for this one-field
      struct holds exactly when the times are equal. */
  function Equals(a: Event, b: Event): (r: bool)
    ensures r <==> a.executionTime == b.executionTime
  {
    a == b
  }

  /** `Ord::cmp`: the time order reversed, so a smaller time ranks greater. */
  function Compare(a: Event, b: Event): (r: Ordering)
    ensures r == Reverse(CompareInt(a.executionTime, b.executionTime))
    ensures r == Greater <==> a.executionTime < b.executionTime
    ensures r == Equal <==> Equals(a, b)
  {
    CompareInt(b.executionTime, a.executionTime)
  }

  /** `PartialOrd::partial_cmp`: always defined, and agrees with `cmp`. */
  function PartialCompare(a: Event, b: Event): (r: Option<Ordering>)
    ensures r == Some(Compare(a, b))
  {
    Some(CompareInt(b.executionTime, a.executionTime))
  }

  /** `EventManager` of `main.rs`; `queue` is the storage of its `BinaryHeap`. */
  class EventManager {
    var queue: seq<Event>

    ghost function Contents(): multiset<Event>
      reads this
    {
      multiset(queue)
    }

    /** `EventManager::new`. */
    constructor ()
      ensures Contents() == multiset{}
    {
      queue := [];
    }

    /** `EventManager::add`: the queue gains exactly `event`. */
    method Add(event: Event)
      modifies this
      ensures Contents() == old(Contents()) + multiset{event}
    {
      queue := queue + [event];
    }

    /** `EventManager::next`: `None` exactly on an empty queue; otherwise an
        event of earliest time leaves the queue and everything else stays. */
    method Next() returns (r: Option<Event>)
      modifies this
      ensures r.None? <==> old(Contents()) == multiset{}
      ensures r.None? ==> Contents() == old(Contents())
      ensures r.Some? ==> Queue.IsEarliest(r.value, old(Contents()), TimeOf)
      ensures r.Some? ==> Contents() == old(Contents()) - multiset{r.value}
    {
      if queue == [] {
        r := None;
      } else {
        var k := Queue.IndexOfEarliest(queue, TimeOf);
        r := Some(queue[k]);
        forall x | x in multiset(queue)
          ensures TimeOf(queue[k]) <= TimeOf(x)
        {
          var j :| 0 <= j < |queue| && queue[j] == x;
        }
        queue := Queue.RemoveAt(queue, k);
      }
    }
  }

  /** An earliest element is unique when one stored element lies strictly
      before every other. */
  lemma EarliestIsStrictMinimum(e: Event, m: multiset<Event>, x: Event)
    requires Queue.IsEarliest(e, m, TimeOf)
    requires x in m && forall y :: y in m && y != x ==> x.executionTime < y.executionTime
    ensures e == x
  {
  }

  /** `manager.next().unwrap().execution_time` on a queue holding `first`
      and the events `rest`, all of them later than `first`: the `unwrap`
      succeeds, yields the time of `first`, and `rest` stays queued. */
  method PopEarliestTime(manager: EventManager, ghost first: Event, ghost rest: multiset<Event>)
    returns (t: I32)
    requires manager.Contents() == rest + multiset{first}
    requires forall y :: y in rest ==> first.executionTime < y.executionTime
    modifies manager
    ensures t == first.executionTime
    ensures manager.Contents() == rest
  {
    var r := manager.Next();
    assert r.Some?;
    EarliestIsStrictMinimum(r.value, old(manager.Contents()), first);
    t := r.value.executionTime;
  }

  /** `main`: add 10, 5, 11 and 1, then pop four times. Every `unwrap`
      succeeds and the printed times are 1, 5, 10, 11. */
  method RunDemo() returns (printed: seq<I32>)
    ensures printed == [1, 5, 10, 11]
  {
    var manager := new EventManager();
    manager.Add(Event(10));
    manager.Add(Event(5));
    manager.Add(Event(11));
    manager.Add(Event(1));

    var t := PopEarliestTime(manager, Event(1), multiset{Event(10), Event(5), Event(11)});
    printed := [t];
    t := PopEarliestTime(manager, Event(5), multiset{Event(10), Event(11)});
    printed := printed + [t];
    t := PopEarliestTime(manager, Event(10), multiset{Event(11)});
    printed := printed + [t];
    t := PopEarliestTime(manager, Event(11), multiset{});
    printed := printed + [t];
  }
}
