// Timers of the nodes of a block (src/nodetimer.h, src/nodetimer.cpp), with real time.

module TimerQueues {
  import opened Positions

  datatype NodeTimer = NodeTimer(timeout: real, elapsed: real, position: Pos)

  // An element of the multimap from trigger times to timers.
  datatype Entry = Entry(trigger: real, timer: NodeTimer)

  ghost predicate Sorted(q: seq<Entry>) {
    forall i, j :: 0 <= i < j < |q| ==> q[i].trigger <= q[j].trigger
  }

  ghost predicate DistinctPositions(q: seq<Entry>) {
    forall i, j :: 0 <= i < j < |q| ==> q[i].timer.position != q[j].timer.position
  }

  // The index describes the same timers as the queue.
  ghost predicate Indexed(q: seq<Entry>, index: map<Pos, Entry>) {
    && (forall i :: 0 <= i < |q| ==> q[i].timer.position in index && index[q[i].timer.position] == q[i])
    && (forall p :: p in index ==> index[p] in q && index[p].timer.position == p)
  }

  ghost predicate Describes(q: seq<Entry>, index: map<Pos, Entry>) {
    Sorted(q) && DistinctPositions(q) && Indexed(q, index)
  }

  // std::multimap::emplace: after the elements with the same key.
  function Emplace(q: seq<Entry>, e: Entry): (r: seq<Entry>)
    ensures |r| == |q| + 1
  {
    if q == [] || e.trigger < q[0].trigger then [e] + q else [q[0]] + Emplace(q[1..], e)
  }

  lemma {:induction false} EmplaceAt(q: seq<Entry>, e: Entry) returns (k: nat)
    requires Sorted(q)
    ensures k <= |q| && Emplace(q, e) == q[..k] + [e] + q[k..]
    ensures (forall i :: 0 <= i < k ==> q[i].trigger <= e.trigger)
      && (forall i :: k <= i < |q| ==> e.trigger < q[i].trigger)
  {
    if q == [] || e.trigger < q[0].trigger {
      k := 0;
    } else {
      k := EmplaceAt(q[1..], e);
      assert q[1..][..k] == q[1..k + 1] && q[1..][k..] == q[k + 1..];
      assert q[..k + 1] == [q[0]] + q[1..k + 1];
      forall i | k + 1 <= i < |q|
        ensures e.trigger < q[i].trigger
      {
        assert q[i] == q[1..][i - 1];
      }
      k := k + 1;
    }
  }

  // r is q with e put in before its k-th element.
  ghost predicate Spliced(q: seq<Entry>, e: Entry, k: nat, r: seq<Entry>) {
    && k <= |q| && |r| == |q| + 1 && r[k] == e
    && (forall i :: 0 <= i < k ==> r[i] == q[i])
    && (forall i :: k < i < |r| ==> r[i] == q[i - 1])
  }

  lemma SplicedSame(q: seq<Entry>, e: Entry, k: nat, r: seq<Entry>, d: Entry)
    requires Spliced(q, e, k, r)
    ensures d in r <==> d == e || d in q
  {
    if d in q {
      var i :| 0 <= i < |q| && q[i] == d;
      assert r[if i < k then i else i + 1] == d;
    }
  }

  lemma SplicedSorted(q: seq<Entry>, e: Entry, k: nat, r: seq<Entry>)
    requires Spliced(q, e, k, r) && Sorted(q)
    requires forall i :: 0 <= i < k ==> q[i].trigger <= e.trigger
    requires forall i :: k <= i < |q| ==> e.trigger <= q[i].trigger
    ensures Sorted(r)
  {
  }

  // The index follows the queue through a splice.
  lemma SplicedDescribes(q: seq<Entry>, index: map<Pos, Entry>, e: Entry, k: nat, r: seq<Entry>)
    requires Spliced(q, e, k, r) && DistinctPositions(q) && Indexed(q, index) && e.timer.position !in index
    ensures DistinctPositions(r) && Indexed(r, index[e.timer.position := e])
  {
    assert forall i :: 0 <= i < |q| ==> q[i].timer.position != e.timer.position;
    var index' := index[e.timer.position := e];
    forall p | p in index'
      ensures index'[p] in r && index'[p].timer.position == p
    {
      SplicedSame(q, e, k, r, index'[p]);
    }
  }

  lemma UnsplicedSorted(q: seq<Entry>, e: Entry, k: nat, r: seq<Entry>)
    requires Spliced(r, e, k, q) && Sorted(q) && DistinctPositions(q)
    ensures Sorted(r) && DistinctPositions(r)
    ensures forall i :: 0 <= i < |r| ==> r[i].timer.position != e.timer.position
  {
    assert forall i :: 0 <= i < |r| ==> r[i] == q[if i < k then i else i + 1];
  }

  lemma UnsplicedIndexed(q: seq<Entry>, index: map<Pos, Entry>, e: Entry, k: nat, r: seq<Entry>)
    requires Spliced(r, e, k, q) && Indexed(q, index)
    requires forall i :: 0 <= i < |r| ==> r[i].timer.position != e.timer.position
    ensures Indexed(r, index - {e.timer.position})
  {
    forall i | 0 <= i < |r|
      ensures r[i].timer.position in index && index[r[i].timer.position] == r[i]
    {
      assert r[i] == q[if i < k then i else i + 1];
    }
    forall p | p in index - {e.timer.position}
      ensures index[p] in r
    {
      SplicedSame(r, e, k, q, index[p]);
    }
  }

  lemma UnsplicedDescribes(q: seq<Entry>, index: map<Pos, Entry>, e: Entry, k: nat, r: seq<Entry>)
    requires Spliced(r, e, k, q) && Describes(q, index)
    ensures Describes(r, index - {e.timer.position})
  {
    hide Sorted, DistinctPositions, Indexed, Spliced;
    UnsplicedSorted(q, e, k, r);
    UnsplicedIndexed(q, index, e, k, r);
  }

  lemma EmplaceDescribes(q: seq<Entry>, index: map<Pos, Entry>, e: Entry)
    requires Describes(q, index) && e.timer.position !in index
    ensures Describes(Emplace(q, e), index[e.timer.position := e])
    ensures Emplace(q, e)[0].trigger == if q == [] || e.trigger < q[0].trigger then e.trigger else q[0].trigger
  {
    hide DistinctPositions, Indexed, Sorted;
    var k := EmplaceAt(q, e);
    var r := Emplace(q, e);
    assert Spliced(q, e, k, r);
    SplicedSorted(q, e, k, r);
    SplicedDescribes(q, index, e, k, r);
  }

  // std::multimap::erase of the element an iterator points to.
  function Erase(q: seq<Entry>, e: Entry): seq<Entry> {
    if q == [] then [] else if q[0] == e then q[1..] else [q[0]] + Erase(q[1..], e)
  }

  lemma {:induction false} EraseAt(q: seq<Entry>, e: Entry) returns (k: nat)
    requires e in q
    ensures k < |q| && q[k] == e && Erase(q, e) == q[..k] + q[k + 1..]
  {
    if q[0] == e {
      k := 0;
    } else {
      k := EraseAt(q[1..], e);
      assert q[..k + 1] == [q[0]] + q[1..][..k] && q[1..][k + 1..] == q[k + 2..];
      k := k + 1;
    }
  }

  lemma EraseDescribes(q: seq<Entry>, index: map<Pos, Entry>, p: Pos)
    requires Describes(q, index) && p in index
    ensures Describes(Erase(q, index[p]), index - {p})
    ensures index[p] in q && q[0].trigger <= index[p].trigger
    ensures index[p].trigger != q[0].trigger ==> Erase(q, index[p]) != [] && Erase(q, index[p])[0] == q[0]
  {
    hide Erase, Describes, Spliced;
    var e := index[p];
    IndexInQueue(q, index, p);
    var k := EraseAt(q, e);
    var r := Erase(q, e);
    ErasedIsSpliced(q, e, k, r);
    UnsplicedDescribes(q, index, e, k, r);
    FrontStays(q, e, k, r);
  }

  lemma IndexInQueue(q: seq<Entry>, index: map<Pos, Entry>, p: Pos)
    requires Describes(q, index) && p in index
    ensures index[p] in q && Sorted(q) && index[p].timer.position == p
  {
  }

  lemma ErasedIsSpliced(q: seq<Entry>, e: Entry, k: nat, r: seq<Entry>)
    requires k < |q| && q[k] == e && r == q[..k] + q[k + 1..]
    ensures Spliced(r, e, k, q)
  {
  }

  lemma FrontStays(q: seq<Entry>, e: Entry, k: nat, r: seq<Entry>)
    requires k < |q| && q[k] == e && r == q[..k] + q[k + 1..] && Sorted(q)
    ensures q[0].trigger <= e.trigger && (e.trigger != q[0].trigger ==> r != [] && r[0] == q[0])
  {
  }

  // The front element leaves the queue together with its index entry.
  lemma DropFront(q: seq<Entry>, i: nat, index: map<Pos, Entry>)
    requires i < |q| && Describes(q[i..], index)
    ensures Describes(q[i + 1..], index - {q[i].timer.position})
    ensures q[i].timer.position in index && index[q[i].timer.position] == q[i]
  {
    assert q[i..][0] == q[i];
    assert Spliced(q[i + 1..], q[i], 0, q[i..]);
    UnsplicedDescribes(q[i..], index, q[i], 0, q[i + 1..]);
  }
}

// What a list of timers does over time, told by its index alone.
module TimerRuns {
  import opened Positions
  import opened TimerQueues

  predicate Due(index: map<Pos, Entry>, now: real, p: Pos) {
    p in index && index[p].trigger <= now
  }

  // The timers still running after a step that ends at now.
  function Running(index: map<Pos, Entry>, now: real): map<Pos, Entry> {
    map p | p in index && index[p].trigger > now :: index[p]
  }

  function Fire(e: Entry, now: real): NodeTimer {
    e.timer.(elapsed := e.timer.timeout + (now - e.trigger))
  }

  // fired lists exactly the due timers, each once, in the order of their trigger times.
  ghost predicate Fires(index: map<Pos, Entry>, now: real, fired: seq<NodeTimer>) {
    && (forall k :: 0 <= k < |fired| ==>
      Due(index, now, fired[k].position) && fired[k] == Fire(index[fired[k].position], now))
    && (forall j, k :: 0 <= j < k < |fired| ==>
      fired[j].position != fired[k].position
      && index[fired[j].position].trigger <= index[fired[k].position].trigger)
    && (forall p :: Due(index, now, p) ==> exists k :: 0 <= k < |fired| && fired[k].position == p)
  }

  // What can happen to a list of timers: a step, or a call that sets or removes timers.
  datatype Event = Step(dtime: real) | Set(timer: NodeTimer) | Remove(position: Pos) | Clear {
    predicate Names(p: Pos) {
      Clear? || (Set? && timer.position == p) || (Remove? && position == p)
    }
  }

  datatype Clockwork = Clockwork(index: map<Pos, Entry>, time: real)

  // The entry of a timer that is set at the given time.
  function EntryAt(timer: NodeTimer, time: real): Entry {
    Entry(time + (timer.timeout - timer.elapsed), timer)
  }

  function Next(s: Clockwork, event: Event): Clockwork {
    match event
    case Step(dtime) => Clockwork(Running(s.index, s.time + dtime), s.time + dtime)
    case Set(timer) => s.(index := s.index[timer.position := EntryAt(timer, s.time)])
    case Remove(p) => s.(index := s.index - {p})
    case Clear => s.(index := map[])
  }

  // A timer that fires has the time since it was set added to what had elapsed, and it fires when at
  // least its timeout is over.
  lemma ElapsedSinceSet(timer: NodeTimer, time: real, now: real)
    ensures var t := Fire(EntryAt(timer, time), now);
      && t.elapsed == timer.elapsed + (now - time) && t.timeout == timer.timeout && t.position == timer.position
      && (Due(map[timer.position := EntryAt(timer, time)], now, timer.position) <==> t.elapsed >= timer.timeout)
  {
  }

  // After the first k events.
  function After(s: Clockwork, events: seq<Event>, k: nat): Clockwork
    requires k <= |events|
  {
    if k == 0 then s else Next(After(s, events, k - 1), events[k - 1])
  }

  // Event k is a step that ends at the given time or later.
  predicate Reaches(s: Clockwork, events: seq<Event>, k: nat, trigger: real)
    requires k < |events|
  {
    events[k].Step? && trigger <= After(s, events, k + 1).time
  }

  // Event k is a step in which the timer at p fires.
  predicate FiresIn(s: Clockwork, events: seq<Event>, k: nat, p: Pos)
    requires k < |events|
  {
    events[k].Step? && Due(After(s, events, k).index, After(s, events, k + 1).time, p)
  }

  // No step from event m on, and before event k, ends at the given time or later.
  ghost predicate Before(s: Clockwork, events: seq<Event>, m: nat, k: nat, trigger: real)
    requires k <= |events|
  {
    forall j :: m <= j < k ==> !Reaches(s, events, j, trigger)
  }

  // No event from m on, and before k, sets or removes the timer at p; other timers may come and go.
  ghost predicate Undisturbed(events: seq<Event>, m: nat, k: nat, p: Pos)
    requires k <= |events|
  {
    forall j :: m <= j < k ==> !events[j].Names(p)
  }

  lemma NoneBefore(s: Clockwork, events: seq<Event>, m: nat, trigger: real)
    requires m <= |events|
    ensures Before(s, events, m, m, trigger)
  {
  }

  lemma BeforeNext(s: Clockwork, events: seq<Event>, m: nat, k: nat, trigger: real)
    requires m <= k < |events|
    ensures Before(s, events, m, k + 1, trigger) <==>
      Before(s, events, m, k, trigger) && !Reaches(s, events, k, trigger)
  {
    hide Reaches;
  }

  // What one event does to a timer it does not name.
  lemma NextKeeps(s: Clockwork, event: Event, p: Pos)
    requires !event.Names(p)
    ensures p in Next(s, event).index <==>
      p in s.index && !(event.Step? && s.index[p].trigger <= Next(s, event).time)
    ensures p in Next(s, event).index ==> Next(s, event).index[p] == s.index[p]
  {
  }

  lemma {:induction false} StillRunning(s: Clockwork, events: seq<Event>, m: nat, k: nat, p: Pos)
    requires m <= k <= |events| && Undisturbed(events, m, k, p) && p in After(s, events, m).index
    ensures p in After(s, events, k).index <==> Before(s, events, m, k, After(s, events, m).index[p].trigger)
    ensures p in After(s, events, k).index ==> After(s, events, k).index[p] == After(s, events, m).index[p]
  {
    hide Before, Next;
    if k == m {
      NoneBefore(s, events, m, After(s, events, m).index[p].trigger);
    } else {
      StillRunning(s, events, m, k - 1, p);
      NextKeeps(After(s, events, k - 1), events[k - 1], p);
      BeforeNext(s, events, m, k - 1, After(s, events, m).index[p].trigger);
    }
  }

  // Whatever happens to other timers, a timer fires in the first step that reaches its time.
  lemma FiresWhenReached(s: Clockwork, events: seq<Event>, m: nat, k: nat, p: Pos)
    requires m <= k < |events| && Undisturbed(events, m, k, p) && p in After(s, events, m).index
    ensures var trigger := After(s, events, m).index[p].trigger;
      FiresIn(s, events, k, p) <==> Reaches(s, events, k, trigger) && Before(s, events, m, k, trigger)
  {
    StillRunning(s, events, m, k, p);
  }

  // And in no other.
  lemma FiresOnce(s: Clockwork, events: seq<Event>, m: nat, k: nat, l: nat, p: Pos)
    requires m <= k < |events| && m <= l < |events| && p in After(s, events, m).index
    requires Undisturbed(events, m, k, p) && Undisturbed(events, m, l, p)
    requires FiresIn(s, events, k, p) && FiresIn(s, events, l, p)
    ensures k == l
  {
    FiresWhenReached(s, events, m, k, p);
    FiresWhenReached(s, events, m, l, p);
  }

  // A timer whose time a step reaches has fired in that step or before it.
  lemma FiresByThen(s: Clockwork, events: seq<Event>, m: nat, l: nat, p: Pos) returns (k: nat)
    requires m <= l < |events| && Undisturbed(events, m, l, p) && p in After(s, events, m).index
    requires Reaches(s, events, l, After(s, events, m).index[p].trigger)
    ensures m <= k <= l && FiresIn(s, events, k, p)
  {
    var trigger := After(s, events, m).index[p].trigger;
    k := m;
    while !Reaches(s, events, k, trigger)
      invariant m <= k <= l
      invariant Before(s, events, m, k, trigger)
      decreases l - k
    {
      BeforeNext(s, events, m, k, trigger);
      k := k + 1;
    }
    FiresWhenReached(s, events, m, k, p);
  }

  // A timer set, or set again by its callback, fires in the first step that reaches the time it has
  // left counted from then.
  lemma FiresAfterSet(s: Clockwork, events: seq<Event>, m: nat, k: nat, timer: NodeTimer)
    requires m < k < |events| && events[m] == Set(timer) && Undisturbed(events, m + 1, k, timer.position)
    ensures var trigger := After(s, events, m).time + (timer.timeout - timer.elapsed);
      FiresIn(s, events, k, timer.position) <==>
        Reaches(s, events, k, trigger) && Before(s, events, m + 1, k, trigger)
  {
    FiresWhenReached(s, events, m + 1, k, timer.position);
  }
}

module NodeTimers {
  import opened Positions
  import opened TimerQueues
  import opened TimerRuns

  // The value of nextTriggerTime when there are no timers.
  const NEVER := -1.0

  function FrontTime(q: seq<Entry>): real {
    if q == [] then NEVER else q[0].trigger
  }

  class NodeTimerList {
    var timers: seq<Entry>
    var iterators: map<Pos, Entry>
    var nextTriggerTime: real
    var time: real

    ghost predicate Valid()
      reads this
    {
      Describes(timers, iterators)
    }

    // The next trigger time is that of the first timer, and no trigger time reads as its mark.
    ghost predicate NextIsRight()
      reads this
    {
      && nextTriggerTime == FrontTime(timers)
      && forall p :: p in iterators ==> iterators[p].trigger != NEVER
    }

    // What the runs are told by.
    ghost function State(): Clockwork
      reads this
    {
      Clockwork(iterators, time)
    }

    constructor ()
      ensures Valid() && NextIsRight() && State() == Clockwork(map[], 0.0)
    {
      timers, iterators, nextTriggerTime, time := [], map[], NEVER, 0.0;
    }

    // The timer as it stands now, or the default one.
    function Get(p: Pos): (t: NodeTimer)
      requires Valid()
      reads this
      ensures p in iterators ==> t.position == p && t.timeout - t.elapsed == iterators[p].trigger - time
      ensures p !in iterators ==> t == NodeTimer(0.0, 0.0, Pos(0, 0, 0))
    {
      if p !in iterators then NodeTimer(0.0, 0.0, Pos(0, 0, 0))
      else
        var e := iterators[p];
        e.timer.(elapsed := e.timer.timeout - (e.trigger - time))
    }

    method Remove(p: Pos)
      requires Valid()
      modifies this
      ensures Valid() && State() == Next(old(State()), Event.Remove(p))
      ensures nextTriggerTime == (if p in old(iterators) && old(iterators[p].trigger == nextTriggerTime)
        then FrontTime(timers) else old(nextTriggerTime))
      ensures old(NextIsRight()) ==> NextIsRight()
    {
      hide Describes;
      if p in iterators {
        var removed := iterators[p];
        EraseDescribes(timers, iterators, p);
        timers := Erase(timers, removed);
        iterators := iterators - {p};
        if removed.trigger == nextTriggerTime {
          nextTriggerTime := if timers == [] then NEVER else timers[0].trigger;
        }
      }
    }

    method Insert(timer: NodeTimer)
      requires Valid() && timer.position !in iterators
      modifies this
      ensures Valid() && State() == Next(old(State()), Event.Set(timer))
      ensures nextTriggerTime == var trigger := old(time) + (timer.timeout - timer.elapsed);
        if old(nextTriggerTime) == NEVER || trigger < old(nextTriggerTime) then trigger else old(nextTriggerTime)
      ensures old(NextIsRight()) && old(time) + (timer.timeout - timer.elapsed) != NEVER ==> NextIsRight()
    {
      hide Describes;
      var triggerTime := time + (timer.timeout - timer.elapsed);
      var e := Entry(triggerTime, timer);
      EmplaceDescribes(timers, iterators, e);
      FrontIsIndexed(timers, iterators);
      timers := Emplace(timers, e);
      iterators := iterators[timer.position := e];
      if nextTriggerTime == NEVER || triggerTime < nextTriggerTime {
        nextTriggerTime := triggerTime;
      }
    }

    // Whatever was there before, the timer read back is the one set.
    method Set(timer: NodeTimer)
      requires Valid()
      modifies this
      ensures Valid() && State() == Next(old(State()), Event.Set(timer))
      ensures Get(timer.position) == timer
      ensures forall p :: p != timer.position ==> (p in iterators <==> p in old(iterators)) && Get(p) == old(Get(p))
      ensures old(NextIsRight()) && old(time) + (timer.timeout - timer.elapsed) != NEVER ==> NextIsRight()
    {
      hide Describes;
      Remove(timer.position);
      Insert(timer);
    }

    method Clear()
      modifies this
      ensures Valid() && NextIsRight() && State() == Next(old(State()), Event.Clear)
    {
      timers, iterators, nextTriggerTime := [], map[], NEVER;
    }

    method Step(dtime: real) returns (elapsedTimers: seq<NodeTimer>)
      requires Valid()
      modifies this
      ensures Valid() && time == old(time) + dtime
      ensures StepSkips(old(nextTriggerTime), time) ==>
        elapsedTimers == [] && iterators == old(iterators) && nextTriggerTime == old(nextTriggerTime)
      ensures !StepSkips(old(nextTriggerTime), time) ==>
        && iterators == Running(old(iterators), time) && Fires(old(iterators), time, elapsedTimers)
        && nextTriggerTime == FrontTime(timers)
      ensures old(NextIsRight()) ==>
        && NextIsRight() && State() == Next(old(State()), Event.Step(dtime))
        && Fires(old(iterators), time, elapsedTimers)
    {
      hide Describes, Running, Fires;
      elapsedTimers := [];
      time := time + dtime;
      FrontIsIndexed(timers, iterators);
      if StepSkips(nextTriggerTime, time) {
        SkipNothing(timers, iterators, nextTriggerTime, time);
        return;
      }
      var i := 0;
      ghost var q, index := timers, iterators;
      ElapsedStart(q, index, time);
      while i != |timers| && timers[i].trigger <= time
        invariant i <= |timers| && timers == q && time == old(time) + dtime
        invariant Elapsed(q, index, time, i, iterators, elapsedTimers)
      {
        ElapsedNext(q, index, time, i, iterators, elapsedTimers);
        var t := timers[i].timer;
        t := t.(elapsed := t.timeout + (time - timers[i].trigger));
        elapsedTimers := elapsedTimers + [t];
        iterators := iterators - {t.position};
        i := i + 1;
      }
      ElapsedEnd(q, index, time, i, iterators, elapsedTimers);
      timers := timers[i..];
      nextTriggerTime := if timers == [] then NEVER else timers[0].trigger;
      RunningFrom(index, time);
    }
  }

  lemma RunningFrom(index: map<Pos, Entry>, now: real)
    ensures forall p :: p in Running(index, now) ==> p in index && Running(index, now)[p] == index[p]
  {
  }

  // With the right next trigger time a step that returns at once leaves out nothing.
  lemma SkipNothing(q: seq<Entry>, index: map<Pos, Entry>, nextTriggerTime: real, now: real)
    requires Describes(q, index) && StepSkips(nextTriggerTime, now)
    ensures nextTriggerTime == FrontTime(q) && (forall p :: p in index ==> index[p].trigger != NEVER) ==>
      Running(index, now) == index && Fires(index, now, [])
  {
    hide Describes, Running, Fires;
    if nextTriggerTime == FrontTime(q) && forall p :: p in index ==> index[p].trigger != NEVER {
      FrontIsIndexed(q, index);
      NothingDue(q, index, now);
    }
  }

  lemma FrontIsIndexed(q: seq<Entry>, index: map<Pos, Entry>)
    requires Describes(q, index)
    ensures q != [] ==> q[0].timer.position in index && index[q[0].timer.position] == q[0]
  {
  }

  // The test on which step returns at once.
  predicate StepSkips(nextTriggerTime: real, now: real) {
    nextTriggerTime == NEVER || now < nextTriggerTime
  }

  // It is right exactly when no trigger time can be taken for the mark of an empty list.
  lemma SkipIsRight(q: seq<Entry>, now: real)
    requires Sorted(q) && q != []
    ensures (StepSkips(q[0].trigger, now) <==> forall i :: 0 <= i < |q| ==> now < q[i].trigger)
      <==> (q[0].trigger != NEVER || now < NEVER)
  {
    if q[0].trigger != NEVER || now < NEVER {
      assert now < q[0].trigger ==> forall i :: 0 <= i < |q| ==> now < q[i].trigger;
    } else {
      assert !(now < q[0].trigger);
    }
  }

  // A timer that runs for 1 and is set at time 0 when 2 are over has its trigger at the mark; a step
  // of 1 should let it fire and returns at once.
  lemma MarkIsMissed(p: Pos)
    ensures var e := EntryAt(NodeTimer(1.0, 2.0, p), 0.0);
      && Describes([e], map[p := e]) && StepSkips(FrontTime([e]), 1.0) && Due(map[p := e], 1.0, p)
  {
    var e := EntryAt(NodeTimer(1.0, 2.0, p), 0.0);
    assert e.trigger == NEVER;
  }

  lemma NothingDue(q: seq<Entry>, index: map<Pos, Entry>, now: real)
    requires Describes(q, index) && (q != [] ==> now < q[0].trigger)
    ensures Running(index, now) == index && Fires(index, now, [])
  {
    forall p | p in index
      ensures index[p].trigger > now
    {
      var i :| 0 <= i < |q| && q[i] == index[p];
    }
  }

  // After i elements of q: they are due and in fired, and the index holds the others.
  ghost predicate Elapsed(q: seq<Entry>, index: map<Pos, Entry>, now: real, i: nat, left: map<Pos, Entry>,
                          fired: seq<NodeTimer>)
  {
    && i <= |q| && |fired| == i && Describes(q, index) && Describes(q[i..], left)
    && (forall k :: 0 <= k < i ==> q[k].trigger <= now && fired[k] == Fire(q[k], now))
    && (forall p :: p in left ==> p in index && left[p] == index[p])
    && (forall p :: p in index ==> p in left || exists k :: 0 <= k < i && q[k] == index[p])
  }

  lemma ElapsedStart(q: seq<Entry>, index: map<Pos, Entry>, now: real)
    requires Describes(q, index)
    ensures Elapsed(q, index, now, 0, index, [])
  {
    assert q[0..] == q;
  }

  lemma ElapsedNext(q: seq<Entry>, index: map<Pos, Entry>, now: real, i: nat, left: map<Pos, Entry>,
                    fired: seq<NodeTimer>)
    requires Elapsed(q, index, now, i, left, fired) && i < |q| && q[i].trigger <= now
    ensures Elapsed(q, index, now, i + 1, left - {q[i].timer.position}, fired + [Fire(q[i], now)])
  {
    hide Describes;
    DropFront(q, i, left);
  }

  lemma ElapsedEnd(q: seq<Entry>, index: map<Pos, Entry>, now: real, i: nat, left: map<Pos, Entry>,
                   fired: seq<NodeTimer>)
    requires Elapsed(q, index, now, i, left, fired) && (i < |q| ==> now < q[i].trigger)
    ensures Describes(q[i..], left) && left == Running(index, now) && Fires(index, now, fired)
  {
    hide Describes, Fires, Running;
    NothingDue(q[i..], left, now);
    AllRunning(left, now);
    FiresAll(q, index, now, i, left, fired);
    RestIsRunning(q, index, now, i, left, fired);
  }

  lemma AllRunning(left: map<Pos, Entry>, now: real)
    requires Running(left, now) == left
    ensures forall p :: p in left ==> left[p].trigger > now
  {
    assert forall p :: p in left ==> p in Running(left, now);
  }

  lemma RestIsRunning(q: seq<Entry>, index: map<Pos, Entry>, now: real, i: nat, left: map<Pos, Entry>,
                      fired: seq<NodeTimer>)
    requires Elapsed(q, index, now, i, left, fired) && forall p :: p in left ==> left[p].trigger > now
    ensures left == Running(index, now)
  {
    hide Describes;
  }

  lemma FiresAll(q: seq<Entry>, index: map<Pos, Entry>, now: real, i: nat, left: map<Pos, Entry>, fired: seq<NodeTimer>)
    requires Elapsed(q, index, now, i, left, fired)
    requires forall p :: p in left ==> left[p].trigger > now
    ensures Fires(index, now, fired)
  {
    forall p | Due(index, now, p)
      ensures exists k :: 0 <= k < |fired| && fired[k].position == p
    {
      assert p !in left;
      var k :| 0 <= k < i && q[k] == index[p];
      assert fired[k].position == p;
    }
    assert forall k :: 0 <= k < i ==> index[fired[k].position] == q[k];
  }
}
