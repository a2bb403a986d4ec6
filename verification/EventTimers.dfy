/** The time events of ae.c: a singly linked list that callbacks change while it is walked. */
module EventTimers {
  import opened Timers

  /** aeTimeEvent. What its procedures do is given to the pass as turns. */
  class TimeEvent {
    var id: int
    var whenSec: int
    var whenMs: int
    var next: TimeEvent?

    constructor (id: nat, due: Clock, next: TimeEvent?)
      ensures this.id == id && whenSec == due.sec && whenMs == due.ms && this.next == next
    {
      this.id := id;
      whenSec, whenMs := due.sec, due.ms;
      this.next := next;
    }

    /** The fields are those of the timer t. */
    ghost predicate Is(t: Timer)
      reads this
    {
      id == IdOf(t) && whenSec == t.due.sec && whenMs == t.due.ms
    }
  }

  /** The part of aeEventLoop that keeps time. */
  class TimeLoop {
    var timeEventHead: TimeEvent?
    var timeEventNextId: nat
    var lastTime: int
    /** The events on the list, the timers they are, and all that has happened. */
    ghost var list: seq<TimeEvent>
    ghost var timers: seq<Timer>
    ghost var log: seq<Event>
    /** The events there ever were. */
    ghost var events: set<TimeEvent>

    ghost predicate Valid()
      reads this, events
    {
      && timeEventHead == NextOf(list, 0) && |timers| == |list|
      && (forall i :: 0 <= i < |list| ==> list[i] in events)
      && (forall i :: 0 <= i < |list| ==> list[i].Is(timers[i]))
      && (forall i {:trigger list[i].next} :: 0 <= i < |list| ==> list[i].next == NextOf(list, i + 1))
      && forall i, j :: 0 <= i < j < |list| ==> list[i] != list[j]
    }

    ghost function State(): Loop
      reads this
    {
      Loop(timers, timeEventNextId, lastTime, log)
    }

    constructor (now: int)
      ensures Valid() && list == [] && State() == Loop([], 0, now, [])
    {
      timeEventHead := null;
      timeEventNextId := 0;
      lastTime := now;
      list, timers, log, events := [], [], [], {};
    }

    /** What the fields of an event say. */
    lemma Look(te: TimeEvent, i: nat)
      requires Valid() && i < |list| && list[i] == te
      ensures |timers| == |list| && te in events && te.Is(timers[i]) && te.next == NextOf(list, i + 1)
      ensures forall j :: 0 <= j < |list| && list[j] == te ==> j == i
    {
    }

    lemma LookDue(te: TimeEvent, i: nat)
      requires Valid() && i < |list| && list[i] == te
      ensures |timers| == |list| && timers[i].due == Clock(te.whenSec, te.whenMs) && te.next == NextOf(list, i + 1)
    {
    }

    lemma LookState()
      ensures State() == Loop(timers, timeEventNextId, lastTime, log)
    {
    }

    lemma LookHead()
      requires Valid()
      ensures timeEventHead == NextOf(list, 0) && |timers| == |list|
    {
    }

    /** aeCreateTimeEvent, the clock being at now. */
    method CreateTimeEvent(milliseconds: int, now: Clock) returns (id: nat)
      requires Valid()
      modifies this
      ensures Valid() && State() == CreateTimer(old(State()), milliseconds, now) && id == old(timeEventNextId)
      ensures |list| == old(|list|) + 1 && list[1..] == old(list) && fresh(events - old(events))
    {
      id := timeEventNextId;
      timeEventNextId := timeEventNextId + 1;
      var te := new TimeEvent(id, Later(now, milliseconds), timeEventHead);
      timeEventHead := te;
      list := [te] + list;
      events := events + {te};
      timers := [Timer(id, true, Later(now, milliseconds))] + timers;
      log := log + [Created(id)];
    }

    /** `te->id = AE_DELETED_EVENT_ID` */
    method MarkDeleted(te: TimeEvent, ghost i: nat)
      requires Valid() && i < |list| && list[i] == te
      modifies te`id, this`log, this`timers
      ensures Valid() && list == old(list) && events == old(events) && State() == Mark(old(State()), i)
    {
      te.id := DELETED;
      if timers[i].live {
        log := log + [Deleted(timers[i].born)];
        timers := timers[i := timers[i].(live := false)];
      }
    }

    /** aeDeleteTimeEvent */
    method DeleteTimeEvent(id: int) returns (ok: bool)
      requires Valid()
      modifies this`log, this`timers, events
      ensures Valid() && list == old(list) && events == old(events) && State() == DeleteTimer(old(State()), id)
      ensures ok <==> Find(old(timers), id) < |list|
    {
      var te := timeEventHead;
      ghost var i := 0;
      LookHead();
      hide Valid, Find;
      while te != null
        invariant Valid() && i <= |list| == |timers| && te == NextOf(list, i) && State() == old(State()) && list == old(list)
        invariant forall j :: 0 <= j < i ==> IdOf(timers[j]) != id
        decreases |list| - i
      {
        Look(te, i);
        if te.id == id {
          FindIs(timers, id, i);
          MarkDeleted(te, i);
          return true;
        }
        te := te.next;
        i := i + 1;
      }
      FindIs(timers, id, i);
      return false;
    }

    /** aeSearchNearestTimer: the first event of the list that no other is due before. */
    method SearchNearestTimer() returns (nearest: TimeEvent?, ghost at: nat)
      requires Valid()
      ensures nearest == null <==> list == []
      ensures nearest != null ==> at < |list| == |timers| && list[at] == nearest && Nearest(timers, at, |list|)
    {
      nearest, at := null, 0;
      var te := timeEventHead;
      ghost var i, es, ts := 0, list, timers;
      hide Valid, Nearest;
      LookHead();
      while te != null
        invariant i <= |es| == |ts| && te == NextOf(es, i) && (nearest == null <==> i == 0)
        invariant nearest != null ==> at < i && es[at] == nearest && Nearest(ts, at, i)
        decreases |es| - i
      {
        LookDue(te, i);
        if nearest != null {
          LookDue(nearest, at);
        }
        NearestMore(ts, at, i);
        if nearest == null || te.whenSec < nearest.whenSec || (te.whenSec == nearest.whenSec && te.whenMs < nearest.whenMs) {
          nearest, at := te, i;
        }
        te := te.next;
        i := i + 1;
      }
    }

    method Do(a: Action)
      requires Valid()
      modifies this, events
      ensures Valid() && State() == Act(old(State()), a) && Suffix(old(list), list)
      ensures fresh(events - old(events))
    {
      match a
      case Create(delay, at) => var _ := CreateTimeEvent(delay, at);
      case Delete(id) => var _ := DeleteTimeEvent(id);
    }

    /** What a callback does. */
    method Perform(actions: seq<Action>)
      requires Valid()
      modifies this, events
      ensures Valid() && State() == ActAll(old(State()), actions) && Suffix(old(list), list)
      ensures fresh(events - old(events))
      decreases |actions|
    {
      if |actions| == 0 {
        return;
      }
      hide Valid, State, Act, Suffix;
      Perform(actions[..|actions| - 1]);
      ghost var was := list;
      Do(actions[|actions| - 1]);
      SuffixTwice(old(list), was, list);
    }

    method PerformDeletions(ids: seq<int>)
      requires Valid()
      modifies this`log, this`timers, events
      ensures Valid() && list == old(list) && events == old(events) && State() == DeleteAll(old(State()), ids)
      decreases |ids|
    {
      if |ids| == 0 {
        return;
      }
      hide Valid, State, DeleteTimer;
      PerformDeletions(ids[..|ids| - 1]);
      var _ := DeleteTimeEvent(ids[|ids| - 1]);
    }

    /** A deleted event leaves the list: prev is the one before it, if there is one. */
    method Remove(prev: TimeEvent?, te: TimeEvent, ghost i: nat)
      requires Valid() && i < |list| && list[i] == te && prev == (if i == 0 then null else list[i - 1])
      modifies this, prev
      ensures Valid() && events == old(events) && list == old(list[..i] + list[i + 1..]) && State() == Unlink(old(State()), i)
    {
      ghost var was, ts := list, timers;
      hide Valid, Skipping;
      Bypass(prev, te, i);
      log := log + [Finalized(timers[i].born)];
      list := list[..i] + list[i + 1..];
      timers := timers[..i] + timers[i + 1..];
      Relinked(was, ts, i);
    }

    method Bypass(prev: TimeEvent?, te: TimeEvent, ghost i: nat)
      requires Valid() && i < |list| && list[i] == te && prev == (if i == 0 then null else list[i - 1])
      modifies this`timeEventHead, prev
      ensures |list| == |timers| && Skipping(list, timers, i)
    {
      if prev == null {
        timeEventHead := te.next;
      } else {
        prev.next := te.next;
      }
    }

    /** The links pass the event at i by. */
    ghost predicate Skipping(was: seq<TimeEvent>, ts: seq<Timer>, i: nat)
      requires i < |was| == |ts|
      reads this, was
    {
      && (forall j :: 0 <= j < |was| ==> was[j] in events)
      && (forall j, k :: 0 <= j < k < |was| ==> was[j] != was[k])
      && (forall j :: 0 <= j < |was| && j != i ==> was[j].Is(ts[j]))
      && (forall j {:trigger was[j].next} :: 0 <= j < |was| && j != i ==>
            was[j].next == NextOf(was, if j + 1 == i then i + 1 else j + 1))
      && timeEventHead == NextOf(was, if i == 0 then 1 else 0)
    }

    /** The links of the list without the event at i. */
    lemma Relinked(was: seq<TimeEvent>, ts: seq<Timer>, i: nat)
      requires i < |was| == |ts| && list == was[..i] + was[i + 1..] && timers == ts[..i] + ts[i + 1..]
      requires Skipping(was, ts, i)
      ensures Valid()
    {
      forall j | 0 <= j < |list|
        ensures list[j] in events && list[j].Is(timers[j]) && list[j].next == NextOf(list, j + 1)
      {
        RelinkedAt(was, ts, i, j);
      }
      forall j, k | 0 <= j < k < |list|
        ensures list[j] != list[k]
      {
        RelinkedApart(was, ts, i, j, k);
      }
      assert timeEventHead == NextOf(list, 0);
    }

    lemma RelinkedAt(was: seq<TimeEvent>, ts: seq<Timer>, i: nat, j: nat)
      requires i < |was| == |ts| && list == was[..i] + was[i + 1..] && timers == ts[..i] + ts[i + 1..]
      requires Skipping(was, ts, i) && j < |list|
      ensures list[j] in events && list[j].Is(timers[j]) && list[j].next == NextOf(list, j + 1)
    {
      var x := if j < i then j else j + 1;
      assert list[j] == was[x] && timers[j] == ts[x];
    }

    lemma RelinkedApart(was: seq<TimeEvent>, ts: seq<Timer>, i: nat, j: nat, k: nat)
      requires i < |was| == |ts| && list == was[..i] + was[i + 1..] && timers == ts[..i] + ts[i + 1..]
      requires Skipping(was, ts, i) && j < k < |list|
      ensures list[j] != list[k]
    {
      assert list[j] == was[if j < i then j else j + 1] && list[k] == was[if k < i then k else k + 1];
    }

    /** aeAddMillisecondsToNow after the callback. */
    method Postpone(te: TimeEvent, due: Clock, ghost i: nat)
      requires Valid() && i < |list| && list[i] == te
      modifies te`whenSec, te`whenMs, this`timers
      ensures Valid() && list == old(list) && events == old(events) && State() == Reschedule(old(State()), i, due)
    {
      te.whenSec, te.whenMs := due.sec, due.ms;
      timers := timers[i := timers[i].(due := due)];
    }

    method NoteFired(ghost i: nat)
      requires Valid() && i < |list|
      modifies this`log
      ensures Valid() && list == old(list) && events == old(events) && |timers| == |list| && State() == Fire(old(State()), i)
    {
      log := log + [Fired(timers[i].born)];
    }

    /** The event that has k - 1 events after it. */
    ghost predicate At(te: TimeEvent, k: nat)
      reads this, events
    {
      Valid() && 1 <= k <= |list| == |timers| && list[|list| - k] == te
    }

    /** What is known of that event. */
    lemma LookAt(te: TimeEvent, k: nat)
      requires At(te, k)
      ensures Valid() && te in events && k <= |State().timers| && te.Is(FromEnd(State(), k))
    {
    }

    /** The timeProc of an event that is due, and what is made of its return value. */
    method FireEvent(te: TimeEvent, ghost k: nat, turn: Turn)
      requires At(te, k) && k <= |State().timers|
      modifies this, events
      ensures At(te, k) && fresh(events - old(events)) && State() == FireTurn(old(State()), k, turn)
    {
      hide At, ActAll, Valid, Fire, Settle, State;
      LookAt(te, k);
      CallBack(te, k, turn);
      LookAt(te, k);
      SettleEvent(te, k, turn);
    }

    method CallBack(te: TimeEvent, ghost k: nat, turn: Turn)
      requires At(te, k) && k <= |State().timers|
      modifies this, events
      ensures At(te, k) && fresh(events - old(events))
      ensures State() == ActAll(Fire(old(State()), |old(State()).timers| - k), turn.actions)
    {
      hide ActAll, Valid, Fire, Suffix;
      NoteFired(|list| - k);
      Perform(turn.actions);
      SuffixAt(old(list), list, k);
      LookHead();
    }

    method SettleEvent(te: TimeEvent, ghost k: nat, turn: Turn)
      requires At(te, k) && k <= |State().timers|
      modifies te, this`log, this`timers
      ensures At(te, k) && events == old(events) && State() == Settle(old(State()), k, turn)
    {
      hide Valid, Mark, Reschedule;
      if turn.retval != NOMORE {
        Postpone(te, Later(turn.after, turn.retval), |list| - k);
      } else {
        MarkDeleted(te, |list| - k);
      }
      LookHead();
    }

    /** The loop that makes every timer due. */
    method HurryAll()
      requires Valid()
      modifies this`timers, events
      ensures Valid() && list == old(list) && events == old(events) && State() == old(State()).(timers := Hurry(old(timers)))
    {
      var te := timeEventHead;
      ghost var i, es, ts := 0, list, timers;
      LookHead();
      HurriedEnds(ts);
      hide Valid, Hurry, Hurried;
      while te != null
        invariant i <= |es| == |ts| && Valid() && te == NextOf(es, i) && list == es && events == old(events)
        invariant timers == Hurried(ts, i)
        decreases |es| - i
      {
        HurryOne(te, i);
        HurriedMore(ts, i);
        te := te.next;
        i := i + 1;
      }
    }

    method HurryOne(te: TimeEvent, ghost i: nat)
      requires Valid() && i < |list| && list[i] == te
      modifies te`whenSec, this`timers
      ensures Valid() && list == old(list) && events == old(events) && te.next == NextOf(list, i + 1)
      ensures |timers| == |list| && timers == old(timers)[i := old(timers)[i].(due := Clock(0, old(timers)[i].due.ms))]
    {
      te.whenSec := 0;
      timers := timers[i := timers[i].(due := Clock(0, timers[i].due.ms))];
    }

    /** The loop stands before the k last events: te is the first of them, prev the one before it. */
    ghost predicate Walking(prev: TimeEvent?, te: TimeEvent?, k: nat)
      reads this, events
    {
      && Valid() && k <= |list| == |timers|
      && te == NextOf(list, |list| - k)
      && prev == if k == |list| then null else list[|list| - k - 1]
    }

    lemma WalkingAt(prev: TimeEvent?, te: TimeEvent?, k: nat)
      requires Walking(prev, te, k)
      ensures te != null <==> k > 0
      ensures te != null ==> At(te, k)
    {
    }

    lemma WalkOn(te: TimeEvent, k: nat)
      requires At(te, k)
      ensures Walking(te, te.next, k - 1)
    {
    }

    /** A deleted event is unlinked and finalized. */
    method Finalize(prev: TimeEvent?, te: TimeEvent, ghost k: nat, turn: Turn) returns (next: TimeEvent?)
      requires Walking(prev, te, k) && 1 <= k <= |State().timers|
      modifies this, events
      ensures Walking(prev, next, k - 1) && events == old(events)
      ensures State() == DeleteAll(Unlink(old(State()), |old(State()).timers| - k), turn.deletions)
    {
      hide Unlink, DeleteAll, Valid, Walking, State;
      next := Drop(prev, te, k);
      WalkingValid(prev, next, k - 1);
      PerformDeletions(turn.deletions);
      LookHead();
      assert Walking(prev, next, k - 1) by { Walks(prev, next, k - 1); }
    }

    method Drop(prev: TimeEvent?, te: TimeEvent, ghost k: nat) returns (next: TimeEvent?)
      requires Walking(prev, te, k) && 1 <= k <= |State().timers|
      modifies this, events
      ensures Walking(prev, next, k - 1) && events == old(events)
      ensures State() == Unlink(old(State()), |old(State()).timers| - k)
    {
      Look(te, |list| - k);
      if k < |list| {
        Look(prev, |list| - k - 1);
      }
      next := te.next;
      ghost var i, was := |list| - k, list;
      hide Valid, Unlink, Skipping;
      Remove(prev, te, i);
      assert list == was[..i] + was[i + 1..];
      LookHead();
    }

    /** One turn of the loop: prev is the event before te. The branch for an event newer than the pass is not reached. */
    method VisitEvent(before: TimeEvent?, te: TimeEvent, ghost k: nat, maxId: int, turn: Turn)
        returns (prev: TimeEvent?, next: TimeEvent?, fired: bool)
      requires Walking(before, te, k) && 1 <= k <= |State().timers| && FromEnd(State(), k).born <= maxId
      modifies this, events
      ensures Walking(prev, next, k - 1) && fresh(events - old(events)) && State() == Visit(old(State()), k, maxId, turn)
      ensures fired <==> Fires(FromEnd(old(State()), k), maxId, turn.now)
    {
      hide Valid, At, Walking, DeleteAll, Unlink, FireTurn, State;
      prev := before;
      fired := false;
      WalkingAt(prev, te, k);
      LookAt(te, k);
      if te.id == DELETED {
        next := Finalize(prev, te, k, turn);
        return;
      }
      if te.id > maxId {
        assert false;
      }
      if turn.now.sec > te.whenSec || (turn.now.sec == te.whenSec && turn.now.ms >= te.whenMs) {
        FireEvent(te, k, turn);
        fired := true;
      }
      prev := te;
      next := te.next;
      WalkOn(te, k);
    }

    /** processTimeEvents */
    method ProcessTimeEvents(now: int, turns: seq<Turn>) returns (processed: nat)
      requires Valid() && Ordered(State())
      modifies this, events
      ensures Valid() && State() == Pass(old(State()), now, turns) && fresh(events - old(events))
      ensures processed == |PassFires(old(State()), now, turns, |old(timers)|)|
    {
      hide *;
      ghost var s, size := State(), |timers|;
      PassEnds(s, now, turns);
      LookState();
      var prev, te := StartPass(now);
      LookState();
      var maxId, n := timeEventNextId - 1, 0;
      processed := 0;
      while te != null
        invariant n <= size && Walking(prev, te, size - n) && fresh(events - old(events))
        invariant State() == Reached(s, now, turns, n) && processed == |PassFires(s, now, turns, n)|
        decreases size - n
      {
        WalkingAt(prev, te, size - n);
        PassLooks(s, now, turns, n);
        var fired;
        prev, te, fired := VisitEvent(prev, te, size - n, maxId, Nth(turns, n));
        processed := processed + (if fired then 1 else 0);
        n := n + 1;
      }
      WalkingAt(prev, te, size - n);
      WalkingValid(prev, te, size - n);
    }

    lemma WalkingValid(prev: TimeEvent?, te: TimeEvent?, k: nat)
      requires Walking(prev, te, k)
      ensures Valid() && k <= |list| && te == NextOf(list, |list| - k)
      ensures prev == if k == |list| then null else list[|list| - k - 1]
    {
    }

    lemma Walks(prev: TimeEvent?, te: TimeEvent?, k: nat)
      requires Valid() && k <= |list| && te == NextOf(list, |list| - k)
      requires prev == if k == |list| then null else list[|list| - k - 1]
      ensures Walking(prev, te, k)
    {
    }

    /** The check for a clock that went back, and where the loop starts. */
    method StartPass(now: int) returns (prev: TimeEvent?, te: TimeEvent?)
      requires Valid()
      modifies this, events
      ensures events == old(events) && State() == Begin(old(State()), now) && Walking(prev, te, |State().timers|)
      ensures timeEventNextId == old(timeEventNextId) && |State().timers| == |old(timers)|
    {
      if now < lastTime {
        HurryAll();
      }
      lastTime := now;
      prev, te := null, timeEventHead;
    }
  }

  /** Of the first n timers none is due before the one at this place, and those in front of it are due after it. */
  predicate Nearest(ts: seq<Timer>, at: nat, n: nat)
    requires at < n <= |ts|
  {
    && (forall j :: 0 <= j < n ==> !Before(ts[j].due, ts[at].due))
    && forall j :: 0 <= j < at ==> Before(ts[at].due, ts[j].due)
  }

  lemma NearestMore(ts: seq<Timer>, at: nat, n: nat)
    requires n < |ts| && (n > 0 ==> at < n && Nearest(ts, at, n))
    ensures n == 0 || Before(ts[n].due, ts[at].due) ==> Nearest(ts, n, n + 1)
    ensures n > 0 && !Before(ts[n].due, ts[at].due) ==> Nearest(ts, at, n + 1)
  {
  }

  predicate Before(a: Clock, b: Clock) {
    a.sec < b.sec || (a.sec == b.sec && a.ms < b.ms)
  }

  lemma BeforeExactly(a: Clock, b: Clock)
    requires Proper(a) && Proper(b)
    ensures Before(a, b) <==> Milliseconds(a) < Milliseconds(b)
  {
  }

  /** The list has grown in front. */
  ghost predicate Suffix(was: seq<TimeEvent>, now: seq<TimeEvent>) {
    |was| <= |now| && now[|now| - |was|..] == was
  }

  /** The event at a position of a list, null at its end. */
  ghost function NextOf(list: seq<TimeEvent>, i: nat): TimeEvent?
    requires i <= |list|
  {
    if i < |list| then list[i] else null
  }

  lemma SuffixAt(was: seq<TimeEvent>, now: seq<TimeEvent>, k: nat)
    requires Suffix(was, now) && 1 <= k <= |was|
    ensures k <= |now| && now[|now| - k] == was[|was| - k]
  {
    assert now[|now| - k] == now[|now| - |was|..][|was| - k];
  }

  lemma SuffixTwice(a: seq<TimeEvent>, b: seq<TimeEvent>, c: seq<TimeEvent>)
    requires Suffix(a, b) && Suffix(b, c)
    ensures Suffix(a, c)
  {
    assert c[|c| - |a|..] == c[|c| - |b|..][|b| - |a|..];
  }
}
