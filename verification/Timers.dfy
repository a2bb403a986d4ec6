/** The time events of ae.c as values: the list with its timers newest first, and what has happened to each. */
module Timers {

  /** A clock reading, or when a timer is due. */
  datatype Clock = Clock(sec: int, ms: int)

  /** C division: towards zero. */
  function Quotient(a: int, b: int): int
    requires b > 0
  {
    if a >= 0 then a / b else -(-a / b)
  }

  function Remainder(a: int, b: int): int
    requires b > 0
  {
    a - b * Quotient(a, b)
  }

  /** aeAddMillisecondsToNow */
  function Later(at: Clock, delay: int): Clock {
    var sec, ms := at.sec + Quotient(delay, 1000), at.ms + Remainder(delay, 1000);
    if ms >= 1000 then Clock(sec + 1, ms - 1000) else Clock(sec, ms)
  }

  function Milliseconds(c: Clock): int {
    c.sec * 1000 + c.ms
  }

  predicate Proper(c: Clock) {
    0 <= c.ms < 1000
  }

  /** The sum is exact for every delay; its milliseconds are out of range for just those negative delays that borrow. */
  lemma LaterAdds(at: Clock, delay: int)
    requires Proper(at)
    ensures Milliseconds(Later(at, delay)) == Milliseconds(at) + delay
    ensures Proper(Later(at, delay)) <==> delay >= 0 || at.ms >= -delay % 1000
  {
  }

  /** te: born is the id it was created with, live tells whether its id is still that one or AE_DELETED_EVENT_ID. */
  datatype Timer = Timer(born: nat, live: bool, due: Clock)

  datatype Event = Created(born: nat) | Fired(born: nat) | Deleted(born: nat) | Finalized(born: nat)

  datatype Loop = Loop(timers: seq<Timer>, nextId: nat, lastTime: int, log: seq<Event>)

  /** What a callback may do. */
  datatype Action = Create(delay: int, at: Clock) | Delete(id: int)

  /** What the outside world does when the pass looks at one timer: the clock then, the callback's actions and return
      value if it fires, and the clock after it; a finalizer's deletions if it is removed. */
  datatype Turn = Turn(now: Clock, actions: seq<Action>, retval: int, after: Clock, deletions: seq<int>)

  /** The n-th turn; beyond those given, a clock before any due time that is not negative, and a callback that does nothing. */
  function Nth(turns: seq<Turn>, n: nat): Turn {
    if n < |turns| then turns[n] else Turn(Clock(0, -1), [], NOMORE, Clock(0, -1), [])
  }

  const NOMORE: int := -1
  const DELETED: int := -1

  // ------------------------------------------------------------------------- operations

  /** aeCreateTimeEvent */
  function CreateTimer(s: Loop, delay: int, at: Clock): Loop {
    s.(timers := [Timer(s.nextId, true, Later(at, delay))] + s.timers, nextId := s.nextId + 1, log := s.log + [Created(s.nextId)])
  }

  /** The first timer whose id field is `id`. */
  function Find(ts: seq<Timer>, id: int): (i: nat)
    ensures i <= |ts|
  {
    if ts == [] then 0
    else if IdOf(ts[0]) == id then 0
    else 1 + Find(ts[1..], id)
  }

  function IdOf(t: Timer): int {
    if t.live then t.born else DELETED
  }

  lemma {:induction false} FindIs(ts: seq<Timer>, id: int, i: nat)
    requires i <= |ts| && (i < |ts| ==> IdOf(ts[i]) == id) && forall j :: 0 <= j < i ==> IdOf(ts[j]) != id
    ensures Find(ts, id) == i
  {
    if i > 0 {
      FindIs(ts[1..], id, i - 1);
    }
  }

  /** `te->id = AE_DELETED_EVENT_ID` */
  function Mark(s: Loop, i: nat): Loop
    requires i < |s.timers|
  {
    if s.timers[i].live then
      s.(timers := s.timers[i := s.timers[i].(live := false)], log := s.log + [Deleted(s.timers[i].born)])
    else s
  }

  /** aeDeleteTimeEvent; it returns AE_OK when Find finds one. */
  function DeleteTimer(s: Loop, id: int): Loop {
    var i := Find(s.timers, id);
    if i < |s.timers| then Mark(s, i) else s
  }

  function Act(s: Loop, a: Action): (r: Loop)
    ensures |r.timers| >= |s.timers|
  {
    match a
    case Create(delay, at) => CreateTimer(s, delay, at)
    case Delete(id) => DeleteTimer(s, id)
  }

  function ActAll(s: Loop, actions: seq<Action>): (r: Loop)
    ensures |r.timers| >= |s.timers|
    decreases |actions|
  {
    if actions == [] then s else Act(ActAll(s, actions[..|actions| - 1]), actions[|actions| - 1])
  }

  function DeleteAll(s: Loop, ids: seq<int>): (r: Loop)
    ensures |r.timers| == |s.timers|
    decreases |ids|
  {
    if ids == [] then s else DeleteTimer(DeleteAll(s, ids[..|ids| - 1]), ids[|ids| - 1])
  }

  predicate Due(t: Timer, now: Clock) {
    now.sec > t.due.sec || (now.sec == t.due.sec && now.ms >= t.due.ms)
  }

  function Unlink(s: Loop, i: nat): Loop
    requires i < |s.timers|
  {
    s.(timers := s.timers[..i] + s.timers[i + 1..], log := s.log + [Finalized(s.timers[i].born)])
  }

  function Fire(s: Loop, i: nat): Loop
    requires i < |s.timers|
  {
    s.(log := s.log + [Fired(s.timers[i].born)])
  }

  function Reschedule(s: Loop, i: nat, due: Clock): Loop
    requires i < |s.timers|
  {
    s.(timers := s.timers[i := s.timers[i].(due := due)])
  }

  /** The timer that has k - 1 timers after it. */
  function FromEnd(s: Loop, k: nat): Timer
    requires 1 <= k <= |s.timers|
  {
    s.timers[|s.timers| - k]
  }

  /** After the callback: the next due time, or deletion. */
  function Settle(s: Loop, k: nat, turn: Turn): (r: Loop)
    requires 1 <= k <= |s.timers|
    ensures |r.timers| == |s.timers|
  {
    var i := |s.timers| - k;
    if turn.retval != NOMORE then Reschedule(s, i, Later(turn.after, turn.retval)) else Mark(s, i)
  }

  /** A timer that is due: its callback, then what is made of the return value. */
  function FireTurn(s: Loop, k: nat, turn: Turn): (r: Loop)
    requires 1 <= k <= |s.timers|
    ensures |r.timers| >= k
  {
    Settle(ActAll(Fire(s, |s.timers| - k), turn.actions), k, turn)
  }

  /** One turn of the loop in processTimeEvents, at the timer that has k - 1 timers after it. */
  function Visit(s: Loop, k: nat, maxId: int, turn: Turn): (r: Loop)
    requires 1 <= k <= |s.timers|
    ensures |r.timers| >= k - 1
  {
    var i := |s.timers| - k;
    var t := s.timers[i];
    if !t.live then DeleteAll(Unlink(s, i), turn.deletions)
    else if t.born > maxId || !Due(t, turn.now) then s
    else FireTurn(s, k, turn)
  }

  /** The loop after n turns. */
  function Visited(s: Loop, maxId: int, turns: seq<Turn>, n: nat): (r: Loop)
    requires n <= |s.timers|
    ensures |r.timers| >= |s.timers| - n
  {
    if n == 0 then s else Visit(Visited(s, maxId, turns, n - 1), |s.timers| - (n - 1), maxId, Nth(turns, n - 1))
  }

  /** When the clock has gone back every timer is made due. */
  function Hurry(ts: seq<Timer>): (r: seq<Timer>)
    ensures |r| == |ts|
  {
    seq(|ts|, i requires 0 <= i < |ts| => ts[i].(due := Clock(0, ts[i].due.ms)))
  }

  /** The first i timers hurried. */
  function Hurried(ts: seq<Timer>, i: nat): (r: seq<Timer>)
    requires i <= |ts|
    ensures |r| == |ts|
  {
    Hurry(ts[..i]) + ts[i..]
  }

  lemma HurriedEnds(ts: seq<Timer>)
    ensures Hurried(ts, 0) == ts && Hurried(ts, |ts|) == Hurry(ts)
  {
    assert ts[..|ts|] == ts;
  }

  lemma HurriedMore(ts: seq<Timer>, i: nat)
    requires i < |ts|
    ensures Hurried(ts, i)[i] == ts[i]
    ensures Hurried(ts, i)[i := ts[i].(due := Clock(0, ts[i].due.ms))] == Hurried(ts, i + 1)
  {
  }

  function Begin(s: Loop, now: int): (r: Loop)
    ensures |r.timers| == |s.timers|
  {
    s.(timers := if now < s.lastTime then Hurry(s.timers) else s.timers, lastTime := now)
  }

  /** processTimeEvents */
  function Pass(s: Loop, now: int, turns: seq<Turn>): Loop
  {
    Visited(Begin(s, now), s.nextId - 1, turns, |s.timers|)
  }

  // ------------------------------------------------------------------------- invariant

  /** Ids decrease from the head on, all below the next one. */
  predicate Ordered(s: Loop) {
    && (forall i, j :: 0 <= i < j < |s.timers| ==> s.timers[j].born < s.timers[i].born)
    && forall i :: 0 <= i < |s.timers| ==> s.timers[i].born < s.nextId
  }

  /** What may happen next. */
  predicate Allowed(log: seq<Event>, e: Event) {
    match e
    case Created(b) => Created(b) !in log
    case Fired(b) => Created(b) in log && Deleted(b) !in log
    case Deleted(b) => Created(b) in log && Deleted(b) !in log
    case Finalized(b) => Deleted(b) in log && Finalized(b) !in log
  }

  /** The life cycle: every event was allowed by those before it. */
  predicate Disciplined(log: seq<Event>)
    decreases |log|
  {
    log == [] || (Disciplined(log[..|log| - 1]) && Allowed(log[..|log| - 1], log[|log| - 1]))
  }

  predicate Listed(s: Loop, b: nat) {
    exists i :: 0 <= i < |s.timers| && s.timers[i].born == b
  }

  /** The list is what the log says: a timer is in it from its creation to its finalization, and its id is marked when it
      is deleted. */
  ghost predicate Consistent(s: Loop) {
    && (forall b: nat :: Created(b) in s.log <==> b < s.nextId)
    && (forall b: nat :: Listed(s, b) <==> b < s.nextId && Finalized(b) !in s.log)
    && forall i :: 0 <= i < |s.timers| ==> (s.timers[i].live <==> Deleted(s.timers[i].born) !in s.log)
  }

  ghost predicate Inv(s: Loop) {
    Ordered(s) && Disciplined(s.log) && Consistent(s)
  }

  lemma DisciplinedAppend(log: seq<Event>, e: Event)
    requires Disciplined(log) && Allowed(log, e)
    ensures Disciplined(log + [e])
  {
    assert (log + [e])[..|log|] == log;
  }

  /** Nothing happens to a timer before it is created, no finalization before its deletion. */
  lemma {:induction false} Causes(log: seq<Event>, b: nat)
    requires Disciplined(log)
    ensures Finalized(b) in log ==> Deleted(b) in log
    ensures Deleted(b) in log || Fired(b) in log ==> Created(b) in log
    decreases |log|
  {
    if log != [] {
      var before, e := log[..|log| - 1], log[|log| - 1];
      assert log == before + [e];
      Causes(before, b);
    }
  }

  lemma CreateKeeps(s: Loop, delay: int, at: Clock)
    requires Inv(s)
    ensures Inv(CreateTimer(s, delay, at))
  {
    var r := CreateTimer(s, delay, at);
    DisciplinedAppend(s.log, Created(s.nextId));
    Causes(s.log, s.nextId);
    forall b: nat ensures Listed(r, b) <==> b == s.nextId || Listed(s, b) {
      assert r.timers[0].born == s.nextId;
      if Listed(s, b) {
        var i :| 0 <= i < |s.timers| && s.timers[i].born == b;
        assert r.timers[i + 1].born == b;
      }
    }
  }

  lemma MarkKeeps(s: Loop, i: nat)
    requires Inv(s) && i < |s.timers|
    ensures Inv(Mark(s, i))
  {
    if s.timers[i].live {
      var r := Mark(s, i);
      assert Listed(s, s.timers[i].born);
      DisciplinedAppend(s.log, Deleted(s.timers[i].born));
      SameListed(s, r);
    }
  }

  lemma SameListed(s: Loop, r: Loop)
    requires |r.timers| == |s.timers| && forall i :: 0 <= i < |s.timers| ==> r.timers[i].born == s.timers[i].born
    ensures forall b: nat :: Listed(r, b) <==> Listed(s, b)
  {
    forall b: nat ensures Listed(r, b) <==> Listed(s, b) {
      if Listed(s, b) {
        var i :| 0 <= i < |s.timers| && s.timers[i].born == b;
        assert r.timers[i].born == b;
      }
    }
  }

  lemma UnlinkKeeps(s: Loop, i: nat)
    requires Inv(s) && i < |s.timers| && !s.timers[i].live
    ensures Inv(Unlink(s, i))
  {
    var r, x := Unlink(s, i), s.timers[i].born;
    assert Listed(s, x);
    DisciplinedAppend(s.log, Finalized(x));
    UnlinkListed(s, i);
    assert forall j :: 0 <= j < |r.timers| ==> r.timers[j] == s.timers[if j < i then j else j + 1];
    hide Disciplined, Listed;
  }

  lemma UnlinkListed(s: Loop, i: nat)
    requires Ordered(s) && i < |s.timers|
    ensures forall b: nat :: Listed(Unlink(s, i), b) <==> Listed(s, b) && b != s.timers[i].born
  {
    var r, x := Unlink(s, i), s.timers[i].born;
    forall b: nat ensures Listed(r, b) <==> Listed(s, b) && b != x {
      if Listed(s, b) && b != x {
        var j :| 0 <= j < |s.timers| && s.timers[j].born == b;
        assert r.timers[if j < i then j else j - 1].born == b;
      }
      if Listed(r, b) {
        var j :| 0 <= j < |r.timers| && r.timers[j].born == b;
        assert s.timers[if j < i then j else j + 1].born == b;
      }
    }
  }

  lemma FireKeeps(s: Loop, i: nat)
    requires Inv(s) && i < |s.timers| && s.timers[i].live
    ensures Inv(Fire(s, i))
  {
    assert Listed(s, s.timers[i].born);
    DisciplinedAppend(s.log, Fired(s.timers[i].born));
    SameListed(s, Fire(s, i));
  }

  /** Due times do not matter to the invariant. */
  lemma DueKeeps(s: Loop, ts: seq<Timer>, lastTime: int)
    requires Inv(s) && |ts| == |s.timers|
    requires forall i :: 0 <= i < |ts| ==> ts[i].born == s.timers[i].born && ts[i].live == s.timers[i].live
    ensures Inv(s.(timers := ts, lastTime := lastTime))
  {
    SameListed(s, s.(timers := ts, lastTime := lastTime));
  }

  lemma DeleteKeeps(s: Loop, id: int)
    requires Inv(s)
    ensures Inv(DeleteTimer(s, id))
  {
    if Find(s.timers, id) < |s.timers| {
      MarkKeeps(s, Find(s.timers, id));
    }
  }

  lemma {:induction false} ActAllKeeps(s: Loop, actions: seq<Action>)
    requires Inv(s)
    ensures Inv(ActAll(s, actions))
    decreases |actions|
  {
    if actions != [] {
      var before, a := actions[..|actions| - 1], actions[|actions| - 1];
      ActAllKeeps(s, before);
      if a.Create? {
        CreateKeeps(ActAll(s, before), a.delay, a.at);
      } else {
        DeleteKeeps(ActAll(s, before), a.id);
      }
    }
  }

  lemma {:induction false} DeleteAllKeeps(s: Loop, ids: seq<int>)
    requires Inv(s)
    ensures Inv(DeleteAll(s, ids))
    decreases |ids|
  {
    if ids != [] {
      DeleteAllKeeps(s, ids[..|ids| - 1]);
      DeleteKeeps(DeleteAll(s, ids[..|ids| - 1]), ids[|ids| - 1]);
    }
  }

  lemma VisitKeeps(s: Loop, k: nat, maxId: int, turn: Turn)
    requires Inv(s) && 1 <= k <= |s.timers|
    ensures Inv(Visit(s, k, maxId, turn))
  {
    var i := |s.timers| - k;
    var t := s.timers[i];
    hide Inv, Unlink, DeleteAll, FireTurn, Due;
    if !t.live {
      UnlinkKeeps(s, i);
      DeleteAllKeeps(Unlink(s, i), turn.deletions);
    } else if t.born <= maxId && Due(t, turn.now) {
      FireTurnKeeps(s, k, turn);
    }
  }

  lemma FireTurnKeeps(s: Loop, k: nat, turn: Turn)
    requires Inv(s) && 1 <= k <= |s.timers| && s.timers[|s.timers| - k].live
    ensures Inv(FireTurn(s, k, turn))
  {
    var i := |s.timers| - k;
    FireKeeps(s, i);
    hide Inv, Fire, ActAll, Settle;
    ActAllKeeps(Fire(s, i), turn.actions);
    SettleKeeps(ActAll(Fire(s, i), turn.actions), k, turn);
  }

  lemma SettleKeeps(s: Loop, k: nat, turn: Turn)
    requires Inv(s) && 1 <= k <= |s.timers|
    ensures Inv(Settle(s, k, turn))
  {
    var i := |s.timers| - k;
    if turn.retval != NOMORE {
      DueKeeps(s, Settle(s, k, turn).timers, s.lastTime);
      assert Settle(s, k, turn) == s.(timers := Settle(s, k, turn).timers, lastTime := s.lastTime);
    } else {
      MarkKeeps(s, i);
    }
  }

  lemma VisitedOn(s: Loop, maxId: int, turns: seq<Turn>, n: nat)
    requires 1 <= n <= |s.timers|
    ensures Visited(s, maxId, turns, n) ==
      Visit(Visited(s, maxId, turns, n - 1), |s.timers| - (n - 1), maxId, Nth(turns, n - 1))
  {
  }

  lemma {:induction false} VisitedKeeps(s: Loop, maxId: int, turns: seq<Turn>, n: nat)
    requires Inv(s) && n <= |s.timers|
    ensures Inv(Visited(s, maxId, turns, n))
  {
    hide Inv, Visit;
    if n == 0 {
      return;
    }
    VisitedKeeps(s, maxId, turns, n - 1);
    VisitedOn(s, maxId, turns, n);
    hide Visited;
    VisitKeeps(Visited(s, maxId, turns, n - 1), |s.timers| - (n - 1), maxId, Nth(turns, n - 1));
  }

  lemma BeginKeeps(s: Loop, now: int)
    requires Inv(s)
    ensures Inv(Begin(s, now))
  {
    DueKeeps(s, Begin(s, now).timers, now);
    assert Begin(s, now) == s.(timers := Begin(s, now).timers, lastTime := now);
  }

  lemma PassKeeps(s: Loop, now: int, turns: seq<Turn>)
    requires Inv(s)
    ensures Inv(Pass(s, now, turns))
  {
    hide Inv, Visited, Begin;
    BeginKeeps(s, now);
    VisitedKeeps(Begin(s, now), s.nextId - 1, turns, |s.timers|);
  }

  // ------------------------------------------------------------------------- all runs

  datatype Step = CreateStep(delay: int, at: Clock) | DeleteStep(id: int) | PassStep(now: int, turns: seq<Turn>)

  function Take(s: Loop, step: Step): Loop {
    match step
    case CreateStep(delay, at) => CreateTimer(s, delay, at)
    case DeleteStep(id) => DeleteTimer(s, id)
    case PassStep(now, turns) => Pass(s, now, turns)
  }

  /** The loop that aeCreateEventLoop makes, after the steps. */
  function Run(start: int, steps: seq<Step>): Loop
    decreases |steps|
  {
    if steps == [] then Loop([], 0, start, []) else Take(Run(start, steps[..|steps| - 1]), steps[|steps| - 1])
  }

  lemma {:induction false} RunKeeps(start: int, steps: seq<Step>)
    ensures Inv(Run(start, steps))
    decreases |steps|
  {
    if steps != [] {
      var before, step := steps[..|steps| - 1], steps[|steps| - 1];
      RunKeeps(start, before);
      match step
      case CreateStep(delay, at) => CreateKeeps(Run(start, before), delay, at);
      case DeleteStep(id) => DeleteKeeps(Run(start, before), id);
      case PassStep(now, turns) => PassKeeps(Run(start, before), now, turns);
    }
  }

  /** The life cycle by position: no event twice but firing, none of them out of turn. */
  lemma {:induction false} LifeCycle(log: seq<Event>, i: nat, j: nat)
    requires Disciplined(log) && i < j < |log|
    ensures log[i].Deleted? ==> log[j] != Fired(log[i].born)
    ensures !log[i].Fired? ==> log[j] != log[i]
    ensures log[j].born == log[i].born ==> !log[i].Finalized? && !log[j].Created?
    decreases |log|
  {
    var before, e := log[..|log| - 1], log[|log| - 1];
    assert log == before + [e];
    if j < |before| {
      LifeCycle(before, i, j);
    } else {
      assert before[i] == log[i];
      Causes(before, log[i].born);
    }
  }

  /** In every run: live ids are distinct and decrease from the head; a timer's events come in the order creation,
      firings, deletion, finalization, all but firings once at most; and a timer is on the list, once, exactly until it is
      finalized. */
  lemma RunLifeCycle(start: int, steps: seq<Step>)
    ensures var s := Run(start, steps);
      && (forall i, j :: 0 <= i < j < |s.timers| ==> s.timers[j].born < s.timers[i].born)
      && (forall i, j :: 0 <= i < j < |s.log| && s.log[i].Deleted? ==> s.log[j] != Fired(s.log[i].born))
      && (forall i, j :: 0 <= i < j < |s.log| && !s.log[i].Fired? ==> s.log[j] != s.log[i])
      && (forall b: nat :: Created(b) in s.log ==> (Listed(s, b) <==> Finalized(b) !in s.log))
      && (forall b: nat :: Finalized(b) in s.log ==> Deleted(b) in s.log)
  {
    var s := Run(start, steps);
    RunKeeps(start, steps);
    forall i, j | 0 <= i < j < |s.log|
      ensures s.log[i].Deleted? ==> s.log[j] != Fired(s.log[i].born)
      ensures !s.log[i].Fired? ==> s.log[j] != s.log[i]
    {
      LifeCycle(s.log, i, j);
    }
    forall b: nat ensures Finalized(b) in s.log ==> Deleted(b) in s.log { Causes(s.log, b); }
  }

  // ------------------------------------------------------------------------- one pass

  /** The k last timers of s are still the k last of r, due when they were, some deleted meanwhile. */
  ghost predicate Waiting(s: Loop, r: Loop, k: nat) {
    && k <= |s.timers| && k <= |r.timers|
    && forall j :: 1 <= j <= k ==>
         var t, u := FromEnd(s, j), FromEnd(r, j);
         u.born == t.born && u.due == t.due && (u.live ==> t.live)
  }

  /** The ids fired, in order. */
  function FiredIn(log: seq<Event>): seq<nat>
    decreases |log|
  {
    if log == [] then []
    else
      var e := log[|log| - 1];
      FiredIn(log[..|log| - 1]) + (if e.Fired? then [e.born] else [])
  }

  lemma FiredAppend(log: seq<Event>, e: Event)
    ensures FiredIn(log + [e]) == FiredIn(log) + (if e.Fired? then [e.born] else [])
  {
    assert (log + [e])[..|log|] == log;
  }

  /** s leads to r without a timer firing, the timers staying where they are, counted from the end. */
  ghost predicate Quietly(s: Loop, r: Loop) {
    Waiting(s, r, |s.timers|) && s.log <= r.log && FiredIn(r.log) == FiredIn(s.log)
  }

  lemma QuietlyTwice(s: Loop, q: Loop, r: Loop)
    requires Quietly(s, q) && Quietly(q, r)
    ensures Quietly(s, r)
  {
    hide FiredIn;
    forall j | 1 <= j <= |s.timers|
      ensures FromEnd(r, j).born == FromEnd(s, j).born && FromEnd(r, j).due == FromEnd(s, j).due
      ensures FromEnd(r, j).live ==> FromEnd(s, j).live
    {
      assert FromEnd(q, j).born == FromEnd(s, j).born;
    }
  }

  lemma MarkQuietly(s: Loop, i: nat)
    requires i < |s.timers|
    ensures Quietly(s, Mark(s, i))
  {
    hide FiredIn;
    FiredAppend(s.log, Deleted(s.timers[i].born));
  }

  lemma ActQuietly(s: Loop, a: Action)
    ensures Quietly(s, Act(s, a))
  {
    hide FiredIn;
    if a.Create? {
      FiredAppend(s.log, Created(s.nextId));
    } else if Find(s.timers, a.id) < |s.timers| {
      MarkQuietly(s, Find(s.timers, a.id));
    }
  }

  lemma {:induction false} ActAllQuietly(s: Loop, actions: seq<Action>)
    ensures Quietly(s, ActAll(s, actions))
    decreases |actions|
  {
    if actions != [] {
      var before, a := actions[..|actions| - 1], actions[|actions| - 1];
      ActAllQuietly(s, before);
      ActQuietly(ActAll(s, before), a);
      QuietlyTwice(s, ActAll(s, before), ActAll(s, actions));
    }
  }

  lemma {:induction false} DeleteAllQuietly(s: Loop, ids: seq<int>)
    ensures Quietly(s, DeleteAll(s, ids))
    decreases |ids|
  {
    if ids != [] {
      var before, id := ids[..|ids| - 1], ids[|ids| - 1];
      DeleteAllQuietly(s, before);
      ActQuietly(DeleteAll(s, before), Delete(id));
      QuietlyTwice(s, DeleteAll(s, before), DeleteAll(s, ids));
    }
  }

  predicate Fires(t: Timer, maxId: int, now: Clock) {
    t.live && t.born <= maxId && Due(t, now)
  }

  lemma VisitDeleted(s: Loop, k: nat, maxId: int, turn: Turn)
    requires 1 <= k <= |s.timers| && !FromEnd(s, k).live
    ensures var t, r := FromEnd(s, k), Visit(s, k, maxId, turn);
      Waiting(s, r, k - 1) && s.log <= r.log && FiredIn(r.log) == FiredIn(s.log) && Finalized(t.born) in r.log
  {
    var u := Unlink(s, |s.timers| - k);
    assert Visit(s, k, maxId, turn) == DeleteAll(u, turn.deletions);
    UnlinkEffect(s, k);
    hide Visit, DeleteAll, FiredIn, Unlink;
    DeleteAllQuietly(u, turn.deletions);
    WaitingOn(s, u, DeleteAll(u, turn.deletions), k - 1);
    assert DeleteAll(u, turn.deletions).log[|s.log|] == u.log[|s.log|];
  }

  lemma UnlinkEffect(s: Loop, k: nat)
    requires 1 <= k <= |s.timers|
    ensures var u := Unlink(s, |s.timers| - k);
      && |u.timers| == |s.timers| - 1 && s.log < u.log && u.log[|s.log|] == Finalized(FromEnd(s, k).born)
      && Waiting(s, u, k - 1) && FiredIn(u.log) == FiredIn(s.log)
  {
    FiredAppend(s.log, Finalized(FromEnd(s, k).born));
  }

  lemma VisitFires(s: Loop, k: nat, maxId: int, turn: Turn)
    requires 1 <= k <= |s.timers| && Fires(FromEnd(s, k), maxId, turn.now)
    ensures var t, r := FromEnd(s, k), Visit(s, k, maxId, turn);
      Waiting(s, r, k - 1) && s.log <= r.log && FiredIn(r.log) == FiredIn(s.log) + [t.born]
  {
    var i := |s.timers| - k;
    var u := Fire(s, i);
    var v := ActAll(u, turn.actions);
    FireEffect(s, k);
    assert Visit(s, k, maxId, turn) == Settle(v, k, turn);
    hide Visit, ActAll, Settle, FiredIn, Fire;
    ActAllQuietly(u, turn.actions);
    SettleEffect(v, k, turn);
    WaitingOn(s, u, v, k - 1);
    WaitingOn(s, v, Settle(v, k, turn), k - 1);
  }

  lemma FireEffect(s: Loop, k: nat)
    requires 1 <= k <= |s.timers|
    ensures var u := Fire(s, |s.timers| - k);
      && u.timers == s.timers && s.log <= u.log && Waiting(s, u, k - 1)
      && FiredIn(u.log) == FiredIn(s.log) + [FromEnd(s, k).born]
  {
    FiredAppend(s.log, Fired(FromEnd(s, k).born));
  }

  /** One turn of the loop: those not yet looked at stay; the one looked at fires if it is live, old enough and due, and is
      finalized if it is deleted. */
  lemma VisitEffect(s: Loop, k: nat, maxId: int, turn: Turn)
    requires 1 <= k <= |s.timers|
    ensures var t, r := FromEnd(s, k), Visit(s, k, maxId, turn);
      && Waiting(s, r, k - 1) && s.log <= r.log
      && FiredIn(r.log) == FiredIn(s.log) + (if Fires(t, maxId, turn.now) then [t.born] else [])
      && (!t.live ==> Finalized(t.born) in r.log)
  {
    var t := FromEnd(s, k);
    if !t.live {
      VisitDeleted(s, k, maxId, turn);
    } else if Fires(t, maxId, turn.now) {
      VisitFires(s, k, maxId, turn);
    } else {
      assert Visit(s, k, maxId, turn) == s;
    }
  }

  lemma WaitingAt(s: Loop, r: Loop, k: nat, j: nat)
    requires Waiting(s, r, k) && 1 <= j <= k
    ensures FromEnd(r, j).born == FromEnd(s, j).born && FromEnd(r, j).due == FromEnd(s, j).due
    ensures FromEnd(r, j).live ==> FromEnd(s, j).live
  {
  }

  lemma WaitingOn(s: Loop, q: Loop, r: Loop, k: nat)
    requires Waiting(s, q, k) && (Waiting(q, r, k) || (k <= |q.timers| && Waiting(q, r, |q.timers|)))
    ensures Waiting(s, r, k)
  {
    forall j | 1 <= j <= k
      ensures FromEnd(r, j).born == FromEnd(s, j).born && FromEnd(r, j).due == FromEnd(s, j).due
      ensures FromEnd(r, j).live ==> FromEnd(s, j).live
    {
      assert FromEnd(q, j).born == FromEnd(s, j).born && FromEnd(r, j).born == FromEnd(q, j).born;
    }
  }

  lemma SettleEffect(s: Loop, k: nat, turn: Turn)
    requires 1 <= k <= |s.timers|
    ensures Waiting(s, Settle(s, k, turn), k - 1) && s.log <= Settle(s, k, turn).log
    ensures FiredIn(Settle(s, k, turn).log) == FiredIn(s.log)
  {
    FiredAppend(s.log, Deleted(FromEnd(s, k).born));
  }

  lemma WaitingLess(s: Loop, r: Loop, k: nat)
    requires k >= 1 && Waiting(s, r, k)
    ensures Waiting(s, r, k - 1)
  {
  }

  lemma VisitWaiting(s: Loop, k: nat, maxId: int, turn: Turn)
    requires 1 <= k <= |s.timers|
    ensures Waiting(s, Visit(s, k, maxId, turn), k - 1)
  {
    VisitEffect(s, k, maxId, turn);
  }

  lemma VisitGrows(s: Loop, k: nat, maxId: int, turn: Turn)
    requires 1 <= k <= |s.timers|
    ensures s.log <= Visit(s, k, maxId, turn).log
  {
    VisitEffect(s, k, maxId, turn);
  }

  lemma {:induction false} VisitedWaiting(s: Loop, maxId: int, turns: seq<Turn>, n: nat)
    requires n <= |s.timers|
    ensures Waiting(s, Visited(s, maxId, turns, n), |s.timers| - n)
  {
    hide Visit;
    if n == 0 {
      return;
    }
    var q, k := Visited(s, maxId, turns, n - 1), |s.timers| - (n - 1);
    VisitedWaiting(s, maxId, turns, n - 1);
    VisitedOn(s, maxId, turns, n);
    hide Visited, Waiting;
    var r := Visit(q, k, maxId, Nth(turns, n - 1));
    VisitWaiting(q, k, maxId, Nth(turns, n - 1));
    WaitingLess(s, q, k);
    WaitingOn(s, q, r, k - 1);
  }

  lemma {:induction false} LogGrows(s: Loop, maxId: int, turns: seq<Turn>, m: nat, n: nat)
    requires m <= n <= |s.timers|
    ensures Visited(s, maxId, turns, m).log <= Visited(s, maxId, turns, n).log
    decreases n
  {
    hide Visit;
    if m == n {
      return;
    }
    LogGrows(s, maxId, turns, m, n - 1);
    VisitedOn(s, maxId, turns, n);
    hide Visited;
    VisitGrows(Visited(s, maxId, turns, n - 1), |s.timers| - (n - 1), maxId, Nth(turns, n - 1));
  }

  /** The loop when a pass comes to its turn n. */
  function Reached(s: Loop, now: int, turns: seq<Turn>, n: nat): (r: Loop)
    requires n <= |s.timers|
    ensures |r.timers| >= |s.timers| - n
  {
    Visited(Begin(s, now), s.nextId - 1, turns, n)
  }

  /** The timer that turn n looks at. */
  function Seen(s: Loop, now: int, turns: seq<Turn>, n: nat): Timer
    requires n < |s.timers|
  {
    FromEnd(Reached(s, now, turns, n), |s.timers| - n)
  }

  lemma BeginsWith(s: Loop, now: int, n: nat)
    requires n < |s.timers|
    ensures FromEnd(Begin(s, now), |s.timers| - n) ==
      s.timers[n].(due := if now < s.lastTime then Clock(0, s.timers[n].due.ms) else s.timers[n].due)
  {
  }

  /** Turn n looks at the n-th timer there was when the pass began, due when it was then; all are due at once when the clock
      has gone back. None that is made during the pass is looked at. */
  lemma PassSees(s: Loop, now: int, turns: seq<Turn>, n: nat)
    requires n < |s.timers|
    ensures var t := Seen(s, now, turns, n);
      && t.born == s.timers[n].born && (t.live ==> s.timers[n].live)
      && t.due == (if now < s.lastTime then Clock(0, s.timers[n].due.ms) else s.timers[n].due)
      && (now < s.lastTime && Nth(turns, n).now.sec > 0 ==> Due(t, Nth(turns, n).now))
  {
    var b, k := Begin(s, now), |s.timers| - n;
    hide Visit, Visited, Waiting;
    BeginsWith(s, now, n);
    VisitedWaiting(b, s.nextId - 1, turns, n);
    hide Begin;
    WaitingAt(b, Reached(s, now, turns, n), k, k);
  }

  /** What turn n fires. */
  function TurnFires(s: Loop, now: int, turns: seq<Turn>, n: nat): (f: seq<nat>)
    requires n < |s.timers|
    ensures f == [] || f == [s.timers[n].born]
  {
    var t := Seen(s, now, turns, n);
    if t.live && Due(t, Nth(turns, n).now) then [s.timers[n].born] else []
  }

  /** Turn n fires that timer just when it is not deleted by then and due, and finalizes it if it is deleted. */
  lemma PassTurn(s: Loop, now: int, turns: seq<Turn>, n: nat)
    requires Ordered(s) && n < |s.timers|
    ensures FiredIn(Reached(s, now, turns, n + 1).log) == FiredIn(Reached(s, now, turns, n).log) + TurnFires(s, now, turns, n)
    ensures !Seen(s, now, turns, n).live ==> Finalized(s.timers[n].born) in Reached(s, now, turns, n + 1).log
  {
    var b, k, maxId := Begin(s, now), |s.timers| - n, s.nextId - 1;
    assert s.timers[n].born <= maxId;
    PassSees(s, now, turns, n);
    VisitedOn(b, maxId, turns, n + 1);
    hide Visit, Visited, FiredIn, Waiting, Ordered, Due, Begin;
    VisitEffect(Reached(s, now, turns, n), k, maxId, Nth(turns, n));
  }

  /** After a clock that went back, a pass fires every timer that is not deleted by the time it comes to it. */
  lemma ClockBack(s: Loop, now: int, turns: seq<Turn>, n: nat)
    requires n < |s.timers| && now < s.lastTime && Nth(turns, n).now.sec > 0
    ensures TurnFires(s, now, turns, n) == if Seen(s, now, turns, n).live then [s.timers[n].born] else []
  {
    hide Reached, Seen;
    PassSees(s, now, turns, n);
  }

  /** The ids that the first n turns of a pass fire. */
  function PassFires(s: Loop, now: int, turns: seq<Turn>, n: nat): seq<nat>
    requires n <= |s.timers|
  {
    if n == 0 then []
    else PassFires(s, now, turns, n - 1) + TurnFires(s, now, turns, n - 1)
  }

  /** What the pass needs to know at its turn n: the timer is old enough, and the turn counts if it fires. */
  lemma PassLooks(s: Loop, now: int, turns: seq<Turn>, n: nat)
    requires Ordered(s) && n < |s.timers|
    ensures var r, maxId := Reached(s, now, turns, n), s.nextId - 1;
      && FromEnd(r, |s.timers| - n).born <= maxId
      && Reached(s, now, turns, n + 1) == Visit(r, |s.timers| - n, maxId, Nth(turns, n))
      && |PassFires(s, now, turns, n + 1)| ==
           |PassFires(s, now, turns, n)| + (if Fires(FromEnd(r, |s.timers| - n), maxId, Nth(turns, n).now) then 1 else 0)
  {
    hide Visit, Begin;
    PassSees(s, now, turns, n);
    VisitedOn(Begin(s, now), s.nextId - 1, turns, n + 1);
    assert PassFires(s, now, turns, n + 1) == PassFires(s, now, turns, n) + TurnFires(s, now, turns, n);
    hide PassFires, Visited;
  }

  lemma PassEnds(s: Loop, now: int, turns: seq<Turn>)
    ensures Reached(s, now, turns, 0) == Begin(s, now) && PassFires(s, now, turns, 0) == []
    ensures Pass(s, now, turns) == Reached(s, now, turns, |s.timers|)
  {
  }

  lemma StartLog(s: Loop, now: int, turns: seq<Turn>)
    ensures Reached(s, now, turns, 0).log == s.log
  {
  }

  lemma {:induction false} PassLog(s: Loop, now: int, turns: seq<Turn>, n: nat)
    requires Ordered(s) && n <= |s.timers|
    ensures FiredIn(Reached(s, now, turns, n).log) == FiredIn(s.log) + PassFires(s, now, turns, n)
  {
    hide Seen, Due, FiredIn, Ordered, TurnFires, Visited, Begin;
    if n == 0 {
      assert Reached(s, now, turns, 0).log == s.log by { StartLog(s, now, turns); }
      return;
    }
    hide Reached;
    var a, b, c := FiredIn(s.log), PassFires(s, now, turns, n - 1), TurnFires(s, now, turns, n - 1);
    PassLog(s, now, turns, n - 1);
    PassTurn(s, now, turns, n - 1);
    assert PassFires(s, now, turns, n) == b + c;
    hide PassFires;
    assert a + (b + c) == a + b + c;
  }

  predicate WasLive(s: Loop, n: nat, b: nat) {
    exists m :: 0 <= m < n <= |s.timers| && s.timers[m].born == b && s.timers[m].live
  }

  lemma WasLiveMore(s: Loop, n: nat, b: nat)
    requires WasLive(s, n, b) && n < |s.timers| && Ordered(s)
    ensures WasLive(s, n + 1, b) && s.timers[n].born < b < s.nextId
  {
  }

  predicate Descending(f: seq<nat>) {
    forall i, j :: 0 <= i < j < |f| ==> f[j] < f[i]
  }

  /** A pass fires nothing but timers that were on the list and not deleted when it began, newest first, each once at most:
      none that is created during the pass. */
  lemma {:induction false} PassFiresOld(s: Loop, now: int, turns: seq<Turn>, n: nat)
    requires Ordered(s) && n <= |s.timers|
    ensures var f := PassFires(s, now, turns, n);
      Descending(f) && forall b :: b in f ==> b < s.nextId && WasLive(s, n, b)
  {
    hide Due, Reached;
    if n == 0 {
      return;
    }
    var f, g := PassFires(s, now, turns, n - 1), TurnFires(s, now, turns, n - 1);
    PassFiresOld(s, now, turns, n - 1);
    PassSees(s, now, turns, n - 1);
    assert PassFires(s, now, turns, n) == f + g;
    assert g == [] || (g == [s.timers[n - 1].born] && s.timers[n - 1].live);
    hide Seen, TurnFires, PassFires;
    forall b | b in f + g
      ensures WasLive(s, n, b) && b < s.nextId && (b in f ==> s.timers[n - 1].born < b)
    {
      if b in f {
        WasLiveMore(s, n - 1, b);
      }
    }
    DescendingAppend(f, s.timers[n - 1].born);
    assert f + [] == f;
  }

  lemma DescendingAppend(f: seq<nat>, x: nat)
    requires Descending(f) && forall b :: b in f ==> b in f + [x] && x < b
    ensures Descending(f + [x])
  {
    var g := f + [x];
    forall i, j | 0 <= i < j < |g| ensures g[j] < g[i] {
      assert f[i] in f;
    }
  }

  lemma ReachedGrows(s: Loop, now: int, turns: seq<Turn>, n: nat)
    requires n <= |s.timers|
    ensures Reached(s, now, turns, n).log <= Pass(s, now, turns).log
  {
    hide Visited, Begin;
    LogGrows(Begin(s, now), s.nextId - 1, turns, n, |s.timers|);
  }

  lemma PassFinalizes(s: Loop, now: int, turns: seq<Turn>, n: nat)
    requires Inv(s) && n < |s.timers| && !s.timers[n].live
    ensures Finalized(s.timers[n].born) in Pass(s, now, turns).log
  {
    hide Visited, FiredIn, Disciplined, Seen, Begin, Pass, Reached, TurnFires;
    ReachedGrows(s, now, turns, n + 1);
    PassSees(s, now, turns, n);
    PassTurn(s, now, turns, n);
  }

  /** A timer that is deleted when a pass begins is off the list after it. */
  lemma PassRemoves(s: Loop, now: int, turns: seq<Turn>, n: nat)
    requires Inv(s) && n < |s.timers| && !s.timers[n].live
    ensures !Listed(Pass(s, now, turns), s.timers[n].born)
  {
    hide Pass, Disciplined, Ordered, Listed;
    PassFinalizes(s, now, turns, n);
    PassKeeps(s, now, turns);
  }
}
