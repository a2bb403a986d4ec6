/** What each operation on the time events does to every timer: nothing but what is asked for. */
module TimerEffects {
  import opened Timers

  /** Whether the clock has come to the due time, both in proper seconds and milliseconds. */
  lemma DueExactly(t: Timer, now: Clock)
    requires Proper(t.due) && Proper(now)
    ensures Due(t, now) <==> Milliseconds(now) >= Milliseconds(t.due)
  {
  }

  /** A new timer is first, live, has the next id and is due the delay after the clock's reading. */
  lemma CreateExactly(s: Loop, delay: int, at: Clock)
    requires Proper(at)
    ensures var r := CreateTimer(s, delay, at);
      && r.timers != [] && r.timers[1..] == s.timers && r.timers[0].born == s.nextId && r.timers[0].live
      && Milliseconds(r.timers[0].due) == Milliseconds(at) + delay
      && r.nextId == s.nextId + 1 && r.lastTime == s.lastTime && r.log == s.log + [Created(s.nextId)]
  {
    LaterAdds(at, delay);
  }

  /** A timer after the deletion of ids. */
  function Marked(t: Timer, ids: set<int>): Timer {
    t.(live := t.live && t.born !in ids)
  }

  /** The timers of s are the last ones of r, but for the deletion of ids. */
  ghost predicate MarkedAll(s: Loop, r: Loop, ids: set<int>) {
    && |s.timers| <= |r.timers| && r.lastTime == s.lastTime && s.log <= r.log
    && forall j :: 1 <= j <= |s.timers| ==> FromEnd(r, j) == Marked(FromEnd(s, j), ids)
  }

  lemma MarkedAt(s: Loop, r: Loop, ids: set<int>, j: nat)
    requires MarkedAll(s, r, ids) && 1 <= j <= |s.timers|
    ensures j <= |r.timers| && FromEnd(r, j) == Marked(FromEnd(s, j), ids)
  {
  }

  lemma MarkedTwice(s: Loop, q: Loop, r: Loop, ids: set<int>, more: set<int>)
    requires MarkedAll(s, q, ids) && MarkedAll(q, r, more)
    ensures MarkedAll(s, r, ids + more)
  {
    forall j | 1 <= j <= |s.timers|
      ensures FromEnd(r, j) == Marked(FromEnd(s, j), ids + more)
    {
      MarkedAt(s, q, ids, j);
      MarkedAt(q, r, more, j);
    }
  }

  lemma {:induction false} FindExactly(ts: seq<Timer>, id: int)
    ensures var i := Find(ts, id);
      (i < |ts| ==> IdOf(ts[i]) == id) && forall j :: 0 <= j < i ==> IdOf(ts[j]) != id
  {
    if ts != [] && IdOf(ts[0]) != id {
      FindExactly(ts[1..], id);
      forall j | 0 <= j < Find(ts, id) ensures IdOf(ts[j]) != id {
        assert j > 0 ==> ts[j] == ts[1..][j - 1];
      }
    }
  }

  /** aeDeleteTimeEvent deletes the live timer with that id and no other; it finds one exactly if there is one (or, for the id
      of deleted events, if there is a deleted one). */
  lemma DeleteExactly(s: Loop, id: int)
    requires Inv(s)
    ensures MarkedAll(s, DeleteTimer(s, id), {id})
    ensures |DeleteTimer(s, id).timers| == |s.timers| && DeleteTimer(s, id).nextId == s.nextId
    ensures Find(s.timers, id) < |s.timers| <==> exists j :: 0 <= j < |s.timers| && IdOf(s.timers[j]) == id
  {
    var i, r := Find(s.timers, id), DeleteTimer(s, id);
    FindExactly(s.timers, id);
    hide Disciplined, Consistent, Find;
    forall j | 1 <= j <= |s.timers|
      ensures FromEnd(r, j) == Marked(FromEnd(s, j), {id})
    {
      var x := |s.timers| - j;
      if x != i && i < |s.timers| && s.timers[i].live {
        assert s.timers[x].born != s.timers[i].born;
      }
    }
  }

  lemma CreateMarks(s: Loop, delay: int, at: Clock)
    ensures MarkedAll(s, CreateTimer(s, delay, at), {})
  {
  }

  /** The ids a callback deletes, and how many timers it creates. */
  function Deletions(actions: seq<Action>): set<int> {
    set i | 0 <= i < |actions| && actions[i].Delete? :: actions[i].id
  }

  function Creations(actions: seq<Action>): nat
    decreases |actions|
  {
    if actions == [] then 0
    else Creations(actions[..|actions| - 1]) + (if actions[|actions| - 1].Create? then 1 else 0)
  }

  lemma DeletionsStep(actions: seq<Action>)
    requires actions != []
    ensures var before, a := actions[..|actions| - 1], actions[|actions| - 1];
      Deletions(actions) == Deletions(before) + if a.Delete? then {a.id} else {}
  {
    var before, a := actions[..|actions| - 1], actions[|actions| - 1];
    forall id | id in Deletions(actions)
      ensures id in Deletions(before) + if a.Delete? then {a.id} else {}
    {
      var i :| 0 <= i < |actions| && actions[i].Delete? && actions[i].id == id;
      if i < |before| {
        assert before[i] == actions[i];
      }
    }
    forall id | id in Deletions(before)
      ensures id in Deletions(actions)
    {
      var i :| 0 <= i < |before| && before[i].Delete? && before[i].id == id;
      assert actions[i] == before[i];
    }
  }

  /** What a callback does: it deletes the timers it names, and the new ones come in front. */
  lemma {:induction false} ActAllExactly(s: Loop, actions: seq<Action>)
    requires Inv(s)
    ensures var r := ActAll(s, actions);
      && Inv(r) && MarkedAll(s, r, Deletions(actions))
      && |r.timers| == |s.timers| + Creations(actions) && r.nextId == s.nextId + Creations(actions)
    decreases |actions|
  {
    ActAllKeeps(s, actions);
    hide Inv;
    if actions == [] {
      assert Deletions(actions) == {};
    } else {
      var before, a := actions[..|actions| - 1], actions[|actions| - 1];
      var q := ActAll(s, before);
      ActAllExactly(s, before);
      DeletionsStep(actions);
      if a.Create? {
        CreateMarks(q, a.delay, a.at);
      } else {
        DeleteExactly(q, a.id);
      }
      hide MarkedAll, Deletions, DeleteTimer;
      MarkedTwice(s, q, ActAll(s, actions), Deletions(before), if a.Delete? then {a.id} else {});
    }
  }

  /** The ids that a finalizer deletes. */
  lemma {:induction false} DeleteAllExactly(s: Loop, ids: seq<int>)
    requires Inv(s)
    ensures var r := DeleteAll(s, ids);
      Inv(r) && MarkedAll(s, r, set id | id in ids) && |r.timers| == |s.timers| && r.nextId == s.nextId
    decreases |ids|
  {
    DeleteAllKeeps(s, ids);
    hide Inv;
    if ids == [] {
      assert (set id | id in ids) == {};
    } else {
      var before, last := ids[..|ids| - 1], ids[|ids| - 1];
      var q := DeleteAll(s, before);
      DeleteAllExactly(s, before);
      DeleteExactly(q, last);
      assert ids == before + [last];
      assert (set id | id in ids) == (set id | id in before) + {last};
      hide MarkedAll, DeleteTimer;
      MarkedTwice(s, q, DeleteAll(s, ids), set id | id in before, {last});
    }
  }

  /** The timers of s but the one at place k, counted from the end, are those of r in the same places but for the deletion of
      ids. */
  ghost predicate OthersMarked(s: Loop, r: Loop, k: nat, ids: set<int>) {
    |s.timers| <= |r.timers| && forall j :: 1 <= j <= |s.timers| && j != k ==> FromEnd(r, j) == Marked(FromEnd(s, j), ids)
  }

  /** What becomes of a timer that fires, given what its procedure deletes and returns and the log afterwards. */
  predicate Settled(t: Timer, u: Timer, turn: Turn, ids: set<int>, log: seq<Event>) {
    && u.born == t.born && (u.live <==> turn.retval != NOMORE && t.born !in ids)
    && (turn.retval == NOMORE ==> u.due == t.due && Deleted(t.born) in log)
    && (turn.retval != NOMORE ==> Milliseconds(u.due) == Milliseconds(turn.after) + turn.retval)
  }

  lemma OthersAfter(s: Loop, v: Loop, r: Loop, k: nat, ids: set<int>)
    requires MarkedAll(s, v, ids) && OthersMarked(v, r, k, {})
    ensures OthersMarked(s, r, k, ids)
  {
    forall j | 1 <= j <= |s.timers| && j != k
      ensures FromEnd(r, j) == Marked(FromEnd(s, j), ids)
    {
      MarkedAt(s, v, ids, j);
      assert FromEnd(r, j) == Marked(FromEnd(v, j), {});
    }
  }

  /** What is made of a callback's return value: AE_NOMORE deletes the timer, any other value is the delay after which it is due
      again; no other timer changes. */
  lemma SettleExactly(s: Loop, k: nat, turn: Turn)
    requires 1 <= k <= |s.timers| && Proper(turn.after)
    ensures var t, r := FromEnd(s, k), Settle(s, k, turn);
      && |r.timers| == |s.timers| && r.nextId == s.nextId && r.lastTime == s.lastTime && s.log <= r.log
      && OthersMarked(s, r, k, {})
      && FromEnd(r, k).born == t.born
      && (turn.retval == NOMORE ==> !FromEnd(r, k).live && FromEnd(r, k).due == t.due && (t.live ==> Deleted(t.born) in r.log))
      && (turn.retval != NOMORE ==>
            && FromEnd(r, k).live == t.live && Milliseconds(FromEnd(r, k).due) == Milliseconds(turn.after) + turn.retval
            && r.log == s.log)
  {
    LaterAdds(turn.after, turn.retval);
    if turn.retval == NOMORE && FromEnd(s, k).live {
      assert Settle(s, k, turn).log[|s.log|] == Deleted(FromEnd(s, k).born);
    }
  }

  /** A turn that fires: the timer stays in its place, deleted if its procedure returned AE_NOMORE or deleted it, else due again
      just that many milliseconds after the clock's reading; each other timer stays as it was, but for those the procedure
      deleted; the timers it created come in front. */
  lemma FireTurnExactly(s: Loop, k: nat, turn: Turn)
    requires Inv(s) && 1 <= k <= |s.timers| && FromEnd(s, k).live && Proper(turn.after)
    ensures var t, r, dels := FromEnd(s, k), FireTurn(s, k, turn), Deletions(turn.actions);
      && |r.timers| == |s.timers| + Creations(turn.actions) && r.nextId == s.nextId + Creations(turn.actions)
      && r.lastTime == s.lastTime && s.log + [Fired(t.born)] <= r.log
      && OthersMarked(s, r, k, dels) && Settled(t, FromEnd(r, k), turn, dels, r.log)
  {
    hide Inv, ActAll, Settle, Fire, Deletions, MarkedAll, OthersMarked, Settled, Proper;
    var u, ids := Fire(s, |s.timers| - k), Deletions(turn.actions);
    var v := ActAll(u, turn.actions);
    FireKeeps(s, |s.timers| - k);
    FireMarks(s, k);
    ActAllExactly(u, turn.actions);
    SettleExactly(v, k, turn);
    MarkedGrows(u, v, ids);
    OthersAfter(u, v, Settle(v, k, turn), k, ids);
    OthersFrom(s, u, Settle(v, k, turn), k, ids);
    SettledAfter(s, v, k, turn);
  }

  /** The timer itself, v being the loop after its procedure. */
  lemma SettledAfter(s: Loop, v: Loop, k: nat, turn: Turn)
    requires 1 <= k <= |s.timers| <= |v.timers| && Inv(v) && FromEnd(s, k).live && Proper(turn.after)
    requires v == ActAll(Fire(s, |s.timers| - k), turn.actions) && MarkedAll(Fire(s, |s.timers| - k), v, Deletions(turn.actions))
    ensures Settled(FromEnd(s, k), FromEnd(Settle(v, k, turn), k), turn, Deletions(turn.actions), Settle(v, k, turn).log)
  {
    MarkedAt(Fire(s, |s.timers| - k), v, Deletions(turn.actions), k);
    DeletedLogged(v, k);
    hide Inv, ActAll, Settle, Deletions, MarkedAll, OthersMarked, Milliseconds, Proper;
    SettleExactly(v, k, turn);
    DeletedStays(v, Settle(v, k, turn), FromEnd(s, k).born);
  }

  lemma FireMarks(s: Loop, k: nat)
    requires 1 <= k <= |s.timers|
    ensures var u := Fire(s, |s.timers| - k);
      && u.timers == s.timers && u.nextId == s.nextId && u.lastTime == s.lastTime && u.log == s.log + [Fired(FromEnd(s, k).born)]
  {
  }

  lemma OthersFrom(s: Loop, u: Loop, r: Loop, k: nat, ids: set<int>)
    requires u.timers == s.timers && OthersMarked(u, r, k, ids)
    ensures OthersMarked(s, r, k, ids)
  {
  }

  lemma MarkedGrows(s: Loop, r: Loop, ids: set<int>)
    requires MarkedAll(s, r, ids)
    ensures s.log <= r.log && r.lastTime == s.lastTime
  {
  }

  lemma DeletedStays(s: Loop, r: Loop, b: nat)
    requires s.log <= r.log
    ensures Deleted(b) in s.log ==> Deleted(b) in r.log
  {
  }

  /** A timer that is not live has been logged as deleted. */
  lemma DeletedLogged(s: Loop, k: nat)
    requires Inv(s) && 1 <= k <= |s.timers|
    ensures !FromEnd(s, k).live ==> Deleted(FromEnd(s, k).born) in s.log
  {
  }

  /** One turn of processTimeEvents, exactly: a deleted timer goes, a due one fires, any other turn changes nothing. */
  lemma VisitExactly(s: Loop, k: nat, maxId: int, turn: Turn)
    requires Inv(s) && 1 <= k <= |s.timers| && FromEnd(s, k).born <= maxId
    ensures var t, r := FromEnd(s, k), Visit(s, k, maxId, turn);
      && (t.live && Due(t, turn.now) ==> r == FireTurn(s, k, turn))
      && (t.live && !Due(t, turn.now) ==> r == s)
      && (!t.live ==>
            && |r.timers| == |s.timers| - 1 && r.nextId == s.nextId && r.lastTime == s.lastTime
            && s.log + [Finalized(t.born)] <= r.log
            && MarkedAll(Without(s, k), r.(log := s.log), set id | id in turn.deletions))
  {
    if !FromEnd(s, k).live {
      var u := Unlink(s, |s.timers| - k);
      UnlinkKeeps(s, |s.timers| - k);
      UnlinkWithout(s, k);
      hide Inv, DeleteAll, Unlink, Without, FireTurn, Due;
      DeleteAllExactly(u, turn.deletions);
      MarkedFrom(u, Without(s, k), DeleteAll(u, turn.deletions), set id | id in turn.deletions);
    }
  }

  /** s without the timer at place k, counted from the end. */
  function Without(s: Loop, k: nat): Loop
    requires 1 <= k <= |s.timers|
  {
    s.(timers := s.timers[..|s.timers| - k] + s.timers[|s.timers| - k + 1..])
  }

  lemma UnlinkWithout(s: Loop, k: nat)
    requires 1 <= k <= |s.timers|
    ensures var u := Unlink(s, |s.timers| - k);
      && |u.timers| == |s.timers| - 1 && u.nextId == s.nextId && u.log == s.log + [Finalized(FromEnd(s, k).born)]
      && u.(log := s.log) == Without(s, k)
  {
  }

  lemma MarkedFrom(u: Loop, w: Loop, r: Loop, ids: set<int>)
    requires MarkedAll(u, r, ids) && w == u.(log := w.log)
    ensures MarkedAll(w, r.(log := w.log), ids) && u.log <= r.log && r.lastTime == w.lastTime
  {
    forall j | 1 <= j <= |w.timers|
      ensures FromEnd(r.(log := w.log), j) == Marked(FromEnd(w, j), ids)
    {
      MarkedAt(u, r, ids, j);
    }
  }

  // ------------------------------------------------------------------------- passes

  lemma {:induction false} VisitedKeepsTime(s: Loop, maxId: int, turns: seq<Turn>, n: nat)
    requires n <= |s.timers|
    ensures Visited(s, maxId, turns, n).lastTime == s.lastTime
  {
    if n > 0 {
      VisitedKeepsTime(s, maxId, turns, n - 1);
      VisitKeepsTime(Visited(s, maxId, turns, n - 1), |s.timers| - (n - 1), maxId, Nth(turns, n - 1));
    }
  }

  lemma VisitKeepsTime(s: Loop, k: nat, maxId: int, turn: Turn)
    requires 1 <= k <= |s.timers|
    ensures Visit(s, k, maxId, turn).lastTime == s.lastTime
  {
    DeleteAllKeepsTime(Unlink(s, |s.timers| - k), turn.deletions);
    ActAllKeepsTime(Fire(s, |s.timers| - k), turn.actions);
    hide DeleteAll, ActAll, Due;
  }

  lemma {:induction false} ActAllKeepsTime(s: Loop, actions: seq<Action>)
    ensures ActAll(s, actions).lastTime == s.lastTime
    decreases |actions|
  {
    if actions != [] {
      ActAllKeepsTime(s, actions[..|actions| - 1]);
    }
  }

  lemma {:induction false} DeleteAllKeepsTime(s: Loop, ids: seq<int>)
    ensures DeleteAll(s, ids).lastTime == s.lastTime
    decreases |ids|
  {
    if ids != [] {
      DeleteAllKeepsTime(s, ids[..|ids| - 1]);
    }
  }

  /** A pass notes the time it began at. */
  lemma PassNotesTime(s: Loop, now: int, turns: seq<Turn>)
    ensures Pass(s, now, turns).lastTime == now
  {
    VisitedKeepsTime(Begin(s, now), s.nextId - 1, turns, |s.timers|);
  }

  lemma {:induction false} ReachedKeeps(s: Loop, now: int, turns: seq<Turn>, n: nat)
    requires Inv(s) && n <= |s.timers|
    ensures Inv(Reached(s, now, turns, n))
  {
    hide Inv, Begin, Visited;
    BeginKeeps(s, now);
    VisitedKeeps(Begin(s, now), s.nextId - 1, turns, n);
  }

  /** Turn n of a pass in which the timer fires: what becomes of it. */
  lemma PassSettles(s: Loop, now: int, turns: seq<Turn>, n: nat)
    requires Inv(s) && n < |s.timers| && TurnFires(s, now, turns, n) != [] && Proper(Nth(turns, n).after)
    ensures var b, turn, r := s.timers[n].born, Nth(turns, n), Reached(s, now, turns, n + 1);
      var t := FromEnd(r, |s.timers| - n);
      && t.born == b && (t.live <==> turn.retval != NOMORE && b !in Deletions(turn.actions))
      && (turn.retval == NOMORE ==> Deleted(b) in r.log)
      && (turn.retval != NOMORE ==> Milliseconds(t.due) == Milliseconds(turn.after) + turn.retval)
  {
    var q, k, turn := Reached(s, now, turns, n), |s.timers| - n, Nth(turns, n);
    hide Inv, Visit, Visited, Begin, Deletions, FireTurn, Due, PassFires, OthersMarked, Proper, Milliseconds;
    ReachedKeeps(s, now, turns, n);
    PassSees(s, now, turns, n);
    PassLooks(s, now, turns, n);
    VisitExactly(q, k, s.nextId - 1, turn);
    FireTurnExactly(q, k, turn);
  }

  // ------------------------------------------------------------------------- all runs

  /** How often the timer has fired. */
  function Firings(log: seq<Event>, b: nat): nat
    decreases |log|
  {
    if log == [] then 0
    else Firings(log[..|log| - 1], b) + (if log[|log| - 1] == Fired(b) then 1 else 0)
  }

  lemma {:induction false} DeletedNoMore(before: seq<Event>, after: seq<Event>, b: nat)
    requires before <= after && Disciplined(after) && Deleted(b) in before
    ensures Firings(after, b) == Firings(before, b)
    decreases |after|
  {
    if |after| > |before| {
      var rest, e := after[..|after| - 1], after[|after| - 1];
      assert before <= rest;
      DeletedNoMore(before, rest, b);
      assert Deleted(b) in rest;
    } else {
      assert after == before;
    }
  }

  lemma {:induction false} RunGrows(start: int, steps: seq<Step>, more: seq<Step>)
    ensures Run(start, steps).log <= Run(start, steps + more).log
    decreases |more|
  {
    if more == [] {
      assert steps + more == steps;
    } else {
      var all := steps + more;
      assert all[..|all| - 1] == steps + more[..|more| - 1];
      RunGrows(start, steps, more[..|more| - 1]);
      TakeGrows(Run(start, all[..|all| - 1]), all[|all| - 1]);
    }
  }

  lemma TakeGrows(s: Loop, step: Step)
    ensures s.log <= Take(s, step).log
  {
    match step
    case CreateStep(delay, at) =>
    case DeleteStep(id) =>
    case PassStep(now, turns) =>
      hide Visited, Begin;
      PassEnds(s, now, turns);
      StartLog(s, now, turns);
      ReachedGrows(s, now, turns, 0);
  }

  /** A timer whose procedure returned AE_NOMORE in a pass fires in no later pass of any run. */
  lemma NoMoreFires(start: int, steps: seq<Step>, now: int, turns: seq<Turn>, n: nat, more: seq<Step>)
    requires var s := Run(start, steps);
      n < |s.timers| && TurnFires(s, now, turns, n) != [] && Nth(turns, n).retval == NOMORE && Proper(Nth(turns, n).after)
    ensures var b, passed := Run(start, steps).timers[n].born, steps + [PassStep(now, turns)];
      Firings(Run(start, passed + more).log, b) == Firings(Run(start, passed).log, b)
  {
    hide *;
    var s, passed := Run(start, steps), steps + [PassStep(now, turns)];
    RunPass(start, steps, now, turns);
    RunKeeps(start, steps);
    RunKeeps(start, passed + more);
    InvDisciplined(Run(start, passed + more));
    PassSettles(s, now, turns, n);
    ReachedGrows(s, now, turns, n + 1);
    DeletedStays(Reached(s, now, turns, n + 1), Pass(s, now, turns), s.timers[n].born);
    RunGrows(start, passed, more);
    DeletedNoMore(Run(start, passed).log, Run(start, passed + more).log, s.timers[n].born);
  }

  lemma RunPass(start: int, steps: seq<Step>, now: int, turns: seq<Turn>)
    ensures Run(start, steps + [PassStep(now, turns)]) == Pass(Run(start, steps), now, turns)
  {
    assert (steps + [PassStep(now, turns)])[..|steps|] == steps;
    hide Pass;
  }

  lemma InvDisciplined(s: Loop)
    requires Inv(s)
    ensures Disciplined(s.log)
  {
  }
}
