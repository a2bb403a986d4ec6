/** The file events of ae.c as values: masks by descriptor, the greatest one in use, and what the polling backend is told. */
module Files {

  /** AE_READABLE and AE_WRITABLE, set or not. */
  datatype Mask = Mask(readable: bool, writable: bool)

  const NONE: Mask := Mask(false, false)

  function Or(a: Mask, b: Mask): Mask {
    Mask(a.readable || b.readable, a.writable || b.writable)
  }

  function AndNot(a: Mask, b: Mask): Mask {
    Mask(a.readable && !b.readable, a.writable && !b.writable)
  }

  function And(a: Mask, b: Mask): Mask {
    Mask(a.readable && b.readable, a.writable && b.writable)
  }

  /** What the kernel keeps for epoll, or the two sets that are given to select. */
  datatype Backend = Epoll(interest: map<nat, Mask>) | Select(rfds: set<nat>, wfds: set<nat>)

  const FD_SETSIZE: nat := 1024

  datatype Files = Files(masks: seq<Mask>, maxfd: int, backend: Backend)

  /** What the backend watches a descriptor for. */
  function Interest(b: Backend, fd: nat): Mask {
    match b
    case Epoll(interest) => if fd in interest then interest[fd] else NONE
    case Select(rfds, wfds) => Mask(fd in rfds, fd in wfds)
  }

  /** The calls of epoll_ctl. The kernel refuses ADD of a descriptor it has, and MOD or DEL of one it has not. */
  datatype Control = Add(fd: nat, events: Mask) | Mod(fd: nat, events: Mask) | Del(fd: nat)

  predicate Legal(interest: map<nat, Mask>, c: Control) {
    match c
    case Add(fd, _) => fd !in interest
    case Mod(fd, _) => fd in interest
    case Del(fd) => fd in interest
  }

  /** Whether the kernel takes the call, refusals for its own reasons apart; nothing is called with select. */
  predicate Takes(b: Backend, c: Control) {
    b.Select? || Legal(b.interest, c)
  }

  function Controlled(interest: map<nat, Mask>, c: Control): map<nat, Mask> {
    match c
    case Add(fd, events) => interest[fd := events]
    case Mod(fd, events) => interest[fd := events]
    case Del(fd) => interest - {fd}
  }

  /** The call that ae_epoll.c makes to add events, and to take some away. */
  function AddControl(mask: Mask, fd: nat, more: Mask): Control {
    if mask == NONE then Add(fd, Or(more, mask)) else Mod(fd, Or(more, mask))
  }

  function DelControl(mask: Mask, fd: nat, less: Mask): Control {
    if AndNot(mask, less) != NONE then Mod(fd, AndNot(mask, less)) else Del(fd)
  }

  /** aeApiAddEvent, the descriptor having this mask before. */
  function Added(b: Backend, mask: Mask, fd: nat, more: Mask): Backend {
    match b
    case Epoll(interest) => Epoll(Controlled(interest, AddControl(mask, fd, more)))
    case Select(rfds, wfds) =>
      Select(if more.readable then rfds + {fd} else rfds, if more.writable then wfds + {fd} else wfds)
  }

  /** aeApiDelEvent */
  function Removed(b: Backend, mask: Mask, fd: nat, less: Mask): Backend {
    match b
    case Epoll(interest) => Epoll(Controlled(interest, DelControl(mask, fd, less)))
    case Select(rfds, wfds) =>
      Select(if less.readable then rfds - {fd} else rfds, if less.writable then wfds - {fd} else wfds)
  }

  // ------------------------------------------------------------------------- agreement

  /** maxfd is the greatest descriptor in use, -1 when there is none. */
  predicate Greatest(masks: seq<Mask>, maxfd: int) {
    && -1 <= maxfd < |masks| && (maxfd >= 0 ==> masks[maxfd] != NONE)
    && forall fd :: maxfd < fd < |masks| ==> masks[fd] == NONE
  }

  /** The backend watches each descriptor for just its mask, none beyond the set; epoll knows just those in use. */
  ghost predicate Agrees(masks: seq<Mask>, b: Backend) {
    && (forall fd: nat :: Interest(b, fd) == if fd < |masks| then masks[fd] else NONE)
    && (b.Epoll? ==> forall fd: nat :: fd in b.interest <==> fd < |masks| && masks[fd] != NONE)
  }

  ghost predicate Inv(s: Files) {
    Greatest(s.masks, s.maxfd) && Agrees(s.masks, s.backend)
  }

  // ------------------------------------------------------------------------- operations

  /** aeCreateFileEvent for a descriptor in the set, when the backend does not fail. */
  function Create(s: Files, fd: nat, mask: Mask): Files
    requires fd < |s.masks|
  {
    Files(s.masks[fd := Or(s.masks[fd], mask)], if fd > s.maxfd then fd else s.maxfd, Added(s.backend, s.masks[fd], fd, mask))
  }

  /** The greatest descriptor below n in use, or -1. */
  function GreatestBelow(masks: seq<Mask>, n: nat): (m: int)
    requires n <= |masks|
    ensures -1 <= m < n && (m >= 0 ==> masks[m] != NONE) && forall fd :: m < fd < n ==> masks[fd] == NONE
  {
    if n == 0 then -1 else if masks[n - 1] != NONE then n - 1 else GreatestBelow(masks, n - 1)
  }

  /** aeDeleteFileEvent for a descriptor in the set. */
  function Delete(s: Files, fd: nat, mask: Mask): Files
    requires fd < |s.masks| && s.maxfd < |s.masks|
  {
    if s.masks[fd] == NONE then s
    else
      var masks := s.masks[fd := AndNot(s.masks[fd], mask)];
      Files(masks,
            if fd == s.maxfd && masks[fd] == NONE then GreatestBelow(masks, fd) else s.maxfd,
            Removed(s.backend, s.masks[fd], fd, mask))
  }

  /** aeResizeSetSize, for a size that is not refused. */
  function Resize(s: Files, setsize: nat): (r: Files)
    requires -1 <= s.maxfd < |s.masks|
  {
    s.(masks := seq(setsize, i requires 0 <= i < setsize => if i < |s.masks| && i <= s.maxfd then s.masks[i] else NONE))
  }

  predicate ResizeRefused(s: Files, setsize: nat) {
    s.maxfd >= setsize || (s.backend.Select? && setsize >= FD_SETSIZE)
  }

  /** Adding events keeps the agreement just when there is something to watch for afterwards, or (with select) the
      descriptor is not beyond maxfd. The call of epoll_ctl is one the kernel takes. */
  lemma CreateKeepsExactly(s: Files, fd: nat, mask: Mask)
    requires Inv(s) && fd < |s.masks|
    ensures Inv(Create(s, fd, mask)) <==> mask != NONE || s.masks[fd] != NONE || (s.backend.Select? && fd <= s.maxfd)
    ensures s.backend.Epoll? ==> Legal(s.backend.interest, AddControl(s.masks[fd], fd, mask))
  {
    var r := Create(s, fd, mask);
    var after := Or(s.masks[fd], mask);
    assert after == NONE <==> mask == NONE && s.masks[fd] == NONE;
    assert Interest(r.backend, fd) == after;
    forall x: nat | x != fd ensures Interest(r.backend, x) == Interest(s.backend, x) { }
    if after == NONE {
      if s.backend.Epoll? {
        assert fd in r.backend.interest && r.masks[fd] == NONE;
      } else if fd > s.maxfd {
        assert r.maxfd == fd && r.masks[fd] == NONE;
      }
    }
  }

  /** Taking events away keeps the agreement, whatever the mask. */
  lemma DeleteKeeps(s: Files, fd: nat, mask: Mask)
    requires Inv(s) && fd < |s.masks|
    ensures Inv(Delete(s, fd, mask))
    ensures s.masks[fd] != NONE && s.backend.Epoll? ==> Legal(s.backend.interest, DelControl(s.masks[fd], fd, mask))
  {
    var r := Delete(s, fd, mask);
    if s.masks[fd] != NONE {
      assert Interest(r.backend, fd) == AndNot(s.masks[fd], mask);
      forall x: nat | x != fd ensures Interest(r.backend, x) == Interest(s.backend, x) { }
    }
  }

  /** One bit of a mask. */
  function Bit(m: Mask, reading: bool): bool {
    if reading then m.readable else m.writable
  }

  /** The mask of a descriptor, in the set or not. */
  function MaskAt(s: Files, fd: nat): Mask {
    if fd < |s.masks| then s.masks[fd] else NONE
  }

  lemma Watched(s: Files, x: nat)
    requires Inv(s)
    ensures Interest(s.backend, x) == MaskAt(s, x)
  {
  }

  /** Bit by bit: what is asked for is added to the descriptor's mask and to what the backend watches it for, and nothing else
      changes for any descriptor. */
  lemma CreateBits(s: Files, fd: nat, mask: Mask, x: nat, reading: bool)
    requires Inv(s) && fd < |s.masks|
    ensures var r := Create(s, fd, mask); var now := Bit(MaskAt(s, x), reading) || (x == fd && Bit(mask, reading));
      |r.masks| == |s.masks| && Bit(MaskAt(r, x), reading) == now && Bit(Interest(r.backend, x), reading) == now
  {
    Watched(s, x);
    hide Inv;
    assert Interest(Create(s, fd, mask).backend, x) == if x == fd then Or(Interest(s.backend, x), mask) else Interest(s.backend, x);
  }

  /** Bit by bit: just the events named are taken from the descriptor's mask and from what the backend watches it for. */
  lemma DeleteBits(s: Files, fd: nat, mask: Mask, x: nat, reading: bool)
    requires Inv(s) && fd < |s.masks|
    ensures var r := Delete(s, fd, mask); var now := Bit(MaskAt(s, x), reading) && !(x == fd && Bit(mask, reading));
      |r.masks| == |s.masks| && Bit(MaskAt(r, x), reading) == now && Bit(Interest(r.backend, x), reading) == now
  {
    Watched(s, x);
    if s.masks[fd] != NONE {
      assert Interest(Delete(s, fd, mask).backend, x) == if x == fd then AndNot(s.masks[fd], mask) else Interest(s.backend, x);
    }
  }

  /** A resize leaves what is watched as it is. */
  lemma ResizeBits(s: Files, setsize: nat, x: nat)
    requires Inv(s) && !ResizeRefused(s, setsize)
    ensures |Resize(s, setsize).masks| == setsize && MaskAt(Resize(s, setsize), x) == MaskAt(s, x)
  {
    if x < |s.masks| && x > s.maxfd {
      assert s.masks[x] == NONE;
    }
  }

  lemma ResizeKeeps(s: Files, setsize: nat)
    requires Inv(s) && !ResizeRefused(s, setsize)
    ensures Inv(Resize(s, setsize))
    ensures forall fd: nat :: Interest(s.backend, fd) != NONE ==> fd < setsize
  {
    var r := Resize(s, setsize);
    forall fd: nat ensures Interest(r.backend, fd) == if fd < |r.masks| then r.masks[fd] else NONE {
      if fd < |s.masks| && fd > s.maxfd {
        assert s.masks[fd] == NONE;
      }
    }
  }

  /** Deleting what was created and not there before undoes it. */
  lemma CreateDelete(s: Files, fd: nat, mask: Mask)
    requires Inv(s) && fd < |s.masks| && mask != NONE && s.masks[fd] == NONE
    ensures var r := Delete(Create(s, fd, mask), fd, mask);
      r.masks == s.masks && r.maxfd == s.maxfd && forall x: nat :: Interest(r.backend, x) == Interest(s.backend, x)
  {
    var c := Create(s, fd, mask);
    CreateKeepsExactly(s, fd, mask);
    DeleteKeeps(c, fd, mask);
    var r := Delete(c, fd, mask);
    assert r.masks == s.masks;
  }

  // ------------------------------------------------------------------------- all runs

  datatype Step = CreateStep(fd: nat, mask: Mask, refused: bool) | DeleteStep(fd: nat, mask: Mask) | ResizeStep(setsize: nat)

  /** One call, with its refusals: a descriptor beyond the set, a backend that fails, a size too small or too great. */
  function Take(s: Files, step: Step): (r: Files)
    requires -1 <= s.maxfd < |s.masks|
    ensures -1 <= r.maxfd < |r.masks|
  {
    match step
    case CreateStep(fd, mask, refused) => if fd >= |s.masks| || refused then s else Create(s, fd, mask)
    case DeleteStep(fd, mask) => if fd >= |s.masks| then s else Delete(s, fd, mask)
    case ResizeStep(setsize) => if setsize == |s.masks| || ResizeRefused(s, setsize) then s else Resize(s, setsize)
  }

  predicate Watches(steps: seq<Step>) {
    forall i :: 0 <= i < |steps| && steps[i].CreateStep? ==> steps[i].mask != NONE
  }

  lemma TakeKeeps(s: Files, step: Step)
    requires Inv(s) && (step.CreateStep? ==> step.mask != NONE)
    ensures Inv(Take(s, step))
  {
    match step
    case CreateStep(fd, mask, refused) => if fd < |s.masks| { CreateKeepsExactly(s, fd, mask); }
    case DeleteStep(fd, mask) => if fd < |s.masks| { DeleteKeeps(s, fd, mask); }
    case ResizeStep(setsize) => if !ResizeRefused(s, setsize) { ResizeKeeps(s, setsize); }
  }

  /** The loop that aeCreateEventLoop makes, after the steps. */
  function Run(setsize: nat, epoll: bool, steps: seq<Step>): (r: Files)
    ensures -1 <= r.maxfd < |r.masks|
    decreases |steps|
  {
    if steps == [] then Files(seq(setsize, _ => NONE), -1, if epoll then Epoll(map[]) else Select({}, {}))
    else Take(Run(setsize, epoll, steps[..|steps| - 1]), steps[|steps| - 1])
  }

  /** In every run that asks to watch for something each time, maxfd is the greatest descriptor in use and the backend
      watches each for just its mask. */
  lemma {:induction false} RunAgrees(setsize: nat, epoll: bool, steps: seq<Step>)
    requires Watches(steps)
    ensures Inv(Run(setsize, epoll, steps))
    decreases |steps|
  {
    if steps == [] {
      assert forall fd: nat :: Interest(Run(setsize, epoll, []).backend, fd) == NONE;
    } else {
      var before := steps[..|steps| - 1];
      RunAgrees(setsize, epoll, before);
      TakeKeeps(Run(setsize, epoll, before), steps[|steps| - 1]);
    }
  }

  /** Step i makes the loop watch the descriptor for reading, or for writing. */
  predicate Asks(setsize: nat, epoll: bool, steps: seq<Step>, i: nat, fd: nat, reading: bool)
    requires i < |steps|
  {
    && steps[i].CreateStep? && steps[i].fd == fd && !steps[i].refused && Bit(steps[i].mask, reading)
    && fd < |Run(setsize, epoll, steps[..i]).masks|
  }

  predicate Drops(step: Step, fd: nat, reading: bool) {
    step.DeleteStep? && step.fd == fd && Bit(step.mask, reading)
  }

  /** No step after step i drops it. */
  predicate KeptFrom(steps: seq<Step>, i: nat, fd: nat, reading: bool) {
    forall j :: i < j < |steps| ==> !Drops(steps[j], fd, reading)
  }

  /** It has been asked for and not dropped since. */
  predicate AskedSince(setsize: nat, epoll: bool, steps: seq<Step>, fd: nat, reading: bool) {
    exists i :: 0 <= i < |steps| && Asks(setsize, epoll, steps, i, fd, reading) && KeptFrom(steps, i, fd, reading)
  }

  lemma AskedBefore(setsize: nat, epoll: bool, steps: seq<Step>, i: nat, fd: nat, reading: bool)
    requires i + 1 < |steps|
    ensures var n := |steps| - 1;
      && (Asks(setsize, epoll, steps, i, fd, reading) <==> Asks(setsize, epoll, steps[..n], i, fd, reading))
      && (KeptFrom(steps, i, fd, reading) <==> KeptFrom(steps[..n], i, fd, reading) && !Drops(steps[n], fd, reading))
  {
    var n := |steps| - 1;
    assert steps[..n][..i] == steps[..i];
    hide Drops, Run;
    if KeptFrom(steps[..n], i, fd, reading) && !Drops(steps[n], fd, reading) {
      forall j | i < j < |steps| ensures !Drops(steps[j], fd, reading) {
        assert j < n ==> steps[j] == steps[..n][j];
      }
    }
    if KeptFrom(steps, i, fd, reading) {
      forall j | i < j < n ensures !Drops(steps[..n][j], fd, reading) {
        assert steps[j] == steps[..n][j];
      }
    }
  }

  lemma KeptFromLast(steps: seq<Step>, fd: nat, reading: bool)
    requires steps != []
    ensures KeptFrom(steps, |steps| - 1, fd, reading)
  {
  }

  /** One step later. */
  lemma AskedStep(setsize: nat, epoll: bool, steps: seq<Step>, fd: nat, reading: bool)
    requires steps != []
    ensures var n := |steps| - 1;
      AskedSince(setsize, epoll, steps, fd, reading) <==>
        Asks(setsize, epoll, steps, n, fd, reading) ||
        (AskedSince(setsize, epoll, steps[..n], fd, reading) && !Drops(steps[n], fd, reading))
  {
    hide Asks, Drops, KeptFrom, Run;
    var n := |steps| - 1;
    KeptFromLast(steps, fd, reading);
    forall i: nat | i < n
      ensures Asks(setsize, epoll, steps, i, fd, reading) <==> Asks(setsize, epoll, steps[..n], i, fd, reading)
      ensures KeptFrom(steps, i, fd, reading) <==> KeptFrom(steps[..n], i, fd, reading) && !Drops(steps[n], fd, reading)
    {
      AskedBefore(setsize, epoll, steps, i, fd, reading);
    }
  }

  /** In every such run a descriptor is watched for reading, or for writing, exactly if that was asked for and not dropped
      since, by the array and by the backend. */
  lemma {:induction false} RunWatches(setsize: nat, epoll: bool, steps: seq<Step>, fd: nat, reading: bool)
    requires Watches(steps)
    ensures var r := Run(setsize, epoll, steps); var asked := AskedSince(setsize, epoll, steps, fd, reading);
      Bit(MaskAt(r, fd), reading) == asked && Bit(Interest(r.backend, fd), reading) == asked
    decreases |steps|
  {
    RunAgrees(setsize, epoll, steps);
    if steps != [] {
      var n := |steps| - 1;
      var s := Run(setsize, epoll, steps[..n]);
      RunAgrees(setsize, epoll, steps[..n]);
      RunWatches(setsize, epoll, steps[..n], fd, reading);
      AskedStep(setsize, epoll, steps, fd, reading);
      hide AskedSince;
      TakeBits(s, steps[n], fd, reading);
    }
  }

  lemma TakeBits(s: Files, step: Step, x: nat, reading: bool)
    requires Inv(s)
    ensures Bit(MaskAt(Take(s, step), x), reading) <==>
      (step.CreateStep? && step.fd == x && !step.refused && Bit(step.mask, reading) && x < |s.masks|) ||
      (Bit(MaskAt(s, x), reading) && !Drops(step, x, reading))
  {
    hide Inv, Create, Delete, Resize, Bit;
    match step
    case CreateStep(fd, mask, refused) =>
      if fd < |s.masks| {
        CreateBits(s, fd, mask, x, reading);
      }
    case DeleteStep(fd, mask) =>
      if fd < |s.masks| {
        DeleteBits(s, fd, mask, x, reading);
      }
      NoBits(reading);
    case ResizeStep(setsize) =>
      if !ResizeRefused(s, setsize) {
        ResizeBits(s, setsize, x);
      }
  }

  lemma NoBits(reading: bool)
    ensures !Bit(NONE, reading)
  {
  }

  // ------------------------------------------------------------------------- polling with select

  datatype Fired = Fired(fd: nat, mask: Mask)

  /** What aeApiPoll puts into `fired` for the descriptors below n: every one in use, with what of its mask is ready. */
  function FiredBelow(masks: seq<Mask>, ready: Backend, n: nat): (f: seq<Fired>)
    requires n <= |masks|
    ensures |f| <= n
  {
    if n == 0 then []
    else
      var f, fd := FiredBelow(masks, ready, n - 1), n - 1;
      if masks[fd] == NONE then f else f + [Fired(fd, And(masks[fd], Interest(ready, fd)))]
  }

  predicate Reported(f: seq<Fired>, fd: nat) {
    exists i :: 0 <= i < |f| && f[i].fd == fd
  }

  lemma ReportedMore(f: seq<Fired>, x: Fired, fd: nat)
    ensures Reported(f + [x], fd) <==> Reported(f, fd) || x.fd == fd
  {
    if Reported(f, fd) {
      var i :| 0 <= i < |f| && f[i].fd == fd;
      assert (f + [x])[i].fd == fd;
    }
    assert (f + [x])[|f|] == x;
  }

  /** No descriptor twice, and in order. */
  predicate Ascending(f: seq<Fired>) {
    forall i, j :: 0 <= i < j < |f| ==> f[i].fd < f[j].fd
  }

  /** Descriptors below n, with what they are asked for and ready for. */
  predicate Given(masks: seq<Mask>, ready: Backend, n: nat, f: seq<Fired>)
    requires n <= |masks|
  {
    forall i :: 0 <= i < |f| ==> f[i].fd < n && f[i].mask == And(masks[f[i].fd], Interest(ready, f[i].fd))
  }

  /** Those are the descriptors in use, once each and in order. */
  lemma {:induction false} FiredAreUsed(masks: seq<Mask>, ready: Backend, n: nat)
    requires n <= |masks|
    ensures var f := FiredBelow(masks, ready, n);
      Ascending(f) && Given(masks, ready, n, f) && forall fd: nat :: Reported(f, fd) <==> fd < n && masks[fd] != NONE
  {
    if n > 0 {
      var f, fd := FiredBelow(masks, ready, n - 1), n - 1;
      var x := Fired(fd, And(masks[fd], Interest(ready, fd)));
      assert FiredBelow(masks, ready, n) == if masks[fd] == NONE then f else f + [x];
      hide FiredBelow, Reported, Interest, And, Ascending, Given;
      FiredAreUsed(masks, ready, n - 1);
      FiredAppend(masks, ready, f, x);
    }
  }

  /** A descriptor above all reported so far keeps them in order, and is the only one that is new. */
  lemma FiredAppend(masks: seq<Mask>, ready: Backend, f: seq<Fired>, x: Fired)
    requires x.fd < |masks| && Ascending(f) && Given(masks, ready, x.fd, f)
    requires x.mask == And(masks[x.fd], Interest(ready, x.fd))
    ensures Ascending(f + [x]) && Given(masks, ready, x.fd + 1, f + [x]) && Given(masks, ready, x.fd + 1, f)
    ensures forall fd: nat :: Reported(f + [x], fd) <==> Reported(f, fd) || x.fd == fd
  {
    hide And, Interest;
    forall fd: nat ensures Reported(f + [x], fd) <==> Reported(f, fd) || x.fd == fd {
      ReportedMore(f, x, fd);
    }
  }

  /** One event that epoll_wait returns. */
  datatype Report = Report(fd: nat, input: bool, output: bool, error: bool, hangup: bool)

  function FromReport(r: Report): Fired {
    Fired(r.fd, Mask(r.input, r.output || r.error || r.hangup))
  }

  /** No event is lost: a report with any of the four makes its descriptor fire, and an error or a hang-up makes it fire for
      writing, whatever it is watched for. */
  lemma ReportFires(r: Report)
    ensures FromReport(r).fd == r.fd
    ensures FromReport(r).mask == NONE <==> !r.input && !r.output && !r.error && !r.hangup
    ensures r.error || r.hangup ==> Bit(FromReport(r).mask, false)
    ensures Bit(FromReport(r).mask, true) <==> r.input
    ensures !r.error && !r.hangup ==> (Bit(FromReport(r).mask, false) <==> r.output)
  {
  }
}
