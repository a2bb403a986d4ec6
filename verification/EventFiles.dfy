/** The file events of ae.c on their arrays, with the polling of ae_epoll.c and ae_select.c. */
module EventFiles {
  import opened Files

  /** The part of aeEventLoop that keeps file events; `apidata` is the backend, the kernel's set with epoll. */
  class FileLoop {
    var maxfd: int
    var setsize: nat
    var events: array<Mask>
    var fired: array<Fired>
    var backend: Backend

    ghost predicate Valid()
      reads this
    {
      setsize == events.Length == fired.Length && -1 <= maxfd < setsize
    }

    ghost function State(): Files
      reads this, events
    {
      Files(events[..], maxfd, backend)
    }

    /** aeCreateEventLoop */
    constructor (setsize: nat, epoll: bool)
      ensures Valid() && State() == Run(setsize, epoll, [])
      ensures fresh(events) && fresh(fired)
    {
      events := new Mask[setsize](_ => NONE);
      fired := new Fired[setsize](_ => Fired(0, NONE));
      this.setsize := setsize;
      maxfd := -1;
      backend := if epoll then Epoll(map[]) else Select({}, {});
      new;
      assert events[..] == seq(setsize, _ => NONE);
    }

    /** aeApiAddEvent: -1 when the call of epoll_ctl is refused, for the kernel's own reasons or because it has the
        descriptor already, or has it not. */
    method ApiAddEvent(fd: nat, mask: Mask, refused: bool) returns (ok: bool)
      requires Valid() && fd < setsize
      modifies this`backend
      ensures ok <==> backend.Select? || (!refused && Takes(old(backend), AddControl(events[fd], fd, mask)))
      ensures backend == if ok then Added(old(backend), events[fd], fd, mask) else old(backend)
    {
      if backend.Epoll? {
        var merged := Or(mask, events[fd]);
        var c := if events[fd] == NONE then Add(fd, merged) else Mod(fd, merged);
        ok := !refused && Legal(backend.interest, c);
        if ok {
          backend := Epoll(Controlled(backend.interest, c));
        }
      } else {
        var rfds, wfds := backend.rfds, backend.wfds;
        if mask.readable { rfds := rfds + {fd}; }
        if mask.writable { wfds := wfds + {fd}; }
        backend := Select(rfds, wfds);
        ok := true;
      }
    }

    /** aeApiDelEvent: its result is not looked at. */
    method ApiDelEvent(fd: nat, delmask: Mask)
      requires Valid() && fd < setsize && Takes(backend, DelControl(events[fd], fd, delmask))
      modifies this`backend
      ensures backend == Removed(old(backend), events[fd], fd, delmask)
    {
      if backend.Epoll? {
        var mask := AndNot(events[fd], delmask);
        backend := Epoll(Controlled(backend.interest, if mask != NONE then Mod(fd, mask) else Del(fd)));
      } else {
        var rfds, wfds := backend.rfds, backend.wfds;
        if delmask.readable { rfds := rfds - {fd}; }
        if delmask.writable { wfds := wfds - {fd}; }
        backend := Select(rfds, wfds);
      }
    }

    /** aeCreateFileEvent */
    method CreateFileEvent(fd: nat, mask: Mask, refused: bool) returns (ok: bool)
      requires Valid() && Inv(State())
      modifies this, events
      ensures Valid() && events == old(events) && fired == old(fired)
      ensures ok <==> fd < setsize && (backend.Select? || !refused)
      ensures State() == if ok then Create(old(State()), fd, mask) else old(State())
    {
      if fd >= setsize {
        return false;
      }
      CreateKeepsExactly(State(), fd, mask);
      ok := ApiAddEvent(fd, mask, refused);
      if !ok {
        return;
      }
      events[fd] := Or(events[fd], mask);
      if fd > maxfd {
        maxfd := fd;
      }
    }

    lemma GreatestIs(masks: seq<Mask>, n: nat, m: int)
      requires n <= |masks| && -1 <= m < n && (m >= 0 ==> masks[m] != NONE) && forall x :: m < x < n ==> masks[x] == NONE
      ensures GreatestBelow(masks, n) == m
    {
    }

    /** aeDeleteFileEvent */
    method DeleteFileEvent(fd: nat, mask: Mask)
      requires Valid() && Inv(State())
      modifies this, events
      ensures Valid() && events == old(events) && fired == old(fired)
      ensures State() == if fd < setsize then Delete(old(State()), fd, mask) else old(State())
    {
      if fd >= setsize || events[fd] == NONE {
        return;
      }
      DeleteKeeps(State(), fd, mask);
      ApiDelEvent(fd, mask);
      events[fd] := AndNot(events[fd], mask);
      if fd == maxfd && events[fd] == NONE {
        var j := maxfd - 1;
        while j >= 0 && events[j] == NONE
          invariant -1 <= j < maxfd && forall x :: j < x < maxfd ==> events[x] == NONE
        {
          j := j - 1;
        }
        GreatestIs(events[..], maxfd, j);
        maxfd := j;
      }
    }

    /** aeResizeSetSize: the new slots above maxfd are emptied. */
    method ResizeSetSize(size: nat) returns (ok: bool)
      requires Valid() && Inv(State())
      modifies this
      ensures Valid()
      ensures ok <==> size == old(setsize) || !ResizeRefused(old(State()), size)
      ensures ok && size != old(setsize) ==> fresh(events) && fresh(fired) && State() == Resize(old(State()), size)
      ensures !ok || size == old(setsize) ==> events == old(events) && fired == old(fired) && State() == old(State())
    {
      if size == setsize {
        return true;
      }
      if maxfd >= size || (backend.Select? && size >= FD_SETSIZE) {
        return false;
      }
      var grown := new Mask[size];
      forall i | 0 <= i < size && i < setsize {
        grown[i] := events[i];
      }
      ghost var was := events[..];
      events := grown;
      fired := new Fired[size](_ => Fired(0, NONE));
      setsize := size;
      ghost var slots := fired;
      var i := maxfd + 1;
      while i < setsize
        invariant maxfd == old(maxfd) && backend == old(backend) && setsize == size && events == grown && fired == slots
        invariant maxfd + 1 <= i <= size
        invariant forall x :: 0 <= x <= maxfd ==> events[x] == was[x]
        invariant forall x :: maxfd < x < i ==> events[x] == NONE
      {
        events[i] := NONE;
        i := i + 1;
      }
      assert events[..] == Resize(old(State()), size).masks;
      ok := true;
    }

    /** aeApiPoll of ae_select.c, when select() leaves `ready`: `fired` is filled with the descriptors in use, never beyond its
        end. */
    method PollSelect(ready: Backend, retval: int) returns (numevents: nat)
      requires Valid()
      modifies fired
      ensures numevents <= maxfd + 1 <= fired.Length
      ensures fired[..numevents] == if retval > 0 then FiredBelow(events[..], ready, maxfd + 1) else []
    {
      numevents := 0;
      if retval > 0 {
        var j := 0;
        while j <= maxfd
          invariant 0 <= j <= maxfd + 1 && numevents <= j && fired[..numevents] == FiredBelow(events[..], ready, j)
        {
          if events[j] != NONE {
            var readable := events[j].readable && Interest(ready, j).readable;
            var writable := events[j].writable && Interest(ready, j).writable;
            fired[numevents] := Fired(j, Mask(readable, writable));
            numevents := numevents + 1;
          }
          j := j + 1;
        }
      }
    }

    /** aeApiPoll of ae_epoll.c, when epoll_wait returns these events, at most as many as it was given room for. */
    method PollEpoll(reports: seq<Report>) returns (numevents: nat)
      requires Valid() && |reports| <= setsize
      modifies fired
      ensures numevents == |reports| && forall j :: 0 <= j < |reports| ==> fired[j] == FromReport(reports[j])
    {
      numevents := |reports|;
      for j := 0 to numevents
        invariant forall x :: 0 <= x < j ==> fired[x] == FromReport(reports[x])
      {
        var readable, writable := false, false;
        if reports[j].input { readable := true; }
        if reports[j].output { writable := true; }
        if reports[j].error { writable := true; }
        if reports[j].hangup { writable := true; }
        fired[j] := Fired(reports[j].fd, Mask(readable, writable));
      }
    }
  }
}
