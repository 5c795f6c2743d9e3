/** The timer class, with the kernel object it wraps. */
module Timer {
  import opened Options
  import opened TimerModel
  import M = TimerModel

  /** A timer file descriptor. */
  class TimerFd {
    var k: Kernel

    constructor ()
      ensures k == Kernel(0, 0, 0)
    {
      k := Kernel(0, 0, 0);
    }

    method Pass(d: nat)
      modifies this
      ensures k == Elapse(old(k), d)
    {
      k := Elapse(k, d);
    }

    /** timerfd_settime(2); `was` is the setting it replaces. */
    method Settime(spec: Itimerspec) returns (ok: bool, was: Itimerspec)
      modifies this
      ensures ok == spec.IsValid() && was == Remaining(old(k))
      ensures k == if ok then Arm(spec) else old(k)
    {
      ok, was := spec.IsValid(), Remaining(k);
      if ok {
        k := Arm(spec);
      }
    }

    /** read(2): waits for an expiration; on a disarmed timer with nothing to read, for ever. */
    method Read() returns (n: Option<nat>, ghost wait: nat)
      modifies this
      ensures n.None? <==> old(k).left == 0 && old(k).unread == 0
      ensures n.None? ==> k == old(k)
      ensures n.Some? ==> n.value == Elapse(old(k), wait).unread > 0 &&
                          k == Elapse(old(k), wait).(unread := 0)
    {
      wait := 0;
      if k.unread == 0 {
        if k.left == 0 {
          return None, 0;
        }
        var delay: nat :| true;
        ElapseExpires(k, k.left + delay);
        wait := k.left + delay;
        k := Elapse(k, k.left + delay);
      }
      n := Some(k.unread);
      k := k.(unread := 0);
    }
  }

  class Timer {
    var fd: TimerFd?      // null once moved from
    var spec: Itimerspec
    var remaining: Itimerspec
    var state: Mode
    ghost var meter: Meter

    ghost function Abs(): M.Timer
      requires fd != null
      reads this, fd
    {
      M.Timer(spec, remaining, state, fd.k, meter)
    }

    constructor ()
      ensures fresh(fd) && Abs() == FRESH
      ensures state == Stopped && spec == remaining == DISARM && fd.k == Kernel(0, 0, 0)
    {
      fd := new TimerFd();
      spec, remaining, state := DISARM, DISARM, Stopped;
      meter := FRESH.meter;
    }

    constructor WithSetting(ts: Itimerspec)
      ensures fresh(fd) && Abs() == Step(FRESH, M.SetTime(ts))
    {
      fd := new TimerFd();
      spec, remaining, state := DISARM, DISARM, Stopped;
      meter := FRESH.meter;
      new;
      Settime(ts);
    }

    /** Taking over another timer: the descriptor is moved, the other fields are copied. */
    constructor Moved(other: Timer)
      requires other.fd != null
      modifies other`fd
      ensures fd == old(other.fd) && Abs() == old(other.Abs()) && other.fd == null
    {
      fd, spec, remaining, state := other.fd, other.spec, other.remaining, other.state;
      meter := other.meter;
      new;
      other.fd := null;
    }

    method MoveAssign(other: Timer)
      requires other.fd != null
      modifies this, other
      ensures fd == old(other.fd) && Abs() == old(other.Abs()) && other.fd == old(fd)
      ensures this != other ==> unchanged(other`spec, other`remaining, other`state)
    {
      fd, other.fd := other.fd, fd;
      spec, remaining, state := other.spec, other.remaining, other.state;
      meter := other.meter;
    }

    method Settime(ts: Itimerspec)
      requires fd != null
      modifies this`spec
      ensures Abs() == Step(old(Abs()), M.SetTime(ts))
    {
      if ts.value.sec != 0 || ts.value.nsec != 0 {
        spec := Itimerspec(ts.value, spec.interval);
      } else {
        spec := Itimerspec(ts.interval, spec.interval);
      }
      spec := Itimerspec(spec.value, ts.interval);
    }

    method Start() returns (ok: bool)
      requires fd != null
      modifies this`state, this`meter, fd
      ensures Abs() == Step(old(Abs()), M.Start) && ok == !Throws(old(Abs()), M.Start)
    {
      ok := true;
      if state != Started {
        ghost var lost := fd.k.unread;
        var was;
        ok, was := fd.Settime(spec);
        if ok {
          state := Started;
          meter := meter.(discarded := meter.discarded + lost, base := spec, running := 0, fired := 0);
        }
      }
    }

    method Pause()
      requires fd != null
      modifies this`state, this`remaining, this`meter, fd
      ensures Abs() == Step(old(Abs()), M.Pause)
    {
      if state == Started {
        meter := meter.(discarded := meter.discarded + fd.k.unread);
        var ok;
        ok, remaining := fd.Settime(DISARM);
        state := Paused;
      }
    }

    method Resume() returns (ok: bool)
      requires fd != null
      modifies this`state, this`remaining, this`meter, fd
      ensures Abs() == Step(old(Abs()), M.Resume) && ok == !Throws(old(Abs()), M.Resume)
    {
      ok := true;
      if state == Paused {
        if remaining.value.sec == 0 && remaining.value.nsec == 0 {
          remaining := Itimerspec(remaining.interval, remaining.interval);
        }
        ghost var lost := fd.k.unread;
        var was;
        ok, was := fd.Settime(remaining);
        if ok {
          state := Started;
          meter := meter.(discarded := meter.discarded + lost);
        }
      }
    }

    method Stop()
      requires fd != null
      modifies this`state, this`meter, fd
      ensures Abs() == Step(old(Abs()), M.Stop)
    {
      if state != Stopped {
        meter := meter.(discarded := meter.discarded + fd.k.unread);
        var ok, was := fd.Settime(DISARM);
        state := Stopped;
      }
    }

    /** Time goes by. */
    method Pass(d: nat)
      requires fd != null
      modifies this`meter, fd
      ensures Abs() == Step(old(Abs()), M.Elapses(d))
    {
      ghost var before := Abs();
      fd.Pass(d);
      meter := Passing(before, d).meter;
    }

    /** The expirations since the last call, of which there is at least one; `None` stands for a
        call that never returns. */
    method Timeouts() returns (n: Option<nat>, ghost wait: nat)
      requires fd != null
      modifies this`meter, fd
      ensures n.None? <==> old(Abs()).kernel.left == 0 && old(Abs()).kernel.unread == 0
      ensures n.None? ==> Abs() == old(Abs())
      ensures n.Some? ==> Enabled(old(Abs()), M.Timeouts(wait)) && Abs() == Step(old(Abs()), M.Timeouts(wait))
      ensures n.Some? ==> n.value == Abs().meter.returned - old(Abs()).meter.returned
      ensures n.Some? ==> n.value == Elapse(old(Abs()).kernel, wait).unread > 0 && Abs().kernel.unread == 0
    {
      ghost var before := Abs();
      n, wait := fd.Read();
      if n.Some? {
        meter := Step(before, M.Timeouts(wait)).meter;
      }
    }
  }
}
