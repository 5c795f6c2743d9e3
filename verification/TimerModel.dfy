/** The pausable timer on values: a kernel timer that counts down nanosecond by nanosecond, and
    the three-state machine on top of it. */
module TimerModel {
  import opened Options

  const NANOS := 1_000_000_000

  datatype Timespec = Timespec(sec: int, nsec: int)
  {
    /** The test of the program, on the two fields. */
    predicate IsZero() {
      sec == 0 && nsec == 0
    }

    /** What the kernel accepts. */
    predicate IsValid() {
      sec >= 0 && 0 <= nsec < NANOS
    }

    function Nanos(): nat
      requires IsValid()
    {
      sec * NANOS + nsec
    }
  }

  function OfNanos(n: nat): (t: Timespec)
    ensures t.IsValid() && t.Nanos() == n
  {
    Timespec(n / NANOS, n % NANOS)
  }

  const ZERO := Timespec(0, 0)

  datatype Itimerspec = Itimerspec(value: Timespec, interval: Timespec)
  {
    predicate IsValid() {
      value.IsValid() && interval.IsValid()
    }
  }

  const DISARM := Itimerspec(ZERO, ZERO)

  // ---- The kernel timer ----

  /** `left` nanoseconds to the next expiration, 0 when disarmed; `every`: the interval;
      `unread`: expirations since the last read or setting. */
  datatype Kernel = Kernel(left: nat, every: nat, unread: nat)

  /** One nanosecond. */
  function Tick(k: Kernel): Kernel {
    if k.left == 0 then k
    else if k.left == 1 then Kernel(k.every, k.every, k.unread + 1)
    else k.(left := k.left - 1)
  }

  function Elapse(k: Kernel, d: nat): (k': Kernel)
    ensures k'.unread >= k.unread
  {
    if d == 0 then k else Tick(Elapse(k, d - 1))
  }

  /** timerfd_settime(2): a new setting forgets the expirations not yet read. */
  function Arm(spec: Itimerspec): Kernel
    requires spec.IsValid()
  {
    Kernel(spec.value.Nanos(), spec.interval.Nanos(), 0)
  }

  /** timerfd_gettime(2). */
  function Remaining(k: Kernel): Itimerspec {
    Itimerspec(OfNanos(k.left), OfNanos(k.every))
  }

  // ---- The closed form ----

  /** How often a timer set to `v` and `i` has expired after `r` nanoseconds. */
  function Expirations(v: nat, i: nat, r: nat): nat {
    if v == 0 || r < v then 0 else if i == 0 then 1 else 1 + (r - v) / i
  }

  /** How long it still has to go then. */
  function Left(v: nat, i: nat, r: nat): nat {
    if v == 0 then 0 else if r < v then v - r else if i == 0 then 0 else i - (r - v) % i
  }

  lemma DivideSuccessor(x: nat, i: nat)
    requires i > 0
    ensures (x + 1) / i == x / i + (if x % i == i - 1 then 1 else 0)
    ensures (x + 1) % i == if x % i == i - 1 then 0 else x % i + 1
  {
    var q, r := x / i, x % i;
    assert x == q * i + r;
    if r == i - 1 {
      assert x + 1 == (q + 1) * i;
      UniqueQuotient(x + 1, i, q + 1, 0);
    } else {
      UniqueQuotient(x + 1, i, q, r + 1);
    }
  }

  lemma UniqueQuotient(x: nat, i: nat, q: nat, r: nat)
    requires i > 0 && r < i && x == q * i + r
    ensures x / i == q && x % i == r
  {
    var d := x / i - q;
    assert d * i == r - x % i;
    assert d >= 1 ==> d * i - i >= 0;
    assert d <= -1 ==> d * i + i <= 0;
  }

  lemma ClosedFormStep(v: nat, i: nat, r: nat, unread: nat)
    ensures Expirations(v, i, r) <= Expirations(v, i, r + 1)
    ensures Tick(Kernel(Left(v, i, r), i, unread)) ==
            Kernel(Left(v, i, r + 1), i, unread + Expirations(v, i, r + 1) - Expirations(v, i, r))
  {
    if v != 0 && r >= v && i != 0 {
      DivideSuccessor(r - v, i);
    } else if v != 0 && r + 1 == v && i != 0 {
      assert 0 % i == 0 && 0 / i == 0;
    }
  }

  /** From any point of an uninterrupted run the kernel timer continues the closed form; with
      `r == 0` this is the closed form itself. */
  lemma {:induction false} ClosedForm(v: nat, i: nat, r: nat, d: nat, unread: nat)
    ensures Expirations(v, i, r) <= Expirations(v, i, r + d)
    ensures Elapse(Kernel(Left(v, i, r), i, unread), d) ==
            Kernel(Left(v, i, r + d), i, unread + Expirations(v, i, r + d) - Expirations(v, i, r))
  {
    if d > 0 {
      ClosedForm(v, i, r, d - 1, unread);
      ClosedFormStep(v, i, r + d - 1, unread + Expirations(v, i, r + d - 1) - Expirations(v, i, r));
    }
  }

  lemma {:induction false} ElapseSum(k: Kernel, a: nat, b: nat)
    ensures Elapse(Elapse(k, a), b) == Elapse(k, a + b)
  {
    if b > 0 {
      ElapseSum(k, a, b - 1);
    }
  }

  lemma {:induction false} ElapseDisarmed(k: Kernel, d: nat)
    requires k.left == 0
    ensures Elapse(k, d) == k
  {
    if d > 0 {
      ElapseDisarmed(k, d - 1);
    }
  }

  /** An armed timer expires once its time is up. */
  lemma {:induction false} ElapseExpires(k: Kernel, d: nat)
    requires k.left > 0
    ensures d < k.left ==> Elapse(k, d) == k.(left := k.left - d)
    ensures d >= k.left ==> Elapse(k, d).unread > k.unread
  {
    if d > 0 {
      ElapseExpires(k, d - 1);
    }
  }

  /** A timer whose first value is its interval expires once per interval. */
  lemma PeriodicClosedForm(i: nat, r: nat)
    requires i > 0
    ensures Expirations(i, i, r) == r / i
  {
    if r >= i {
      var q, m := (r - i) / i, (r - i) % i;
      assert r == (q + 1) * i + m;
      UniqueQuotient(r, i, q + 1, m);
    } else {
      UniqueQuotient(r, i, 0, r);
    }
  }

  // ---- The state machine ----

  datatype Mode = Started | Paused | Stopped

  /** A record of the past that no operation looks at.  `base`: the setting of the last start
      that armed the kernel timer; `running`, `fired`: time spent STARTED and expirations since
      then; `generated`, `returned`, `discarded`: expirations over the whole life. */
  datatype Meter = Meter(base: Itimerspec, running: nat, fired: nat, generated: nat, returned: nat, discarded: nat)

  datatype Timer = Timer(spec: Itimerspec, remaining: Itimerspec, mode: Mode, kernel: Kernel, meter: Meter)

  const FRESH := Timer(DISARM, DISARM, Stopped, Kernel(0, 0, 0), Meter(DISARM, 0, 0, 0, 0, 0))

  /** `Elapses` is time going by; `Timeouts(wait)` a read of the timer that returns after `wait`
      nanoseconds. */
  datatype Op =
    | SetTime(ts: Itimerspec)
    | Start
    | Pause
    | Resume
    | Stop
    | Elapses(d: nat)
    | Timeouts(wait: nat)

  /** A read blocks until there has been an expiration. */
  predicate Enabled(t: Timer, op: Op) {
    op.Timeouts? ==> Elapse(t.kernel, op.wait).unread > 0
  }

  function Passing(t: Timer, d: nat): Timer {
    var k := Elapse(t.kernel, d);
    var n := k.unread - t.kernel.unread;
    t.(kernel := k,
       meter := t.meter.(
         running := t.meter.running + (if t.mode.Started? then d else 0),
         fired := t.meter.fired + n,
         generated := t.meter.generated + n))
  }

  /** A successful setting of the kernel timer. */
  function Program(t: Timer, spec: Itimerspec): Timer
    requires spec.IsValid()
  {
    t.(kernel := Arm(spec), meter := t.meter.(discarded := t.meter.discarded + t.kernel.unread))
  }

  /** A zero first value stands for the interval: in the setting that `settime` stores, and in the
      remaining time that `resume` arms the kernel timer with. */
  function Substituted(ts: Itimerspec): Itimerspec {
    Itimerspec(if ts.value.IsZero() then ts.interval else ts.value, ts.interval)
  }

  /** Whether the operation makes the kernel refuse a setting, and throws. */
  predicate Throws(t: Timer, op: Op) {
    match op
    case Start => !t.mode.Started? && !t.spec.IsValid()
    case Resume => t.mode.Paused? && !Substituted(t.remaining).IsValid()
    case _ => false
  }

  function Step(t: Timer, op: Op): Timer {
    match op
    case SetTime(ts) => t.(spec := Substituted(ts))
    case Start =>
      if t.mode.Started? || !t.spec.IsValid() then t
      else
        var t' := Program(t, t.spec);
        t'.(mode := Started, meter := t'.meter.(base := t.spec, running := 0, fired := 0))
    case Pause =>
      if !t.mode.Started? then t
      else Program(t, DISARM).(remaining := Remaining(t.kernel), mode := Paused)
    case Resume =>
      if !t.mode.Paused? then t
      else
        var t' := t.(remaining := Substituted(t.remaining));
        if t'.remaining.IsValid() then Program(t', t'.remaining).(mode := Started) else t'
    case Stop =>
      if t.mode.Stopped? then t else Program(t, DISARM).(mode := Stopped)
    case Elapses(d) => Passing(t, d)
    case Timeouts(wait) =>
      var t' := Passing(t, wait);
      t'.(kernel := t'.kernel.(unread := 0),
          meter := t'.meter.(returned := t'.meter.returned + t'.kernel.unread))
  }

  /** The state after a run, if every read in it could return when it did. */
  function Run(t: Timer, ops: seq<Op>): Option<Timer> {
    if ops == [] then Some(t)
    else
      var r := Run(t, ops[..|ops| - 1]);
      if r.Some? && Enabled(r.value, ops[|ops| - 1]) then Some(Step(r.value, ops[|ops| - 1])) else None
  }

  // ---- The invariant ----

  predicate WellStored(spec: Itimerspec) {
    !spec.interval.IsZero() ==> !spec.value.IsZero()
  }

  /** In whatever way the time since the last start was split by pauses, the expirations since
      then, and the time left on the kernel timer or saved by `pause`, are those of a timer
      that has run without interruption for the time spent STARTED. */
  predicate OnSchedule(t: Timer)
    requires t.meter.base.IsValid()
  {
    var v, i := t.meter.base.value.Nanos(), t.meter.base.interval.Nanos();
    var r := t.meter.running;
    t.meter.fired == Expirations(v, i, r) &&
    match t.mode
    case Started => t.kernel.left == Left(v, i, r) && t.kernel.every == i
    case Paused =>
      t.remaining.IsValid() && t.remaining.value.Nanos() == Left(v, i, r) && t.remaining.interval.Nanos() == i
    case Stopped => true
  }

  predicate Inv(t: Timer) {
    WellStored(t.spec) && t.meter.base.IsValid() && WellStored(t.meter.base) && OnSchedule(t) &&
    (!t.mode.Started? ==> t.kernel.left == 0 && t.kernel.unread == 0) &&
    t.meter.generated == t.meter.returned + t.kernel.unread + t.meter.discarded
  }

  lemma PassingKeepsInv(t: Timer, d: nat)
    requires Inv(t)
    ensures Inv(Passing(t, d))
  {
    if t.mode.Started? {
      var v, i := t.meter.base.value.Nanos(), t.meter.base.interval.Nanos();
      ClosedForm(v, i, t.meter.running, d, t.kernel.unread);
    } else {
      ElapseDisarmed(t.kernel, d);
    }
  }

  /** Time that is up and cannot be followed by another expiration has no interval. */
  lemma ResumeKeepsTime(t: Timer)
    requires Inv(t) && t.mode.Paused?
    ensures Substituted(t.remaining) == t.remaining
  {
    if t.remaining.value.IsZero() {
      var v, i, r := t.meter.base.value.Nanos(), t.meter.base.interval.Nanos(), t.meter.running;
      assert Left(v, i, r) == 0;
      assert i == 0;
      assert t.remaining.interval.IsZero();
    }
  }

  lemma StepKeepsInv(t: Timer, op: Op)
    requires Inv(t) && Enabled(t, op)
    ensures Inv(Step(t, op))
  {
    match op
    case SetTime(_) =>
    case Start =>
    case Pause =>
    case Resume =>
      if t.mode.Paused? { ResumeKeepsTime(t); }
    case Stop =>
    case Elapses(d) => PassingKeepsInv(t, d);
    case Timeouts(wait) => PassingKeepsInv(t, wait);
  }

  lemma {:induction false} RunKeepsInv(t: Timer, ops: seq<Op>)
    requires Inv(t) && Run(t, ops).Some?
    ensures Inv(Run(t, ops).value)
  {
    if ops != [] {
      var n := |ops| - 1;
      RunKeepsInv(t, ops[..n]);
      StepKeepsInv(Run(t, ops[..n]).value, ops[n]);
    }
  }

  ghost predicate Reachable(t: Timer) {
    exists ops :: Run(FRESH, ops) == Some(t)
  }

  lemma ReachableInv(t: Timer)
    requires Reachable(t)
    ensures Inv(t)
  {
    var ops :| Run(FRESH, ops) == Some(t);
    RunKeepsInv(FRESH, ops);
  }

  // ---- Theorems ----

  /** Time spent STARTED during a run, from the calls alone. */
  function ModeAfter(m: Mode, ops: seq<Op>): Mode {
    if ops == [] then m
    else
      var m' := ModeAfter(m, ops[..|ops| - 1]);
      match ops[|ops| - 1]
      case Pause => if m'.Started? then Paused else m'
      case Resume => if m'.Paused? then Started else m'
      case Stop => Stopped
      case _ => m'
  }

  function StartedTime(m: Mode, ops: seq<Op>): nat {
    if ops == [] then 0
    else
      var before, last := ops[..|ops| - 1], ops[|ops| - 1];
      StartedTime(m, before) +
      if !ModeAfter(m, before).Started? then 0
      else if last.Elapses? then last.d else if last.Timeouts? then last.wait else 0
  }

  /** Calls that do not start the timer afresh: a start of a timer that is STARTED does nothing. */
  predicate NoRestart(m: Mode, ops: seq<Op>) {
    ops == [] ||
    (var n := |ops| - 1;
     NoRestart(m, ops[..n]) && (ops[n].Start? ==> ModeAfter(m, ops[..n]).Started?))
  }

  lemma {:induction false} MeterCountsRun(t: Timer, ops: seq<Op>)
    requires Inv(t) && NoRestart(t.mode, ops) && Run(t, ops).Some?
    ensures var t' := Run(t, ops).value;
            t'.mode == ModeAfter(t.mode, ops) && t'.meter.base == t.meter.base &&
            t'.meter.running == t.meter.running + StartedTime(t.mode, ops) &&
            t'.meter.generated - t.meter.generated == t'.meter.fired - t.meter.fired
  {
    if ops != [] {
      var n := |ops| - 1;
      MeterCountsRun(t, ops[..n]);
      RunKeepsInv(t, ops[..n]);
      var mid := Run(t, ops[..n]).value;
      if ops[n].Resume? && mid.mode.Paused? {
        ResumeKeepsTime(mid);
      }
    }
  }

  /** Pausing is invisible in running time.  After a start that arms the kernel timer, and however
      time, pauses, resumes, stops, reads and new settings are interleaved, the expirations generated
      until the timer is armed afresh are those of an uninterrupted timer after the time spent STARTED. */
  lemma PauseInvisible(t: Timer, ops: seq<Op>)
    requires Reachable(t) && !t.mode.Started? && t.spec.IsValid()
    requires NoRestart(Started, ops) && Run(Step(t, Start), ops).Some?
    ensures var t' := Run(Step(t, Start), ops).value;
            t'.meter.generated - t.meter.generated ==
            Expirations(t.spec.value.Nanos(), t.spec.interval.Nanos(), StartedTime(Started, ops))
  {
    ReachableInv(t);
    var s := Step(t, Start);
    StepKeepsInv(t, Start);
    RunKeepsInv(s, ops);
    MeterCountsRun(s, ops);
  }

  /** What a setting does: once it has been made and the timer is started, the timer expires first when
      the value of the setting is over, or its interval if the value is zero, and then once per
      interval; if the interval is zero, only once. */
  lemma SettingDecides(t: Timer, ts: Itimerspec, ops: seq<Op>)
    requires Reachable(t) && !t.mode.Started? && ts.IsValid()
    requires NoRestart(Started, ops) && Run(Step(Step(t, SetTime(ts)), Start), ops).Some?
    ensures var t' := Run(Step(Step(t, SetTime(ts)), Start), ops).value;
            var v := ts.value.sec * 1_000_000_000 + ts.value.nsec;
            var i := ts.interval.sec * 1_000_000_000 + ts.interval.nsec;
            t'.meter.generated - t.meter.generated ==
            Expirations(if ts.value == ZERO then i else v, i, StartedTime(Started, ops))
  {
    ReachableStep(t, SetTime(ts));
    PauseInvisible(Step(t, SetTime(ts)), ops);
  }

  /** So does a timer constructed with a setting and started. */
  lemma FreshTimerRuns(ts: Itimerspec, ops: seq<Op>)
    requires ts.IsValid() && NoRestart(Started, ops)
    requires Run(Step(Step(FRESH, SetTime(ts)), Start), ops).Some?
    ensures var v := ts.value.sec * 1_000_000_000 + ts.value.nsec;
            var i := ts.interval.sec * 1_000_000_000 + ts.interval.nsec;
            Run(Step(Step(FRESH, SetTime(ts)), Start), ops).value.meter.generated ==
            Expirations(if ts.value == ZERO then i else v, i, StartedTime(Started, ops))
  {
    assert Run(FRESH, []) == Some(FRESH);
    SettingDecides(FRESH, ts, ops);
  }

  /** A setting alone changes nothing else; the kernel refuses it at the next start exactly when one
      of the two times handed over is not one. */
  lemma SettingWaitsForStart(t: Timer, ts: Itimerspec)
    ensures var t' := Step(t, SetTime(ts));
            t'.kernel == t.kernel && t'.mode == t.mode && t'.remaining == t.remaining && t'.meter == t.meter &&
            (Throws(t', Start) <==> !t.mode.Started? && !(ts.value.IsValid() && ts.interval.IsValid()))
  {
  }

  lemma ReachableStep(t: Timer, op: Op)
    requires Reachable(t) && Enabled(t, op)
    ensures Reachable(Step(t, op))
  {
    var ops :| Run(FRESH, ops) == Some(t);
    assert (ops + [op])[..|ops|] == ops;
    assert Run(FRESH, ops + [op]) == Some(Step(t, op));
  }

  /** While a timer is paused its time stands still: whatever time passes, and whatever is set or paused
      again meanwhile, a resume arms the kernel timer exactly as the pause has found it. */
  lemma {:induction false} PauseHoldsTime(t: Timer, ops: seq<Op>)
    requires Reachable(t) && t.mode.Started? && Run(Step(t, Pause), ops).Some?
    requires forall i :: 0 <= i < |ops| ==> !ops[i].Start? && !ops[i].Resume? && !ops[i].Stop?
    ensures var t' := Run(Step(t, Pause), ops).value;
            t'.mode.Paused? && t'.remaining == Remaining(t.kernel) && t'.meter.generated == t.meter.generated &&
            Step(t', Resume).mode.Started? && Step(t', Resume).kernel == t.kernel.(unread := 0)
  {
    ReachableInv(t);
    StepKeepsInv(t, Pause);
    RunKeepsInv(Step(t, Pause), ops);
    if ops == [] {
      ResumeKeepsTime(Step(t, Pause));
    } else {
      var n := |ops| - 1;
      PauseHoldsTime(t, ops[..n]);
      var mid := Run(Step(t, Pause), ops[..n]).value;
      RunKeepsInv(Step(t, Pause), ops[..n]);
      StaysDisarmed(mid, ops[n]);
      ResumeKeepsTime(Step(mid, ops[n]));
    }
  }

  lemma StaysDisarmed(t: Timer, op: Op)
    requires Inv(t) && !t.mode.Started? && Enabled(t, op) && !op.Start? && (op.Resume? ==> !t.mode.Paused?)
    ensures !op.Timeouts? && Step(t, op).meter.generated == t.meter.generated
    ensures !op.Stop? ==> Step(t, op).mode == t.mode && Step(t, op).remaining == t.remaining
    ensures Step(t, op).kernel.left == 0 && Step(t, op).kernel.unread == 0
  {
    match op
    case Elapses(d) => ElapseDisarmed(t.kernel, d);
    case Timeouts(wait) => ElapseDisarmed(t.kernel, wait);
    case _ =>
  }

  /** A stop is final: without a new start nothing, not even a resume, makes the timer expire again. */
  lemma {:induction false} StopIsFinal(t: Timer, ops: seq<Op>)
    requires Reachable(t) && Run(Step(t, Stop), ops).Some?
    requires forall i :: 0 <= i < |ops| ==> !ops[i].Start?
    ensures var t' := Run(Step(t, Stop), ops).value;
            t'.mode.Stopped? && t'.kernel.left == 0 && t'.kernel.unread == 0 &&
            t'.meter.generated == t.meter.generated
  {
    ReachableInv(t);
    StepKeepsInv(t, Stop);
    RunKeepsInv(Step(t, Stop), ops);
    if ops != [] {
      var n := |ops| - 1;
      StopIsFinal(t, ops[..n]);
      RunKeepsInv(Step(t, Stop), ops[..n]);
      StaysDisarmed(Run(Step(t, Stop), ops[..n]).value, ops[n]);
    }
  }

  /** At every moment of every run: the expirations since the last start, the time left on the
      kernel timer (or saved while paused) and the interval it is armed with are those of an
      uninterrupted timer with the setting of that start. */
  lemma AlwaysOnSchedule(t: Timer)
    requires Reachable(t)
    ensures t.meter.base.IsValid() && OnSchedule(t)
    ensures WellStored(t.spec) && WellStored(t.meter.base)
  {
    ReachableInv(t);
  }

  /** A timer that is paused or stopped is disarmed, with nothing to read, and stays so. */
  lemma OnlyStartedIsArmed(t: Timer, d: nat)
    requires Reachable(t) && !t.mode.Started?
    ensures t.kernel.left == 0 && t.kernel.unread == 0 && Elapse(t.kernel, d) == t.kernel
    ensures !Enabled(t, Timeouts(d))
  {
    ReachableInv(t);
    ElapseDisarmed(t.kernel, d);
  }

  /** The branch of `resume` for a remaining time of zero never arms the timer: a periodic timer
      always has time left, so only a one-shot timer that has expired gets there. */
  lemma ZeroRemainingNeverArms(t: Timer)
    requires Reachable(t) && t.mode.Paused? && t.remaining.value.IsZero()
    ensures Step(t, Resume).kernel.left == 0 && Step(t, Resume).mode.Started?
    ensures Step(t, Resume).remaining == t.remaining
  {
    ReachableInv(t);
    ResumeKeepsTime(t);
    StepKeepsInv(t, Resume);
  }

  /** Only a start throws, exactly when it has to arm the timer with a setting the kernel refuses,
      and then nothing has changed. */
  lemma ThrowsIff(t: Timer, op: Op)
    requires Reachable(t)
    ensures Throws(t, op) <==> op.Start? && !t.mode.Started? && !t.spec.IsValid()
    ensures Throws(t, op) ==> Step(t, op) == t
  {
    ReachableInv(t);
    if op.Resume? && t.mode.Paused? {
      ResumeKeepsTime(t);
    }
  }

  /** Every expiration is read, waiting to be read, or was thrown away by a new setting. */
  lemma TimeoutsAccountedFor(t: Timer)
    requires Reachable(t)
    ensures t.meter.generated == t.meter.returned + t.kernel.unread + t.meter.discarded
  {
    ReachableInv(t);
  }

  /** A `pause` or `stop` that throws away expirations not yet read. */
  predicate Discards(t: Timer, op: Op) {
    (op.Pause? || op.Stop?) && t.mode.Started? && t.kernel.unread > 0
  }

  lemma DiscardsIff(t: Timer, op: Op)
    requires Inv(t) && Enabled(t, op)
    ensures Step(t, op).meter.discarded >= t.meter.discarded
    ensures Step(t, op).meter.discarded > t.meter.discarded <==> Discards(t, op)
  {
    if op.Resume? && t.mode.Paused? {
      ResumeKeepsTime(t);
    }
  }

  /** Some call in a run discards expirations. */
  predicate DiscardsSome(t: Timer, ops: seq<Op>)
    requires Run(t, ops).Some?
  {
    ops != [] &&
    (var n := |ops| - 1;
     DiscardsSome(t, ops[..n]) || Discards(Run(t, ops[..n]).value, ops[n]))
  }

  /** A run loses no expiration exactly when nothing is waiting to be read at any `pause` or
      `stop` that finds the timer started; starting and resuming never lose any. */
  lemma {:induction false} NothingDiscardedIff(t: Timer, ops: seq<Op>)
    requires Inv(t) && Run(t, ops).Some?
    ensures Run(t, ops).value.meter.discarded >= t.meter.discarded
    ensures Run(t, ops).value.meter.discarded == t.meter.discarded <==> !DiscardsSome(t, ops)
  {
    if ops != [] {
      var n := |ops| - 1;
      NothingDiscardedIff(t, ops[..n]);
      RunKeepsInv(t, ops[..n]);
      DiscardsIff(Run(t, ops[..n]).value, ops[n]);
    }
  }
}
