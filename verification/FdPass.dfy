/** The batching loops of `fdpass`, over a datagram socket. */
module FdPass {
  import opened FdPassModel
  import opened Options

  /** A FIFO datagram channel: all messages that are ever posted to it, and how many have been
      taken out.  Either operation may fail, which `failures` counts. */
  class Channel {
    var posted: seq<Msg>
    var taken: nat
    ghost var failures: nat

    ghost predicate Valid()
      reads this
    {
      taken <= |posted|
    }

    /** sendmsg(2) with one SCM_RIGHTS control message of `cmsgLen` octets. */
    method SendMsg(total: nat, buf: array<int>, controlLen: nat, cmsgLen: nat) returns (ok: bool)
      requires CMSG_HEADER <= cmsgLen <= controlLen && Fit(cmsgLen) <= buf.Length
      modifies this`posted, this`failures
      ensures failures == old(failures) + if ok then 0 else 1
      ensures posted == old(posted) + if ok then [Msg(total, buf[..Fit(cmsgLen)])] else []
    {
      ok := *;
      if ok {
        posted := posted + [Msg(total, buf[..Fit(cmsgLen)])];
      } else {
        failures := failures + 1;
      }
    }

    /** recvmsg(2) into a control buffer of which `controlLen` octets are offered. */
    method RecvMsg(buf: array<int>, controlLen: nat) returns (ok: bool, total: nat, usedLen: nat)
      requires Valid() && taken < |posted|
      requires Fit(controlLen) <= buf.Length
      modifies this`taken, this`failures, buf
      ensures failures == old(failures) + if ok then 0 else 1
      ensures Valid() && taken == old(taken) + if ok then 1 else 0
      ensures !ok ==> buf[..] == old(buf[..])
      ensures ok ==>
                var m := posted[old(taken)];
                var n := Delivered(controlLen, m);
                total == m.total && usedLen == LengthAfter(controlLen, n) &&
                buf[..] == Overwrite(old(buf[..]), m.files, n)
    {
      ok, total, usedLen := *, 0, controlLen;
      if ok {
        var m := posted[taken];
        var n := Delivered(controlLen, m);
        forall i | 0 <= i < n {
          buf[i] := m.files[i];
        }
        total, usedLen := m.total, LengthAfter(controlLen, n);
        taken := taken + 1;
      } else {
        failures := failures + 1;
      }
    }
  }

  /** The static `send`: posts the frame of the list, or a part of it when the socket fails. */
  method SendOver(ch: Channel, fds: seq<int>) returns (ok: bool, ghost k: nat)
    modifies ch`posted, ch`failures
    ensures ok <==> ch.failures == old(ch.failures)
    ensures k <= |Frame(|fds|, fds)| && ch.posted == old(ch.posted) + Frame(|fds|, fds)[..k]
    ensures if ok then k == |Frame(|fds|, fds)| else k < |Frame(|fds|, fds)|
  {
    var size := |fds|;
    var buf := new int[MAX_BATCH_SIZE];
    ghost var frame := Frame(size, fds);
    var begin := 0;
    k := 0;
    while begin != size
      invariant 0 <= begin <= size && k <= |frame| && ch.failures == old(ch.failures)
      invariant ch.posted == old(ch.posted) + frame[..k]
      invariant frame[k..] == Frame(size, fds[begin..])
    {
      var batchSize := Min(size - begin, MAX_BATCH_SIZE);
      var bytes := batchSize * INT_SIZE;
      ghost var rest := fds[begin..];
      CopyBatch(fds, begin, buf, batchSize);
      assert Fit(CmsgLen(bytes)) == batchSize;
      assert rest[..batchSize] == buf[..batchSize] && rest[batchSize..] == fds[begin + batchSize..];
      assert |frame[k..]| > 0;
      ok := ch.SendMsg(size, buf, CmsgSpace(bytes), CmsgLen(bytes));
      if !ok {
        return;
      }
      assert frame[k] == frame[k..][0] == Msg(size, buf[..batchSize]);
      assert frame[k + 1..] == frame[k..][1..] == Frame(size, rest[batchSize..]);
      assert frame[..k] + [frame[k]] == frame[..k + 1];
      begin, k := begin + batchSize, k + 1;
    }
    ok := true;
  }

  /** The inner loop, which advances both iterators. */
  method CopyBatch(fds: seq<int>, begin: nat, buf: array<int>, batchSize: nat)
    requires begin + batchSize <= |fds| && batchSize <= buf.Length
    modifies buf
    ensures buf[..batchSize] == fds[begin..begin + batchSize]
  {
    var n := 0;
    while n < batchSize
      invariant 0 <= n <= batchSize
      invariant buf[..n] == fds[begin..begin + n]
    {
      buf[n] := fds[begin + n];
      n := n + 1;
    }
  }

  /** How a call of `recv` ends.  `Waits`: it has taken all there is and waits
      for more.  `Broke`: what the program then does is not defined. */
  datatype Outcome = Received(files: seq<int>) | Failed | Waits | Broke

  /** The messages `took`, received first, have left the loop with `v`, `len` and `buf`. */
  ghost predicate Progress(took: seq<Msg>, stale: seq<int>, v: seq<int>, len: nat, buf: seq<int>)
    requires |stale| == |buf| == MAX_BATCH_SIZE
  {
    forall later {:trigger took + later} ::
      RecvLoop(took + later, [], CONTROL_SIZE, stale) == RecvLoop(later, v, len, buf)
  }

  /** What a receiver that began at message `begin` and has taken those before `taken` may say. */
  ghost predicate Describes(o: Outcome, posted: seq<Msg>, begin: nat, taken: nat, stale: seq<int>)
    requires begin <= taken <= |posted| && |stale| == MAX_BATCH_SIZE
  {
    var result := RecvLoop(posted[begin..], [], CONTROL_SIZE, stale);
    match o
    case Received(files) => result == Done(files, posted[taken..])
    case Waits => result == Blocked && taken == |posted|
    case Broke => result == Undefined
    case Failed => RecvLoop(posted[begin..taken], [], CONTROL_SIZE, stale) == Blocked
  }

  lemma Starts(posted: seq<Msg>, begin: nat, stale: seq<int>)
    requires begin <= |posted| && |stale| == MAX_BATCH_SIZE
    ensures Progress(posted[begin..begin], stale, [], CONTROL_SIZE, stale)
  {
    assert forall later: seq<Msg> :: posted[begin..begin] + later == later;
  }

  /** Stopping between two rounds. */
  lemma Stops(posted: seq<Msg>, begin: nat, taken: nat, stale: seq<int>,
              v: seq<int>, len: nat, buf: seq<int>)
    requires begin <= taken <= |posted| && |stale| == |buf| == MAX_BATCH_SIZE
    requires Progress(posted[begin..taken], stale, v, len, buf)
    ensures Describes(Failed, posted, begin, taken, stale)
    ensures taken == |posted| ==> Describes(Waits, posted, begin, taken, stale)
  {
    var took := posted[begin..taken];
    assert RecvLoop(took + [], [], CONTROL_SIZE, stale) == Blocked;
    assert took + [] == took;
    assert taken == |posted| ==> took == posted[begin..];
  }

  /** One more round. */
  lemma Advances(posted: seq<Msg>, begin: nat, taken: nat, stale: seq<int>,
                 v: seq<int>, len: nat, buf: seq<int>)
    requires begin <= taken < |posted| && |stale| == |buf| == MAX_BATCH_SIZE
    requires Progress(posted[begin..taken], stale, v, len, buf)
    ensures match RecvRound(posted[taken], v, len, buf)
            case Complete(files) => Describes(Received(files), posted, begin, taken + 1, stale)
            case Broken => Describes(Broke, posted, begin, taken + 1, stale)
            case More(v', len', buf') => Progress(posted[begin..taken + 1], stale, v', len', buf')
  {
    var took, m := posted[begin..taken], posted[taken];
    assert took + posted[taken..] == posted[begin..] && posted[taken..][1..] == posted[taken + 1..];
    if RecvRound(m, v, len, buf).More? {
      assert took + [m] == posted[begin..taken + 1];
      forall later
        ensures RecvLoop(took + [m] + later, [], CONTROL_SIZE, stale) == RecvLoop([m] + later, v, len, buf)
      {
        assert took + [m] + later == took + ([m] + later);
      }
    }
  }

  /** The loop between two rounds, `o` being the result if there is one already. */
  ghost predicate Standing(o: Option<Outcome>, posted: seq<Msg>, begin: nat, taken: nat, stale: seq<int>,
                           v: seq<int>, len: nat, buf: seq<int>)
    requires begin <= taken <= |posted| && |stale| == |buf| == MAX_BATCH_SIZE
  {
    match o
    case None => Progress(posted[begin..taken], stale, v, len, buf)
    case Some(r) => Describes(r, posted, begin, taken, stale)
  }

  /** One pass through the body of the loop, which leaves `taken'`, `v'`, `len'` and `buf'`. */
  predicate Passes(posted: seq<Msg>, taken: nat, v: seq<int>, len: nat, buf: seq<int>,
                   o: Option<Outcome>, taken': nat, v': seq<int>, len': nat, buf': seq<int>)
    requires taken <= |posted| && |buf| == MAX_BATCH_SIZE
  {
    match o
    case Some(Waits) => taken == taken' == |posted|
    case Some(Failed) => taken == taken' < |posted|
    case Some(Broke) => taken < |posted| && taken' == taken + 1 && RecvRound(posted[taken], v, len, buf) == Broken
    case Some(Received(files)) =>
      taken < |posted| && taken' == taken + 1 && RecvRound(posted[taken], v, len, buf) == Complete(files)
    case None =>
      taken < |posted| && taken' == taken + 1 && RecvRound(posted[taken], v, len, buf) == More(v', len', buf')
  }

  lemma StillStanding(posted: seq<Msg>, begin: nat, taken: nat, stale: seq<int>, v: seq<int>, len: nat, buf: seq<int>,
                      o: Option<Outcome>, taken': nat, v': seq<int>, len': nat, buf': seq<int>)
    requires begin <= taken <= |posted| && |stale| == |buf| == |buf'| == MAX_BATCH_SIZE
    requires Standing(None, posted, begin, taken, stale, v, len, buf)
    requires Passes(posted, taken, v, len, buf, o, taken', v', len', buf')
    ensures taken <= taken' <= |posted| && Standing(o, posted, begin, taken', stale, v', len', buf')
  {
    if taken' == taken {
      Stops(posted, begin, taken, stale, v, len, buf);
    } else {
      Advances(posted, begin, taken, stale, v, len, buf);
    }
  }

  /** The static `recv`: what `RecvLoop` gives on the messages of the channel, whatever the control
      buffer held at first.  A call that fails has taken messages that do not complete a transfer. */
  method RecvOver(ch: Channel) returns (r: Outcome, ghost stale: seq<int>)
    requires ch.Valid()
    modifies ch`taken, ch`failures
    ensures ch.Valid() && old(ch.taken) <= ch.taken && |stale| == MAX_BATCH_SIZE
    ensures r == Failed <==> ch.failures != old(ch.failures)
    ensures Describes(r, ch.posted, old(ch.taken), ch.taken, stale)
  {
    var buf := new int[MAX_BATCH_SIZE];
    stale := buf[..];
    ghost var posted, begin := ch.posted, ch.taken;
    var o: Option<Outcome>, v: seq<int>, controlLen: nat := None, [], CONTROL_SIZE;
    Starts(posted, begin, stale);
    while o == None
      invariant begin <= ch.taken <= |posted| && controlLen <= CONTROL_SIZE
      invariant o == Some(Failed) <==> ch.failures != old(ch.failures)
      invariant Standing(o, posted, begin, ch.taken, stale, v, controlLen, buf[..])
      decreases |posted| - ch.taken, o == None
    {
      ghost var taken, v0, len0, held := ch.taken, v, controlLen, buf[..];
      o, v, controlLen := RecvBatch(ch, buf, v, controlLen);
      StillStanding(posted, begin, taken, stale, v0, len0, held, o, ch.taken, v, controlLen, buf[..]);
    }
    r := o.value;
  }

  /** The body of the receiving loop: a round of `RecvLoop`, unless there is no message or the
      socket fails.  It has a result when it is the last. */
  method RecvBatch(ch: Channel, buf: array<int>, v: seq<int>, controlLen: nat)
    returns (o: Option<Outcome>, v': seq<int>, usedLen: nat)
    requires ch.Valid() && buf.Length == MAX_BATCH_SIZE && controlLen <= CONTROL_SIZE
    modifies ch`taken, ch`failures, buf
    ensures ch.Valid() && usedLen <= CONTROL_SIZE
    ensures ch.failures == old(ch.failures) + if o == Some(Failed) then 1 else 0
    ensures Passes(ch.posted, old(ch.taken), v, controlLen, old(buf[..]), o, ch.taken, v', usedLen, buf[..])
    ensures o in {Some(Waits), Some(Failed)} ==> buf[..] == old(buf[..]) && v' == v && usedLen == controlLen
  {
    v', usedLen := v, controlLen;
    if ch.taken == |ch.posted| {
      return Some(Waits), v, controlLen;
    }
    var ok, size;
    ok, size, usedLen := ch.RecvMsg(buf, controlLen);
    if !ok {
      return Some(Failed), v, controlLen;
    }
    if size < |v| {
      return Some(Broke), v, usedLen;
    }
    var batchSize := Min(size - |v|, MAX_BATCH_SIZE);
    if batchSize > 0 && usedLen < CMSG_HEADER {
      return Some(Broke), v, usedLen;
    }
    assert buf[..batchSize] == buf[..][..batchSize];
    v' := v + buf[..batchSize];
    o := if |v'| == size then Some(Received(v')) else None;
  }

  /** An object that sends or receives on a path of the file system. */
  class Peer {
    var ready: bool
    var bound: bool
    var connected: bool
    ghost var setups: nat

    ghost function State(): Endpoint
      reads this
    {
      Endpoint(ready, bound, connected, setups)
    }

    constructor ()
      ensures State() == FRESH
    {
      ready, bound, connected, setups := false, false, false, 0;
    }

    /** connect(2) and bind(2). */
    method Connect(succeeds: bool)
      modifies this`connected, this`setups
      ensures connected == (succeeds || old(connected)) && setups == old(setups) + if succeeds then 1 else 0
    {
      if succeeds {
        connected, setups := true, setups + 1;
      }
    }

    method Bind(succeeds: bool)
      modifies this`bound, this`setups
      ensures bound == (succeeds || old(bound)) && setups == old(setups) + if succeeds then 1 else 0
    {
      if succeeds {
        bound, setups := true, setups + 1;
      }
    }

    /** The member `send`.  `connects`: whether connecting, if tried, succeeds.  On an object that
        has become a receiving end, nothing is ever posted. */
    method Send(ch: Channel, fds: seq<int>, connects: bool) returns (ok: bool, ghost k: nat)
      requires !ready ==> !connected && !bound
      modifies this, ch`posted, ch`failures
      ensures State() == After(old(State()), ForSending(connects))
      ensures k <= |Frame(|fds|, fds)| && ch.posted == old(ch.posted) + Frame(|fds|, fds)[..k]
      ensures ok <==> if connected then ch.failures == old(ch.failures) else ready && fds == []
      ensures ok ==> k == |Frame(|fds|, fds)|
      ensures !ok && connected ==> k < |Frame(|fds|, fds)|
      ensures !connected ==> k == 0
    {
      ok, k := false, 0;
      if !ready {
        Connect(connects);
        if !connects {
          return;
        }
        ready := true;
      }
      if connected {
        ok, k := SendOver(ch, fds);
      } else {
        ok := fds == [];
      }
    }

    /** The set-up of the member `recv`. */
    method PrepareRecv(binds: bool) returns (ok: bool)
      requires !ready ==> !connected && !bound
      modifies this
      ensures State() == After(old(State()), ForReceiving(binds)) && ok == ready
    {
      if !ready {
        Bind(binds);
        if !binds {
          return false;
        }
        ready := true;
      }
      ok := true;
    }
  }
}
