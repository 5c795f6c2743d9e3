/** Passing open files over a datagram socket in batches, on values.

    Every message carries the total number of files of its transfer and at most ten of them.
    The receiver is told neither the size of a batch nor where a transfer begins, and it
    offers the kernel a control buffer whose length is what the previous message used. */
module FdPassModel {
  const MAX_BATCH_SIZE := 10

  /** One datagram.  Files are named by numbers; a received descriptor stands for the file. */
  datatype Msg = Msg(total: nat, files: seq<int>)

  function Min(a: nat, b: nat): nat {
    if a < b then a else b
  }

  // ---- Control messages: a 16-octet header, the descriptors, padding to 8 octets ----

  const CMSG_HEADER := 16
  const INT_SIZE := 4

  function CmsgLen(n: nat): nat {
    CMSG_HEADER + n
  }

  function CmsgSpace(n: nat): nat {
    CMSG_HEADER + (n + 7) / 8 * 8
  }

  const CONTROL_SIZE := CmsgSpace(MAX_BATCH_SIZE * INT_SIZE)

  /** How many descriptors the kernel can put into a control buffer of `len` octets; the rest of
      a message is dropped. */
  function Fit(len: nat): nat {
    if len <= CMSG_HEADER then 0 else (len - CMSG_HEADER) / INT_SIZE
  }

  function Delivered(len: nat, m: Msg): nat {
    Min(Fit(len), |m.files|)
  }

  /** `msg_controllen` after a message with `n` descriptors has been received into `len` octets. */
  function LengthAfter(len: nat, n: nat): nat {
    if n == 0 then 0 else Min(len, CmsgSpace(n * INT_SIZE))
  }

  // ---- The sender ----

  /** The messages for the files `rest` of a transfer of `total`. */
  function Frame(total: nat, rest: seq<int>): seq<Msg>
    decreases |rest|
  {
    if rest == [] then []
    else
      var n := Min(|rest|, MAX_BATCH_SIZE);
      [Msg(total, rest[..n])] + Frame(total, rest[n..])
  }

  function FrameAll(lists: seq<seq<int>>): seq<Msg> {
    if lists == [] then [] else Frame(|lists[0]|, lists[0]) + FrameAll(lists[1..])
  }

  // ---- The receiver ----

  datatype Reception = Done(files: seq<int>, rest: seq<Msg>) | Blocked | Undefined

  /** The octets of the control buffer that hold descriptors, after a message. */
  function Overwrite(buf: seq<int>, files: seq<int>, n: nat): (r: seq<int>)
    requires n <= |files| && n <= |buf|
    ensures |r| == |buf|
  {
    files[..n] + buf[n..]
  }

  datatype Round = Complete(v: seq<int>) | More(v: seq<int>, len: nat, buf: seq<int>) | Broken

  /** One round of the receiving loop on the message `m`, with `v` received so far, a control buffer
      `buf` (stale where the last message has not overwritten it) and its length `len` as the last
      message has left it. */
  function RecvRound(m: Msg, v: seq<int>, len: nat, buf: seq<int>): (r: Round)
    requires |buf| == MAX_BATCH_SIZE
    ensures r.More? ==> |r.buf| == MAX_BATCH_SIZE
  {
    var n := Delivered(len, m);
    if n > MAX_BATCH_SIZE || m.total < |v| then Broken
    else
      var buf' := Overwrite(buf, m.files, n);
      var len' := LengthAfter(len, n);
      var batch := Min(m.total - |v|, MAX_BATCH_SIZE);
      if batch > 0 && len' < CMSG_HEADER then Broken
      else
        var v' := v + buf'[..batch];
        if |v'| == m.total then Complete(v') else More(v', len', buf')
  }

  /** The receiving loop. */
  function RecvLoop(msgs: seq<Msg>, v: seq<int>, len: nat, buf: seq<int>): Reception
    requires |buf| == MAX_BATCH_SIZE
    decreases |msgs|
  {
    if msgs == [] then Blocked
    else
      match RecvRound(msgs[0], v, len, buf)
      case Broken => Undefined
      case Complete(v') => Done(v', msgs[1..])
      case More(v', len', buf') => RecvLoop(msgs[1..], v', len', buf')
  }

  // ---- Theorems ----

  lemma FrameConcat(total: nat, rest: seq<int>, tail: seq<Msg>)
    requires rest != []
    ensures var n := Min(|rest|, MAX_BATCH_SIZE);
            var msgs := Frame(total, rest) + tail;
            msgs[0] == Msg(total, rest[..n]) && msgs[1..] == Frame(total, rest[n..]) + tail
  {
    var n := Min(|rest|, MAX_BATCH_SIZE);
    var later := Frame(total, rest[n..]);
    Associates([Msg(total, rest[..n])], later, tail);
  }

  lemma Associates<T>(a: seq<T>, b: seq<T>, c: seq<T>)
    ensures a + b + c == a + (b + c)
  {
  }

  /** A transfer of `n` files takes ceil(n / 10) messages. */
  lemma {:induction false} FrameLength(total: nat, rest: seq<int>)
    ensures |Frame(total, rest)| == (|rest| + 9) / 10
    decreases |rest|
  {
    if rest != [] {
      FrameLength(total, rest[Min(|rest|, MAX_BATCH_SIZE)..]);
    }
  }

  /** The length left by a message of `n` descriptors is enough for a next one of `m` exactly when
      `m` does not exceed `n` rounded up to the alignment of the buffer. */
  lemma NextFitsIff(len: nat, n: nat, m: nat)
    requires 0 < n <= Fit(len) && CmsgSpace(n * INT_SIZE) <= len
    ensures m <= Fit(LengthAfter(len, n)) <==> m <= n + n % 2
  {
    assert CmsgSpace(n * INT_SIZE) == CMSG_HEADER + INT_SIZE * (n + n % 2);
    assert Fit(CmsgSpace(n * INT_SIZE)) == n + n % 2;
  }

  /** A batch of the size that the receiver takes is taken whole. */
  lemma RoundOfFrame(m: Msg, v: seq<int>, len: nat, buf: seq<int>)
    requires |buf| == MAX_BATCH_SIZE && |v| < m.total
    requires |m.files| == Min(m.total - |v|, MAX_BATCH_SIZE) <= Fit(len)
    ensures var n := |m.files|;
            RecvRound(m, v, len, buf) ==
            if |v| + n == m.total then Complete(v + m.files)
            else More(v + m.files, LengthAfter(len, n), Overwrite(buf, m.files, n))
  {
    assert Overwrite(buf, m.files, |m.files|)[..|m.files|] == m.files;
  }

  /** What the sender can rely on: full batches, then the remainder, so never a larger batch after
      a smaller one.  At every message the receiver's missing files are the sender's remaining
      ones, both cut off the same batch, and the control length suffices. */
  lemma {:induction false} ReceiveFrame(total: nat, rest: seq<int>, v: seq<int>, len: nat, buf: seq<int>,
                                        tail: seq<Msg>)
    requires rest != [] && |v| + |rest| == total && |buf| == MAX_BATCH_SIZE
    requires Min(|rest|, MAX_BATCH_SIZE) <= Fit(len)
    ensures RecvLoop(Frame(total, rest) + tail, v, len, buf) == Done(v + rest, tail)
    decreases |rest|
  {
    var n := Min(|rest|, MAX_BATCH_SIZE);
    FrameConcat(total, rest, tail);
    RoundOfFrame(Msg(total, rest[..n]), v, len, buf);
    if n < |rest| {
      ReceiveFrame(total, rest[n..], v + rest[..n], LengthAfter(len, n), Overwrite(buf, rest[..n], n), tail);
      assert v + rest[..n] + rest[n..] == v + rest;
    } else {
      assert rest[..n] == rest && Frame(total, rest[n..]) + tail == tail;
    }
  }

  /** Transfers arrive as they were sent: from a queue of framed lists one call of `recv` takes
      exactly the messages of the first list and returns its files, in order. */
  lemma TransferArrives(lists: seq<seq<int>>, stale: seq<int>)
    requires lists != [] && lists[0] != [] && |stale| == MAX_BATCH_SIZE
    ensures RecvLoop(FrameAll(lists), [], CONTROL_SIZE, stale) == Done(lists[0], FrameAll(lists[1..]))
    ensures |FrameAll(lists)| - |FrameAll(lists[1..])| == (|lists[0]| + MAX_BATCH_SIZE - 1) / MAX_BATCH_SIZE
  {
    ReceiveFrame(|lists[0]|, lists[0], [], CONTROL_SIZE, stale, FrameAll(lists[1..]));
    assert [] + lists[0] == lists[0];
    FrameLength(|lists[0]|, lists[0]);
  }

  /** One call of `recv` after another, each with a control buffer full of old values. */
  function ReceiveMany(msgs: seq<Msg>, stales: seq<seq<int>>): seq<Reception>
    requires forall i :: 0 <= i < |stales| ==> |stales[i]| == MAX_BATCH_SIZE
    decreases |stales|
  {
    if stales == [] then []
    else
      var r := RecvLoop(msgs, [], CONTROL_SIZE, stales[0]);
      [r] + if r.Done? then ReceiveMany(r.rest, stales[1..]) else []
  }

  /** Any number of transfers, received by as many calls. */
  lemma {:induction false} TransfersArriveInOrder(lists: seq<seq<int>>, stales: seq<seq<int>>)
    requires |stales| == |lists| && forall i :: 0 <= i < |stales| ==> |stales[i]| == MAX_BATCH_SIZE
    requires forall i :: 0 <= i < |lists| ==> lists[i] != []
    ensures |ReceiveMany(FrameAll(lists), stales)| == |lists|
    ensures forall i :: 0 <= i < |lists| ==>
              ReceiveMany(FrameAll(lists), stales)[i] == Done(lists[i], FrameAll(lists[i + 1..]))
    decreases |lists|
  {
    if lists != [] {
      TransferArrives(lists, stales[0]);
      TransfersArriveInOrder(lists[1..], stales[1..]);
      var later := ReceiveMany(FrameAll(lists[1..]), stales[1..]);
      assert ReceiveMany(FrameAll(lists), stales) == [Done(lists[0], FrameAll(lists[1..]))] + later;
      forall i | 1 <= i < |lists|
        ensures later[i - 1] == Done(lists[i], FrameAll(lists[i + 1..]))
      {
        assert lists[1..][i..] == lists[i + 1..];
      }
    }
  }

  /** While messages of the transfer are still to come, `recv` blocks; it never returns part of it. */
  lemma {:induction false} PartialTransferBlocks(total: nat, rest: seq<int>, k: nat, v: seq<int>, len: nat,
                                                 buf: seq<int>)
    requires rest != [] && |v| + |rest| == total && |buf| == MAX_BATCH_SIZE
    requires Min(|rest|, MAX_BATCH_SIZE) <= Fit(len) && k < |Frame(total, rest)|
    ensures RecvLoop(Frame(total, rest)[..k], v, len, buf) == Blocked
    decreases |rest|
  {
    if k > 0 {
      var n := Min(|rest|, MAX_BATCH_SIZE);
      assert Frame(total, rest)[..k] == [Msg(total, rest[..n])] + Frame(total, rest[n..])[..k - 1];
      RoundOfFrame(Msg(total, rest[..n]), v, len, buf);
      PartialTransferBlocks(total, rest[n..], k - 1, v + rest[..n], LengthAfter(len, n),
                            Overwrite(buf, rest[..n], n));
    }
  }

  /** An empty list sends nothing, so there is nothing to receive. */
  lemma EmptyListSendsNothing(stale: seq<int>)
    requires |stale| == MAX_BATCH_SIZE
    ensures FrameAll([[]]) == [] && RecvLoop(FrameAll([[]]), [], CONTROL_SIZE, stale) == Blocked
  {
    assert FrameAll([[]]) == Frame(0, []) + FrameAll([]);
  }

  // ---- Which end an object becomes ----

  /** The flag is shared by sending and receiving. */
  datatype Endpoint = Endpoint(ready: bool, bound: bool, connected: bool, setups: nat)

  /** `ok`: whether connecting or binding, if it is attempted, succeeds. */
  datatype Use = ForSending(ok: bool) | ForReceiving(ok: bool)

  const FRESH := Endpoint(false, false, false, 0)

  function After(e: Endpoint, use: Use): Endpoint {
    if e.ready || !use.ok then e
    else Endpoint(true, use.ForReceiving?, use.ForSending?, e.setups + 1)
  }

  function AfterAll(uses: seq<Use>): Endpoint {
    if uses == [] then FRESH else After(AfterAll(uses[..|uses| - 1]), uses[|uses| - 1])
  }

  /** `i` is the first use that could be set up. */
  predicate FirstSetUp(uses: seq<Use>, i: int) {
    0 <= i < |uses| && uses[i].ok && forall j :: 0 <= j < i ==> !uses[j].ok
  }

  /** The first use that can be set up decides for good whether the object is a sending or a
      receiving end, and it is the only one that connects or binds. */
  lemma {:induction false} FirstUseDecides(uses: seq<Use>)
    ensures AfterAll(uses).ready <==> exists i :: FirstSetUp(uses, i)
    ensures AfterAll(uses).setups == if AfterAll(uses).ready then 1 else 0
    ensures forall i :: FirstSetUp(uses, i) ==>
              (AfterAll(uses).connected <==> uses[i].ForSending?) &&
              (AfterAll(uses).bound <==> uses[i].ForReceiving?)
  {
    if uses != [] {
      var n := |uses| - 1;
      FirstUseDecides(uses[..n]);
      assert forall i :: i < n ==> (FirstSetUp(uses[..n], i) <==> FirstSetUp(uses, i));
      if AfterAll(uses[..n]).ready {
        var i :| FirstSetUp(uses[..n], i);
        assert FirstSetUp(uses, i);
      } else {
        NothingSetUp(uses[..n]);
        assert uses[n].ok ==> FirstSetUp(uses, n);
      }
    }
  }

  lemma {:induction false} NothingSetUp(uses: seq<Use>)
    requires forall i :: !FirstSetUp(uses, i)
    ensures forall j :: 0 <= j < |uses| ==> !uses[j].ok
  {
    if uses != [] {
      var n := |uses| - 1;
      assert forall i :: i < n ==> (FirstSetUp(uses[..n], i) <==> FirstSetUp(uses, i));
      NothingSetUp(uses[..n]);
      assert !FirstSetUp(uses, n);
    }
  }
}
