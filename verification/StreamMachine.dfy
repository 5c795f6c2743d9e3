/** A connected pair of buffered sockets, one writing and one reading, as a state machine.

    A step is one system call, or the part of a library call between two system calls: the
    two parties interleave anywhere, also in the middle of `send_all` and of a blocking
    receive.  How much a short send or a receive moves is part of the step.  The effect of a
    write is `OutputOrder.AfterWrite`, that of a read on the indices `InputWindow.Serve`: the
    functions that the methods of `BufferedSocket` are proved against. */
module StreamMachine {
  import opened Bytes
  import opened ByteStream
  import opened InputWindow
  import opened Options
  import opened OutputOrder

  datatype Sender = Idle(pending: seq<byte>) | Sending(todo: seq<byte>, after: seq<byte>)

  /** `Blocked(n, acc)`: a read of `n` octets waits for its shortfall, of which `acc` has come. */
  datatype Reader = Ready | Blocked(n: nat, acc: seq<byte>)

  datatype Pair = Pair(
    outCap: nat,
    inCap: nat,
    ops: seq<Op<byte>>,          // the calls of the sender
    tx: Sender,
    sent: seq<byte>,             // every octet that has been put on the wire
    taken: nat,                  // how many of them have been received
    cur: Cursor,
    win: seq<byte>,              // the octets received and not yet read
    rx: Reader,
    asks: seq<Ask>,              // the completed reads, ...
    results: seq<seq<byte>>      // ... and what they returned
  )
  {
    function Wire(): seq<byte>
      requires taken <= |sent|
    {
      sent[taken..]
    }

    function Unsent(): seq<byte> {
      match tx
      case Idle(pending) => pending
      case Sending(todo, after) => todo + after
    }

    function Acc(): seq<byte> {
      if rx.Blocked? then rx.acc else []
    }

    /** Everything written and not yet returned by a read: the content of the FIFO queue that
        the pair implements. */
    function Queue(): seq<byte>
      requires taken <= |sent|
    {
      win + Acc() + Wire() + Unsent()
    }
  }

  /** `Call` is a write or a flush up to its first send; `SendSome` one send of `send_all`.
      `Receive` is the non-blocking receive at the start of a read, `Read` the rest of it up to
      the blocking receive, `TopUp` a part of that, `Abort` its failure before any octet.
      `Extract` is the string `operator>>`; the receives inside its loop append behind the
      window like any other, so they are `Receive` steps after it. */
  datatype Step =
    | Call(op: Op<byte>)
    | SendSome(k: nat)
    | Receive(k: nat)
    | Read(n: nat)
    | TopUp(k: nat)
    | Abort
    | Extract

  function Init(outCap: nat, inCap: nat): Pair {
    Pair(outCap, inCap, [], Idle([]), [], 0, Cursor(0, 0), [], Ready, [], [])
  }

  predicate Enabled(s: Pair, step: Step) {
    s.taken <= |s.sent| &&
    match step
    case Call(_) => s.tx.Idle?
    case SendSome(k) => s.tx.Sending? && 0 < k <= |s.tx.todo|
    case Receive(k) => s.rx.Ready? && s.cur.size + k <= s.inCap && k <= |s.Wire()|
    case Read(_) => s.rx.Ready?
    case TopUp(k) => s.rx.Blocked? && 0 < k <= |s.Wire()| && |s.win| + |s.rx.acc| + k <= s.rx.n
    case Abort => s.rx.Blocked? && s.rx.acc == []
    case Extract => s.rx.Ready? && FirstNul(s.win) < |s.win|
  }

  function Next(s: Pair, step: Step): Pair
    requires Enabled(s, step)
  {
    match step
    case Call(op) =>
      var o := Apply(s.outCap, Out([], s.tx.pending, 0), op);
      s.(ops := s.ops + [op],
         tx := if o.sent == [] then Idle(o.pending) else Sending(o.sent, o.pending))
    case SendSome(k) =>
      s.(sent := s.sent + s.tx.todo[..k],
         tx := if k == |s.tx.todo| then Idle(s.tx.after) else Sending(s.tx.todo[k..], s.tx.after))
    case Receive(k) =>
      s.(taken := s.taken + k, win := s.win + s.Wire()[..k], cur := Fill(s.cur, k))
    case Read(n) =>
      if n <= |s.win| then Return(s, Fixed(n), s.win[..n], s.win[n..], Serve(s.cur, n))
      else s.(rx := Blocked(n, []))
    case TopUp(k) =>
      var acc := s.rx.acc + s.Wire()[..k];
      var s' := s.(taken := s.taken + k);
      if |s.win| + |acc| == s.rx.n then Return(s', Fixed(s.rx.n), s.win + acc, [], Serve(s.cur, s.rx.n))
      else s'.(rx := Blocked(s.rx.n, acc))
    case Abort => s.(rx := Ready)
    case Extract =>
      var k := FirstNul(s.win);
      Return(s, Terminated, s.win[..k + 1], s.win[k + 1..], Cursor(s.cur.rd + k + 1, s.cur.size))
  }

  /** A read returns `result` and leaves the window `win`. */
  function Return(s: Pair, ask: Ask, result: seq<byte>, win: seq<byte>, cur: Cursor): Pair {
    s.(rx := Ready, asks := s.asks + [ask], results := s.results + [result], win := win, cur := cur)
  }

  /** The state after a run of steps, if each is enabled in its turn. */
  function Exec(s: Pair, steps: seq<Step>): Option<Pair> {
    if steps == [] then Some(s)
    else
      var r := Exec(s, steps[..|steps| - 1]);
      var step := steps[|steps| - 1];
      if r.Some? && Enabled(r.value, step) then Some(Next(r.value, step)) else None
  }

  lemma ExecSnoc(s0: Pair, steps: seq<Step>, s: Pair, step: Step)
    requires Exec(s0, steps) == Some(s) && Enabled(s, step)
    ensures Exec(s0, steps + [step]) == Some(Next(s, step))
  {
    assert (steps + [step])[..|steps|] == steps;
  }

  lemma CapacitiesKept(s: Pair, step: Step)
    requires Enabled(s, step)
    ensures Next(s, step).outCap == s.outCap && Next(s, step).inCap == s.inCap
  {
  }

  // ---- The invariant ----

  /** The sender is on its way to what `OutputOrder.Run` gives for its calls. */
  ghost predicate SenderInv(s: Pair) {
    var o := Run(s.outCap, s.ops);
    match s.tx
    case Idle(pending) => o.sent == s.sent && o.pending == pending
    case Sending(todo, after) => todo != [] && o.sent == s.sent + todo && o.pending == after
  }

  /** What the reader has returned, holds, and is accumulating is what it has received. */
  ghost predicate ReaderInv(s: Pair) {
    s.taken <= |s.sent| &&
    InBounds(s.cur, s.inCap) && |s.win| == s.cur.size - s.cur.rd &&
    Flatten(s.results) + s.win + s.Acc() == s.sent[..s.taken] &&
    (s.rx.Blocked? ==> |s.win| + |s.rx.acc| < s.rx.n) &&
    |s.asks| == |s.results| &&
    forall i :: 0 <= i < |s.asks| ==> Conforms(s.asks[i], s.results[i])
  }

  lemma RunFrom<T>(cap: nat, o: Out<T>, op: Op<T>)
    ensures Apply(cap, o, op).sent == o.sent + Apply(cap, Out([], o.pending, 0), op).sent
    ensures Apply(cap, o, op).pending == Apply(cap, Out([], o.pending, 0), op).pending
  {
    assert [] + o.pending == o.pending;
  }

  lemma SenderStep(s: Pair, step: Step)
    requires SenderInv(s) && Enabled(s, step)
    ensures SenderInv(Next(s, step))
  {
    match step
    case Call(op) =>
      assert (s.ops + [op])[..|s.ops|] == s.ops;
      RunFrom(s.outCap, Run(s.outCap, s.ops), op);
      assert s.sent + [] == s.sent;
    case SendSome(k) =>
      assert s.sent + s.tx.todo == s.sent + s.tx.todo[..k] + s.tx.todo[k..];
      assert k == |s.tx.todo| ==> s.tx.todo[k..] == [];
    case _ =>
  }

  lemma {:induction false} FlattenSnoc<T>(chunks: seq<seq<T>>, c: seq<T>)
    ensures Flatten(chunks + [c]) == Flatten(chunks) + c
  {
    assert (chunks + [c])[..|chunks|] == chunks;
  }

  lemma ReturnKeepsInv(s: Pair, ask: Ask, result: seq<byte>, win: seq<byte>, cur: Cursor)
    requires s.taken <= |s.sent| && |s.asks| == |s.results|
    requires forall i :: 0 <= i < |s.asks| ==> Conforms(s.asks[i], s.results[i])
    requires Flatten(s.results) + (result + win) == s.sent[..s.taken]
    requires Conforms(ask, result) && InBounds(cur, s.inCap) && |win| == cur.size - cur.rd
    ensures ReaderInv(Return(s, ask, result, win, cur))
  {
    FlattenSnoc(s.results, result);
    assert Flatten(s.results) + (result + win) == Flatten(s.results) + result + win + [];
  }

  lemma ReaderStep(s: Pair, step: Step)
    requires ReaderInv(s) && Enabled(s, step)
    ensures ReaderInv(Next(s, step))
  {
    match step
    case Call(_) =>
    case SendSome(k) =>
      assert (s.sent + s.tx.todo[..k])[..s.taken] == s.sent[..s.taken];
    case Receive(k) => ReceiveStep(s, k);
    case Read(n) =>
      if n <= |s.win| {
        ServeStep(s, Fixed(n), n, Serve(s.cur, n));
      }
    case TopUp(k) => TopUpStep(s, k);
    case Abort =>
    case Extract =>
      var k := FirstNul(s.win) + 1;
      FirstNulUnique(s.win[..k], k - 1);
      ServeStep(s, Terminated, k, Cursor(s.cur.rd + k, s.cur.size));
  }

  lemma ReceiveStep(s: Pair, k: nat)
    requires ReaderInv(s) && Enabled(s, Receive(k))
    ensures ReaderInv(Next(s, Receive(k)))
  {
    var chunk := s.Wire()[..k];
    assert s.sent[..s.taken + k] == s.sent[..s.taken] + chunk;
    assert Flatten(s.results) + s.win + [] + chunk == Flatten(s.results) + (s.win + chunk) + [];
  }

  lemma ServeStep(s: Pair, ask: Ask, k: nat, cur: Cursor)
    requires ReaderInv(s) && s.rx.Ready? && k <= |s.win| && Conforms(ask, s.win[..k])
    requires InBounds(cur, s.inCap) && |s.win| - k == cur.size - cur.rd
    ensures ReaderInv(Return(s, ask, s.win[..k], s.win[k..], cur))
  {
    assert s.win[..k] + s.win[k..] == s.win;
    assert Flatten(s.results) + s.win + [] == Flatten(s.results) + s.win;
    ReturnKeepsInv(s, ask, s.win[..k], s.win[k..], cur);
  }

  lemma TopUpStep(s: Pair, k: nat)
    requires ReaderInv(s) && Enabled(s, TopUp(k))
    ensures ReaderInv(Next(s, TopUp(k)))
  {
    var chunk := s.Wire()[..k];
    var acc := s.rx.acc + chunk;
    assert s.sent[..s.taken + k] == s.sent[..s.taken] + chunk;
    assert Flatten(s.results) + s.win + s.rx.acc + chunk == Flatten(s.results) + s.win + acc;
    if |s.win| + |acc| == s.rx.n {
      assert Flatten(s.results) + s.win + acc == Flatten(s.results) + ((s.win + acc) + []);
      ReturnKeepsInv(s.(taken := s.taken + k), Fixed(s.rx.n), s.win + acc, [], Serve(s.cur, s.rx.n));
    }
  }

  ghost predicate Inv(s: Pair) {
    SenderInv(s) && ReaderInv(s)
  }

  lemma InvStep(s: Pair, step: Step)
    requires Inv(s) && Enabled(s, step)
    ensures Inv(Next(s, step))
  {
    SenderStep(s, step);
    ReaderStep(s, step);
  }

  lemma {:induction false} InvHolds(s: Pair, steps: seq<Step>)
    requires Inv(s) && Exec(s, steps).Some?
    ensures Inv(Exec(s, steps).value)
  {
    if steps != [] {
      var n := |steps| - 1;
      InvHolds(s, steps[..n]);
      InvStep(Exec(s, steps[..n]).value, steps[n]);
    }
  }

  ghost predicate Reachable(s: Pair) {
    exists steps :: Exec(Init(s.outCap, s.inCap), steps) == Some(s)
  }

  lemma ReachableStep(s: Pair, step: Step)
    requires Reachable(s) && Enabled(s, step)
    ensures Reachable(Next(s, step))
  {
    var steps :| Exec(Init(s.outCap, s.inCap), steps) == Some(s);
    CapacitiesKept(s, step);
    ExecSnoc(Init(s.outCap, s.inCap), steps, s, step);
  }

  lemma ReachableInv(s: Pair)
    requires Reachable(s)
    ensures Inv(s)
  {
    var steps :| Exec(Init(s.outCap, s.inCap), steps) == Some(s);
    InvHolds(Init(s.outCap, s.inCap), steps);
  }

  /** No index of either buffer ever leaves it, and the output buffer is never full. */
  lemma BufferSafety(s: Pair)
    requires Reachable(s)
    ensures s.cur.rd <= s.cur.size <= s.inCap && |s.win| == s.cur.size - s.cur.rd
    ensures s.rx.Blocked? ==> |s.win| + |s.rx.acc| < s.rx.n
    ensures Fits(s.outCap, if s.tx.Idle? then s.tx.pending else s.tx.after)
  {
    ReachableInv(s);
    PendingFits(s.outCap, s.ops);
  }

  // ---- Conservation and order ----

  lemma Regroup<T>(r: seq<T>, a: seq<T>, b: seq<T>, c: seq<T>, d: seq<T>)
    ensures r + (a + b + c + d) == r + a + b + c + d == (r + a + b) + c + d
  {
    assert r + (a + b + c + d) == r + a + b + c + d;
  }

  lemma SentOrder(s: Pair)
    requires SenderInv(s)
    ensures s.sent + s.Unsent() == WireOrder(Run(s.outCap, s.ops))
  {
    if s.tx.Sending? {
      assert s.sent + (s.tx.todo + s.tx.after) == s.sent + s.tx.todo + s.tx.after;
    }
  }

  /** In every reachable state, and whatever was written: what reads have returned, followed by
      the queue, is the wire order of the calls made so far. */
  lemma StreamIsWireOrder(s: Pair)
    requires Reachable(s)
    ensures Inv(s)
    ensures Flatten(s.results) + s.Queue() == WireOrder(Run(s.outCap, s.ops))
  {
    ReachableInv(s);
    Regroup(Flatten(s.results), s.win, s.Acc(), s.Wire(), s.Unsent());
    assert s.sent[..s.taken] + s.Wire() == s.sent;
    SentOrder(s);
  }

  /** The stream is first in, first out: as long as no oversized item is written while octets
      are pending, every octet written is, in order, returned, in the window, on its way into
      a blocked read, on the wire, or unsent; for all capacities and interleavings. */
  lemma FirstInFirstOut(s: Pair)
    requires Reachable(s) && NeverOvertakes(s.outCap, s.ops)
    ensures Inv(s)
    ensures Written(s.ops) ==
              Flatten(s.results) + s.win + s.Acc() + s.Wire() + s.Unsent()
  {
    StreamIsWireOrder(s);
    FifoUnlessOvertaking(s.outCap, s.ops);
    Regroup(Flatten(s.results), s.win, s.Acc(), s.Wire(), s.Unsent());
  }

  /** Without that proviso nothing is lost, duplicated or invented. */
  lemma NothingLost(s: Pair)
    requires Reachable(s)
    ensures Inv(s)
    ensures multiset(Flatten(s.results)) + multiset(s.Queue()) == multiset(Written(s.ops))
  {
    StreamIsWireOrder(s);
    RunPermutes(s.outCap, s.ops);
    assert multiset(Flatten(s.results) + s.Queue()) == multiset(Written(s.ops));
  }

  // ---- Refinement of a FIFO queue ----

  ghost predicate Enqueues(s: Pair, s': Pair, item: seq<byte>)
    requires s.taken <= |s.sent| && s'.taken <= |s'.sent|
  {
    s'.results == s.results && s'.Queue() == s.Queue() + item
  }

  ghost predicate Dequeues(s: Pair, s': Pair, c: seq<byte>)
    requires s.taken <= |s.sent| && s'.taken <= |s'.sent|
  {
    s'.results == s.results + [c] && c + s'.Queue() == s.Queue()
  }

  ghost predicate Invisible(s: Pair, s': Pair)
    requires s.taken <= |s.sent| && s'.taken <= |s'.sent|
  {
    s'.results == s.results && s'.Queue() == s.Queue()
  }

  /** The read that a step completes, if it does. */
  function Completes(s: Pair, step: Step): Option<Ask> {
    match step
    case Read(n) => if n <= |s.win| then Some(Fixed(n)) else None
    case TopUp(k) =>
      if s.rx.Blocked? && |s.win| + |s.rx.acc| + k == s.rx.n then Some(Fixed(s.rx.n)) else None
    case Extract => Some(Terminated)
    case _ => None
  }

  /** A step of the queue: a write appends its item, a completed read removes from the front
      what it asked for and returns it, and every other step is invisible. */
  ghost predicate QueueStep(s: Pair, step: Step, s': Pair)
    requires s.taken <= |s.sent| && s'.taken <= |s'.sent|
  {
    var done := Completes(s, step);
    if step.Call? && step.op.Write? then Enqueues(s, s', step.op.item)
    else if done.None? then Invisible(s, s')
    else s'.asks == s.asks + [done.value] && exists c :: Conforms(done.value, c) && Dequeues(s, s', c)
  }

  /** The machine refines the queue, unless a write takes the overtaking branch. */
  lemma StepRefinesQueue(s: Pair, step: Step)
    requires Inv(s) && Enabled(s, step)
    requires step.Call? && step.op.Write? ==> !Overtaking(s.outCap, s.tx.pending, step.op.item)
    ensures Inv(Next(s, step)) && QueueStep(s, step, Next(s, step))
  {
    InvStep(s, step);
    if step.TopUp? || step.Read? || step.Extract? {
      ReadingRefines(s, step);
    } else {
      match step
      case Call(op) => CallRefines(s, op);
      case SendSome(k) => SendRefines(s, k);
      case Receive(k) => ReceiveRefines(s, k);
      case Abort =>
    }
  }

  lemma ReadingRefines(s: Pair, step: Step)
    requires ReaderInv(s) && Enabled(s, step) && (step.TopUp? || step.Read? || step.Extract?)
    ensures Next(s, step).taken <= |s.sent| && QueueStep(s, step, Next(s, step))
  {
    match step
    case TopUp(k) => TopUpRefines(s, k);
    case Read(n) => ReadRefines(s, n);
    case Extract => ExtractRefines(s);
  }

  lemma ReadRefines(s: Pair, n: nat)
    requires ReaderInv(s) && Enabled(s, Read(n))
    ensures QueueStep(s, Read(n), Next(s, Read(n)))
  {
    if n <= |s.win| {
      ReturnRefines(s, Fixed(n), s.win[..n], s.win[n..], Serve(s.cur, n));
      assert Conforms(Fixed(n), s.win[..n]) && Dequeues(s, Next(s, Read(n)), s.win[..n]);
    }
  }

  lemma ExtractRefines(s: Pair)
    requires ReaderInv(s) && Enabled(s, Extract)
    ensures QueueStep(s, Extract, Next(s, Extract))
  {
    var k := FirstNul(s.win) + 1;
    FirstNulUnique(s.win[..k], k - 1);
    ReturnRefines(s, Terminated, s.win[..k], s.win[k..], Cursor(s.cur.rd + k, s.cur.size));
    assert Conforms(Terminated, s.win[..k]) && Dequeues(s, Next(s, Extract), s.win[..k]);
  }

  lemma ReceiveRefines(s: Pair, k: nat)
    requires Enabled(s, Receive(k))
    ensures Next(s, Receive(k)).Queue() == s.Queue()
  {
    var s' := Next(s, Receive(k));
    assert s'.Wire() == s.Wire()[k..];
    MoveFirst(s.win, s.Wire(), k);
  }

  lemma MoveFirst<T>(a: seq<T>, b: seq<T>, k: nat)
    requires k <= |b|
    ensures a + [] + b == (a + b[..k]) + [] + b[k..]
  {
    assert b == b[..k] + b[k..];
    assert a + [] == a && (a + b[..k]) + [] == a + b[..k];
    assert a + (b[..k] + b[k..]) == a + b[..k] + b[k..];
  }

  lemma ReturnRefines(s: Pair, ask: Ask, result: seq<byte>, win: seq<byte>, cur: Cursor)
    requires s.taken <= |s.sent|
    requires s.win + s.Acc() == result + win
    ensures Dequeues(s, Return(s, ask, result, win, cur), result)
  {
    assert result + (win + [] + s.Wire() + s.Unsent()) == result + win + s.Wire() + s.Unsent();
  }

  lemma CallRefines(s: Pair, op: Op<byte>)
    requires s.taken <= |s.sent| && s.tx.Idle?
    requires op.Write? ==> !Overtaking(s.outCap, s.tx.pending, op.item)
    ensures Next(s, Call(op)).Queue() == s.Queue() + if op.Write? then op.item else []
  {
    var s' := Next(s, Call(op));
    var item := if op.Write? then op.item else [];
    assert s'.Unsent() == s.Unsent() + item;
    assert s.Queue() + item == s.win + s.Acc() + s.Wire() + (s.Unsent() + item);
  }

  lemma SendRefines(s: Pair, k: nat)
    requires Enabled(s, SendSome(k))
    ensures Next(s, SendSome(k)).Queue() == s.Queue()
  {
    var s' := Next(s, SendSome(k));
    assert s'.Wire() == s.Wire() + s.tx.todo[..k];
    assert s.Unsent() == s.tx.todo[..k] + s'.Unsent();
    assert s.Wire() + s.Unsent() == s'.Wire() + s'.Unsent();
    assert s.Queue() == s.win + s.Acc() + (s.Wire() + s.Unsent());
    assert s'.Queue() == s.win + s.Acc() + (s'.Wire() + s'.Unsent());
  }

  lemma MovePiece<T>(a: seq<T>, b: seq<T>, c: seq<T>, k: nat, d: seq<T>)
    requires k <= |c|
    ensures a + b + c + d == a + (b + c[..k]) + c[k..] + d
    ensures a + (b + c[..k]) + c[k..] + d == (a + (b + c[..k])) + ([] + [] + c[k..] + d)
  {
    assert c == c[..k] + c[k..];
    assert a + b + (c[..k] + c[k..]) == a + (b + c[..k]) + c[k..];
    assert [] + [] + c[k..] == c[k..];
    assert a + (b + c[..k]) + c[k..] + d == a + (b + c[..k]) + (c[k..] + d);
  }

  lemma TopUpRefines(s: Pair, k: nat)
    requires ReaderInv(s) && Enabled(s, TopUp(k))
    ensures var s' := Next(s, TopUp(k));
            s'.taken <= |s'.sent| &&
            if s'.rx.Blocked? then Invisible(s, s') else Dequeues(s, s', s.win + (s.rx.acc + s.Wire()[..k]))
  {
    var s' := Next(s, TopUp(k));
    assert s'.Wire() == s.Wire()[k..];
    assert s'.Unsent() == s.Unsent();
    MovePiece(s.win, s.rx.acc, s.Wire(), k, s.Unsent());
  }
}
