/** Whole calls of the library inside the state machine: however the system calls of one call
    are cut, and whatever the other party does between them, the call ends where the contracts
    of `BufferedSocket` say. */
module StreamCalls {
  import opened Bytes
  import opened ByteStream
  import opened InputWindow
  import opened Options
  import opened OutputOrder
  import opened StreamMachine

  // ---- Writes and flushes ----

  /** Steps during one call of the sender: its sends, and anything the reader does. */
  predicate WithinCall(steps: seq<Step>) {
    forall i :: 0 <= i < |steps| ==> !steps[i].Call?
  }

  /** The sender is on its way to `o`, the last of its calls being `ops`'s. */
  predicate HeadingFor(s: Pair, ops: seq<Op<byte>>, o: Out<byte>) {
    s.ops == ops &&
    match s.tx
    case Idle(pending) => s.sent == o.sent && pending == o.pending
    case Sending(todo, after) => s.sent + todo == o.sent && after == o.pending
  }

  lemma StepHeadingFor(s: Pair, step: Step, ops: seq<Op<byte>>, o: Out<byte>)
    requires HeadingFor(s, ops, o) && Enabled(s, step) && !step.Call?
    ensures HeadingFor(Next(s, step), ops, o)
  {
    if step.SendSome? {
      var todo := s.tx.todo;
      assert todo == todo[..step.k] + todo[step.k..];
      assert s.sent + todo == s.sent + todo[..step.k] + todo[step.k..];
      assert step.k == |todo| ==> s.sent + todo[..step.k] == s.sent + todo;
    }
  }

  lemma {:induction false} RunHeadingFor(s: Pair, steps: seq<Step>, ops: seq<Op<byte>>, o: Out<byte>)
    requires HeadingFor(s, ops, o) && WithinCall(steps) && Exec(s, steps).Some?
    ensures HeadingFor(Exec(s, steps).value, ops, o)
  {
    if steps != [] {
      var n := |steps| - 1;
      RunHeadingFor(s, steps[..n], ops, o);
      StepHeadingFor(Exec(s, steps[..n]).value, steps[n], ops, o);
    }
  }

  /** A write or flush, through any sequence of short sends and with the reader doing whatever it
      likes between them: when the call is over, what has been sent and what is pending are what
      `Apply` says, the function that `WriteOutputBuffer` and `Flush` are proved against. */
  lemma WholeCall(s: Pair, op: Op<byte>, steps: seq<Step>)
    requires s.taken <= |s.sent| && s.tx.Idle? && WithinCall(steps)
    requires Exec(Next(s, Call(op)), steps).Some? && Exec(Next(s, Call(op)), steps).value.tx.Idle?
    ensures var t := Exec(Next(s, Call(op)), steps).value;
            var o := Apply(s.outCap, Out(s.sent, s.tx.pending, 0), op);
            t.ops == s.ops + [op] && t.sent == o.sent && t.tx == Idle(o.pending)
  {
    var o := Apply(s.outCap, Out(s.sent, s.tx.pending, 0), op);
    RunFrom(s.outCap, Out(s.sent, s.tx.pending, 0), op);
    assert s.sent + [] == s.sent;
    RunHeadingFor(Next(s, Call(op)), steps, s.ops + [op], o);
  }

  // ---- Reads of a fixed number of octets ----

  /** Steps during one read that succeeds: pieces of its blocking receive, and anything the sender
      does. */
  predicate WithinRead(steps: seq<Step>) {
    forall i :: 0 <= i < |steps| ==> steps[i].TopUp? || OfSender(steps[i])
  }

  predicate OfSender(step: Step) {
    step.Call? || step.SendSome?
  }

  predicate AllOfSender(steps: seq<Step>) {
    forall i :: 0 <= i < |steps| ==> OfSender(steps[i])
  }

  /** The reader of `t` stands where that of `s` stood; the sender may have moved on. */
  predicate ReaderUnmoved(s: Pair, t: Pair) {
    t == s.(ops := t.ops, tx := t.tx, sent := t.sent) && s.sent <= t.sent
  }

  /** What has been received since the state `s`. */
  function Received(s: Pair, t: Pair): seq<byte>
    requires s.taken <= t.taken <= |t.sent|
  {
    t.sent[s.taken..t.taken]
  }

  /** A read of `n` octets that began in `s`, as far as it has got in `t`: still blocked, or done. */
  predicate Reading(s: Pair, n: nat, t: Pair) {
    s.taken <= t.taken <= |t.sent| && s.sent <= t.sent && t.inCap == s.inCap &&
    if t.rx.Blocked? then
      t.rx == Blocked(n, Received(s, t)) && |s.win| + t.taken - s.taken < n &&
      t.win == s.win && t.cur == s.cur && t.asks == s.asks && t.results == s.results
    else
      t.taken == s.taken + (if n > |s.win| then n - |s.win| else 0) &&
      t.results == s.results + [(s.win + Received(s, t))[..n]] && t.asks == s.asks + [Fixed(n)] &&
      t.cur == Serve(s.cur, n) && t.win == if n > |s.win| then [] else s.win[n..]
  }

  lemma ReadBegins(s: Pair, n: nat)
    requires s.taken <= |s.sent| && s.rx.Ready?
    ensures Reading(s, n, Next(s, Read(n)))
  {
    assert s.win + s.sent[s.taken..s.taken] == s.win;
  }

  lemma SenderKeepsReading(s: Pair, n: nat, t: Pair, step: Step)
    requires Reading(s, n, t) && Enabled(t, step) && OfSender(step)
    ensures Reading(s, n, Next(t, step))
  {
    var t' := Next(t, step);
    assert Received(s, t') == Received(s, t);
  }

  lemma TopUpKeepsReading(s: Pair, n: nat, t: Pair, k: nat)
    requires Reading(s, n, t) && Enabled(t, TopUp(k))
    ensures Reading(s, n, Next(t, TopUp(k)))
  {
    var t' := Next(t, TopUp(k));
    assert Received(s, t') == Received(s, t) + t.Wire()[..k];
    var all := s.win + Received(s, t');
    assert |all| == n ==> all[..n] == all;
  }

  lemma {:induction false} RunKeepsReading(s: Pair, n: nat, t: Pair, steps: seq<Step>)
    requires Reading(s, n, t) && WithinRead(steps) && Exec(t, steps).Some?
    ensures Reading(s, n, Exec(t, steps).value)
  {
    if steps != [] {
      var m := |steps| - 1;
      RunKeepsReading(s, n, t, steps[..m]);
      var mid := Exec(t, steps[..m]).value;
      if steps[m].TopUp? {
        TopUpKeepsReading(s, n, mid, steps[m].k);
      } else {
        SenderKeepsReading(s, n, mid, steps[m]);
      }
    }
  }

  lemma {:induction false} SenderKeepsReader(s: Pair, steps: seq<Step>)
    requires AllOfSender(steps) && Exec(s, steps).Some?
    ensures ReaderUnmoved(s, Exec(s, steps).value)
  {
    if steps != [] {
      SenderKeepsReader(s, steps[..|steps| - 1]);
    }
  }

  /** A read of `n` octets, whose non-blocking receive finds `k` octets, with the sender doing
      whatever it likes before and during the blocking receive, and that receive coming in any
      pieces: when the read is over it has returned the next `n` octets of the stream, among them
      what was sent while it was blocked; the indices have moved as `Serve` says; and beyond the
      `k` octets it has taken exactly the shortfall, as in the contract of `ReadInputBuffer`. */
  lemma WholeRead(s: Pair, k: nat, between: seq<Step>, n: nat, steps: seq<Step>)
    requires ReaderInv(s) && Enabled(s, Receive(k)) && AllOfSender(between)
    requires Exec(Next(s, Receive(k)), between).Some? && WithinRead(steps)
    requires var s1 := Exec(Next(s, Receive(k)), between).value;
             s1.rx.Ready? && s1.taken <= |s1.sent| &&
             Exec(Next(s1, Read(n)), steps).Some? && Exec(Next(s1, Read(n)), steps).value.rx.Ready?
    ensures var s1 := Exec(Next(s, Receive(k)), between).value;
            var t := Exec(Next(s1, Read(n)), steps).value;
            t.taken == s.taken + k + (if n > |s.win| + k then n - |s.win| - k else 0) <= |t.sent| &&
            t.results == s.results + [(s.win + t.sent[s.taken..t.taken])[..n]] &&
            t.asks == s.asks + [Fixed(n)] && t.cur == Serve(Fill(s.cur, k), n)
  {
    var s0 := Next(s, Receive(k));
    SenderKeepsReader(s0, between);
    var s1 := Exec(s0, between).value;
    ReadBegins(s1, n);
    RunKeepsReading(s1, n, Next(s1, Read(n)), steps);
    var t := Exec(Next(s1, Read(n)), steps).value;
    assert s0.win == s.win + s.Wire()[..k];
    SpanOf(s, k, s1, t);
  }

  /** What the non-blocking receive and the blocking one have brought together. */
  lemma SpanOf(s: Pair, k: nat, s1: Pair, t: Pair)
    requires s.taken <= |s.sent| && k <= |s.Wire()| && s.sent <= t.sent
    requires s1.win == s.win + s.Wire()[..k] && s1.taken == s.taken + k <= t.taken <= |t.sent|
    ensures s.win + t.sent[s.taken..t.taken] == s1.win + Received(s1, t)
  {
    assert s.Wire()[..k] == s.sent[s.taken..s.taken + k] == t.sent[s.taken..s.taken + k];
    Adjoin(t.sent, s.taken, s1.taken, t.taken);
  }

  lemma Adjoin<T>(q: seq<T>, a: nat, b: nat, c: nat)
    requires a <= b <= c <= |q|
    ensures q[a..c] == q[a..b] + q[b..c]
  {
  }

  // ---- Strings ----

  /** An extraction under way: the state, with the characters taken out of the window so far. */
  datatype Extracting = Extracting(s: Pair, chars: seq<byte>)

  /** A character is taken out of the window by a read of one octet; in front of it a non-blocking
      receive may find something, and the sender may do anything at any time. */
  datatype Piece = TakeChar | Meanwhile(step: Step)

  predicate WithinExtraction(pieces: seq<Piece>) {
    forall i :: 0 <= i < |pieces| && pieces[i].Meanwhile? ==> pieces[i].step.Receive? || OfSender(pieces[i].step)
  }

  function TakeOne(e: Extracting): Extracting
    requires e.s.win != []
  {
    Extracting(e.s.(win := e.s.win[1..], cur := Serve(e.s.cur, 1)), e.chars + [e.s.win[0]])
  }

  /** The loop of the string `operator>>`, as far as `pieces` go. */
  function RunPieces(s: Pair, pieces: seq<Piece>): Option<Extracting> {
    if pieces == [] then Some(Extracting(s, []))
    else
      var r := RunPieces(s, pieces[..|pieces| - 1]);
      if r.None? then None
      else
        match pieces[|pieces| - 1]
        case TakeChar => if r.value.s.win != [] then Some(TakeOne(r.value)) else None
        case Meanwhile(step) =>
          if Enabled(r.value.s, step) then Some(Extracting(Next(r.value.s, step), r.value.chars)) else None
  }

  /** The unread terminator is skipped, and the string returned. */
  function Finish(e: Extracting): Pair
    requires e.s.win != []
  {
    Return(e.s, Terminated, e.chars + [0], e.s.win[1..], Cursor(e.s.cur.rd + 1, e.s.cur.size))
  }

  function StepsOf(pieces: seq<Piece>): seq<Step> {
    if pieces == [] then []
    else
      StepsOf(pieces[..|pieces| - 1]) +
      match pieces[|pieces| - 1]
      case TakeChar => []
      case Meanwhile(step) => [step]
  }

  /** The state `t` is that of `e`, had the rest of the `length` characters and the terminator already
      been taken. */
  ghost predicate Underway(s: Pair, length: nat, e: Extracting, t: Pair) {
    length < |s.win| && |e.chars| <= length && e.chars == s.win[..|e.chars|] &&
    var left := length - |e.chars| + 1;
    left <= |e.s.win| == e.s.cur.size - e.s.cur.rd && e.s.win[..left] == s.win[|e.chars|..length + 1] &&
    e.s.rx.Ready? && e.s.asks == s.asks && e.s.results == s.results &&
    t == Return(e.s, Terminated, s.win[..length + 1], e.s.win[left..], Cursor(e.s.cur.rd + left, e.s.cur.size))
  }

  lemma TakeOneKeeps(s: Pair, length: nat, e: Extracting, t: Pair)
    requires Underway(s, length, e, t) && |e.chars| < length
    ensures Underway(s, length, TakeOne(e), t)
  {
    var c := |e.chars|;
    var left := length - c + 1;
    assert e.s.win[..left][0] == s.win[c];
    assert e.s.win[..left][1..] == s.win[c..length + 1][1..] == s.win[c + 1..length + 1];
    assert s.win[..c] + [s.win[c]] == s.win[..c + 1];
  }

  lemma ReceiveKeepsUnderway(s: Pair, length: nat, e: Extracting, t: Pair, k: nat)
    requires Underway(s, length, e, t) && Enabled(e.s, Receive(k))
    ensures Enabled(t, Receive(k))
    ensures Underway(s, length, Extracting(Next(e.s, Receive(k)), e.chars), Next(t, Receive(k)))
  {
    var left, chunk := length - |e.chars| + 1, e.s.Wire()[..k];
    assert (e.s.win + chunk)[..left] == e.s.win[..left];
    assert (e.s.win + chunk)[left..] == e.s.win[left..] + chunk;
  }

  lemma SenderKeepsUnderway(s: Pair, length: nat, e: Extracting, t: Pair, step: Step)
    requires Underway(s, length, e, t) && Enabled(e.s, step) && OfSender(step)
    ensures Enabled(t, step)
    ensures Underway(s, length, Extracting(Next(e.s, step), e.chars), Next(t, step))
  {
  }

  lemma ExtractionBegins(s: Pair)
    requires ReaderInv(s) && Enabled(s, Extract)
    ensures Underway(s, FirstNul(s.win), Extracting(s, []), Next(s, Extract))
  {
  }

  lemma {:induction false} PiecesKeepUnderway(s: Pair, pieces: seq<Piece>) returns (t: Pair)
    requires ReaderInv(s) && Enabled(s, Extract) && WithinExtraction(pieces)
    requires RunPieces(s, pieces).Some? && |RunPieces(s, pieces).value.chars| <= FirstNul(s.win)
    ensures Exec(Next(s, Extract), StepsOf(pieces)) == Some(t)
    ensures Underway(s, FirstNul(s.win), RunPieces(s, pieces).value, t)
  {
    if pieces == [] {
      ExtractionBegins(s);
      t := Next(s, Extract);
    } else {
      var n := |pieces| - 1;
      t := PiecesKeepUnderway(s, pieces[..n]);
      t := PieceKeepsUnderway(s, RunPieces(s, pieces[..n]).value, t, pieces[n], StepsOf(pieces[..n]));
    }
  }

  lemma PieceKeepsUnderway(s: Pair, e: Extracting, t: Pair, piece: Piece, steps: seq<Step>) returns (t': Pair)
    requires Underway(s, FirstNul(s.win), e, t) && Enabled(s, Extract) && Exec(Next(s, Extract), steps) == Some(t)
    requires piece.TakeChar? ==> |e.chars| < FirstNul(s.win)
    requires piece.Meanwhile? ==> Enabled(e.s, piece.step) && (piece.step.Receive? || OfSender(piece.step))
    ensures Exec(Next(s, Extract), steps + if piece.TakeChar? then [] else [piece.step]) == Some(t')
    ensures Underway(s, FirstNul(s.win),
                     if piece.TakeChar? then TakeOne(e) else Extracting(Next(e.s, piece.step), e.chars), t')
  {
    match piece
    case TakeChar =>
      TakeOneKeeps(s, FirstNul(s.win), e, t);
      assert steps + [] == steps;
      t' := t;
    case Meanwhile(step) =>
      if step.Receive? {
        ReceiveKeepsUnderway(s, FirstNul(s.win), e, t, step.k);
      } else {
        SenderKeepsUnderway(s, FirstNul(s.win), e, t, step);
      }
      ExecSnoc(Next(s, Extract), steps, t, step);
      t' := Next(t, step);
  }

  /** A string extraction, character by character, with receives between the characters and the
      sender doing whatever it likes: it ends in the same state as the step `Extract`, followed by these
      receives and what the sender did.  So `Extract` can stand for all of it. */
  lemma WholeExtraction(s: Pair, pieces: seq<Piece>)
    requires ReaderInv(s) && Enabled(s, Extract) && WithinExtraction(pieces)
    requires RunPieces(s, pieces).Some? && |RunPieces(s, pieces).value.chars| == FirstNul(s.win)
    ensures var e := RunPieces(s, pieces).value;
            e.s.win != [] && e.s.win[0] == 0 && e.chars == s.win[..FirstNul(s.win)] &&
            Exec(Next(s, Extract), StepsOf(pieces)) == Some(Finish(e))
  {
    var t := PiecesKeepUnderway(s, pieces);
    AllTaken(s, FirstNul(s.win), RunPieces(s, pieces).value, t);
  }

  lemma AllTaken(s: Pair, length: nat, e: Extracting, t: Pair)
    requires Underway(s, length, e, t) && |e.chars| == length && s.win[length] == 0
    ensures e.s.win != [] && e.s.win[0] == 0 && e.chars == s.win[..length] && t == Finish(e)
  {
    assert e.s.win[..1][0] == s.win[length..length + 1][0];
    assert s.win[..length] + [0] == s.win[..length + 1];
  }

  /** From `e`, a new extraction returns what one from `s` would, but for the first characters. */
  ghost predicate ReturnsTheRest(s: Pair, e: Extracting)
    requires Enabled(s, Extract)
  {
    var k, end := |e.chars|, FirstNul(s.win) + 1;
    k < end && e.chars == s.win[..k] && Enabled(e.s, Extract) &&
    Next(e.s, Extract).results == s.results + [s.win[k..end]] &&
    (Next(e.s, Extract).results == Next(s, Extract).results <==> k == 0)
  }

  /** An extraction that a failing receive has cut short behind `k` characters, and is then repeated:
      it returns the string without these, so the string written exactly when `k` is 0. */
  lemma RetriedExtraction(s: Pair, pieces: seq<Piece>)
    requires ReaderInv(s) && Enabled(s, Extract) && WithinExtraction(pieces)
    requires RunPieces(s, pieces).Some? && |RunPieces(s, pieces).value.chars| <= FirstNul(s.win)
    ensures ReturnsTheRest(s, RunPieces(s, pieces).value)
  {
    var t := PiecesKeepUnderway(s, pieces);
    TakeTheRest(s, FirstNul(s.win), RunPieces(s, pieces).value, t);
  }

  lemma TakeTheRest(s: Pair, length: nat, e: Extracting, t: Pair)
    requires Underway(s, length, e, t) && length == FirstNul(s.win) && e.s.taken <= |e.s.sent|
    requires Enabled(s, Extract)
    ensures ReturnsTheRest(s, e)
  {
    RestOfString(s.win, length, e.s.win, |e.chars|);
    LaterPart(s.win, |e.chars|, length + 1);
    SameLast(s.results, s.win[|e.chars|..length + 1], s.win[..length + 1]);
  }

  lemma LaterPart<T>(s: seq<T>, k: nat, end: nat)
    requires k < end <= |s|
    ensures s[k..end] == s[..end] <==> k == 0
  {
    assert |s[k..end]| == end - k;
  }

  lemma SameLast<T>(s: seq<T>, a: T, b: T)
    ensures s + [a] == s + [b] <==> a == b
  {
    assert (s + [a])[|s|] == a && (s + [b])[|s|] == b;
  }

  lemma RestOfString(window: seq<byte>, n: nat, rest: seq<byte>, k: nat)
    requires k <= n < |window| && window[n] == 0 && forall i :: 0 <= i < n ==> window[i] != 0
    requires window[k..n + 1] <= rest
    ensures FirstNul(rest) == n - k < |rest| && rest[..n - k + 1] == window[k..n + 1]
  {
    assert forall i :: 0 <= i <= n - k ==> rest[i] == window[k..n + 1][i] == window[k + i];
    FirstNulUnique(rest, n - k);
  }
}
