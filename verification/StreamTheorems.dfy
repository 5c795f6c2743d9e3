/** What a user of a connected pair of buffered sockets can rely on. */
module StreamTheorems {
  import opened Bytes
  import opened ByteStream
  import opened Codec
  import opened Options
  import opened OutputOrder
  import opened StreamMachine

  // ---- Buffered reads are reads straight from the stream ----

  lemma ReturnedIsPrefix(s: Pair)
    requires ReaderInv(s)
    ensures Flatten(s.results) <= s.sent
  {
    assert Flatten(s.results) + s.win + s.Acc() <= s.sent;
  }

  /** Completed reads return what the same asks take straight from the stream. */
  lemma ReadsStraightFromStream(s: Pair)
    requires Reachable(s)
    ensures Flatten(s.results) <= s.sent
    ensures SplitAll(s.asks, s.sent) == Some(Split(s.results, s.sent[|Flatten(s.results)|..]))
  {
    ReachableInv(s);
    ReturnedIsPrefix(s);
    var rest := s.sent[|Flatten(s.results)|..];
    assert Flatten(s.results) + rest == s.sent;
    SplitFlattened(s.asks, s.results, rest);
  }

  lemma SplitOfLonger(asks: seq<Ask>, stream: seq<byte>, longer: seq<byte>)
    requires stream <= longer && SplitAll(asks, stream).Some? && SplitAll(asks, longer).Some?
    ensures SplitAll(asks, stream).value.chunks == SplitAll(asks, longer).value.chunks
  {
    SplitExtends(asks, stream, longer[|stream|..]);
    assert longer == stream + longer[|stream|..];
  }

  /** So neither the capacities, nor the sizes and times of receives, nor how far the sender has
      got, make a difference to what a sequence of reads returns. */
  lemma CapacityIndependence(s: Pair, t: Pair)
    requires Reachable(s) && Reachable(t)
    requires s.asks == t.asks && s.sent <= t.sent
    ensures s.results == t.results
  {
    ReadsStraightFromStream(s);
    ReadsStraightFromStream(t);
    SplitOfLonger(s.asks, s.sent, t.sent);
  }

  // ---- Blocking ----

  function Shortfall(s: Pair): nat
    requires s.rx.Blocked? && |s.win| + |s.rx.acc| < s.rx.n
  {
    s.rx.n - |s.win| - |s.rx.acc|
  }

  /** No over-asking: a blocked read wants exactly what separates the octets received from the
      end of the request.  It can complete exactly when the peer has sent that far, and then it
      leaves nothing received that was not asked for. */
  lemma BlockedReadCompletesIff(s: Pair)
    requires Reachable(s) && s.rx.Blocked?
    ensures Inv(s)
    ensures s.taken + Shortfall(s) == |Flatten(s.results)| + s.rx.n
    ensures Enabled(s, TopUp(Shortfall(s))) <==> |Flatten(s.results)| + s.rx.n <= |s.sent|
    ensures Enabled(s, TopUp(Shortfall(s))) ==>
              var s' := Next(s, TopUp(Shortfall(s)));
              s'.rx.Ready? && s'.win == [] && |s'.results| == |s.results| + 1 &&
              s'.taken == |Flatten(s'.results)|
  {
    ReachableInv(s);
    assert |Flatten(s.results) + s.win + s.Acc()| == s.taken;
    if Enabled(s, TopUp(Shortfall(s))) {
      ReaderStep(s, TopUp(Shortfall(s)));
      var s' := Next(s, TopUp(Shortfall(s)));
      assert |Flatten(s'.results) + s'.win + s'.Acc()| == s'.taken;
    }
  }

  /** No deadlock: a blocked read whose octets have all been written, even if they still sit in
      the sender's buffer, completes after at most a flush, the sends it takes, and a receive. */
  lemma BlockedReadCanComplete(s: Pair) returns (steps: seq<Step>)
    requires Reachable(s) && s.rx.Blocked?
    requires |Flatten(s.results)| + s.rx.n <= |Written(s.ops)|
    ensures 0 < |steps| <= 4 && SendsAndFlushes(steps[..|steps| - 1]) && steps[|steps| - 1].TopUp?
    ensures Exec(s, steps).Some?
    ensures var s' := Exec(s, steps).value;
            s'.rx.Ready? && |s'.results| == |s.results| + 1 && s'.asks == s.asks + [Fixed(s.rx.n)]
  {
    ReachableInv(s);
    var drain, s1 := Drain(s);
    assert |Flatten(s1.results) + s1.win + s1.Acc()| == s1.taken;
    var k := Shortfall(s1);
    assert Enabled(s1, TopUp(k)) by {
      DrainedHasAll(s1);
    }
    steps := drain + [TopUp(k)];
    assert steps[..|drain|] == drain;
  }

  lemma DrainedHasAll(s: Pair)
    requires Inv(s) && s.tx == Idle([])
    ensures |s.sent| == |Written(s.ops)|
  {
    RunPermutes(s.outCap, s.ops);
    assert s.sent + [] == WireOrder(Run(s.outCap, s.ops));
    assert |s.sent| == |multiset(s.sent)| == |multiset(Written(s.ops))|;
  }

  /** Sending all there is to send, reader unmoved. */
  lemma Drain(s: Pair) returns (steps: seq<Step>, s': Pair)
    requires Inv(s)
    ensures |steps| <= 3 && SendsAndFlushes(steps)
    ensures Exec(s, steps) == Some(s') && Inv(s') && s'.tx == Idle([])
    ensures SameReader(s, s')
  {
    steps, s' := FinishSending(s);
    if s'.tx.pending != [] {
      steps, s' := FlushOut(s, steps, s');
    }
  }

  lemma FinishSending(s: Pair) returns (steps: seq<Step>, s': Pair)
    requires Inv(s)
    ensures |steps| <= 1 && SendsAndFlushes(steps)
    ensures Exec(s, steps) == Some(s') && Inv(s') && s'.tx.Idle? && SameReader(s, s')
  {
    steps, s' := [], s;
    if s.tx.Sending? {
      steps, s' := Append(s, steps, s', SendSome(|s.tx.todo|));
    }
  }

  predicate SendsAndFlushes(steps: seq<Step>) {
    forall i :: 0 <= i < |steps| ==> steps[i].SendSome? || steps[i] == Call(Flush)
  }

  lemma FlushOut(s0: Pair, steps: seq<Step>, s: Pair) returns (steps': seq<Step>, s': Pair)
    requires Exec(s0, steps) == Some(s) && Inv(s) && SameReader(s0, s) && SendsAndFlushes(steps)
    requires s.tx.Idle? && s.tx.pending != []
    ensures |steps'| == |steps| + 2 && SendsAndFlushes(steps')
    ensures Exec(s0, steps') == Some(s') && Inv(s') && s'.tx == Idle([]) && SameReader(s0, s')
  {
    var pending := s.tx.pending;
    FlushedState(s);
    FlushWritesNothing(s.ops);
    steps', s' := Append(s0, steps, s, Call(Flush));
    steps', s' := Append(s0, steps', s', SendSome(|pending|));
  }

  lemma FlushedState(s: Pair)
    requires s.taken <= |s.sent| && s.tx.Idle? && s.tx.pending != []
    ensures var s1 := Next(s, Call(Flush));
            s1 == s.(ops := s.ops + [Flush], tx := Sending(s.tx.pending, [])) &&
            Enabled(s1, SendSome(|s.tx.pending|)) &&
            Next(s1, SendSome(|s.tx.pending|)) ==
            s.(ops := s.ops + [Flush], tx := Idle([]), sent := s.sent + s.tx.pending)
  {
    assert [] + s.tx.pending == s.tx.pending;
    assert s.tx.pending[..|s.tx.pending|] == s.tx.pending;
  }

  /** The sender has moved on, without a write. */
  ghost predicate SameReader(s: Pair, t: Pair) {
    t == s.(ops := t.ops, tx := t.tx, sent := t.sent) && Written(t.ops) == Written(s.ops)
  }

  lemma FlushWritesNothing(ops: seq<Op<byte>>)
    ensures Written(ops + [Flush]) == Written(ops)
  {
    assert (ops + [Flush])[..|ops|] == ops;
  }

  lemma Append(s0: Pair, steps: seq<Step>, s: Pair, step: Step) returns (steps': seq<Step>, s': Pair)
    requires Exec(s0, steps) == Some(s) && Inv(s) && Enabled(s, step)
    ensures steps' == steps + [step] && s' == Next(s, step)
    ensures Exec(s0, steps') == Some(s') && Inv(s')
  {
    steps', s' := steps + [step], Next(s, step);
    ExecSnoc(s0, steps, s, step);
    InvStep(s, step);
  }

  // ---- Strings ----

  /** The octets sent and not yet returned, as far as a reader between two reads can see. */
  function Ahead(s: Pair): seq<byte>
    requires s.taken <= |s.sent|
  {
    s.win + s.Wire()
  }

  predicate TerminatorSent(s: Pair)
    requires s.taken <= |s.sent|
  {
    FirstNul(Ahead(s)) < |Ahead(s)|
  }

  /** Room for the string and its terminator between the read index and the end of the buffer. */
  predicate StringFits(s: Pair)
    requires s.taken <= |s.sent|
  {
    s.cur.rd + FirstNul(Ahead(s)) + 1 <= s.inCap
  }

  /** When the terminator of the next string has been sent, some non-blocking receive makes the
      extraction sound exactly when the string fits behind the read index. */
  lemma ExtractableIff(s: Pair)
    requires Inv(s) && s.rx.Ready? && TerminatorSent(s)
    ensures (exists k :: Enabled(s, Receive(k)) && Enabled(Next(s, Receive(k)), Extract)) <==> StringFits(s)
  {
    var length := FirstNul(Ahead(s));
    forall k | Enabled(s, Receive(k))
      ensures Enabled(Next(s, Receive(k)), Extract) <==> length < |s.win| + k
    {
      NulInPrefix(Ahead(s), Next(s, Receive(k)).win);
    }
    if StringFits(s) {
      var k := if length < |s.win| then 0 else length + 1 - |s.win|;
      assert Enabled(s, Receive(k)) && Enabled(Next(s, Receive(k)), Extract);
    }
  }

  lemma NulInPrefix(s: seq<byte>, p: seq<byte>)
    requires p <= s && FirstNul(s) < |s|
    ensures FirstNul(p) < |p| <==> FirstNul(s) < |p|
    ensures FirstNul(p) < |p| ==> FirstNul(p) == FirstNul(s)
  {
    if FirstNul(s) < |p| {
      FirstNulUnique(p, FirstNul(s));
    }
    if FirstNul(p) < |p| {
      FirstNulUnique(s, FirstNul(p));
    }
  }

  /** `t` is a later state of the same read position. */
  ghost predicate SamePosition(s: Pair, t: Pair) {
    s.taken <= |s.sent| && t.taken <= |t.sent| && Ahead(s) <= Ahead(t) &&
    t.results == s.results && t.cur.rd == s.cur.rd && t.inCap == s.inCap && t.rx.Ready?
  }

  lemma SendExtendsAhead(s: Pair, k: nat)
    requires Enabled(s, SendSome(k))
    ensures Ahead(s) <= Ahead(Next(s, SendSome(k)))
  {
    var t := Next(s, SendSome(k));
    assert t.Wire() == s.Wire() + s.tx.todo[..k];
    assert Ahead(t) == Ahead(s) + s.tx.todo[..k];
  }

  lemma ReceiveKeepsAhead(s: Pair, k: nat)
    requires Enabled(s, Receive(k))
    ensures Ahead(s) == Ahead(Next(s, Receive(k)))
  {
    var t := Next(s, Receive(k));
    assert s.Wire() == s.Wire()[..k] + t.Wire();
    assert s.win + (s.Wire()[..k] + t.Wire()) == s.win + s.Wire()[..k] + t.Wire();
  }

  lemma PositionKept(s: Pair, mid: Pair, step: Step)
    requires SamePosition(s, mid) && Enabled(mid, step) && !step.Read? && !step.Extract?
    ensures SamePosition(s, Next(mid, step))
  {
    if step.SendSome? {
      SendExtendsAhead(mid, step.k);
    } else if step.Receive? {
      ReceiveKeepsAhead(mid, step.k);
    }
  }

  lemma NotExtractable(s: Pair, t: Pair)
    requires s.taken <= |s.sent| && TerminatorSent(s) && !StringFits(s)
    requires SamePosition(s, t) && ReaderInv(t)
    ensures !Enabled(t, Extract)
  {
    FirstNulExtends(Ahead(s), Ahead(t));
    NulInPrefix(Ahead(t), t.win);
  }

  /** And when it does not fit, no string extraction succeeds, whatever else happens on either
      side, until a read of a fixed number of octets starts the buffer over. */
  lemma {:induction false} StringStuck(s: Pair, steps: seq<Step>)
    requires Inv(s) && s.rx.Ready? && TerminatorSent(s) && !StringFits(s)
    requires Exec(s, steps).Some? && forall i :: 0 <= i < |steps| ==> !steps[i].Read?
    ensures SamePosition(s, Exec(s, steps).value)
    ensures !Enabled(Exec(s, steps).value, Extract)
  {
    InvHolds(s, steps);
    if steps != [] {
      var n := |steps| - 1;
      StringStuck(s, steps[..n]);
      PositionKept(s, Exec(s, steps[..n]).value, steps[n]);
    }
    NotExtractable(s, Exec(s, steps).value);
  }

  lemma FirstNulExtends(p: seq<byte>, s: seq<byte>)
    requires p <= s && FirstNul(p) < |p|
    ensures FirstNul(s) == FirstNul(p)
  {
    FirstNulUnique(s, FirstNul(p));
  }

  // ---- Typed round trip ----

  function Items(ops: seq<Op<byte>>): seq<seq<byte>> {
    if ops == [] then []
    else
      var op := ops[|ops| - 1];
      Items(ops[..|ops| - 1]) + if op.Write? then [op.item] else []
  }

  lemma {:induction false} WrittenIsFlattened(ops: seq<Op<byte>>)
    ensures Written(ops) == Flatten(Items(ops))
  {
    if ops != [] {
      var n := |ops| - 1;
      WrittenIsFlattened(ops[..n]);
      if ops[n].Write? {
        FlattenSnoc(Items(ops[..n]), ops[n].item);
      } else {
        assert Items(ops) == Items(ops[..n]);
      }
    }
  }

  /** The reads completed so far have returned the encodings of the first values written. */
  lemma ResultsAreEncodings(from: Host, vs: seq<Value>, s: Pair)
    requires AllSendable(vs)
    requires Reachable(s) && NeverOvertakes(s.outCap, s.ops)
    requires Items(s.ops) == EncodeEach(from, vs)
    requires s.asks <= Asks(Kinds(vs))
    ensures |s.results| == |s.asks| <= |vs| && s.results == EncodeEach(from, vs[..|s.asks|])
  {
    ReadsStraightFromStream(s);
    SentIsWritten(s);
    WrittenIsFlattened(s.ops);
    SplitExtends(s.asks, s.sent, s.Unsent());
    FirstChunks(from, vs, |s.asks|);
    assert s.asks == Asks(Kinds(vs))[..|s.asks|];
    ReachableInv(s);
  }

  /** The first `m` types, asked of the encoding of a longer list. */
  lemma FirstChunks(from: Host, vs: seq<Value>, m: nat)
    requires AllSendable(vs) && m <= |vs|
    ensures var r := SplitAll(Asks(Kinds(vs))[..m], Flatten(EncodeEach(from, vs)));
            r.Some? && r.value.chunks == EncodeEach(from, vs[..m])
  {
    var front, rest := EncodeEach(from, vs[..m]), EncodeEach(from, vs)[m..];
    assert EncodeEach(from, vs) == front + rest;
    FlattenAppend(front, rest);
    ListRoundTrip(from, from, vs[..m], Flatten(rest));
    assert Asks(Kinds(vs))[..m] == Asks(Kinds(vs[..m]));
  }

  /** End to end.  One host writes a heterogeneous list of values with `<<`, flushing whenever it
      likes; another reads the same types with `>>`.  At every moment the values read so far are
      the first ones written, if no oversized value is written while octets are pending. */
  lemma TypedRoundTrip(from: Host, to: Host, vs: seq<Value>, s: Pair)
    requires AllSendable(vs)
    requires Reachable(s) && NeverOvertakes(s.outCap, s.ops)
    requires Items(s.ops) == EncodeEach(from, vs)
    requires s.asks <= Asks(Kinds(vs))
    ensures |s.results| <= |vs| && AllConform(Kinds(vs[..|s.results|]), s.results)
    ensures DecodeEach(to, Kinds(vs[..|s.results|]), s.results) == vs[..|s.results|]
  {
    ResultsAreEncodings(from, vs, s);
    ListRoundTrip(from, to, vs[..|s.results|], []);
  }

  lemma SentIsWritten(s: Pair)
    requires Reachable(s) && NeverOvertakes(s.outCap, s.ops)
    ensures s.sent + s.Unsent() == Written(s.ops)
  {
    ReachableInv(s);
    SentOrder(s);
    FifoUnlessOvertaking(s.outCap, s.ops);
  }

  /** In particular the whole list arrives once all types have been read. */
  lemma WholeListArrives(from: Host, to: Host, vs: seq<Value>, s: Pair)
    requires AllSendable(vs)
    requires Reachable(s) && NeverOvertakes(s.outCap, s.ops)
    requires Items(s.ops) == EncodeEach(from, vs) && s.asks == Asks(Kinds(vs))
    ensures AllConform(Kinds(vs), s.results) && DecodeEach(to, Kinds(vs), s.results) == vs
  {
    ReachableInv(s);
    TypedRoundTrip(from, to, vs, s);
    assert vs[..|s.results|] == vs;
  }
}
