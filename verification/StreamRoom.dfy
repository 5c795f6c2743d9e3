/** When a list of values is always read to its end, however it is received.

    `StreamCompletion` says which lists some schedule of receives lets through.  A schedule that
    receives more than it must can fill the buffer behind a value of fixed width that then does
    not start it over, and leave no room for a string that would have fitted. */
module StreamRoom {
  import opened Bytes
  import opened ByteStream
  import opened Codec
  import opened InputWindow
  import opened Options
  import opened OutputOrder
  import opened StreamMachine
  import opened StreamTheorems
  import opened StreamCompletion

  // ---- The condition ----

  /** Where the `m`-th of a list of values ends in the stream. */
  function EndOf(sizes: seq<nat>, m: nat): nat
    requires m <= |sizes|
  {
    if m == 0 then 0 else EndOf(sizes, m - 1) + sizes[m - 1]
  }

  /** The input buffer can start over in front of the `i`-th value. */
  predicate StartsBuffer(asks: seq<Ask>, i: nat)
    requires i <= |asks|
  {
    i == 0 || asks[i - 1].Fixed?
  }

  /** One filling of a buffer of `cap` octets, begun in front of the `i`-th value, can serve all reads
      of fixed width in front of the `j`-th: none of them uses up the window. */
  predicate Served(cap: nat, asks: seq<Ask>, sizes: seq<nat>, i: nat, j: nat)
    requires i <= j <= |asks| == |sizes|
  {
    forall m {:trigger asks[m]} :: i <= m < j && asks[m].Fixed? ==> EndOf(sizes, m + 1) < EndOf(sizes, i) + cap
  }

  /** Wherever the buffer may have been started over, a string ends inside it. */
  predicate AlwaysRoom(cap: nat, vs: seq<Value>) {
    var asks, sizes := Asks(Kinds(vs)), Sizes(vs);
    forall i, j ::
      0 <= i <= j < |vs| && vs[j].Text? && StartsBuffer(asks, i) && Served(cap, asks, sizes, i, j) ==>
        EndOf(sizes, j + 1) <= EndOf(sizes, i) + cap
  }

  lemma {:induction false} EndOfPrefix(sizes: seq<nat>, longer: seq<nat>, m: nat)
    requires m <= |sizes| && sizes <= longer
    ensures EndOf(sizes, m) == EndOf(longer, m)
    decreases m
  {
    if m > 0 {
      EndOfPrefix(sizes, longer, m - 1);
    }
  }

  lemma {:induction false} EndOfGrows(sizes: seq<nat>, m: nat, n: nat)
    requires m <= n <= |sizes|
    ensures EndOf(sizes, m) <= EndOf(sizes, n)
    decreases n
  {
    if m < n {
      EndOfGrows(sizes, m, n - 1);
    }
  }

  // ---- Where the buffer was last started over ----

  /** The buffer began in front of the `i`-th read, and no read of fixed width has started it over
      since. */
  ghost predicate BeganAt(s: Pair, i: nat) {
    i <= |s.asks| == |s.results| && StartsBuffer(s.asks, i) &&
    var sizes := Lengths(s.results);
    s.cur.rd + EndOf(sizes, i) == EndOf(sizes, |sizes|) && Served(s.inCap, s.asks, sizes, i, |s.asks|)
  }

  lemma EndOfSnoc(sizes: seq<nat>, n: nat, m: nat)
    requires m <= |sizes|
    ensures EndOf(sizes + [n], m) == EndOf(sizes, m)
    ensures m == |sizes| ==> EndOf(sizes + [n], m + 1) == EndOf(sizes, m) + n
  {
    EndOfPrefix(sizes, sizes + [n], m);
  }

  /** A read that starts the buffer over ... */
  lemma StartedOver(s: Pair, ask: Ask, c: seq<byte>, win: seq<byte>)
    requires |s.asks| == |s.results| && ask.Fixed?
    ensures BeganAt(Return(s, ask, c, win, Cursor(0, 0)), |s.asks| + 1)
  {
  }

  /** ... and one that does not. */
  lemma CarriedOn(s: Pair, i: nat, ask: Ask, c: seq<byte>, win: seq<byte>, cur: Cursor)
    requires BeganAt(s, i) && cur.rd == s.cur.rd + |c| && (ask.Fixed? ==> cur.rd < s.inCap)
    ensures BeganAt(Return(s, ask, c, win, cur), i)
  {
    var sizes := Lengths(s.results);
    assert Lengths(s.results + [c]) == sizes + [|c|];
    EndOfSnoc(sizes, |c|, i);
    EndOfSnoc(sizes, |c|, |sizes|);
    ServedSnoc(s.inCap, s.asks, sizes, i, ask, |c|);
  }

  lemma ServedSnoc(cap: nat, asks: seq<Ask>, sizes: seq<nat>, i: nat, ask: Ask, n: nat)
    requires i <= |asks| == |sizes| && Served(cap, asks, sizes, i, |asks|)
    requires ask.Fixed? ==> EndOf(sizes, |sizes|) + n < EndOf(sizes, i) + cap
    ensures Served(cap, asks + [ask], sizes + [n], i, |asks| + 1)
  {
    EndOfSnoc(sizes, n, i);
    forall m | i <= m <= |asks| && (asks + [ask])[m].Fixed?
      ensures EndOf(sizes + [n], m + 1) < EndOf(sizes + [n], i) + cap
    {
      if m < |asks| {
        assert asks[m].Fixed?;
        EndOfSnoc(sizes, n, m + 1);
      } else {
        EndOfSnoc(sizes, n, |sizes|);
      }
    }
  }

  lemma StepKeepsBeginning(s: Pair, i: nat, step: Step) returns (i': nat)
    requires ReaderInv(s) && BeganAt(s, i) && Enabled(s, step)
    ensures BeganAt(Next(s, step), i')
  {
    i' := i;
    match step
    case Read(n) => if n <= |s.win| { i' := ServeKeepsBeginning(s, i, n); }
    case TopUp(k) => i' := TopUpKeepsBeginning(s, i, k);
    case Extract =>
      var k := FirstNul(s.win) + 1;
      CarriedOn(s, i, Terminated, s.win[..k], s.win[k..], Cursor(s.cur.rd + k, s.cur.size));
    case _ =>
  }

  lemma TopUpKeepsBeginning(s: Pair, i: nat, k: nat) returns (i': nat)
    requires ReaderInv(s) && BeganAt(s, i) && Enabled(s, TopUp(k))
    ensures BeganAt(Next(s, TopUp(k)), i')
  {
    i' := i;
    var acc := s.rx.acc + s.Wire()[..k];
    if |s.win| + |acc| == s.rx.n {
      StartedOver(s.(taken := s.taken + k), Fixed(s.rx.n), s.win + acc, []);
      i' := |s.asks| + 1;
    }
  }

  lemma ServeKeepsBeginning(s: Pair, i: nat, n: nat) returns (i': nat)
    requires ReaderInv(s) && BeganAt(s, i) && s.rx.Ready? && n <= |s.win|
    ensures BeganAt(Next(s, Read(n)), i')
  {
    if s.cur.rd + n >= s.cur.size {
      StartedOver(s, Fixed(n), s.win[..n], s.win[n..]);
      i' := |s.asks| + 1;
    } else {
      CarriedOn(s, i, Fixed(n), s.win[..n], s.win[n..], Serve(s.cur, n));
      i' := i;
    }
  }

  lemma {:induction false} BeganSomewhere(s: Pair, steps: seq<Step>) returns (i: nat)
    requires Inv(s) && BeganAt(s, 0) && Exec(s, steps).Some?
    ensures BeganAt(Exec(s, steps).value, i)
  {
    i := 0;
    if steps != [] {
      var n := |steps| - 1;
      i := BeganSomewhere(s, steps[..n]);
      InvHolds(s, steps[..n]);
      i := StepKeepsBeginning(Exec(s, steps[..n]).value, i, steps[n]);
    }
  }

  lemma ReachableBegan(s: Pair) returns (i: nat)
    requires Reachable(s)
    ensures BeganAt(s, i)
  {
    var steps :| Exec(Init(s.outCap, s.inCap), steps) == Some(s);
    i := BeganSomewhere(Init(s.outCap, s.inCap), steps);
  }

  // ---- Readers of a list ----

  /** The list has been written without overtaking, and what has been read of it are its types, in order. */
  ghost predicate OnList(from: Host, vs: seq<Value>, s: Pair)
    requires AllSendable(vs)
  {
    Reachable(s) && NeverOvertakes(s.outCap, s.ops) && Items(s.ops) == EncodeEach(from, vs) &&
    s.asks <= Asks(Kinds(vs))
  }

  /** And a read that is waiting is one for the next type. */
  ghost predicate Reads(from: Host, vs: seq<Value>, s: Pair)
    requires AllSendable(vs)
  {
    OnList(from, vs, s) &&
    (s.rx.Blocked? ==> |s.asks| < |vs| && vs[|s.asks|].Kind().Ask() == Fixed(s.rx.n))
  }

  /** It comes to a string now. */
  predicate StringNext(vs: seq<Value>, s: Pair) {
    s.rx.Ready? && |s.asks| < |vs| && vs[|s.asks|].Text?
  }

  /** The string has room between the read index and the end of the buffer. */
  predicate RoomFor(vs: seq<Value>, s: Pair)
    requires |s.asks| < |vs|
  {
    s.cur.rd + Size(vs[|s.asks|]) <= s.inCap
  }

  lemma SizesOfResults(from: Host, vs: seq<Value>, s: Pair)
    requires AllSendable(vs) && Reads(from, vs, s)
    ensures |s.results| == |s.asks| <= |vs| && Lengths(s.results) <= Sizes(vs)
  {
    ResultsAreEncodings(from, vs, s);
    SizesOfEncoding(from, vs[..|s.asks|]);
    assert Sizes(vs[..|s.asks|]) == Sizes(vs)[..|s.asks|];
  }

  lemma ServedOfLonger(cap: nat, asks: seq<Ask>, sizes: seq<nat>, asks': seq<Ask>, sizes': seq<nat>, i: nat)
    requires i <= |asks| == |sizes| && |asks'| == |sizes'| && asks <= asks' && sizes <= sizes'
    requires StartsBuffer(asks, i) && Served(cap, asks, sizes, i, |asks|)
    ensures StartsBuffer(asks', i) && Served(cap, asks', sizes', i, |asks|)
  {
    forall m | i <= m < |asks| && asks'[m].Fixed?
      ensures EndOf(sizes', m + 1) < EndOf(sizes', i) + cap
    {
      assert asks[m].Fixed?;
      EndOfPrefix(sizes, sizes', m + 1);
      EndOfPrefix(sizes, sizes', i);
    }
  }

  /** Under the condition there is room whenever a string is to be read. */
  lemma RoomFromCondition(from: Host, vs: seq<Value>, s: Pair)
    requires AllSendable(vs) && Reads(from, vs, s) && StringNext(vs, s) && AlwaysRoom(s.inCap, vs)
    ensures RoomFor(vs, s)
  {
    var i := ReachableBegan(s);
    var sizes := Lengths(s.results);
    SizesOfResults(from, vs, s);
    ServedOfLonger(s.inCap, s.asks, sizes, Asks(Kinds(vs)), Sizes(vs), i);
    EndOfPrefix(sizes, Sizes(vs), i);
    EndOfPrefix(sizes, Sizes(vs), |sizes|);
    assert EndOf(Sizes(vs), |sizes| + 1) == EndOf(Sizes(vs), |sizes|) + Size(vs[|sizes|]);
  }

  // ---- With room, the list can be read on from everywhere ----

  lemma {:induction false} ExecConcat(s: Pair, a: seq<Step>, b: seq<Step>)
    requires Exec(s, a).Some? && Exec(Exec(s, a).value, b).Some?
    ensures Exec(s, a + b) == Exec(Exec(s, a).value, b)
  {
    if b == [] {
      assert a + b == a;
    } else {
      var n := |b| - 1;
      ExecConcat(s, a, b[..n]);
      assert (a + b)[..|a + b| - 1] == a + b[..n] && (a + b)[|a + b| - 1] == b[n];
    }
  }

  lemma ExecOne(s: Pair, step: Step)
    requires Enabled(s, step)
    ensures Exec(s, [step]) == Some(Next(s, step))
  {
    assert [] + [step] == [step];
    ExecSnoc(s, [], s, step);
  }

  /** All of the list is on the wire. */
  ghost predicate AllSent(from: Host, vs: seq<Value>, s: Pair)
    requires AllSendable(vs)
  {
    Settled(s) && Reads(from, vs, s)
  }

  /** What has been sent and not returned begins with the next value. */
  lemma NextIsSent(from: Host, vs: seq<Value>, s: Pair)
    requires AllSendable(vs) && AllSent(from, vs, s) && |s.asks| < |vs|
    ensures Inv(s) && vs[|s.asks|] in vs && Flatten(s.results) <= s.sent
    ensures Encode(from, vs[|s.asks|]) <= s.sent[|Flatten(s.results)|..]
  {
    ReachableInv(s);
    ResultsAreEncodings(from, vs, s);
    SentIsWritten(s);
    WrittenIsFlattened(s.ops);
    assert s.sent + [] == s.sent;
    NextChunk(from, vs, |s.asks|);
    assert vs[|s.asks|] in vs;
  }

  lemma AsksNext(vs: seq<Value>, asks: seq<Ask>)
    requires asks <= Asks(Kinds(vs)) && |asks| < |vs|
    ensures asks + [vs[|asks|].Kind().Ask()] <= Asks(Kinds(vs))
  {
  }

  /** A blocked read completes. */
  lemma Unblock(from: Host, vs: seq<Value>, s: Pair) returns (step: Step)
    requires AllSendable(vs) && AllSent(from, vs, s) && s.rx.Blocked?
    ensures Enabled(s, step) && AllSent(from, vs, Next(s, step)) && |Next(s, step).asks| == |s.asks| + 1
  {
    var v := vs[|s.asks|];
    NextIsSent(from, vs, s);
    ValueRoundTrip(from, from, v);
    BlockedReadCompletesIff(s);
    step := TopUp(Shortfall(s));
    ReachableStep(s, step);
    AsksNext(vs, s.asks);
  }

  /** A read of fixed width begins. */
  lemma BeginRead(from: Host, vs: seq<Value>, s: Pair) returns (step: Step)
    requires AllSendable(vs) && AllSent(from, vs, s) && s.rx.Ready? && |s.asks| < |vs| && !vs[|s.asks|].Text?
    ensures Enabled(s, step) && AllSent(from, vs, Next(s, step))
    ensures var t := Next(s, step); (t.rx.Blocked? && t.asks == s.asks) || |t.asks| == |s.asks| + 1
  {
    ReachableInv(s);
    step := Read(vs[|s.asks|].Kind().Ask().n);
    ReachableStep(s, step);
    AsksNext(vs, s.asks);
  }

  /** What a reader between two reads sees ahead. */
  lemma StringAhead(from: Host, vs: seq<Value>, s: Pair)
    requires AllSendable(vs) && AllSent(from, vs, s) && StringNext(vs, s)
    ensures Inv(s) && TerminatorSent(s) && FirstNul(Ahead(s)) + 1 == Size(vs[|s.asks|])
  {
    var c := Encode(from, vs[|s.asks|]);
    NextIsSent(from, vs, s);
    ValueRoundTrip(from, from, vs[|s.asks|]);
    AheadIsRest(s);
    FirstNulExtends(c, Ahead(s));
  }

  lemma AheadIsRest(s: Pair)
    requires ReaderInv(s) && s.rx.Ready? && Flatten(s.results) <= s.sent
    ensures Ahead(s) == s.sent[|Flatten(s.results)|..]
  {
    var done := Flatten(s.results);
    assert done + s.win + [] == done + s.win;
    assert s.sent == done + s.win + s.Wire() == done + (s.win + s.Wire());
  }

  /** A string with room is received as far as necessary, and extracted. */
  lemma TakeString(from: Host, vs: seq<Value>, s: Pair) returns (k: nat)
    requires AllSendable(vs) && AllSent(from, vs, s) && StringNext(vs, s) && RoomFor(vs, s)
    ensures Enabled(s, Receive(k)) && Enabled(Next(s, Receive(k)), Extract)
    ensures var t := Next(Next(s, Receive(k)), Extract); AllSent(from, vs, t) && |t.asks| == |s.asks| + 1
  {
    StringAhead(from, vs, s);
    ExtractableIff(s);
    k :| Enabled(s, Receive(k)) && Enabled(Next(s, Receive(k)), Extract);
    ReceiveKeepsList(from, vs, s, k);
    ExtractKeepsList(from, vs, Next(s, Receive(k)));
  }

  lemma ReceiveKeepsList(from: Host, vs: seq<Value>, s: Pair, k: nat)
    requires AllSendable(vs) && AllSent(from, vs, s) && Enabled(s, Receive(k))
    ensures AllSent(from, vs, Next(s, Receive(k)))
    ensures Next(s, Receive(k)).asks == s.asks && Next(s, Receive(k)).rx.Ready?
  {
    ReachableStep(s, Receive(k));
  }

  lemma ExtractKeepsList(from: Host, vs: seq<Value>, s: Pair)
    requires AllSendable(vs) && AllSent(from, vs, s) && StringNext(vs, s) && Enabled(s, Extract)
    ensures AllSent(from, vs, Next(s, Extract)) && |Next(s, Extract).asks| == |s.asks| + 1
  {
    ReachableStep(s, Extract);
    AsksNext(vs, s.asks);
  }

  /** The next values are read, one after the other. */
  lemma {:induction false} ReadOn(from: Host, vs: seq<Value>, s: Pair) returns (steps: seq<Step>)
    requires AllSendable(vs) && AllSent(from, vs, s) && AlwaysRoom(s.inCap, vs)
    ensures Exec(s, steps).Some? && AllSent(from, vs, Exec(s, steps).value)
    ensures Exec(s, steps).value.asks == Asks(Kinds(vs))
    decreases |vs| - |s.asks|, if s.rx.Ready? then 1 else 0
  {
    if |s.asks| == |vs| {
      steps := [];
      return;
    }
    var first := OneRead(from, vs, s);
    CapacitiesOfRun(s, first);
    var t := Exec(s, first).value;
    steps := ReadOn(from, vs, t);
    ExecConcat(s, first, steps);
    steps := first + steps;
  }

  lemma {:induction false} CapacitiesOfRun(s: Pair, steps: seq<Step>)
    requires Exec(s, steps).Some?
    ensures Exec(s, steps).value.outCap == s.outCap && Exec(s, steps).value.inCap == s.inCap
  {
    if steps != [] {
      var n := |steps| - 1;
      CapacitiesOfRun(s, steps[..n]);
      CapacitiesKept(Exec(s, steps[..n]).value, steps[n]);
    }
  }

  lemma OneRead(from: Host, vs: seq<Value>, s: Pair) returns (steps: seq<Step>)
    requires AllSendable(vs) && AllSent(from, vs, s) && AlwaysRoom(s.inCap, vs) && |s.asks| < |vs|
    ensures Exec(s, steps).Some? && AllSent(from, vs, Exec(s, steps).value)
    ensures var t := Exec(s, steps).value;
            |t.asks| == |s.asks| + 1 || (s.rx.Ready? && t.rx.Blocked? && t.asks == s.asks)
  {
    if StringNext(vs, s) {
      RoomFromCondition(from, vs, s);
      var k := TakeString(from, vs, s);
      ExecOne(s, Receive(k));
      ExecSnoc(s, [Receive(k)], Next(s, Receive(k)), Extract);
      steps := [Receive(k)] + [Extract];
    } else {
      var step;
      if s.rx.Blocked? {
        step := Unblock(from, vs, s);
      } else {
        step := BeginRead(from, vs, s);
      }
      ExecOne(s, step);
      steps := [step];
    }
  }

  lemma {:induction false} SendsAndFlushesKeep(s: Pair, steps: seq<Step>)
    requires Reachable(s) && NeverOvertakes(s.outCap, s.ops)
    requires SendsAndFlushes(steps) && Exec(s, steps).Some?
    ensures var t := Exec(s, steps).value;
            Reachable(t) && NeverOvertakes(t.outCap, t.ops) && Items(t.ops) == Items(s.ops)
  {
    if steps != [] {
      var n := |steps| - 1;
      SendsAndFlushesKeep(s, steps[..n]);
      var mid := Exec(s, steps[..n]).value;
      ReachableStep(mid, steps[n]);
      NeverOvertakesSnoc(mid.outCap, mid.ops, Flush);
      ItemsSnoc(mid.ops, Flush);
    }
  }

  /** No dead end: whatever has happened so far, once the list is written some continuation reads
      all of it. */
  lemma CanComplete(from: Host, to: Host, vs: seq<Value>, s: Pair) returns (steps: seq<Step>)
    requires AllSendable(vs) && Reads(from, vs, s) && AlwaysRoom(s.inCap, vs)
    ensures Exec(s, steps).Some? && ReadToTheEnd(from, s.outCap, s.inCap, vs, Exec(s, steps).value)
    ensures var results := Exec(s, steps).value.results;
            AllConform(Kinds(vs), results) && DecodeEach(to, Kinds(vs), results) == vs
  {
    ReachableInv(s);
    var drain, t := Drain(s);
    SendsAndFlushesKeep(s, drain);
    steps := ReadOn(from, vs, t);
    ExecConcat(s, drain, steps);
    WholeListArrives(from, to, vs, Exec(t, steps).value);
    steps := drain + steps;
    CapacitiesOfRun(s, steps);
  }

  // ---- Without room there is a dead end ----

  /** A string is next and has no room. */
  ghost predicate Cramped(from: Host, vs: seq<Value>, s: Pair)
    requires AllSendable(vs)
  {
    OnList(from, vs, s) && StringNext(vs, s) && !RoomFor(vs, s)
  }

  lemma StepExtends(s: Pair, step: Step)
    requires Enabled(s, step)
    ensures var t := Next(s, step);
            s.asks <= t.asks && Items(s.ops) <= Items(t.ops) &&
            (NeverOvertakes(t.outCap, t.ops) ==> NeverOvertakes(s.outCap, s.ops))
  {
    if step.Call? {
      ItemsSnoc(s.ops, step.op);
      if NeverOvertakes(s.outCap, s.ops + [step.op]) {
        forall j | 0 <= j < |s.ops| && s.ops[j].Write?
          ensures !Overtaking(s.outCap, Run(s.outCap, s.ops[..j]).pending, s.ops[j].item)
        {
          assert (s.ops + [step.op])[j] == s.ops[j] && (s.ops + [step.op])[..j] == s.ops[..j];
        }
      }
    }
  }

  lemma {:induction false} RunExtends(s: Pair, steps: seq<Step>)
    requires Exec(s, steps).Some?
    ensures Items(s.ops) <= Items(Exec(s, steps).value.ops)
  {
    if steps != [] {
      var n := |steps| - 1;
      RunExtends(s, steps[..n]);
      StepExtends(Exec(s, steps[..n]).value, steps[n]);
    }
  }

  /** No step makes room that leaves the reader with its list. */
  lemma CrampedStep(from: Host, vs: seq<Value>, s: Pair, step: Step)
    requires AllSendable(vs) && OnList(from, vs, s) && Enabled(s, step) && OnList(from, vs, Next(s, step))
    requires |s.asks| < |vs| && vs[|s.asks|].Text? && !RoomFor(vs, s)
    ensures Next(s, step).asks == s.asks && Next(s, step).cur.rd == s.cur.rd
  {
    var t := Next(s, step);
    if t.asks != s.asks {
      assert t.asks[|s.asks|] == Asks(Kinds(vs))[|s.asks|] == Terminated;
      SizesOfResults(from, vs, t);
      assert Lengths(t.results)[|s.asks|] == Sizes(vs)[|s.asks|];
      ReachableInv(s);
      assert false;
    }
  }

  /** Whatever else happens on either side, the reader gets no further with the list. */
  lemma {:induction false} StaysCramped(from: Host, vs: seq<Value>, s: Pair, steps: seq<Step>)
    requires AllSendable(vs) && Cramped(from, vs, s) && Exec(s, steps).Some?
    requires OnList(from, vs, Exec(s, steps).value)
    ensures var t := Exec(s, steps).value;
            t.asks == s.asks && t.cur.rd == s.cur.rd && t.inCap == s.inCap
  {
    CapacitiesOfRun(s, steps);
    if steps != [] {
      var n := |steps| - 1;
      var mid := Exec(s, steps[..n]).value;
      RunReachable(s, steps[..n]);
      RunExtends(s, steps[..n]);
      StepExtends(mid, steps[n]);
      StaysCramped(from, vs, s, steps[..n]);
      CrampedStep(from, vs, mid, steps[n]);
    }
  }

  lemma {:induction false} RunReachable(s: Pair, steps: seq<Step>)
    requires Reachable(s) && Exec(s, steps).Some?
    ensures Reachable(Exec(s, steps).value)
  {
    if steps != [] {
      var n := |steps| - 1;
      RunReachable(s, steps[..n]);
      ReachableStep(Exec(s, steps[..n]).value, steps[n]);
    }
  }

  // ---- How it comes about ----

  lemma {:induction false} EndOfEncoded(from: Host, vs: seq<Value>, m: nat)
    requires AllSendable(vs) && m <= |vs|
    ensures EndOf(Sizes(vs), m) == |Flatten(EncodeEach(from, vs[..m]))|
    decreases m
  {
    if m > 0 {
      EndOfEncoded(from, vs, m - 1);
      NextChunk(from, vs, m - 1);
      OneMoreValue(from, vs, m - 1);
    }
  }

  lemma AsksOfPrefix(vs: seq<Value>, m: nat)
    requires m <= |vs|
    ensures Asks(Kinds(vs[..m])) == Asks(Kinds(vs))[..m]
  {
  }

  /** Reading as late as possible, up to the `i`-th value or to a string without room. */
  lemma {:induction false} ReadUpTo(from: Host, vs: seq<Value>, m: nat, i: nat, s: Pair) returns (t: Pair)
    requires AllSendable(vs) && m <= i <= |vs| && HasRead(from, vs, m, s)
    ensures t.outCap == s.outCap && t.inCap == s.inCap
    ensures HasRead(from, vs, i, t) || Cramped(from, vs, t)
    decreases i - m
  {
    t := s;
    if m < i {
      OneMoreValue(from, vs, m);
      if StringTail(vs[..m + 1]) <= s.inCap {
        t := ReadValue(from, vs, m, s);
        t := ReadUpTo(from, vs, m + 1, i, t);
      } else {
        AsksOfPrefix(vs, m);
      }
    }
  }

  /** What the `m`-th read of a list takes lies in the stream where the sizes say. */
  ghost predicate ChunkAt(all: seq<byte>, asks: seq<Ask>, sizes: seq<nat>, m: nat)
    requires m < |asks| == |sizes|
  {
    var begin := EndOf(sizes, m);
    begin + sizes[m] <= |all| && Conforms(asks[m], all[begin..begin + sizes[m]])
  }

  ghost predicate Layout(all: seq<byte>, asks: seq<Ask>, sizes: seq<nat>) {
    |asks| == |sizes| &&
    forall m {:trigger ChunkAt(all, asks, sizes, m)} :: 0 <= m < |sizes| ==> ChunkAt(all, asks, sizes, m)
  }

  lemma LayoutOfList(from: Host, vs: seq<Value>)
    requires AllSendable(vs)
    ensures Layout(Flatten(EncodeEach(from, vs)), Asks(Kinds(vs)), Sizes(vs))
    ensures EndOf(Sizes(vs), |vs|) == |Flatten(EncodeEach(from, vs))|
  {
    var all, asks, sizes := Flatten(EncodeEach(from, vs)), Asks(Kinds(vs)), Sizes(vs);
    forall m | 0 <= m < |sizes|
      ensures ChunkAt(all, asks, sizes, m)
    {
      ValueInStream(from, vs, m);
    }
    EndOfEncoded(from, vs, |vs|);
    assert vs[..|vs|] == vs;
  }

  lemma ValueInStream(from: Host, vs: seq<Value>, m: nat)
    requires AllSendable(vs) && m < |vs|
    ensures ChunkAt(Flatten(EncodeEach(from, vs)), Asks(Kinds(vs)), Sizes(vs), m)
  {
    EncodedConforms(from, vs, m);
    NextChunk(from, vs, m);
    EndOfEncoded(from, vs, m);
  }

  lemma EncodedConforms(from: Host, vs: seq<Value>, m: nat)
    requires AllSendable(vs) && m < |vs|
    ensures vs[m].InRange() && |Encode(from, vs[m])| == Size(vs[m])
    ensures Conforms(vs[m].Kind().Ask(), Encode(from, vs[m]))
  {
    assert vs[m] in vs;
    ValueRoundTrip(from, from, vs[m]);
  }

  /** The buffer has been filled in front of the `i`-th value, and the reader is at the `m`-th. */
  ghost predicate HasFilled(asks: seq<Ask>, sizes: seq<nat>, i: nat, m: nat, s: Pair)
    requires i <= m <= |asks| == |sizes|
  {
    s.rx.Ready? && s.taken == EndOf(sizes, i) + s.inCap <= |s.sent| && s.asks == asks[..m] &&
    s.cur.size == s.inCap && EndOf(sizes, i) + s.cur.rd == EndOf(sizes, m) <= s.taken &&
    s.win == s.sent[EndOf(sizes, m)..s.taken]
  }

  lemma ServedOne(asks: seq<Ask>, sizes: seq<nat>, i: nat, m: nat, s: Pair)
    requires i <= m < |asks| == |sizes| && HasFilled(asks, sizes, i, m, s) && sizes[m] <= |s.win|
    ensures var n := sizes[m];
            HasFilled(asks, sizes, i, m + 1,
                      Return(s, asks[m], s.win[..n], s.win[n..], Cursor(s.cur.rd + n, s.cur.size)))
  {
    assert asks[..m] + [asks[m]] == asks[..m + 1];
  }

  /** The next value is served from the window. */
  lemma ServeNext(asks: seq<Ask>, sizes: seq<nat>, i: nat, m: nat, s: Pair) returns (step: Step)
    requires i <= m < |asks| == |sizes| && HasFilled(asks, sizes, i, m, s)
    requires if asks[m].Fixed? then sizes[m] < |s.win| else sizes[m] <= |s.win|
    requires Conforms(asks[m], s.win[..sizes[m]])
    ensures Enabled(s, step) && HasFilled(asks, sizes, i, m + 1, Next(s, step)) && SameSender(s, Next(s, step))
  {
    ServedOne(asks, sizes, i, m, s);
    if asks[m].Fixed? {
      step := Read(sizes[m]);
    } else {
      FirstNulExtends(s.win[..sizes[m]], s.win);
      step := Extract;
    }
  }

  predicate SameSender(s: Pair, t: Pair) {
    t.ops == s.ops && t.tx == s.tx && t.sent == s.sent && t.outCap == s.outCap && t.inCap == s.inCap
  }

  /** A string is next that ends outside the buffer. */
  predicate AtLongString(asks: seq<Ask>, sizes: seq<nat>, s: Pair)
    requires |asks| == |sizes|
  {
    s.rx.Ready? && s.asks <= asks && |s.asks| < |asks| && asks[|s.asks|].Terminated? &&
    s.cur.rd + sizes[|s.asks|] > s.inCap
  }

  /** The reader is at the `m`-th value of a filling that does not hold the `j`-th, a string. */
  ghost predicate LongStringAhead(asks: seq<Ask>, sizes: seq<nat>, i: nat, m: nat, j: nat, s: Pair)
    requires i <= m <= j < |asks| == |sizes|
  {
    Layout(s.sent, asks, sizes) && HasFilled(asks, sizes, i, m, s) && Served(s.inCap, asks, sizes, i, j) &&
    asks[j].Terminated? && EndOf(sizes, j + 1) > EndOf(sizes, i) + s.inCap
  }

  lemma {:induction false} ServeUpTo(asks: seq<Ask>, sizes: seq<nat>, i: nat, m: nat, j: nat, s: Pair) returns (t: Pair)
    requires i <= m <= j < |asks| == |sizes|
    requires Reachable(s) && LongStringAhead(asks, sizes, i, m, j, s)
    ensures Reachable(t) && SameSender(s, t) && AtLongString(asks, sizes, t)
    decreases j - m
  {
    var stopped;
    t, stopped := ServeOrStop(asks, sizes, i, m, j, s);
    if !stopped {
      t := ServeUpTo(asks, sizes, i, m + 1, j, t);
    }
  }

  lemma ServeOrStop(asks: seq<Ask>, sizes: seq<nat>, i: nat, m: nat, j: nat, s: Pair)
    returns (t: Pair, stopped: bool)
    requires i <= m <= j < |asks| == |sizes|
    requires Reachable(s) && LongStringAhead(asks, sizes, i, m, j, s)
    ensures Reachable(t) && SameSender(s, t)
    ensures if stopped then AtLongString(asks, sizes, t)
            else m < j && LongStringAhead(asks, sizes, i, m + 1, j, t)
  {
    WhereNextEnds(asks, sizes, i, m, j, s);
    if asks[m].Terminated? && sizes[m] > |s.win| {
      return s, true;
    }
    ChunkInWindow(asks, sizes, i, m, s);
    var step := ServeNext(asks, sizes, i, m, s);
    ReachableStep(s, step);
    t, stopped := Next(s, step), false;
  }

  lemma WhereNextEnds(asks: seq<Ask>, sizes: seq<nat>, i: nat, m: nat, j: nat, s: Pair)
    requires i <= m <= j < |asks| == |sizes| && LongStringAhead(asks, sizes, i, m, j, s)
    ensures if asks[m].Fixed? then sizes[m] < |s.win| else sizes[m] > |s.win| ==> AtLongString(asks, sizes, s)
    ensures m == j ==> sizes[m] > |s.win|
  {
    assert EndOf(sizes, m + 1) == EndOf(sizes, m) + sizes[m];
    assert |s.win| == EndOf(sizes, i) + s.inCap - EndOf(sizes, m);
  }

  lemma ChunkInWindow(asks: seq<Ask>, sizes: seq<nat>, i: nat, m: nat, s: Pair)
    requires i <= m < |asks| == |sizes| && HasFilled(asks, sizes, i, m, s) && sizes[m] <= |s.win|
    requires Layout(s.sent, asks, sizes)
    ensures Conforms(asks[m], s.win[..sizes[m]])
  {
    assert ChunkAt(s.sent, asks, sizes, m);
    var begin := EndOf(sizes, m);
    assert s.win[..sizes[m]] == s.sent[begin..begin + sizes[m]];
  }

  lemma FillAt(from: Host, vs: seq<Value>, i: nat, s: Pair)
    requires AllSendable(vs) && i <= |vs| && StartsBuffer(Asks(Kinds(vs)), i) && HasRead(from, vs, i, s)
    requires EndOf(Sizes(vs), i) + s.inCap <= |s.sent|
    ensures Enabled(s, Receive(s.inCap)) && HasFilled(Asks(Kinds(vs)), Sizes(vs), i, i, Next(s, Receive(s.inCap)))
  {
    EndOfEncoded(from, vs, i);
    AsksOfPrefix(vs, i);
    assert s.cur == Cursor(0, 0);
    var t := Next(s, Receive(s.inCap));
    assert t.win == s.sent[s.taken..t.taken];
  }

  lemma FillAhead(from: Host, vs: seq<Value>, i: nat, j: nat, s: Pair)
    requires AllSendable(vs) && i <= j < |vs| && HasRead(from, vs, i, s) && StartsBuffer(Asks(Kinds(vs)), i)
    requires Served(s.inCap, Asks(Kinds(vs)), Sizes(vs), i, j)
    requires vs[j].Text? && EndOf(Sizes(vs), j + 1) > EndOf(Sizes(vs), i) + s.inCap
    ensures Enabled(s, Receive(s.inCap))
    ensures LongStringAhead(Asks(Kinds(vs)), Sizes(vs), i, i, j, Next(s, Receive(s.inCap)))
  {
    EndOfGrows(Sizes(vs), j + 1, |vs|);
    LayoutOfList(from, vs);
    FillAt(from, vs, i, s);
  }

  /** A list that does not always have room can be received in such a way that it runs into a dead
      end: value by value at first, and then as much at once as the buffer holds. */
  lemma ReachesDeadEnd(from: Host, outCap: nat, inCap: nat, vs: seq<Value>) returns (t: Pair)
    requires AllSendable(vs) && !AlwaysRoom(inCap, vs)
    ensures t.outCap == outCap && t.inCap == inCap && Cramped(from, vs, t)
  {
    var asks, sizes := Asks(Kinds(vs)), Sizes(vs);
    var i, j :| 0 <= i <= j < |vs| && vs[j].Text? && StartsBuffer(asks, i) && Served(inCap, asks, sizes, i, j) &&
                EndOf(sizes, j + 1) > EndOf(sizes, i) + inCap;
    t := WriteList(from, outCap, inCap, vs);
    assert vs[..0] == [];
    t := ReadUpTo(from, vs, 0, i, t);
    if HasRead(from, vs, i, t) {
      t := FillAndServe(from, vs, i, j, t);
    }
  }

  lemma LongStringCramps(from: Host, vs: seq<Value>, s: Pair, t: Pair)
    requires AllSendable(vs) && Settled(s) && Items(s.ops) == EncodeEach(from, vs)
    requires Reachable(t) && SameSender(s, t) && AtLongString(Asks(Kinds(vs)), Sizes(vs), t)
    ensures Cramped(from, vs, t)
  {
    assert Asks(Kinds(vs))[|t.asks|] == vs[|t.asks|].Kind().Ask();
  }

  lemma FillAndServe(from: Host, vs: seq<Value>, i: nat, j: nat, s: Pair) returns (t: Pair)
    requires AllSendable(vs) && i <= j < |vs| && HasRead(from, vs, i, s) && StartsBuffer(Asks(Kinds(vs)), i)
    requires Served(s.inCap, Asks(Kinds(vs)), Sizes(vs), i, j)
    requires vs[j].Text? && EndOf(Sizes(vs), j + 1) > EndOf(Sizes(vs), i) + s.inCap
    ensures t.outCap == s.outCap && t.inCap == s.inCap && Cramped(from, vs, t)
  {
    FillAhead(from, vs, i, j, s);
    ReachableStep(s, Receive(s.inCap));
    t := ServeUpTo(Asks(Kinds(vs)), Sizes(vs), i, i, j, Next(s, Receive(s.inCap)));
    LongStringCramps(from, vs, s, t);
  }

  // ---- The condition is exact ----

  /** A string that is to be read always has room, however the list is received, exactly under the
      condition. */
  lemma AlwaysRoomIff(from: Host, outCap: nat, inCap: nat, vs: seq<Value>)
    requires AllSendable(vs)
    ensures AlwaysRoom(inCap, vs) <==>
            forall s :: Reads(from, vs, s) && s.outCap == outCap && s.inCap == inCap && StringNext(vs, s) ==>
                          RoomFor(vs, s)
  {
    if AlwaysRoom(inCap, vs) {
      forall s | Reads(from, vs, s) && s.outCap == outCap && s.inCap == inCap && StringNext(vs, s)
        ensures RoomFor(vs, s)
      {
        RoomFromCondition(from, vs, s);
      }
    } else {
      var t := ReachesDeadEnd(from, outCap, inCap, vs);
      assert Reads(from, vs, t);
    }
  }

  /** Some continuation reads the list to its end. */
  ghost predicate CanFinish(from: Host, vs: seq<Value>, s: Pair)
    requires AllSendable(vs)
  {
    exists steps :: Exec(s, steps).Some? && ReadToTheEnd(from, s.outCap, s.inCap, vs, Exec(s, steps).value)
  }

  lemma CrampedIsDeadEnd(from: Host, vs: seq<Value>, s: Pair)
    requires AllSendable(vs) && Cramped(from, vs, s)
    ensures !CanFinish(from, vs, s)
  {
    if CanFinish(from, vs, s) {
      var steps :| Exec(s, steps).Some? && ReadToTheEnd(from, s.outCap, s.inCap, vs, Exec(s, steps).value);
      StaysCramped(from, vs, s, steps);
      assert false;
    }
  }

  /** A written list can be read to its end whatever has happened before, exactly under the condition;
      otherwise some way of receiving it runs into a dead end. */
  lemma CanAlwaysBeReadIff(from: Host, outCap: nat, inCap: nat, vs: seq<Value>)
    requires AllSendable(vs)
    ensures AlwaysRoom(inCap, vs) <==>
            forall s :: Reads(from, vs, s) && s.outCap == outCap && s.inCap == inCap ==> CanFinish(from, vs, s)
  {
    if AlwaysRoom(inCap, vs) {
      forall s | Reads(from, vs, s) && s.outCap == outCap && s.inCap == inCap
        ensures CanFinish(from, vs, s)
      {
        var steps := CanComplete(from, from, vs, s);
      }
    } else {
      var t := ReachesDeadEnd(from, outCap, inCap, vs);
      CrampedIsDeadEnd(from, vs, t);
      assert Reads(from, vs, t);
    }
  }

  /** For a value of `n` octets followed by a string of `k`, terminator included: the string has to fit
      the buffer, and it must not be that only the value does so together with a part of it. */
  lemma ValueThenString(cap: nat, v: Value, chars: seq<byte>)
    requires !v.Text? && AllSendable([v, Text(chars)])
    ensures var n, k := Size(v), |chars| + 1;
            AlwaysRoom(cap, [v, Text(chars)]) <==> k <= cap && !(n < cap < n + k)
  {
    var vs := [v, Text(chars)];
    var asks, sizes, n, k := Asks(Kinds(vs)), Sizes(vs), Size(v), |chars| + 1;
    assert EndOf(sizes, 1) == EndOf(sizes, 0) + n == n;
    assert EndOf(sizes, 2) == EndOf(sizes, 1) + k;
    assert StartsBuffer(asks, 0) && StartsBuffer(asks, 1) && vs[1].Text?;
    assert Served(cap, asks, sizes, 1, 1);
    assert Served(cap, asks, sizes, 0, 1) <==> n < cap by {
      assert asks[0].Fixed?;
    }
  }
}
