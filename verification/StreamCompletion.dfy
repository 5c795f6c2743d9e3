/** When a list of values can be read to its end, if it is received favourably.

    Strings are extracted only from the input window, and extracting does not make room in the
    buffer; only a read of a fixed width starts it over.  So it is the longest run of strings
    without another value between them that has to fit the input buffer.  `StreamRoom` says when a
    list can be read however it is received. */
module StreamCompletion {
  import opened Bytes
  import opened ByteStream
  import opened Codec
  import opened InputWindow
  import opened Options
  import opened OutputOrder
  import opened StreamMachine
  import opened StreamTheorems

  // ---- Runs of strings ----

  function Max(a: nat, b: nat): nat {
    if a < b then b else a
  }

  /** The octets of an encoded value, on any host. */
  function Size(v: Value): nat {
    if v.Text? then |v.chars| + 1 else v.Kind().Ask().n
  }

  function Sizes(vs: seq<Value>): seq<nat> {
    seq(|vs|, i requires 0 <= i < |vs| => Size(vs[i]))
  }

  function Lengths(chunks: seq<seq<byte>>): seq<nat> {
    seq(|chunks|, i requires 0 <= i < |chunks| => |chunks[i]|)
  }

  lemma SizesOfEncoding(from: Host, vs: seq<Value>)
    requires AllSendable(vs)
    ensures Lengths(EncodeEach(from, vs)) == Sizes(vs)
  {
    forall i | 0 <= i < |vs|
      ensures |Encode(from, vs[i])| == Size(vs[i])
    {
      assert vs[i] in vs;
    }
  }

  /** The octets that the strings at the end of a list of reads take up, terminators included. */
  function Tail(asks: seq<Ask>, sizes: seq<nat>): nat
    requires |asks| == |sizes|
  {
    if asks == [] || asks[|asks| - 1].Fixed? then 0
    else Tail(asks[..|asks| - 1], sizes[..|asks| - 1]) + sizes[|asks| - 1]
  }

  /** The octets of the longest run of consecutive strings. */
  function LongestRun(asks: seq<Ask>, sizes: seq<nat>): nat
    requires |asks| == |sizes|
  {
    if asks == [] then 0
    else Max(LongestRun(asks[..|asks| - 1], sizes[..|asks| - 1]), Tail(asks, sizes))
  }

  function StringTail(vs: seq<Value>): nat {
    Tail(Asks(Kinds(vs)), Sizes(vs))
  }

  function LongestStringRun(vs: seq<Value>): nat {
    LongestRun(Asks(Kinds(vs)), Sizes(vs))
  }

  lemma RunSnoc(asks: seq<Ask>, sizes: seq<nat>, ask: Ask, n: nat)
    requires |asks| == |sizes|
    ensures Tail(asks + [ask], sizes + [n]) == if ask.Fixed? then 0 else Tail(asks, sizes) + n
    ensures LongestRun(asks + [ask], sizes + [n]) == Max(LongestRun(asks, sizes), Tail(asks + [ask], sizes + [n]))
  {
    assert (asks + [ask])[..|asks|] == asks && (sizes + [n])[..|asks|] == sizes;
  }

  lemma {:induction false} LongestRunBounds(asks: seq<Ask>, sizes: seq<nat>, m: nat)
    requires m <= |asks| == |sizes|
    ensures Tail(asks[..m], sizes[..m]) <= LongestRun(asks, sizes)
  {
    if m == |asks| {
      assert asks[..m] == asks && sizes[..m] == sizes;
    } else {
      var n := |asks| - 1;
      LongestRunBounds(asks[..n], sizes[..n], m);
      assert asks[..n][..m] == asks[..m] && sizes[..n][..m] == sizes[..m];
    }
  }

  // ---- What every run obeys ----

  /** The read index is past all strings returned since the last read of a fixed width. */
  ghost predicate RunInv(s: Pair) {
    |s.asks| == |s.results| &&
    Tail(s.asks, Lengths(s.results)) <= s.cur.rd && LongestRun(s.asks, Lengths(s.results)) <= s.inCap
  }

  lemma ReturnKeepsRuns(s: Pair, ask: Ask, c: seq<byte>, win: seq<byte>, cur: Cursor)
    requires RunInv(s) && (ask.Terminated? ==> s.cur.rd + |c| == cur.rd <= s.inCap)
    ensures RunInv(Return(s, ask, c, win, cur))
  {
    assert Lengths(s.results + [c]) == Lengths(s.results) + [|c|];
    RunSnoc(s.asks, Lengths(s.results), ask, |c|);
  }

  lemma StepKeepsRuns(s: Pair, step: Step)
    requires ReaderInv(s) && RunInv(s) && Enabled(s, step)
    ensures RunInv(Next(s, step))
  {
    match step
    case Read(n) =>
      if n <= |s.win| {
        ReturnKeepsRuns(s, Fixed(n), s.win[..n], s.win[n..], Serve(s.cur, n));
      }
    case TopUp(k) =>
      var s' := s.(taken := s.taken + k);
      ReturnKeepsRuns(s', Fixed(s.rx.n), s.win + (s.rx.acc + s.Wire()[..k]), [], Serve(s.cur, s.rx.n));
    case Extract =>
      var k := FirstNul(s.win) + 1;
      ReturnKeepsRuns(s, Terminated, s.win[..k], s.win[k..], Cursor(s.cur.rd + k, s.cur.size));
    case _ =>
  }

  lemma {:induction false} RunsKept(s: Pair, steps: seq<Step>)
    requires Inv(s) && RunInv(s) && Exec(s, steps).Some?
    ensures RunInv(Exec(s, steps).value)
  {
    if steps != [] {
      var n := |steps| - 1;
      RunsKept(s, steps[..n]);
      InvHolds(s, steps[..n]);
      StepKeepsRuns(Exec(s, steps[..n]).value, steps[n]);
    }
  }

  /** In every reachable state, the strings returned between two reads of fixed width have fitted
      the input buffer together, however they were received. */
  lemma StringRunsFit(s: Pair)
    requires Reachable(s)
    ensures |s.asks| == |s.results| && LongestRun(s.asks, Lengths(s.results)) <= s.inCap
    ensures Tail(s.asks, Lengths(s.results)) <= s.cur.rd <= s.inCap
  {
    ReachableInv(s);
    var steps :| Exec(Init(s.outCap, s.inCap), steps) == Some(s);
    RunsKept(Init(s.outCap, s.inCap), steps);
  }

  // ---- Writing a list ----

  lemma NeverOvertakesSnoc<T>(cap: nat, ops: seq<Op<T>>, op: Op<T>)
    requires NeverOvertakes(cap, ops)
    requires op.Write? ==> !Overtaking(cap, Run(cap, ops).pending, op.item)
    ensures NeverOvertakes(cap, ops + [op])
  {
    forall j | 0 <= j < |ops| + 1 && (ops + [op])[j].Write?
      ensures !Overtaking(cap, Run(cap, (ops + [op])[..j]).pending, (ops + [op])[j].item)
    {
      assert (ops + [op])[..j] == ops[..j];
      assert j == |ops| ==> ops[..j] == ops;
    }
  }

  lemma ItemsSnoc(ops: seq<Op<byte>>, op: Op<byte>)
    ensures Items(ops + [op]) == Items(ops) + if op.Write? then [op.item] else []
  {
    assert (ops + [op])[..|ops|] == ops;
  }

  /** A sender between two calls with nothing pending, that has never overtaken. */
  ghost predicate Settled(s: Pair) {
    Reachable(s) && s.tx == Idle([]) && NeverOvertakes(s.outCap, s.ops)
  }

  /** A write, and a flush if the write has left something pending. */
  lemma WriteThrough(s: Pair, item: seq<byte>) returns (t: Pair)
    requires Settled(s) && item != []
    ensures Settled(t) && t == s.(ops := t.ops, sent := s.sent + item)
    ensures Items(t.ops) == Items(s.ops) + [item]
  {
    ReachableInv(s);
    var s1 := Next(s, Call(Write(item)));
    ReachableStep(s, Call(Write(item)));
    NeverOvertakesSnoc(s.outCap, s.ops, Write(item));
    ItemsSnoc(s.ops, Write(item));
    WriteFromEmpty(s, item);
    if |item| < s.outCap {
      t := FlushThrough(s1);
    } else {
      ReachableStep(s1, SendSome(|item|));
      t := Next(s1, SendSome(|item|));
    }
  }

  lemma WriteFromEmpty(s: Pair, item: seq<byte>)
    requires s.taken <= |s.sent| && s.tx == Idle([]) && item != []
    ensures var s1 := Next(s, Call(Write(item)));
            s1 == s.(ops := s.ops + [Write(item)], tx := if |item| < s.outCap then Idle(item) else Sending(item, [])) &&
            (|item| >= s.outCap ==>
               Enabled(s1, SendSome(|item|)) &&
               Next(s1, SendSome(|item|)) == s.(ops := s.ops + [Write(item)], sent := s.sent + item))
  {
    assert [] + item == item && item[..|item|] == item;
  }

  lemma FlushThrough(s: Pair) returns (t: Pair)
    requires Reachable(s) && NeverOvertakes(s.outCap, s.ops) && s.tx.Idle? && s.tx.pending != []
    ensures Settled(t) && t == s.(ops := t.ops, tx := Idle([]), sent := s.sent + s.tx.pending)
    ensures Items(t.ops) == Items(s.ops)
  {
    ReachableInv(s);
    FlushedState(s);
    var s1 := Next(s, Call(Flush));
    ReachableStep(s, Call(Flush));
    NeverOvertakesSnoc(s.outCap, s.ops, Flush);
    ItemsSnoc(s.ops, Flush);
    ReachableStep(s1, SendSome(|s.tx.pending|));
    t := Next(s1, SendSome(|s.tx.pending|));
  }

  lemma EncodingNotEmpty(h: Host, v: Value)
    requires v.InRange()
    ensures Encode(h, v) != []
  {
  }

  lemma {:induction false} WriteList(from: Host, outCap: nat, inCap: nat, vs: seq<Value>) returns (s: Pair)
    requires AllSendable(vs)
    ensures Settled(s) && Items(s.ops) == EncodeEach(from, vs)
    ensures s == Init(outCap, inCap).(ops := s.ops, sent := Flatten(EncodeEach(from, vs)))
  {
    if vs == [] {
      s := Init(outCap, inCap);
      assert Exec(s, []) == Some(s);
    } else {
      var n := |vs| - 1;
      EncodeSnoc(from, vs);
      EncodingNotEmpty(from, vs[n]);
      s := WriteList(from, outCap, inCap, vs[..n]);
      s := WriteThrough(s, Encode(from, vs[n]));
    }
  }

  lemma EncodeSnoc(from: Host, vs: seq<Value>)
    requires AllSendable(vs) && vs != []
    ensures var n := |vs| - 1;
            vs[n] in vs && AllSendable(vs[..n]) &&
            EncodeEach(from, vs) == EncodeEach(from, vs[..n]) + [Encode(from, vs[n])] &&
            Flatten(EncodeEach(from, vs)) == Flatten(EncodeEach(from, vs[..n])) + Encode(from, vs[n])
  {
    var n := |vs| - 1;
    assert vs[n] in vs;
    assert EncodeEach(from, vs) == EncodeEach(from, vs[..n]) + [Encode(from, vs[n])];
    FlattenSnoc(EncodeEach(from, vs[..n]), Encode(from, vs[n]));
  }

  // ---- Reading it ----

  /** A reader with nothing in its window, and a chunk on the wire for it. */
  ghost predicate AtChunk(s: Pair, c: seq<byte>) {
    Settled(s) && s.rx.Ready? && s.win == [] && s.cur.rd == s.cur.size &&
    s.taken <= |s.sent| && c <= s.Wire() && c != []
  }

  /** A string is received whole and extracted ... */
  lemma ReadString(s: Pair, c: seq<byte>) returns (t: Pair)
    requires AtChunk(s, c) && Conforms(Terminated, c) && s.cur.size + |c| <= s.inCap
    ensures Settled(t)
    ensures t == s.(taken := s.taken + |c|, asks := s.asks + [Terminated], results := s.results + [c],
                    cur := Cursor(s.cur.rd + |c|, s.cur.size + |c|))
  {
    ReceiveWhole(s, c);
    ReachableStep(s, Receive(|c|));
    var s1 := Next(s, Receive(|c|));
    ExtractWhole(s1);
    ReachableStep(s1, Extract);
    t := Next(s1, Extract);
  }

  lemma ReceiveWhole(s: Pair, c: seq<byte>)
    requires s.taken <= |s.sent| && s.rx.Ready? && s.win == [] && c <= s.Wire() && s.cur.size + |c| <= s.inCap
    ensures Enabled(s, Receive(|c|))
    ensures Next(s, Receive(|c|)) ==
            s.(taken := s.taken + |c|, win := c, cur := Cursor(s.cur.rd, s.cur.size + |c|))
  {
    assert s.Wire()[..|c|] == c && [] + c == c;
  }

  lemma ExtractWhole(s: Pair)
    requires s.taken <= |s.sent| && s.rx.Ready? && Conforms(Terminated, s.win)
    ensures Enabled(s, Extract)
    ensures Next(s, Extract) == Return(s, Terminated, s.win, [], Cursor(s.cur.rd + |s.win|, s.cur.size))
  {
    assert s.win[..|s.win|] == s.win && s.win[|s.win|..] == [];
  }

  /** ... and any other value is received by the blocking receive alone. */
  lemma ReadFixed(s: Pair, c: seq<byte>) returns (t: Pair)
    requires AtChunk(s, c)
    ensures Settled(t)
    ensures t == s.(taken := s.taken + |c|, asks := s.asks + [Fixed(|c|)], results := s.results + [c],
                    cur := Cursor(0, 0))
  {
    assert s.Wire()[..|c|] == c && [] + c == c;
    ReachableStep(s, Read(|c|));
    var s1 := Next(s, Read(|c|));
    assert s1 == s.(rx := Blocked(|c|, []));
    assert s1.Wire() == s.Wire() && s.win + ([] + c) == c;
    ReachableStep(s1, TopUp(|c|));
    t := Next(s1, TopUp(|c|));
  }

  /** A reader that has read the first `m` values, each string as soon as it could. */
  ghost predicate HasRead(from: Host, vs: seq<Value>, m: nat, s: Pair)
    requires AllSendable(vs) && m <= |vs|
  {
    Settled(s) && s.rx.Ready? && s.win == [] && Items(s.ops) == EncodeEach(from, vs) &&
    s.sent == Flatten(EncodeEach(from, vs)) && s.taken == |Flatten(EncodeEach(from, vs[..m]))| &&
    s.asks == Asks(Kinds(vs[..m])) && s.results == EncodeEach(from, vs[..m]) &&
    s.cur == Cursor(StringTail(vs[..m]), StringTail(vs[..m]))
  }

  lemma NextChunk(from: Host, vs: seq<Value>, m: nat)
    requires AllSendable(vs) && m < |vs|
    ensures var all, done := Flatten(EncodeEach(from, vs)), Flatten(EncodeEach(from, vs[..m]));
            done <= all && Encode(from, vs[m]) <= all[|done|..] &&
            |done| + |Encode(from, vs[m])| <= |all| &&
            all[|done|..|done| + |Encode(from, vs[m])|] == Encode(from, vs[m]) &&
            Flatten(EncodeEach(from, vs[..m + 1])) == done + Encode(from, vs[m])
  {
    var front, c, rest := EncodeEach(from, vs[..m]), Encode(from, vs[m]), EncodeEach(from, vs)[m + 1..];
    assert EncodeEach(from, vs[..m + 1]) == front + [c];
    assert EncodeEach(from, vs) == front + [c] + rest;
    FlattenSnoc(front, c);
    FlattenAppend(front + [c], rest);
    InTheMiddle(Flatten(front), c, Flatten(rest));
  }

  lemma InTheMiddle<T>(a: seq<T>, b: seq<T>, c: seq<T>)
    ensures a <= a + b + c && b <= (a + b + c)[|a|..] && (a + b + c)[|a|..|a| + |b|] == b
  {
    assert a + b + c == a + (b + c);
  }

  /** The next value, unless it is a string that does not fit behind those read before it. */
  lemma ReadValue(from: Host, vs: seq<Value>, m: nat, s: Pair) returns (t: Pair)
    requires AllSendable(vs) && m < |vs| && StringTail(vs[..m + 1]) <= s.inCap
    requires HasRead(from, vs, m, s)
    ensures HasRead(from, vs, m + 1, t) && t.outCap == s.outCap && t.inCap == s.inCap
  {
    NextConforms(from, vs, m, s);
    OneMoreValue(from, vs, m);
    if vs[m].Text? {
      t := ReadString(s, Encode(from, vs[m]));
    } else {
      t := ReadFixed(s, Encode(from, vs[m]));
    }
  }

  lemma NextConforms(from: Host, vs: seq<Value>, m: nat, s: Pair)
    requires AllSendable(vs) && m < |vs| && HasRead(from, vs, m, s)
    ensures vs[m] in vs && AtChunk(s, Encode(from, vs[m])) && Conforms(vs[m].Kind().Ask(), Encode(from, vs[m]))
    ensures |Flatten(EncodeEach(from, vs[..m + 1]))| == s.taken + |Encode(from, vs[m])|
  {
    assert vs[m] in vs;
    ValueRoundTrip(from, from, vs[m]);
    EncodingNotEmpty(from, vs[m]);
    NextChunk(from, vs, m);
  }

  lemma OneMoreValue(from: Host, vs: seq<Value>, m: nat)
    requires AllSendable(vs) && m < |vs|
    ensures Asks(Kinds(vs[..m + 1])) == Asks(Kinds(vs[..m])) + [vs[m].Kind().Ask()]
    ensures EncodeEach(from, vs[..m + 1]) == EncodeEach(from, vs[..m]) + [Encode(from, vs[m])]
    ensures |Encode(from, vs[m])| == Size(vs[m])
    ensures StringTail(vs[..m + 1]) == if vs[m].Text? then StringTail(vs[..m]) + Size(vs[m]) else 0
  {
    assert vs[m] in vs;
    assert Sizes(vs[..m + 1]) == Sizes(vs[..m]) + [Size(vs[m])];
    RunSnoc(Asks(Kinds(vs[..m])), Sizes(vs[..m]), vs[m].Kind().Ask(), Size(vs[m]));
  }

  lemma StringTailBounds(vs: seq<Value>, m: nat)
    requires m <= |vs|
    ensures StringTail(vs[..m]) <= LongestStringRun(vs)
  {
    LongestRunBounds(Asks(Kinds(vs)), Sizes(vs), m);
    assert Asks(Kinds(vs))[..m] == Asks(Kinds(vs[..m])) && Sizes(vs)[..m] == Sizes(vs[..m]);
  }

  lemma {:induction false} ReadValues(from: Host, vs: seq<Value>, m: nat, s: Pair) returns (t: Pair)
    requires AllSendable(vs) && m <= |vs| && LongestStringRun(vs) <= s.inCap
    requires HasRead(from, vs, m, s)
    ensures HasRead(from, vs, |vs|, t) && t.outCap == s.outCap && t.inCap == s.inCap
    decreases |vs| - m
  {
    t := s;
    if m < |vs| {
      StringTailBounds(vs, m + 1);
      t := ReadValue(from, vs, m, s);
      t := ReadValues(from, vs, m + 1, t);
    }
  }

  // ---- The condition ----

  /** The list has been written without overtaking, and read to its end. */
  ghost predicate ReadToTheEnd(from: Host, outCap: nat, inCap: nat, vs: seq<Value>, s: Pair)
    requires AllSendable(vs)
  {
    Reachable(s) && s.outCap == outCap && s.inCap == inCap && NeverOvertakes(outCap, s.ops) &&
    Items(s.ops) == EncodeEach(from, vs) && s.asks == Asks(Kinds(vs))
  }

  /** Some way of receiving a list of values lets it be read to its end exactly when every run of
      consecutive strings in it, terminators included, fits the input buffer. */
  lemma CanBeReadIff(from: Host, outCap: nat, inCap: nat, vs: seq<Value>)
    requires AllSendable(vs)
    ensures (exists s :: ReadToTheEnd(from, outCap, inCap, vs, s)) <==> LongestStringRun(vs) <= inCap
  {
    if s :| ReadToTheEnd(from, outCap, inCap, vs, s) {
      ResultsAreEncodings(from, vs, s);
      assert vs[..|vs|] == vs;
      StringRunsFit(s);
      SizesOfEncoding(from, vs);
    }
    if LongestStringRun(vs) <= inCap {
      var s := WriteList(from, outCap, inCap, vs);
      assert vs[..0] == [];
      s := ReadValues(from, vs, 0, s);
      assert vs[..|vs|] == vs;
      assert ReadToTheEnd(from, outCap, inCap, vs, s);
    }
  }

  lemma StringRunSnoc(vs: seq<Value>)
    requires vs != []
    ensures LongestStringRun(vs) == Max(LongestStringRun(vs[..|vs| - 1]), StringTail(vs))
  {
    var n := |vs| - 1;
    assert Asks(Kinds(vs))[..n] == Asks(Kinds(vs[..n])) && Sizes(vs)[..n] == Sizes(vs[..n]);
  }

  lemma {:induction false} AllStringsAreOneRun(from: Host, vs: seq<Value>)
    requires AllSendable(vs) && forall v :: v in vs ==> v.Text?
    ensures StringTail(vs) == LongestStringRun(vs) == |Flatten(EncodeEach(from, vs))|
  {
    if vs != [] {
      var n := |vs| - 1;
      EncodeSnoc(from, vs);
      AllStringsAreOneRun(from, vs[..n]);
      OneMoreValue(from, vs, n);
      assert vs[..n + 1] == vs;
      StringRunSnoc(vs);
    }
  }

  /** A list of strings can be read exactly when all of it fits the input buffer at once. */
  lemma StringsCanBeReadIff(from: Host, outCap: nat, inCap: nat, vs: seq<Value>)
    requires AllSendable(vs) && forall v :: v in vs ==> v.Text?
    ensures (exists s :: ReadToTheEnd(from, outCap, inCap, vs, s)) <==>
            |Flatten(EncodeEach(from, vs))| <= inCap
  {
    CanBeReadIff(from, outCap, inCap, vs);
    AllStringsAreOneRun(from, vs);
  }
}
