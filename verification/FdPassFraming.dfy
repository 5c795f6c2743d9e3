/** Why the framing has to be what it is, and what becomes of a transfer that is broken off. */
module FdPassFraming {
  import opened FdPassModel

  // ---- The receiving loop, one message at a time ----

  /** What has been received stays at the front of the result. */
  lemma {:induction false} ReceivedStays(msgs: seq<Msg>, v: seq<int>, len: nat, buf: seq<int>)
    requires |buf| == MAX_BATCH_SIZE && RecvLoop(msgs, v, len, buf).Done?
    ensures v <= RecvLoop(msgs, v, len, buf).files
    ensures |RecvLoop(msgs, v, len, buf).rest| < |msgs|
    decreases |msgs|
  {
    var r := RecvRound(msgs[0], v, len, buf);
    if r.More? {
      ReceivedStays(msgs[1..], r.v, r.len, r.buf);
    }
  }

  /** What one round adds: the front of the control buffer, as the message has left it. */
  lemma RoundAdds(m: Msg, v: seq<int>, len: nat, buf: seq<int>, i: nat)
    requires |buf| == MAX_BATCH_SIZE && !RecvRound(m, v, len, buf).Broken?
    requires |v| <= m.total && i < Min(m.total - |v|, MAX_BATCH_SIZE)
    ensures Delivered(len, m) <= MAX_BATCH_SIZE
    ensures var v' := RecvRound(m, v, len, buf).v;
            v <= v' && |v| + i < |v'| && v'[|v| + i] == Overwrite(buf, m.files, Delivered(len, m))[i]
  {
  }

  /** It stays at its place in the result. */
  lemma Taken(msgs: seq<Msg>, v: seq<int>, len: nat, buf: seq<int>, i: nat)
    requires |buf| == MAX_BATCH_SIZE && RecvLoop(msgs, v, len, buf).Done?
    requires |v| <= msgs[0].total && i < Min(msgs[0].total - |v|, MAX_BATCH_SIZE)
    ensures Delivered(len, msgs[0]) <= MAX_BATCH_SIZE
    ensures var files := RecvLoop(msgs, v, len, buf).files;
            |v| + i < |files| &&
            files[|v| + i] == Overwrite(buf, msgs[0].files, Delivered(len, msgs[0]))[i]
  {
    var r := RecvRound(msgs[0], v, len, buf);
    RoundAdds(msgs[0], v, len, buf, i);
    if r.More? {
      ReceivedStays(msgs[1..], r.v, r.len, r.buf);
    }
  }

  // ---- Other shapes of batches ----

  /** A batch that is smaller than what the receiver takes makes it take the difference from what
      its buffer held before, whatever follows. */
  lemma SmallBatchTakesStale(total: nat, b: seq<int>, later: seq<Msg>, stale: seq<int>)
    requires 0 < |b| < Min(total, MAX_BATCH_SIZE) && |stale| == MAX_BATCH_SIZE
    ensures var r := RecvLoop([Msg(total, b)] + later, [], CONTROL_SIZE, stale);
            r.Done? ==> |r.files| > |b| && r.files[|b|] == stale[|b|]
  {
    if RecvLoop([Msg(total, b)] + later, [], CONTROL_SIZE, stale).Done? {
      Taken([Msg(total, b)] + later, [], CONTROL_SIZE, stale, |b|);
    }
  }

  /** A message without descriptors leaves no room for a control header, and what the receiver reads
      there is undefined. */
  lemma EmptyBatchUndefined(total: nat, later: seq<Msg>, stale: seq<int>)
    requires 0 < total && |stale| == MAX_BATCH_SIZE
    ensures RecvLoop([Msg(total, [])] + later, [], CONTROL_SIZE, stale) == Undefined
  {
    assert RecvRound(Msg(total, []), [], CONTROL_SIZE, stale) == Broken;
  }

  /** The messages cut a list of files into consecutive batches, of any sizes, and each announces
      the same total. */
  predicate Cuts(msgs: seq<Msg>, total: nat, rest: seq<int>)
    decreases |msgs|
  {
    if msgs == [] then rest == []
    else msgs[0].total == total && msgs[0].files <= rest && Cuts(msgs[1..], total, rest[|msgs[0].files|..])
  }

  ghost predicate Different(s: seq<int>) {
    forall i, j :: 0 <= i < j < |s| ==> s[i] != s[j]
  }

  ghost predicate Disjoint(s: seq<int>, t: seq<int>) {
    forall i, j :: 0 <= i < |s| && 0 <= j < |t| ==> s[i] != t[j]
  }

  /** After a batch that is too small the result is not the list ... */
  lemma SmallBatchLoses(total: nat, rest: seq<int>, v: seq<int>, buf: seq<int>, msgs: seq<Msg>)
    requires rest != [] && |v| + |rest| == total && |buf| == MAX_BATCH_SIZE
    requires Cuts(msgs, total, rest) && Disjoint(buf, rest)
    requires |msgs[0].files| < Min(|rest|, MAX_BATCH_SIZE)
    ensures RecvLoop(msgs, v, CONTROL_SIZE, buf) != Done(v + rest, [])
  {
    var r, n := RecvLoop(msgs, v, CONTROL_SIZE, buf), |msgs[0].files|;
    if r.Done? {
      Taken(msgs, v, CONTROL_SIZE, buf, n);
      assert r.files[|v| + n] == buf[n];
      assert buf[n] != rest[n] == (v + rest)[|v| + n];
    }
  }

  /** ... and neither after one of more than ten: the control buffer cuts it off, and the files
      beyond are lost. */
  lemma LargeBatchLoses(total: nat, rest: seq<int>, v: seq<int>, buf: seq<int>, msgs: seq<Msg>)
    requires rest != [] && |v| + |rest| == total && |buf| == MAX_BATCH_SIZE
    requires Cuts(msgs, total, rest) && Different(rest)
    requires |msgs[0].files| > Min(|rest|, MAX_BATCH_SIZE)
    ensures RecvLoop(msgs, v, CONTROL_SIZE, buf) != Done(v + rest, [])
  {
    var later, b := msgs[1..], |msgs[0].files|;
    var ten := rest[..MAX_BATCH_SIZE];
    CutOff(msgs, v, buf);
    assert msgs[0].files[..MAX_BATCH_SIZE] == ten;
    if RecvLoop(later, v + ten, CONTROL_SIZE, ten).Done? {
      NextTaken(total, rest, v, b, later);
      assert rest[b] != rest[MAX_BATCH_SIZE] == (v + rest)[|v| + MAX_BATCH_SIZE];
    }
  }

  /** A message with more than ten descriptors, when more than ten are missing. */
  lemma CutOff(msgs: seq<Msg>, v: seq<int>, buf: seq<int>)
    requires msgs != [] && |buf| == MAX_BATCH_SIZE
    requires |msgs[0].files| > MAX_BATCH_SIZE && msgs[0].total > |v| + MAX_BATCH_SIZE
    ensures var ten := msgs[0].files[..MAX_BATCH_SIZE];
            RecvLoop(msgs, v, CONTROL_SIZE, buf) == RecvLoop(msgs[1..], v + ten, CONTROL_SIZE, ten)
  {
    RoundCutOff(msgs[0], v, buf);
  }

  lemma RoundCutOff(m: Msg, v: seq<int>, buf: seq<int>)
    requires |buf| == MAX_BATCH_SIZE && |m.files| > MAX_BATCH_SIZE && m.total > |v| + MAX_BATCH_SIZE
    ensures var ten := m.files[..MAX_BATCH_SIZE];
            RecvRound(m, v, CONTROL_SIZE, buf) == More(v + ten, CONTROL_SIZE, ten)
  {
    var ten := m.files[..MAX_BATCH_SIZE];
    assert Overwrite(buf, m.files, MAX_BATCH_SIZE) == ten;
    assert ten[..MAX_BATCH_SIZE] == ten;
  }

  lemma NextTaken(total: nat, rest: seq<int>, v: seq<int>, b: nat, later: seq<Msg>)
    requires MAX_BATCH_SIZE < b <= |rest| && |v| + |rest| == total && Cuts(later, total, rest[b..])
    requires var ten := rest[..MAX_BATCH_SIZE]; RecvLoop(later, v + ten, CONTROL_SIZE, ten).Done?
    ensures var ten := rest[..MAX_BATCH_SIZE];
            var files := RecvLoop(later, v + ten, CONTROL_SIZE, ten).files;
            b < |rest| && |files| > |v| + MAX_BATCH_SIZE && files[|v| + MAX_BATCH_SIZE] == rest[b]
  {
    var ten := rest[..MAX_BATCH_SIZE];
    assert later != [] && later[0].files != [];
    assert b < |rest|;
    Taken(later, v + ten, CONTROL_SIZE, ten, 0);
    SecondBatch(total, rest, b, later);
  }

  lemma SecondBatch(total: nat, rest: seq<int>, b: nat, later: seq<Msg>)
    requires b < |rest| && later != [] && Cuts(later, total, rest[b..]) && later[0].files != []
    ensures later[0].files[0] == rest[b]
  {
  }

  /** Which way of cutting a list of different files into batches gets it through?  Exactly the
      sender's, ten at a time; `stale` is anything the receiver's buffer may have held. */
  lemma OnlyFramesArrive(list: seq<int>, msgs: seq<Msg>, stale: seq<int>)
    requires list != [] && Different(list) && Cuts(msgs, |list|, list)
    requires |stale| == MAX_BATCH_SIZE && Disjoint(stale, list)
    ensures RecvLoop(msgs, [], CONTROL_SIZE, stale) == Done(list, []) <==> msgs == Frame(|list|, list)
  {
    assert [] + list == list;
    if msgs == Frame(|list|, list) {
      assert Frame(|list|, list) + [] == Frame(|list|, list);
      ReceiveFrame(|list|, list, [], CONTROL_SIZE, stale, []);
    }
    if RecvLoop(msgs, [], CONTROL_SIZE, stale) == Done(list, []) {
      FrameForced(|list|, list, [], stale, msgs);
    }
  }

  lemma {:induction false} FrameForced(total: nat, rest: seq<int>, v: seq<int>, buf: seq<int>, msgs: seq<Msg>)
    requires rest != [] && |v| + |rest| == total && |buf| == MAX_BATCH_SIZE
    requires Cuts(msgs, total, rest) && Different(rest) && Disjoint(buf, rest)
    requires RecvLoop(msgs, v, CONTROL_SIZE, buf) == Done(v + rest, [])
    ensures msgs == Frame(total, rest)
    decreases |rest|
  {
    var n := Min(|rest|, MAX_BATCH_SIZE);
    var batch, more, later := rest[..n], rest[n..], msgs[1..];
    FirstCut(total, rest, v, buf, msgs);
    RoundOfFrame(Msg(total, batch), v, CONTROL_SIZE, buf);
    if n < |rest| {
      Regroups(v, rest, n);
      assert Overwrite(buf, batch, n) == batch;
      FrameForced(total, more, v + batch, batch, later);
    } else {
      assert more == [] && later == [];
    }
  }

  lemma Regroups<T>(v: seq<T>, rest: seq<T>, n: nat)
    requires n <= |rest|
    ensures v + rest[..n] + rest[n..] == v + rest
  {
    assert rest[..n] + rest[n..] == rest;
    Associates(v, rest[..n], rest[n..]);
  }

  /** The first batch has the size that the receiver takes. */
  lemma FirstCut(total: nat, rest: seq<int>, v: seq<int>, buf: seq<int>, msgs: seq<Msg>)
    requires rest != [] && |v| + |rest| == total && |buf| == MAX_BATCH_SIZE
    requires Cuts(msgs, total, rest) && Different(rest) && Disjoint(buf, rest)
    requires RecvLoop(msgs, v, CONTROL_SIZE, buf) == Done(v + rest, [])
    ensures var n := Min(|rest|, MAX_BATCH_SIZE);
            msgs == [Msg(total, rest[..n])] + msgs[1..] && Cuts(msgs[1..], total, rest[n..])
  {
    var n := Min(|rest|, MAX_BATCH_SIZE);
    if |msgs[0].files| < n {
      SmallBatchLoses(total, rest, v, buf, msgs);
    }
    if |msgs[0].files| > n {
      LargeBatchLoses(total, rest, v, buf, msgs);
    }
    assert msgs[0].files == rest[..|msgs[0].files|];
  }

  // ---- Transfers that are broken off ----

  /** What `k` messages of a frame bring, and what they leave. */
  function Brought(list: seq<int>, k: nat): seq<int> {
    list[..Min(|list|, MAX_BATCH_SIZE * k)]
  }

  function Left(list: seq<int>, k: nat): seq<int> {
    list[Min(|list|, MAX_BATCH_SIZE * k)..]
  }

  /** A batch with the rest of the control buffer behind it. */
  function FilledUp(batch: seq<int>, buf: seq<int>): seq<int> {
    batch + buf[Min(|batch|, |buf|)..]
  }

  /** The messages that bring `n` files. */
  function Batches(n: nat): (k: nat)
    ensures n <= MAX_BATCH_SIZE * k < n + MAX_BATCH_SIZE
  {
    (n + MAX_BATCH_SIZE - 1) / MAX_BATCH_SIZE
  }

  /** What a receiver holds after messages that bring `left`, its buffer having held `stale`: the last
      batch is filled up with the values ten places before. */
  function Held(left: seq<int>, stale: seq<int>): (v: seq<int>)
    requires |stale| == MAX_BATCH_SIZE
    ensures |v| == MAX_BATCH_SIZE * Batches(|left|) && left <= v
  {
    left + (stale + left)[|left|..MAX_BATCH_SIZE * Batches(|left|)]
  }

  /** The size of the last batch of `n` files. */
  function LastBatch(n: nat): nat
    requires 0 < n
  {
    n - MAX_BATCH_SIZE * (Batches(n) - 1)
  }

  /** What becomes of full batches in a control buffer that takes only `p` files of each, and has `fill`
      behind them. */
  function Patched(files: seq<int>, p: nat, fill: seq<int>): (r: seq<int>)
    requires |fill| == MAX_BATCH_SIZE
    ensures |r| == |files|
  {
    seq(|files|, x requires 0 <= x < |files| => if x % MAX_BATCH_SIZE < p then files[x] else fill[x % MAX_BATCH_SIZE])
  }

  /** The files that fit a control buffer of `len` octets, of a full batch. */
  function Taking(len: nat): nat {
    Min(Fit(len), MAX_BATCH_SIZE)
  }

  /** As the alignment of control messages leaves it. */
  predicate TakesEven(len: nat) {
    0 < Taking(len) && Taking(len) % 2 == 0
  }

  function RoundUp(n: nat): nat {
    n + n % 2
  }

  /** Between two messages a frame falls into the frames of its parts. */
  lemma {:induction false} FrameSplits(total: nat, list: seq<int>, k: nat)
    requires k <= |Frame(total, list)|
    ensures Frame(total, list) == Frame(total, Brought(list, k)) + Frame(total, Left(list, k))
    ensures |Frame(total, Brought(list, k))| == k
    decreases k
  {
    if k == 0 {
      assert Brought(list, 0) == [] && Left(list, 0) == list;
    } else {
      var n := Min(|list|, MAX_BATCH_SIZE);
      var batch, more := list[..n], list[n..];
      assert list == batch + more;
      FrameSplits(total, more, k - 1);
      FirstOf(total, batch, more);
      FirstOf(total, batch, Brought(more, k - 1));
      PartsOf(batch, more, k);
      Associates([Msg(total, batch)], Frame(total, Brought(more, k - 1)), Frame(total, Left(more, k - 1)));
    }
  }

  lemma OneMessage(total: nat, batch: seq<int>, later: seq<Msg>)
    requires 0 < |batch| <= MAX_BATCH_SIZE
    ensures Frame(total, batch) + later == [Msg(total, batch)] + later
  {
    assert batch + [] == batch;
    FirstOf(total, batch, []);
  }

  lemma PartsOf(batch: seq<int>, more: seq<int>, k: nat)
    requires 0 < k && (|batch| == MAX_BATCH_SIZE || (|batch| < MAX_BATCH_SIZE && more == []))
    ensures Brought(batch + more, k) == batch + Brought(more, k - 1)
    ensures Left(batch + more, k) == Left(more, k - 1)
  {
  }

  lemma FirstOf(total: nat, batch: seq<int>, more: seq<int>)
    requires batch != [] && (|batch| == MAX_BATCH_SIZE || (|batch| < MAX_BATCH_SIZE && more == []))
    ensures Frame(total, batch + more) == [Msg(total, batch)] + Frame(total, more)
  {
    assert (batch + more)[..|batch|] == batch && (batch + more)[|batch|..] == more;
  }

  lemma Regrouped(total: nat, list: seq<int>, k: nat, later: seq<Msg>)
    requires k <= |Frame(total, list)|
    ensures Frame(total, list) + later == Frame(total, Brought(list, k)) + (Frame(total, Left(list, k)) + later)
  {
    FrameSplits(total, list, k);
    Associates(Frame(total, Brought(list, k)), Frame(total, Left(list, k)), later);
  }

  lemma SplitsAt(total: nat, list: seq<int>, k: nat)
    requires k <= |Frame(total, list)|
    ensures Frame(total, list)[..k] == Frame(total, Brought(list, k))
    ensures Frame(total, list)[k..] == Frame(total, Left(list, k))
  {
    FrameSplits(total, list, k);
  }

  /** One round on a batch of any size, when more than ten files are missing: the batch is filled up
      with what the control buffer held. */
  lemma RoundFillsUp(m: Msg, v: seq<int>, buf: seq<int>)
    requires 0 < |m.files| <= |buf| == MAX_BATCH_SIZE && |v| + MAX_BATCH_SIZE < m.total
    ensures var filled := FilledUp(m.files, buf);
            |filled| == MAX_BATCH_SIZE &&
            RecvRound(m, v, CONTROL_SIZE, buf) == More(v + filled, LengthAfter(CONTROL_SIZE, |m.files|), filled)
  {
    var filled := FilledUp(m.files, buf);
    assert Overwrite(buf, m.files, |m.files|) == filled == filled[..MAX_BATCH_SIZE];
  }

  /** A frame of one message. */
  lemma ReceiveLast(total: nat, rest: seq<int>, v: seq<int>, buf: seq<int>, later: seq<Msg>)
    requires 0 < |rest| <= |buf| == MAX_BATCH_SIZE && |v| + MAX_BATCH_SIZE < total
    ensures var filled := FilledUp(rest, buf);
            |filled| == MAX_BATCH_SIZE && 0 < Fit(LengthAfter(CONTROL_SIZE, |rest|)) &&
            RecvLoop(Frame(total, rest) + later, v, CONTROL_SIZE, buf) ==
            RecvLoop(later, v + filled, LengthAfter(CONTROL_SIZE, |rest|), filled)
  {
    OneMessage(total, rest, later);
    RoundFillsUp(Msg(total, rest), v, buf);
  }

  /** Full batches, received by a call that misses more files. */
  lemma {:induction false} ReceiveTens(total: nat, rest: seq<int>, k: nat, v: seq<int>, buf: seq<int>,
                                       later: seq<Msg>) returns (buf': seq<int>)
    requires |rest| == MAX_BATCH_SIZE * k && |v| + |rest| < total && |buf| == MAX_BATCH_SIZE
    ensures buf' == (buf + rest)[|rest|..]
    ensures RecvLoop(Frame(total, rest) + later, v, CONTROL_SIZE, buf) ==
            RecvLoop(later, v + rest, CONTROL_SIZE, buf')
    decreases k
  {
    if rest == [] {
      assert Frame(total, rest) + later == later && v + rest == v && buf + rest == buf;
      return buf;
    }
    var ten, more := rest[..MAX_BATCH_SIZE], rest[MAX_BATCH_SIZE..];
    FrameConcat(total, rest, later);
    RoundOfFrame(Msg(total, ten), v, CONTROL_SIZE, buf);
    assert v + ten + more == v + rest;
    assert Overwrite(buf, ten, MAX_BATCH_SIZE) == ten;
    buf' := ReceiveTens(total, more, k - 1, v + ten, ten, later);
    assert ten + more == rest && (ten + more)[|more|..] == (buf + rest)[|rest|..];
  }

  /** The end of a frame, received by a call that misses more than it brings. */
  lemma ReceiveShort(total: nat, rest: seq<int>, buf: seq<int>, later: seq<Msg>)
    requires rest != [] && MAX_BATCH_SIZE * |Frame(total, rest)| < total && |buf| == MAX_BATCH_SIZE
    ensures var v := Held(rest, buf);
            |v| == MAX_BATCH_SIZE * |Frame(total, rest)| &&
            RecvLoop(Frame(total, rest) + later, [], CONTROL_SIZE, buf) ==
            RecvLoop(later, v, LengthAfter(CONTROL_SIZE, LastBatch(|rest|)), v[|v| - MAX_BATCH_SIZE..])
  {
    FrameLength(total, rest);
    var c := |Frame(total, rest)| - 1;
    var tens, last := Brought(rest, c), Left(rest, c);
    Regrouped(total, rest, c, later);
    assert [] + tens == tens;
    var held := ReceiveTens(total, tens, c, [], buf, Frame(total, last) + later);
    ReceiveLast(total, last, tens, held, later);
    HeldIs(rest, c, buf);
  }

  lemma HeldIs(rest: seq<int>, c: nat, buf: seq<int>)
    requires |buf| == MAX_BATCH_SIZE && MAX_BATCH_SIZE * c < |rest| <= MAX_BATCH_SIZE * (c + 1)
    ensures |Left(rest, c)| == LastBatch(|rest|)
    ensures var tens := Brought(rest, c);
            var v, filled := Held(rest, buf), FilledUp(Left(rest, c), (buf + tens)[|tens|..]);
            |v| == MAX_BATCH_SIZE * (c + 1) && v == tens + filled && v[|v| - MAX_BATCH_SIZE..] == filled
  {
    assert Batches(|rest|) == c + 1;
    var tens, last := Brought(rest, c), Left(rest, c);
    assert tens + last == rest;
    assert (buf + tens)[|tens|..][|last|..] == (buf + rest)[|rest|..MAX_BATCH_SIZE * (c + 1)];
  }

  /** One round on a full batch, with a control buffer that takes an even number of files. */
  lemma RoundOfTen(m: Msg, v: seq<int>, len: nat, buf: seq<int>)
    requires |buf| == |m.files| == MAX_BATCH_SIZE && |v| < m.total
    requires TakesEven(len)
    ensures var r := RecvRound(m, v, len, buf);
            var held := m.files[..Taking(len)] + buf[Taking(len)..];
            if m.total <= |v| + MAX_BATCH_SIZE then r == Complete(v + held[..m.total - |v|])
            else r.More? && r.v == v + held && r.buf == held && Taking(r.len) == Taking(len)
  {
    var held := m.files[..Taking(len)] + buf[Taking(len)..];
    assert Overwrite(buf, m.files, Delivered(len, m)) == held;
    assert held[..MAX_BATCH_SIZE] == held;
  }

  lemma PatchedFirst(files: seq<int>, p: nat, fill: seq<int>, n: nat)
    requires |fill| == MAX_BATCH_SIZE <= |files| && p <= MAX_BATCH_SIZE && n <= |files|
    ensures var held, more := files[..p] + fill[p..], files[MAX_BATCH_SIZE..];
            Patched(files, p, fill)[..n] ==
            if n <= MAX_BATCH_SIZE then held[..n] else held + Patched(more, p, held)[..n - MAX_BATCH_SIZE]
  {
  }

  lemma PatchedPrefix(files: seq<int>, p: nat, fill: seq<int>, k: nat, n: nat)
    requires |fill| == MAX_BATCH_SIZE && n <= |Brought(files, k)|
    ensures Patched(Brought(files, k), p, fill)[..n] == Patched(files, p, fill)[..n]
  {
  }

  lemma PatchedWhole(files: seq<int>, fill: seq<int>)
    requires |fill| == MAX_BATCH_SIZE
    ensures Patched(files, MAX_BATCH_SIZE, fill) == files
  {
  }

  /** Full batches, received by a call whose missing files end within the last of them: the call
      returns there. */
  lemma {:induction false} ReceiveWithin(total: nat, rest: seq<int>, k: nat, v: seq<int>, len: nat, buf: seq<int>,
                                         later: seq<Msg>)
    requires |rest| == MAX_BATCH_SIZE * k && |v| < total <= |v| + |rest| < total + MAX_BATCH_SIZE
    requires |buf| == MAX_BATCH_SIZE && TakesEven(len)
    ensures RecvLoop(Frame(total, rest) + later, v, len, buf) ==
            Done(v + Patched(rest, Taking(len), buf)[..total - |v|], later)
    decreases k
  {
    var p, more := Taking(len), rest[MAX_BATCH_SIZE..];
    PatchedFirst(rest, p, buf, total - |v|);
    var len' := ReceiveTen(total, rest, v, len, buf, later);
    if k == 1 {
      assert Frame(total, more) + later == later;
    } else {
      var held := rest[..p] + buf[p..];
      ReceiveWithin(total, more, k - 1, v + held, len', held, later);
      Associates(v, held, Patched(more, p, held)[..total - |v| - MAX_BATCH_SIZE]);
    }
  }

  lemma ReceiveTen(total: nat, rest: seq<int>, v: seq<int>, len: nat, buf: seq<int>, later: seq<Msg>)
    returns (len': nat)
    requires |rest| >= MAX_BATCH_SIZE == |buf| && |v| < total && TakesEven(len)
    ensures Taking(len') == Taking(len)
    ensures var held, more := rest[..Taking(len)] + buf[Taking(len)..], Frame(total, rest[MAX_BATCH_SIZE..]) + later;
            RecvLoop(Frame(total, rest) + later, v, len, buf) ==
            if total <= |v| + MAX_BATCH_SIZE then Done(v + held[..total - |v|], more)
            else RecvLoop(more, v + held, len', held)
  {
    var m := Msg(total, rest[..MAX_BATCH_SIZE]);
    FrameConcat(total, rest, later);
    RoundOfTen(m, v, len, buf);
    assert m.files[..Taking(len)] == rest[..Taking(len)];
    var r := RecvRound(m, v, len, buf);
    len' := if r.More? then r.len else len;
  }

  /** A call has returned one of two transfers, and has taken nothing else. */
  predicate InStep(r: Reception, list: seq<int>, next: seq<int>, tail: seq<Msg>) {
    r == Done(list, Frame(|next|, next) + tail) || r == Done(next, tail)
  }

  /** The messages taken when `n` files are missing: at least one. */
  function Messages(n: nat): (k: nat)
    ensures 0 < k && n <= MAX_BATCH_SIZE * k && (n > 0 ==> MAX_BATCH_SIZE * k < n + MAX_BATCH_SIZE)
    ensures n == 0 ==> k == 1
  {
    if n == 0 then 1 else Batches(n)
  }

  /** What a call makes of the transfer of `next` when it holds `v` already, and its control buffer takes
      `p` files of a message and has `fill` behind them: it is undefined, or the call returns as many
      values as `next` has files, and takes only the messages that bring what it misses. */
  function Continued(v: seq<int>, p: nat, fill: seq<int>, next: seq<int>, tail: seq<Msg>): Reception
    requires |fill| == MAX_BATCH_SIZE
  {
    if |next| < |v| then Undefined
    else
      var missing := |next| - |v|;
      Done(v + Patched(next, p, fill)[..missing], Frame(|next|, Left(next, Messages(missing))) + tail)
  }

  lemma RestIsShorter(next: seq<int>, k: nat)
    requires 0 < k && next != []
    ensures |Frame(|next|, Left(next, k))| < |Frame(|next|, next)|
    ensures |Frame(|next|, Left(next, k))| == 0 <==> |next| <= MAX_BATCH_SIZE * k
  {
    FrameLength(|next|, next);
    FrameLength(|next|, Left(next, k));
  }

  /** It is `next`, or anything with the messages of `next` left untouched, only by accident. */
  lemma ContinuedIsTransferIff(c: nat, v: seq<int>, p: nat, fill: seq<int>, next: seq<int>, tail: seq<Msg>,
                               list: seq<int>)
    requires 0 < c && |v| == MAX_BATCH_SIZE * c && |fill| == MAX_BATCH_SIZE
    ensures InStep(Continued(v, p, fill, next, tail), list, next, tail) <==> c == 1 && next == v
  {
    if |v| <= |next| {
      var missing := |next| - |v|;
      var rest := Frame(|next|, Left(next, Messages(missing)));
      RestIsShorter(next, Messages(missing));
      SameBehind(rest, Frame(|next|, next), tail);
      SameBehind(rest, [], tail);
      assert [] + tail == tail;
      assert v + Patched(next, p, fill)[..0] == v;
    }
  }

  lemma SameBehind<T>(a: seq<T>, b: seq<T>, tail: seq<T>)
    ensures |a| != |b| ==> a + tail != b + tail
  {
    assert |a + tail| == |a| + |tail| && |b + tail| == |b| + |tail|;
  }

  /** The next transfer, received by a call that holds values of one that was broken off. */
  lemma NextTransfer(c: nat, v: seq<int>, len: nat, buf: seq<int>, next: seq<int>, tail: seq<Msg>)
    requires 0 < c && |v| == MAX_BATCH_SIZE * c && next != []
    requires |buf| == MAX_BATCH_SIZE && TakesEven(len)
    ensures RecvLoop(Frame(|next|, next) + tail, v, len, buf) == Continued(v, Taking(len), buf, next, tail)
  {
    if |next| <= |v| {
      ShortTransfer(v, len, buf, next, tail);
      assert v + Patched(next, Taking(len), buf)[..0] == v;
    } else {
      LongTransfer(c, v, len, buf, next, tail);
    }
  }

  lemma ShortTransfer(v: seq<int>, len: nat, buf: seq<int>, next: seq<int>, tail: seq<Msg>)
    requires 0 < |next| <= |v| && |buf| == MAX_BATCH_SIZE
    ensures RecvLoop(Frame(|next|, next) + tail, v, len, buf) ==
            if |next| < |v| then Undefined else Done(v, Frame(|next|, Left(next, 1)) + tail)
  {
    var n := Min(|next|, MAX_BATCH_SIZE);
    FrameConcat(|next|, next, tail);
    RoundWithNoneMissing(Msg(|next|, next[..n]), v, len, buf);
  }

  lemma RoundWithNoneMissing(m: Msg, v: seq<int>, len: nat, buf: seq<int>)
    requires m.total <= |v| && |m.files| <= MAX_BATCH_SIZE == |buf|
    ensures RecvRound(m, v, len, buf) == if m.total < |v| then Broken else Complete(v)
  {
    assert v + Overwrite(buf, m.files, Delivered(len, m))[..0] == v;
  }

  lemma LongTransfer(c: nat, v: seq<int>, len: nat, buf: seq<int>, next: seq<int>, tail: seq<Msg>)
    requires 0 < c && |v| == MAX_BATCH_SIZE * c < |next|
    requires |buf| == MAX_BATCH_SIZE && TakesEven(len)
    ensures RecvLoop(Frame(|next|, next) + tail, v, len, buf) == Continued(v, Taking(len), buf, next, tail)
  {
    FrameLength(|next|, next);
    var missing := |next| - |v|;
    var k := Messages(missing);
    var front, rest := Brought(next, k), Frame(|next|, Left(next, k)) + tail;
    calc {
      RecvLoop(Frame(|next|, next) + tail, v, len, buf);
      { Regrouped(|next|, next, k, tail); }
      RecvLoop(Frame(|next|, front) + rest, v, len, buf);
      { ReceiveWithin(|next|, front, k, v, len, buf, rest); }
      Done(v + Patched(front, Taking(len), buf)[..missing], rest);
      { PatchedPrefix(next, Taking(len), buf, k, missing); }
      Continued(v, Taking(len), buf, next, tail);
    }
  }

  /** A transfer of `list` that is broken off after `k` of its messages, for instance because a
      send failed, and the transfer of `next` after it: what the receiver returns. */
  lemma BrokenOffTransfer(list: seq<int>, k: nat, next: seq<int>, tail: seq<Msg>, stale: seq<int>)
    requires 0 < k < |Frame(|list|, list)| && next != [] && |stale| == MAX_BATCH_SIZE
    ensures |Brought(list, k)| == MAX_BATCH_SIZE * k
    ensures RecvLoop(Frame(|list|, list)[..k] + (Frame(|next|, next) + tail), [], CONTROL_SIZE, stale) ==
            Continued(Brought(list, k), MAX_BATCH_SIZE, stale, next, tail)
    ensures |next| >= MAX_BATCH_SIZE * k ==>
              Continued(Brought(list, k), MAX_BATCH_SIZE, stale, next, tail).files ==
              Brought(list, k) + next[..|next| - MAX_BATCH_SIZE * k]
  {
    var held, later := Brought(list, k), Frame(|next|, next) + tail;
    BroughtIs(list, k);
    assert [] + held == held;
    var buf := ReceiveTens(|list|, held, k, [], stale, later);
    NextTransfer(k, held, CONTROL_SIZE, buf, next, tail);
    PatchedWhole(next, buf);
    PatchedWhole(next, stale);
  }

  lemma BroughtIs(list: seq<int>, k: nat)
    requires 0 < k < |Frame(|list|, list)|
    ensures Frame(|list|, list)[..k] == Frame(|list|, Brought(list, k))
    ensures |Brought(list, k)| == MAX_BATCH_SIZE * k < |list|
  {
    FrameLength(|list|, list);
    SplitsAt(|list|, list, k);
  }

  /** After it, `next` or `list` is returned, with nothing else taken, if and only if all or none of
      the messages of `list` were sent; or if, by accident, `next` is the batch that was sent. */
  lemma InStepIff(list: seq<int>, k: nat, next: seq<int>, tail: seq<Msg>, stale: seq<int>)
    requires k <= |Frame(|list|, list)| && list != [] && next != [] && |stale| == MAX_BATCH_SIZE
    ensures var g, f := Frame(|list|, list), Frame(|next|, next);
            InStep(RecvLoop(g[..k] + (f + tail), [], CONTROL_SIZE, stale), list, next, tail) <==>
            k == 0 || k == |g| || (k == 1 && next == Brought(list, 1))
  {
    var g, f := Frame(|list|, list), Frame(|next|, next);
    FrameLength(|list|, list);
    if k == 0 {
      assert g[..0] + (f + tail) == f + tail && [] + next == next;
      ReceiveFrame(|next|, next, [], CONTROL_SIZE, stale, tail);
    } else if k == |g| {
      assert g[..k] == g && [] + list == list;
      ReceiveFrame(|list|, list, [], CONTROL_SIZE, stale, f + tail);
    } else {
      BrokenOffTransfer(list, k, next, tail, stale);
      ContinuedIsTransferIff(k, Brought(list, k), MAX_BATCH_SIZE, stale, next, tail, list);
    }
  }

  lemma TakingAfter(n: nat)
    requires 0 < n <= MAX_BATCH_SIZE
    ensures TakesEven(LengthAfter(CONTROL_SIZE, n)) && Taking(LengthAfter(CONTROL_SIZE, n)) == RoundUp(n)
  {
    assert CmsgSpace(n * INT_SIZE) == CMSG_HEADER + INT_SIZE * (n + n % 2);
  }

  /** What a call makes of the rest of a transfer, `left`, and of the transfer of `next`: it fills
      `left` up with earlier values, and goes on with `next`, whose batches it takes only as far as the
      control length left behind reaches. */
  function Mixture(left: seq<int>, next: seq<int>, tail: seq<Msg>, stale: seq<int>): Reception
    requires left != [] && |stale| == MAX_BATCH_SIZE
  {
    var v, last := Held(left, stale), LastBatch(|left|);
    Continued(v, RoundUp(last), v[|v| - MAX_BATCH_SIZE..], next, tail)
  }

  lemma ReceiveMixture(total: nat, left: seq<int>, next: seq<int>, tail: seq<Msg>, stale: seq<int>)
    requires left != [] && MAX_BATCH_SIZE * |Frame(total, left)| < total && next != [] && |stale| == MAX_BATCH_SIZE
    ensures RecvLoop(Frame(total, left) + (Frame(|next|, next) + tail), [], CONTROL_SIZE, stale) ==
            Mixture(left, next, tail, stale)
  {
    ReceiveShort(total, left, stale, Frame(|next|, next) + tail);
    GoOn(left, next, tail, stale);
  }

  lemma GoOn(left: seq<int>, next: seq<int>, tail: seq<Msg>, stale: seq<int>)
    requires left != [] && next != [] && |stale| == MAX_BATCH_SIZE
    ensures var v := Held(left, stale);
            RecvLoop(Frame(|next|, next) + tail, v, LengthAfter(CONTROL_SIZE, LastBatch(|left|)),
                     v[|v| - MAX_BATCH_SIZE..]) ==
            Mixture(left, next, tail, stale)
  {
    var v, last := Held(left, stale), LastBatch(|left|);
    TakingAfter(last);
    NextTransfer(Batches(|left|), v, LengthAfter(CONTROL_SIZE, last), v[|v| - MAX_BATCH_SIZE..], next, tail);
  }

  lemma LeftIs(list: seq<int>, j: nat)
    requires 0 < j < |Frame(|list|, list)|
    ensures Frame(|list|, list)[j..] == Frame(|list|, Left(list, j)) && Left(list, j) != []
    ensures MAX_BATCH_SIZE * |Frame(|list|, Left(list, j))| < |list|
  {
    FrameLength(|list|, list);
    SplitsAt(|list|, list, j);
  }

  /** A call that failed after it had taken `j` messages of the transfer of `list`, and the next call. */
  lemma BrokenOffReception(list: seq<int>, j: nat, next: seq<int>, tail: seq<Msg>, stale: seq<int>)
    requires 0 < j < |Frame(|list|, list)| && next != [] && |stale| == MAX_BATCH_SIZE
    ensures Left(list, j) != []
    ensures RecvLoop(Frame(|list|, list)[j..] + (Frame(|next|, next) + tail), [], CONTROL_SIZE, stale) ==
            Mixture(Left(list, j), next, tail, stale)
  {
    LeftIs(list, j);
    ReceiveMixture(|list|, Left(list, j), next, tail, stale);
  }

  lemma MixtureIsTransferIff(list: seq<int>, left: seq<int>, next: seq<int>, tail: seq<Msg>, stale: seq<int>)
    requires left != [] && |stale| == MAX_BATCH_SIZE
    ensures InStep(Mixture(left, next, tail, stale), list, next, tail) <==>
            |left| <= MAX_BATCH_SIZE && next == Held(left, stale)
  {
    var v, last := Held(left, stale), LastBatch(|left|);
    ContinuedIsTransferIff(Batches(|left|), v, RoundUp(last), v[|v| - MAX_BATCH_SIZE..], next, tail, list);
  }

  /** That call is in step if and only if the failing one took all messages of `list` or none; or if
      `next` is, by accident, the last batch of `list` filled up from the control buffer. */
  lemma ReceptionInStepIff(list: seq<int>, j: nat, next: seq<int>, tail: seq<Msg>, stale: seq<int>)
    requires j <= |Frame(|list|, list)| && list != [] && next != [] && |stale| == MAX_BATCH_SIZE
    ensures var g, f := Frame(|list|, list), Frame(|next|, next);
            InStep(RecvLoop(g[j..] + (f + tail), [], CONTROL_SIZE, stale), list, next, tail) <==>
            j == 0 || j == |g| || (|Left(list, j)| <= MAX_BATCH_SIZE && next == Held(Left(list, j), stale))
  {
    var g, f := Frame(|list|, list), Frame(|next|, next);
    FrameLength(|list|, list);
    if j == 0 {
      assert g[0..] == g && [] + list == list;
      ReceiveFrame(|list|, list, [], CONTROL_SIZE, stale, f + tail);
    } else if j == |g| {
      assert g[j..] + (f + tail) == f + tail && [] + next == next;
      ReceiveFrame(|next|, next, [], CONTROL_SIZE, stale, tail);
    } else {
      BrokenOffReception(list, j, next, tail, stale);
      MixtureIsTransferIff(list, Left(list, j), next, tail, stale);
    }
  }
}
