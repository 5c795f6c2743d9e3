/** The order in which a coalescing output buffer puts octets on the wire.

    `write_output_buffer` appends small items to a buffer of fixed capacity, sends the buffer
    when the next item would fill it, and hands an item at least as large as the buffer
    straight to the socket, without first sending what is pending.  Only lengths matter for
    that, so everything here is generic in the type of an octet; labelling octets with
    distinct values is what makes it possible to say which of them changed places. */
module OutputOrder {
  datatype Op<T> = Write(item: seq<T>) | Flush

  /** `sent`: everything given to the socket; `pending`: the output buffer; `spills`: how often
      `write_output_buffer` called `send_all`. */
  datatype Out<T> = Out(sent: seq<T>, pending: seq<T>, spills: nat)

  datatype Effect<T> = Effect(emitted: seq<T>, pending: seq<T>)

  /** What one write sends, and what it leaves in the buffer. */
  function AfterWrite<T>(cap: nat, pending: seq<T>, item: seq<T>): Effect<T> {
    if |item| >= cap then Effect(item, pending)
    else if |pending| + |item| >= cap then Effect(pending, item)
    else Effect([], pending + item)
  }

  /** The buffer is never full; a buffer without capacity stays empty. */
  predicate Fits<T>(cap: nat, pending: seq<T>) {
    |pending| < cap || pending == []
  }

  function Apply<T>(cap: nat, o: Out<T>, op: Op<T>): Out<T> {
    match op
    case Flush => Out(o.sent + o.pending, [], o.spills)
    case Write(item) =>
      var e := AfterWrite(cap, o.pending, item);
      var spilled := |item| >= cap || |o.pending| + |item| >= cap;
      Out(o.sent + e.emitted, e.pending, o.spills + if spilled then 1 else 0)
  }

  function Run<T>(cap: nat, ops: seq<Op<T>>): Out<T> {
    if ops == [] then Out([], [], 0) else Apply(cap, Run(cap, ops[..|ops| - 1]), ops[|ops| - 1])
  }

  /** The octets written, in the order of the calls. */
  function Written<T>(ops: seq<Op<T>>): seq<T> {
    if ops == [] then []
    else
      var op := ops[|ops| - 1];
      Written(ops[..|ops| - 1]) + if op.Write? then op.item else []
  }

  /** The order in which the peer will see the octets, once the buffer is flushed. */
  function WireOrder<T>(o: Out<T>): seq<T> {
    o.sent + o.pending
  }

  /** The guard of the branch that breaks the order: an oversized item, and octets pending. */
  predicate Overtaking<T>(cap: nat, pending: seq<T>, item: seq<T>) {
    |item| >= cap && pending != []
  }

  ghost predicate NeverOvertakes<T>(cap: nat, ops: seq<Op<T>>) {
    forall j :: 0 <= j < |ops| && ops[j].Write? ==> !Overtaking(cap, Run(cap, ops[..j]).pending, ops[j].item)
  }

  lemma {:induction false} PendingFits<T>(cap: nat, ops: seq<Op<T>>)
    ensures Fits(cap, Run(cap, ops).pending)
  {
    if ops != [] {
      PendingFits(cap, ops[..|ops| - 1]);
    }
  }

  // ---- What a single write does to the order ----

  /** An item goes to the end of the order, except that an oversized one is inserted in front
      of exactly the octets pending. */
  lemma WriteInserts<T>(cap: nat, o: Out<T>, item: seq<T>)
    ensures var overtaken := if |item| >= cap then o.pending else [];
            exists before ::
              before + overtaken == WireOrder(o) &&
              before + item + overtaken == WireOrder(Apply(cap, o, Write(item)))
  {
    var after := WireOrder(Apply(cap, o, Write(item)));
    if |item| >= cap {
      assert o.sent + item + o.pending == after;
    } else {
      assert WireOrder(o) + [] == WireOrder(o);
      if |o.pending| + |item| >= cap {
        assert WireOrder(o) + item + [] == after;
      } else {
        assert o.sent + [] + (o.pending + item) == WireOrder(o) + item;
        assert WireOrder(o) + item + [] == after;
      }
    }
  }

  /** An item that fits is a flush, if it is needed to make room, and an append. */
  lemma WriteSmall<T>(cap: nat, o: Out<T>, item: seq<T>)
    requires |item| < cap
    ensures Apply(cap, o, Write(item)) ==
              if |o.pending| + |item| >= cap
              then Out(Apply(cap, o, Flush).sent, Apply(cap, o, Flush).pending + item, o.spills + 1)
              else Out(o.sent, o.pending + item, o.spills)
  {
  }

  /** An oversized item goes past what is pending. */
  lemma WriteLarge<T>(cap: nat, o: Out<T>, item: seq<T>)
    requires |item| >= cap
    ensures Apply(cap, o, Write(item)) == Out(o.sent + item, o.pending, o.spills + 1)
  {
  }

  /** The buffer sends as late as it can: a write sends something exactly if its item does not fit
      behind what is pending with an octet to spare.  An item that is not oversized is never sent
      itself, and what is sent in front of it is all that was pending; an oversized one leaves what is
      pending alone. */
  lemma SendsAsLateAsPossible<T>(cap: nat, o: Out<T>, item: seq<T>)
    ensures var o' := Apply(cap, o, Write(item));
            o'.spills == o.spills + (if |o.pending| + |item| >= cap || |item| >= cap then 1 else 0) &&
            (o'.spills == o.spills ==> o'.sent == o.sent && o'.pending == o.pending + item) &&
            (|item| >= cap ==> o'.sent == o.sent + item && o'.pending == o.pending) &&
            (|item| < cap && o'.spills != o.spills ==> o'.sent == o.sent + o.pending && o'.pending == item)
  {
  }

  /** A spill is never empty, whatever the item that causes it. */
  lemma SpillNotEmpty<T>(cap: nat, o: Out<T>, item: seq<T>)
    requires Fits(cap, o.pending) && |item| < cap
    requires Apply(cap, o, Write(item)).spills != o.spills
    ensures |o.sent| < |Apply(cap, o, Write(item)).sent|
  {
  }

  /** A write that fails after `k` octets of what it has to send, and is then repeated with
      success, sends those `k` octets twice: the result is that of one successful write
      exactly when nothing had been sent. */
  lemma RetriedWriteDuplicates<T>(cap: nat, o: Out<T>, op: Op<T>, k: nat)
    requires k <= |Apply(cap, o, op).sent| - |o.sent|
    ensures var partial := o.(sent := Apply(cap, o, op).sent[..|o.sent| + k]);
            Apply(cap, partial, op).sent == partial.sent + Apply(cap, o, op).sent[|o.sent|..] &&
            (WireOrder(Apply(cap, partial, op)) == WireOrder(Apply(cap, o, op)) <==> k == 0)
  {
    var clean := Apply(cap, o, op);
    var emitted := clean.sent[|o.sent|..];
    assert clean.sent == o.sent + emitted;
    var partial := o.(sent := clean.sent[..|o.sent| + k]);
    var twice := Apply(cap, partial, op);
    assert twice.sent == partial.sent + emitted;
    assert |WireOrder(twice)| == |WireOrder(clean)| + k;
    if k == 0 { assert partial.sent == o.sent; }
  }

  // ---- Whole runs ----

  /** Nothing is lost or invented: the octets sent and pending are those written. */
  lemma {:induction false} RunPermutes<T>(cap: nat, ops: seq<Op<T>>)
    ensures multiset(WireOrder(Run(cap, ops))) == multiset(Written(ops))
  {
    if ops != [] {
      var n := |ops| - 1;
      RunPermutes(cap, ops[..n]);
      var o := Run(cap, ops[..n]);
      if ops[n].Write? {
        WritePermutes(cap, o, ops[n].item);
        assert Written(ops) == Written(ops[..n]) + ops[n].item;
      } else {
        assert WireOrder(Run(cap, ops)) == WireOrder(o);
        assert Written(ops) == Written(ops[..n]);
      }
    }
  }

  lemma WritePermutes<T>(cap: nat, o: Out<T>, item: seq<T>)
    ensures multiset(WireOrder(Apply(cap, o, Write(item)))) == multiset(WireOrder(o)) + multiset(item)
  {
    WriteInserts(cap, o, item);
    var overtaken := if |item| >= cap then o.pending else [];
    var before :| before + overtaken == WireOrder(o) &&
                  before + item + overtaken == WireOrder(Apply(cap, o, Write(item)));
  }

  lemma NeverOvertakesPrefix<T>(cap: nat, ops: seq<Op<T>>)
    requires ops != [] && NeverOvertakes(cap, ops)
    ensures NeverOvertakes(cap, ops[..|ops| - 1])
    ensures ops[|ops| - 1].Write? ==>
              !Overtaking(cap, Run(cap, ops[..|ops| - 1]).pending, ops[|ops| - 1].item)
  {
    var n := |ops| - 1;
    forall j | 0 <= j < n && ops[..n][j].Write?
      ensures !Overtaking(cap, Run(cap, ops[..n][..j]).pending, ops[..n][j].item)
    {
      assert ops[..n][..j] == ops[..j];
    }
  }

  lemma WriteAppends<T>(cap: nat, o: Out<T>, item: seq<T>)
    requires !Overtaking(cap, o.pending, item)
    ensures WireOrder(Apply(cap, o, Write(item))) == WireOrder(o) + item
  {
  }

  /** The buffer is a plain FIFO as long as no write takes the overtaking branch. */
  lemma {:induction false} FifoUnlessOvertaking<T>(cap: nat, ops: seq<Op<T>>)
    requires NeverOvertakes(cap, ops)
    ensures WireOrder(Run(cap, ops)) == Written(ops)
  {
    if ops != [] {
      var n := |ops| - 1;
      NeverOvertakesPrefix(cap, ops);
      FifoUnlessOvertaking(cap, ops[..n]);
      var o := Run(cap, ops[..n]);
      if ops[n].Write? {
        WriteAppends(cap, o, ops[n].item);
      } else {
        assert WireOrder(Run(cap, ops)) == WireOrder(o);
      }
    }
  }

  /** With a capacity of at most one nothing is ever pending, so no write can overtake. */
  lemma {:induction false} TinyBufferNeverOvertakes<T>(cap: nat, ops: seq<Op<T>>)
    requires cap <= 1
    ensures NeverOvertakes(cap, ops)
  {
    forall j | 0 <= j < |ops| && ops[j].Write?
      ensures !Overtaking(cap, Run(cap, ops[..j]).pending, ops[j].item)
    {
      PendingFits(cap, ops[..j]);
    }
  }

  /** Coalescing pays: each `send_all` from `write_output_buffer` is paid for by half a
      capacity of octets written. */
  lemma {:induction false} AmortisedSends<T>(cap: nat, ops: seq<Op<T>>)
    ensures Run(cap, ops).spills * cap + |Run(cap, ops).pending| <= 2 * |Written(ops)|
  {
    if ops != [] {
      var n := |ops| - 1;
      AmortisedSends(cap, ops[..n]);
      var o := Run(cap, ops[..n]);
      if ops[n].Write? {
        WritePaysForSpill(cap, o, ops[n].item);
      }
    }
  }

  /** A write that spills brings along half of what the spill costs. */
  lemma WritePaysForSpill<T>(cap: nat, o: Out<T>, item: seq<T>)
    ensures var o' := Apply(cap, o, Write(item));
            o'.spills * cap + |o'.pending| <= o.spills * cap + |o.pending| + 2 * |item|
  {
    assert (o.spills + 1) * cap == o.spills * cap + cap;
  }

  // ---- Which octets change places ----

  ghost predicate Distinct<T(!new)>(s: seq<T>) {
    forall i, j :: 0 <= i < j < |s| ==> s[i] != s[j]
  }

  ghost predicate Precedes<T(!new)>(s: seq<T>, x: T, y: T) {
    exists i, j :: 0 <= i < j < |s| && s[i] == x && s[j] == y
  }

  /** `y` came in an oversized item while `x` was pending. */
  ghost predicate OvertookAt<T(!new)>(cap: nat, ops: seq<Op<T>>, j: nat, x: T, y: T)
    requires j < |ops|
  {
    ops[j].Write? && |ops[j].item| >= cap && y in ops[j].item && x in Run(cap, ops[..j]).pending
  }

  ghost predicate Overtook<T(!new)>(cap: nat, ops: seq<Op<T>>, x: T, y: T) {
    exists j :: 0 <= j < |ops| && OvertookAt(cap, ops, j, x, y)
  }

  lemma DistinctPermutation<T(!new)>(s: seq<T>, t: seq<T>)
    requires multiset(s) == multiset(t) && Distinct(s)
    ensures Distinct(t)
  {
    forall i, j | 0 <= i < j < |t|
      ensures t[i] != t[j]
    {
      if t[i] == t[j] {
        assert t == t[..i] + [t[i]] + t[i + 1..j] + [t[j]] + t[j + 1..];
        assert multiset(t)[t[i]] >= 2;
        DistinctCount(s, t[i]);
      }
    }
  }

  lemma {:induction false} DistinctCount<T(!new)>(s: seq<T>, x: T)
    requires Distinct(s)
    ensures multiset(s)[x] <= 1
  {
    if s != [] {
      var n := |s| - 1;
      DistinctCount(s[..n], x);
      assert s == s[..n] + [s[n]];
      assert s[n] == x ==> x !in s[..n];
    }
  }

  lemma PrecedesAsymmetric<T(!new)>(s: seq<T>, x: T, y: T)
    requires Distinct(s) && Precedes(s, x, y)
    ensures !Precedes(s, y, x)
  {
  }

  lemma PrecedesAcross<T(!new)>(s: seq<T>, t: seq<T>, x: T, y: T)
    requires x in s && y in t
    ensures Precedes(s + t, x, y)
  {
    var i :| 0 <= i < |s| && s[i] == x;
    var j :| 0 <= j < |t| && t[j] == y;
    assert (s + t)[i] == x && (s + t)[|s| + j] == y;
  }

  /** Inserting an item leaves the order of the others as it was. */
  lemma PrecedesInsert<T(!new)>(s: seq<T>, item: seq<T>, t: seq<T>, x: T, y: T)
    requires Precedes(s + t, x, y)
    ensures Precedes(s + item + t, x, y)
  {
    var i, j :| 0 <= i < j < |s + t| && (s + t)[i] == x && (s + t)[j] == y;
    var i' := if i < |s| then i else i + |item|;
    var j' := if j < |s| then j else j + |item|;
    assert (s + item + t)[i'] == x && (s + item + t)[j'] == y;
  }

  /** A pair written across a call boundary, or within one item, or before the last call. */
  lemma PrecedesSplit<T(!new)>(s: seq<T>, item: seq<T>, x: T, y: T)
    requires Precedes(s + item, x, y)
    ensures Precedes(s, x, y) || (x in s && y in item) || Precedes(item, x, y)
  {
    var i, j :| 0 <= i < j < |s + item| && (s + item)[i] == x && (s + item)[j] == y;
    if j < |s| {
      assert s[i] == x && s[j] == y;
    } else if i < |s| {
      assert s[i] == x && item[j - |s|] == y;
    } else {
      assert item[i - |s|] == x && item[j - |s|] == y;
    }
  }

  lemma {:induction false} PendingWasWritten<T(!new)>(cap: nat, ops: seq<Op<T>>, x: T)
    requires x in Run(cap, ops).pending
    ensures x in Written(ops)
  {
    RunPermutes(cap, ops);
    assert x in multiset(WireOrder(Run(cap, ops)));
  }

  lemma {:induction false} WrittenPrefix<T(!new)>(ops: seq<Op<T>>, j: nat, x: T)
    requires j <= |ops| && x in Written(ops[..j])
    ensures x in Written(ops)
    decreases |ops| - j
  {
    if j == |ops| {
      assert ops[..j] == ops;
    } else {
      assert ops[..j + 1][..j] == ops[..j];
      WrittenPrefix(ops, j + 1, x);
    }
  }

  /** The reordering law for octets that can be told apart.  Of two of them, the later written comes
      first on the wire exactly when it belongs to an oversized item that was written while the
      earlier one was pending.  `OctetOrder` carries the law over to octets of any content. */
  lemma LabelInversion<T(!new)>(cap: nat, ops: seq<Op<T>>, x: T, y: T)
    requires Distinct(Written(ops)) && Precedes(Written(ops), x, y)
    ensures Precedes(WireOrder(Run(cap, ops)), y, x) <==> Overtook(cap, ops, x, y)
    ensures Precedes(WireOrder(Run(cap, ops)), x, y) <==> !Overtook(cap, ops, x, y)
  {
    var order := WireOrder(Run(cap, ops));
    RunPermutes(cap, ops);
    DistinctPermutation(Written(ops), order);
    OrderOfPair(cap, ops, x, y);
    if Overtook(cap, ops, x, y) {
      PrecedesAsymmetric(order, y, x);
    } else {
      PrecedesAsymmetric(order, x, y);
    }
  }

  lemma {:induction false} OrderOfPair<T(!new)>(cap: nat, ops: seq<Op<T>>, x: T, y: T)
    requires Distinct(Written(ops)) && Precedes(Written(ops), x, y)
    ensures if Overtook(cap, ops, x, y) then Precedes(WireOrder(Run(cap, ops)), y, x)
            else Precedes(WireOrder(Run(cap, ops)), x, y)
  {
    var n := |ops| - 1;
    var o := Run(cap, ops[..n]);
    var earlier := Written(ops[..n]);
    if ops[n].Flush? {
      assert WireOrder(Run(cap, ops)) == WireOrder(o);
      assert Written(ops) == earlier;
      OrderOfPair(cap, ops[..n], x, y);
      OvertookOlder(cap, ops, x, y);
    } else {
      var item := ops[n].item;
      DistinctPrefix(earlier, item);
      PrecedesSplit(earlier, item, x, y);
      if Precedes(earlier, x, y) {
        OrderOfPair(cap, ops[..n], x, y);
        OvertookOlder(cap, ops, x, y);
        OlderPairKept(cap, o, item, x, y);
        OlderPairKept(cap, o, item, y, x);
      } else {
        OrderOfNewPair(cap, ops, x, y);
      }
    }
  }

  /** The case of a `y` that the last call has written. */
  lemma OrderOfNewPair<T(!new)>(cap: nat, ops: seq<Op<T>>, x: T, y: T)
    requires ops != [] && ops[|ops| - 1].Write? && Distinct(Written(ops))
    requires var n := |ops| - 1;
             Precedes(ops[n].item, x, y) || (x in Written(ops[..n]) && y in ops[n].item)
    ensures if Overtook(cap, ops, x, y) then Precedes(WireOrder(Run(cap, ops)), y, x)
            else Precedes(WireOrder(Run(cap, ops)), x, y)
  {
    var n := |ops| - 1;
    var o, item := Run(cap, ops[..n]), ops[n].item;
    DistinctPrefix(Written(ops[..n]), item);
    OvertookNewest(cap, ops, x, y);
    if Precedes(item, x, y) {
      if x in o.pending {
        PendingWasWritten(cap, ops[..n], x);
      }
      SameItemKept(cap, o, item, x, y);
    } else {
      RunPermutes(cap, ops[..n]);
      assert x in multiset(Written(ops[..n]));
      OrderOfNewOctet(cap, o, item, x, y);
    }
  }

  lemma SameItemKept<T(!new)>(cap: nat, o: Out<T>, item: seq<T>, x: T, y: T)
    requires Precedes(item, x, y)
    ensures Precedes(WireOrder(Apply(cap, o, Write(item))), x, y)
  {
    WriteInserts(cap, o, item);
    var overtaken := if |item| >= cap then o.pending else [];
    var before :| before + overtaken == WireOrder(o) &&
                  before + item + overtaken == WireOrder(Apply(cap, o, Write(item)));
    PrecedesWithin(before, item, overtaken, x, y);
  }

  lemma OrderOfNewOctet<T(!new)>(cap: nat, o: Out<T>, item: seq<T>, x: T, y: T)
    requires x in WireOrder(o) && y in item
    ensures var order := WireOrder(Apply(cap, o, Write(item)));
            if |item| >= cap && x in o.pending then Precedes(order, y, x) else Precedes(order, x, y)
  {
    if |item| < cap {
      WriteAppends(cap, o, item);
      PrecedesAcross(WireOrder(o), item, x, y);
    } else if x in o.pending {
      PrecedesAcross(o.sent + item, o.pending, y, x);
    } else {
      PrecedesAcross(o.sent, item + o.pending, x, y);
      assert o.sent + (item + o.pending) == o.sent + item + o.pending;
    }
  }

  lemma PrecedesWithin<T(!new)>(s: seq<T>, m: seq<T>, t: seq<T>, x: T, y: T)
    requires Precedes(m, x, y)
    ensures Precedes(s + m + t, x, y)
  {
    var i, j :| 0 <= i < j < |m| && m[i] == x && m[j] == y;
    assert (s + m + t)[|s| + i] == x && (s + m + t)[|s| + j] == y;
  }

  /** Octets written by the last call have overtaken what that call has overtaken. */
  lemma OvertookNewest<T(!new)>(cap: nat, ops: seq<Op<T>>, x: T, y: T)
    requires ops != [] && ops[|ops| - 1].Write? && Distinct(Written(ops))
    requires y in ops[|ops| - 1].item
    ensures Overtook(cap, ops, x, y) <==>
              |ops[|ops| - 1].item| >= cap && x in Run(cap, ops[..|ops| - 1]).pending
  {
    var n := |ops| - 1;
    DistinctPrefix(Written(ops[..n]), ops[n].item);
    forall j | 0 <= j < n
      ensures !OvertookAt(cap, ops, j, x, y)
    {
      if OvertookAt(cap, ops, j, x, y) {
        assert ops[..j + 1][..j] == ops[..j];
        assert y in Written(ops[..j + 1]);
        assert ops[..n][..j + 1] == ops[..j + 1];
        WrittenPrefix(ops[..n], j + 1, y);
      }
    }
    assert Overtook(cap, ops, x, y) <==> OvertookAt(cap, ops, n, x, y);
  }

  lemma DistinctPrefix<T(!new)>(s: seq<T>, t: seq<T>)
    requires Distinct(s + t)
    ensures Distinct(s) && forall x :: x in s ==> x !in t
  {
    forall i, j | 0 <= i < j < |s|
      ensures s[i] != s[j]
    {
      assert (s + t)[i] == s[i] && (s + t)[j] == s[j];
    }
    forall i, j | 0 <= i < |s| && 0 <= j < |t|
      ensures s[i] != t[j]
    {
      assert (s + t)[i] == s[i] && (s + t)[|s| + j] == t[j];
    }
  }

  lemma OlderPairKept<T(!new)>(cap: nat, o: Out<T>, item: seq<T>, x: T, y: T)
    ensures Precedes(WireOrder(o), x, y) ==> Precedes(WireOrder(Apply(cap, o, Write(item))), x, y)
  {
    WriteInserts(cap, o, item);
    var overtaken := if |item| >= cap then o.pending else [];
    var before :| before + overtaken == WireOrder(o) &&
                  before + item + overtaken == WireOrder(Apply(cap, o, Write(item)));
    if Precedes(WireOrder(o), x, y) {
      PrecedesInsert(before, item, overtaken, x, y);
    }
  }

  /** The last call can only have overtaken with its own octets. */
  lemma OvertookOlder<T(!new)>(cap: nat, ops: seq<Op<T>>, x: T, y: T)
    requires ops != []
    requires ops[|ops| - 1].Write? ==> y !in ops[|ops| - 1].item
    ensures Overtook(cap, ops, x, y) <==> Overtook(cap, ops[..|ops| - 1], x, y)
  {
    var n := |ops| - 1;
    forall j | 0 <= j < n
      ensures OvertookAt(cap, ops[..n], j, x, y) <==> OvertookAt(cap, ops, j, x, y)
    {
      assert ops[..n][..j] == ops[..j];
    }
    if Overtook(cap, ops, x, y) {
      var j :| 0 <= j < |ops| && OvertookAt(cap, ops, j, x, y);
      assert j < n;
    }
  }

  /** With octets that can be told apart, the buffer is a FIFO exactly when no write takes the
      overtaking branch. */
  lemma LabelFifoIff<T(!new)>(cap: nat, ops: seq<Op<T>>)
    requires Distinct(Written(ops))
    ensures WireOrder(Run(cap, ops)) == Written(ops) <==> NeverOvertakes(cap, ops)
  {
    if NeverOvertakes(cap, ops) {
      FifoUnlessOvertaking(cap, ops);
    } else {
      var j :| 0 <= j < |ops| && ops[j].Write? && Overtaking(cap, Run(cap, ops[..j]).pending, ops[j].item);
      PendingFits(cap, ops[..j]);
      var x, y := Run(cap, ops[..j]).pending[0], ops[j].item[0];
      assert OvertookAt(cap, ops, j, x, y);
      PendingWasWritten(cap, ops[..j], x);
      WrittenAfter(ops, j, x, y);
      LabelInversion(cap, ops, x, y);
      PrecedesAsymmetric(Written(ops), x, y);
    }
  }

  lemma {:induction false} WrittenAfter<T(!new)>(ops: seq<Op<T>>, j: nat, x: T, y: T)
    requires j < |ops| && ops[j].Write? && x in Written(ops[..j]) && y in ops[j].item
    ensures Precedes(Written(ops), x, y)
  {
    var n := |ops| - 1;
    if j == n {
      PrecedesAcross(Written(ops[..n]), ops[n].item, x, y);
    } else {
      assert ops[..n][..j] == ops[..j];
      WrittenAfter(ops[..n], j, x, y);
      var item := if ops[n].Write? then ops[n].item else [];
      PrecedesWithin([], Written(ops[..n]), item, x, y);
      assert [] + Written(ops[..n]) + item == Written(ops);
    }
  }
}
