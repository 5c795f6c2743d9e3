/** The order of octets on the wire, whatever they contain.

    `OutputOrder` says which octets change places when all of them are different.  The buffer
    looks only at lengths, so the law holds for every content: number the octets in the order
    in which they are written, let the numbers go through the buffer, and read off where each
    octet of the real stream has come from. */
module OctetOrder {
  import opened OutputOrder

  // ---- Relabelling ----

  function MapSeq<T, U>(f: T -> U, s: seq<T>): (r: seq<U>)
    ensures |r| == |s| && forall i :: 0 <= i < |s| ==> r[i] == f(s[i])
  {
    seq(|s|, i requires 0 <= i < |s| => f(s[i]))
  }

  function MapOp<T, U>(f: T -> U, op: Op<T>): Op<U> {
    match op
    case Write(item) => Write(MapSeq(f, item))
    case Flush => Flush
  }

  function MapOps<T, U>(f: T -> U, ops: seq<Op<T>>): (r: seq<Op<U>>)
    ensures |r| == |ops| && forall i :: 0 <= i < |ops| ==> r[i] == MapOp(f, ops[i])
  {
    seq(|ops|, i requires 0 <= i < |ops| => MapOp(f, ops[i]))
  }

  function MapOut<T, U>(f: T -> U, o: Out<T>): Out<U> {
    Out(MapSeq(f, o.sent), MapSeq(f, o.pending), o.spills)
  }

  lemma MapConcat<T, U>(f: T -> U, s: seq<T>, t: seq<T>)
    ensures MapSeq(f, s + t) == MapSeq(f, s) + MapSeq(f, t)
  {
  }

  lemma ApplyCommutes<T, U>(cap: nat, f: T -> U, o: Out<T>, op: Op<T>)
    ensures Apply(cap, MapOut(f, o), MapOp(f, op)) == MapOut(f, Apply(cap, o, op))
  {
    MapConcat(f, o.sent, o.pending);
    MapConcat(f, o.sent, []);
    if op.Write? {
      MapConcat(f, o.sent, op.item);
      MapConcat(f, o.pending, op.item);
    }
  }

  /** The buffer does not look at the octets: what it does commutes with renaming them. */
  lemma {:induction false} RunCommutes<T, U>(cap: nat, f: T -> U, ops: seq<Op<T>>)
    ensures Run(cap, MapOps(f, ops)) == MapOut(f, Run(cap, ops))
  {
    if ops != [] {
      var n := |ops| - 1;
      RunCommutes(cap, f, ops[..n]);
      assert MapOps(f, ops)[..n] == MapOps(f, ops[..n]);
      ApplyCommutes(cap, f, Run(cap, ops[..n]), ops[n]);
    }
  }

  lemma {:induction false} WrittenCommutes<T, U>(f: T -> U, ops: seq<Op<T>>)
    ensures Written(MapOps(f, ops)) == MapSeq(f, Written(ops))
  {
    if ops != [] {
      var n := |ops| - 1;
      WrittenCommutes(f, ops[..n]);
      assert MapOps(f, ops)[..n] == MapOps(f, ops[..n]);
      MapConcat(f, Written(ops[..n]), if ops[n].Write? then ops[n].item else []);
    }
  }

  // ---- Numbering the octets ----

  function Numbers(start: nat, n: nat): (s: seq<nat>)
    ensures |s| == n && forall i :: 0 <= i < n ==> s[i] == start + i
  {
    seq(n, i requires 0 <= i < n => start + i)
  }

  /** The same calls, with every octet replaced by its number in the order of writing. */
  function Labels<T>(ops: seq<Op<T>>): (r: seq<Op<nat>>)
    ensures |r| == |ops|
  {
    if ops == [] then []
    else
      var n := |ops| - 1;
      Labels(ops[..n]) + [if ops[n].Write? then Write(Numbers(|Written(ops[..n])|, |ops[n].item|)) else Flush]
  }

  lemma {:induction false} LabelsPrefix<T>(ops: seq<Op<T>>, j: nat)
    requires j <= |ops|
    ensures Labels(ops)[..j] == Labels(ops[..j])
  {
    if j == |ops| {
      assert ops[..j] == ops;
    } else {
      var n := |ops| - 1;
      LabelsPrefix(ops[..n], j);
      assert ops[..n][..j] == ops[..j];
      assert Labels(ops)[..j] == Labels(ops[..n])[..j];
    }
  }

  lemma {:induction false} LabelsWritten<T>(ops: seq<Op<T>>)
    ensures Written(Labels(ops)) == Numbers(0, |Written(ops)|)
  {
    if ops != [] {
      var n := |ops| - 1;
      LabelsWritten(ops[..n]);
      LabelsPrefix(ops, n);
    }
  }

  lemma LabelsDistinct<T>(ops: seq<Op<T>>)
    ensures Distinct(Written(Labels(ops)))
  {
    LabelsWritten(ops);
  }

  /** `f` gives each number the octet it stands for. */
  predicate Names<T(==)>(f: nat -> T, s: seq<T>) {
    forall i :: 0 <= i < |s| ==> f(i) == s[i]
  }

  lemma {:induction false} LabelsName<T>(f: nat -> T, ops: seq<Op<T>>)
    requires Names(f, Written(ops))
    ensures MapOps(f, Labels(ops)) == ops
  {
    if ops != [] {
      var n := |ops| - 1;
      NumbersName(f, Written(ops[..n]), if ops[n].Write? then ops[n].item else []);
      LabelsName(f, ops[..n]);
      MapSnoc(f, Labels(ops[..n]), Labels(ops)[n]);
      assert ops == ops[..n] + [ops[n]];
    }
  }

  lemma NumbersName<T>(f: nat -> T, before: seq<T>, item: seq<T>)
    requires Names(f, before + item)
    ensures Names(f, before) && MapSeq(f, Numbers(|before|, |item|)) == item
  {
    forall i | 0 <= i < |before|
      ensures f(i) == before[i]
    {
      assert (before + item)[i] == before[i];
    }
    forall i | 0 <= i < |item|
      ensures f(|before| + i) == item[i]
    {
      assert (before + item)[|before| + i] == item[i];
    }
  }

  lemma MapSnoc<T, U>(f: T -> U, ops: seq<Op<T>>, op: Op<T>)
    ensures MapOps(f, ops + [op]) == MapOps(f, ops) + [MapOp(f, op)]
  {
  }

  // ---- Calls of the same shape ----

  predicate SameSize<T, U>(a: Op<T>, b: Op<U>) {
    if a.Write? then b.Write? && |a.item| == |b.item| else b.Flush?
  }

  /** The same calls with other contents. */
  predicate SameShape<T, U>(ops: seq<Op<T>>, other: seq<Op<U>>) {
    |ops| == |other| && forall i :: 0 <= i < |ops| ==> SameSize(ops[i], other[i])
  }

  lemma {:induction false} ShapeDecides<T, U>(cap: nat, ops: seq<Op<T>>, other: seq<Op<U>>)
    requires SameShape(ops, other)
    ensures |Run(cap, ops).pending| == |Run(cap, other).pending|
    ensures Run(cap, ops).spills == Run(cap, other).spills
  {
    if ops != [] {
      var n := |ops| - 1;
      ShapeDecides(cap, ops[..n], other[..n]);
      assert SameSize(ops[n], other[n]);
    }
  }

  lemma ShapeDecidesOvertaking<T, U>(cap: nat, ops: seq<Op<T>>, other: seq<Op<U>>)
    requires SameShape(ops, other) && NeverOvertakes(cap, ops)
    ensures NeverOvertakes(cap, other)
  {
    forall j | 0 <= j < |other| && other[j].Write?
      ensures !Overtaking(cap, Run(cap, other[..j]).pending, other[j].item)
    {
      assert SameSize(ops[j], other[j]);
      ShapeDecides(cap, ops[..j], other[..j]);
      assert !Overtaking(cap, Run(cap, ops[..j]).pending, ops[j].item);
    }
  }

  lemma {:induction false} LabelsShape<T>(ops: seq<Op<T>>)
    ensures SameShape(ops, Labels(ops)) && SameShape(Labels(ops), ops)
  {
    if ops != [] {
      var n := |ops| - 1;
      LabelsShape(ops[..n]);
      LabelsPrefix(ops, n);
      forall i | 0 <= i < |ops|
        ensures SameSize(ops[i], Labels(ops)[i]) && SameSize(Labels(ops)[i], ops[i])
      {
        if i < n {
          assert SameSize(ops[..n][i], Labels(ops[..n])[i]) && SameSize(Labels(ops[..n])[i], ops[..n][i]);
          assert Labels(ops)[..n][i] == Labels(ops[..n])[i];
        }
      }
    }
  }

  lemma MapShape<T, U>(f: T -> U, ops: seq<Op<T>>)
    ensures SameShape(ops, MapOps(f, ops))
  {
    assert forall i :: 0 <= i < |ops| ==> SameSize(ops[i], MapOp(f, ops[i]));
  }

  lemma {:induction false} ShapeTransitive<T, U, V>(a: seq<Op<T>>, b: seq<Op<U>>, c: seq<Op<V>>)
    requires SameShape(a, b) && SameShape(b, c)
    ensures SameShape(a, c)
  {
    forall i | 0 <= i < |a|
      ensures SameSize(a[i], c[i])
    {
      assert SameSize(a[i], b[i]) && SameSize(b[i], c[i]);
    }
  }

  // ---- The order of the wire ----

  /** For each octet of the wire, its number in the order of writing. */
  function Order<T>(cap: nat, ops: seq<Op<T>>): seq<nat> {
    WireOrder(Run(cap, Labels(ops)))
  }

  /** The numbers of the octets pending. */
  function PendingNumbers<T>(cap: nat, ops: seq<Op<T>>): seq<nat> {
    Run(cap, Labels(ops)).pending
  }

  lemma OrderLength<T>(cap: nat, ops: seq<Op<T>>)
    ensures |Order(cap, ops)| == |Written(ops)|
    ensures multiset(Order(cap, ops)) == multiset(Numbers(0, |Written(ops)|))
  {
    RunPermutes(cap, Labels(ops));
    LabelsWritten(ops);
    assert |multiset(Order(cap, ops))| == |Order(cap, ops)|;
    assert |multiset(Numbers(0, |Written(ops)|))| == |Written(ops)|;
  }

  lemma OrderInRange<T>(cap: nat, ops: seq<Op<T>>, p: nat)
    requires p < |Order(cap, ops)|
    ensures Order(cap, ops)[p] < |Written(ops)|
  {
    OrderLength(cap, ops);
    assert Order(cap, ops)[p] in multiset(Order(cap, ops));
  }

  /** `Order` is a permutation of the numbers, and the wire carries the octets in that order; the
      pending octets likewise. */
  lemma OrderDescribesWire<T>(cap: nat, ops: seq<Op<T>>)
    ensures |Order(cap, ops)| == |WireOrder(Run(cap, ops))| == |Written(ops)|
    ensures multiset(Order(cap, ops)) == multiset(Numbers(0, |Written(ops)|))
    ensures forall p :: 0 <= p < |Written(ops)| ==>
              Order(cap, ops)[p] < |Written(ops)| &&
              WireOrder(Run(cap, ops))[p] == Written(ops)[Order(cap, ops)[p]]
    ensures |PendingNumbers(cap, ops)| == |Run(cap, ops).pending|
  {
    OrderLength(cap, ops);
    LabelsShape(ops);
    ShapeDecides(cap, ops, Labels(ops));
    if Written(ops) == [] {
      RunPermutes(cap, ops);
      assert |multiset(WireOrder(Run(cap, ops)))| == 0;
    } else {
      var w := Written(ops);
      var f := (i: nat) => if i < |w| then w[i] else w[0];
      LabelsName(f, ops);
      RunCommutes(cap, f, Labels(ops));
      MapConcat(f, Run(cap, Labels(ops)).sent, Run(cap, Labels(ops)).pending);
      forall p | 0 <= p < |w|
        ensures Order(cap, ops)[p] < |w| && WireOrder(Run(cap, ops))[p] == w[Order(cap, ops)[p]]
      {
        OrderInRange(cap, ops, p);
      }
    }
  }

  /** The call that wrote octet `b` was oversized and found octet `a` pending. */
  ghost predicate OvertakesAt<T>(cap: nat, ops: seq<Op<T>>, j: nat, a: nat, b: nat)
    requires j < |ops|
  {
    var start := |Written(ops[..j])|;
    ops[j].Write? && |ops[j].item| >= cap && start <= b < start + |ops[j].item| &&
    a in PendingNumbers(cap, ops[..j])
  }

  lemma {:induction false} LabelAt<T>(ops: seq<Op<T>>, j: nat)
    requires j < |ops|
    ensures Labels(ops)[j] ==
              if ops[j].Write? then Write(Numbers(|Written(ops[..j])|, |ops[j].item|)) else Flush
  {
    LabelsPrefix(ops, j + 1);
    assert ops[..j + 1][..j] == ops[..j];
    assert Labels(ops)[j] == Labels(ops)[..j + 1][j];
  }

  lemma OvertakesAtIsLabelled<T>(cap: nat, ops: seq<Op<T>>, j: nat, a: nat, b: nat)
    requires j < |ops|
    ensures OvertakesAt(cap, ops, j, a, b) <==> OvertookAt(cap, Labels(ops), j, a, b)
  {
    LabelAt(ops, j);
    LabelsPrefix(ops, j);
    if ops[j].Write? {
      var start, item := |Written(ops[..j])|, Labels(ops)[j].item;
      assert start <= b < start + |item| ==> item[b - start] == b;
    }
  }

  /** The reordering law.  Take any run and any two octets of it, `b` written after `a`: on the
      wire `b` comes before `a` exactly when `b` came in an oversized item while `a` was pending. */
  lemma InversionLaw<T>(cap: nat, ops: seq<Op<T>>, a: nat, b: nat)
    requires a < b < |Written(ops)|
    ensures Precedes(Order(cap, ops), b, a) <==> exists j :: 0 <= j < |ops| && OvertakesAt(cap, ops, j, a, b)
    ensures Precedes(Order(cap, ops), a, b) <==> !Precedes(Order(cap, ops), b, a)
  {
    var labels := Labels(ops);
    LabelsDistinct(ops);
    LabelsWritten(ops);
    assert Written(labels)[a] == a && Written(labels)[b] == b;
    LabelInversion(cap, labels, a, b);
    forall j | 0 <= j < |ops|
      ensures OvertakesAt(cap, ops, j, a, b) <==> OvertookAt(cap, labels, j, a, b)
    {
      OvertakesAtIsLabelled(cap, ops, j, a, b);
    }
    if Overtook(cap, labels, a, b) {
      var j :| 0 <= j < |labels| && OvertookAt(cap, labels, j, a, b);
      assert OvertakesAt(cap, ops, j, a, b);
    }
  }

  /** No octet changes its place exactly when no write takes the overtaking branch. */
  lemma OrderKeptIff<T>(cap: nat, ops: seq<Op<T>>)
    ensures Order(cap, ops) == Numbers(0, |Written(ops)|) <==> NeverOvertakes(cap, ops)
  {
    LabelsDistinct(ops);
    LabelsWritten(ops);
    LabelsShape(ops);
    LabelFifoIff(cap, Labels(ops));
    if NeverOvertakes(cap, ops) {
      ShapeDecidesOvertaking(cap, ops, Labels(ops));
    } else if NeverOvertakes(cap, Labels(ops)) {
      ShapeDecidesOvertaking(cap, Labels(ops), ops);
    }
  }

  /** Calls of given sizes deliver every content in the order in which it was written exactly when
      no write of them takes the overtaking branch.  `u0` and `u1` are any two octets. */
  lemma FifoIffNeverOvertakes<T, U(!new)>(cap: nat, ops: seq<Op<T>>, u0: U, u1: U)
    requires u0 != u1
    ensures NeverOvertakes(cap, ops) <==>
            forall other: seq<Op<U>> :: SameShape(ops, other) ==> WireOrder(Run(cap, other)) == Written(other)
  {
    if NeverOvertakes(cap, ops) {
      forall other: seq<Op<U>> | SameShape(ops, other)
        ensures WireOrder(Run(cap, other)) == Written(other)
      {
        ShapeDecidesOvertaking(cap, ops, other);
        FifoUnlessOvertaking(cap, other);
      }
    } else {
      var other := OutOfOrder(cap, ops, u0, u1);
    }
  }

  /** A content that shows the change of order: one octet that has moved, singled out. */
  lemma OutOfOrder<T, U>(cap: nat, ops: seq<Op<T>>, u0: U, u1: U) returns (other: seq<Op<U>>)
    requires u0 != u1 && !NeverOvertakes(cap, ops)
    ensures SameShape(ops, other) && WireOrder(Run(cap, other)) != Written(other)
  {
    var n := |Written(ops)|;
    OrderKeptIff(cap, ops);
    OrderLength(cap, ops);
    var p :| 0 <= p < n && Order(cap, ops)[p] != p;
    var q := Order(cap, ops)[p];
    var f := (i: nat) => if i == q then u1 else u0;
    var labels := Labels(ops);
    other := MapOps(f, labels);
    LabelsShape(ops);
    MapShape(f, labels);
    ShapeTransitive(ops, labels, other);
    RunCommutes(cap, f, labels);
    MapConcat(f, Run(cap, labels).sent, Run(cap, labels).pending);
    WrittenCommutes(f, labels);
    LabelsWritten(ops);
    assert WireOrder(Run(cap, other))[p] == f(q) && Written(other)[p] == f(p);
  }
}
