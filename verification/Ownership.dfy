/** Who owns which file descriptor: the objects of a program, the kernel's table of open
    descriptors, and what creating, moving, swapping, duplicating and destroying objects does
    to both. */
module Ownership {
  /** `fds`: the live objects and the number each holds, negative for none; `open`: the numbers
      that are open; `opens`, `closes`: how often each number has been opened and closed;
      `badCloses`: closes of a number that was not open. */
  datatype World<O> = World(
    fds: map<O, int>,
    open: set<int>,
    opens: multiset<int>,
    closes: multiset<int>,
    badCloses: nat)

  function EmptyWorld<O>(): World<O> {
    World(map[], {}, multiset{}, multiset{}, 0)
  }

  /** `Acquire` constructs an object from a number that the kernel has just returned (negative on
      failure); `Dup` likewise from ::dup, throwing on failure.  `Wrap` constructs one from a
      number that comes from anywhere, and `FileDup` is the copy constructor behind
      `file::dup`, which wraps the number of the other object. */
  datatype Op<O> =
    | Acquire(o: O, fd: int)
    | Wrap(o: O, fd: int)
    | Move(o: O, from: O)
    | Swap(a: O, b: O)
    | Dup(o: O, from: O, fd: int)
    | FileDup(o: O, from: O)
    | Destroy(o: O)

  predicate Enabled<O(==)>(w: World<O>, op: Op<O>) {
    match op
    case Acquire(o, fd) => o !in w.fds && (fd < 0 || fd !in w.open)
    case Wrap(o, _) => o !in w.fds
    case Move(o, from) => o !in w.fds && from in w.fds
    case Swap(a, b) => a in w.fds && b in w.fds
    case Dup(o, from, fd) =>
      o !in w.fds && from in w.fds && (fd < 0 || (fd !in w.open && w.fds[from] in w.open))
    case FileDup(o, from) => o !in w.fds && from in w.fds
    case Destroy(o) => o in w.fds
  }

  function Opened<O>(w: World<O>, fd: int): World<O> {
    if fd < 0 then w else w.(open := w.open + {fd}, opens := w.opens + multiset{fd})
  }

  /** ::close */
  function Closed<O>(w: World<O>, fd: int): World<O> {
    if fd in w.open then w.(open := w.open - {fd}, closes := w.closes + multiset{fd})
    else w.(badCloses := w.badCloses + 1)
  }

  function Apply<O(==)>(w: World<O>, op: Op<O>): World<O>
    requires Enabled(w, op)
  {
    match op
    case Acquire(o, fd) => Opened(w, fd).(fds := w.fds[o := fd])
    case Wrap(o, fd) => w.(fds := w.fds[o := fd])
    case Move(o, from) => w.(fds := w.fds[o := w.fds[from]][from := -1])
    case Swap(a, b) => w.(fds := w.fds[a := w.fds[b]][b := w.fds[a]])
    case Dup(o, from, fd) => if fd < 0 then w else Opened(w, fd).(fds := w.fds[o := fd])
    case FileDup(o, from) => if w.fds[from] < 0 then w else w.(fds := w.fds[o := w.fds[from]])
    case Destroy(o) =>
      var w' := if w.fds[o] >= 0 then Closed(w, w.fds[o]) else w;
      w'.(fds := w.fds - {o})
  }

  /** No two objects hold the same number. */
  ghost predicate OneOwner<O>(fds: map<O, int>) {
    forall a, b :: a in fds && b in fds && a != b && fds[a] >= 0 ==> fds[a] != fds[b]
  }

  ghost predicate Owned<O>(fds: map<O, int>, n: int) {
    exists o :: o in fds && fds[o] == n
  }

  /** The open numbers are the numbers held. */
  ghost predicate OpenIsOwned<O>(fds: map<O, int>, open: set<int>) {
    forall n :: n in open <==> n >= 0 && Owned(fds, n)
  }

  ghost predicate Balanced<O>(w: World<O>) {
    w.badCloses == 0 && forall n :: w.opens[n] == w.closes[n] + if n in w.open then 1 else 0
  }

  /** Every open number has exactly one owner, every number held is open, and the books balance. */
  ghost predicate UniquelyOwned<O>(w: World<O>) {
    OneOwner(w.fds) && OpenIsOwned(w.fds, w.open) && Balanced(w)
  }

  predicate Disciplined<O>(op: Op<O>) {
    !op.Wrap? && !op.FileDup?
  }

  lemma AcquireKeeps<O>(w: World<O>, o: O, fd: int)
    requires UniquelyOwned(w) && Enabled(w, Acquire(o, fd))
    ensures UniquelyOwned(Opened(w, fd).(fds := w.fds[o := fd]))
  {
    var w' := Opened(w, fd).(fds := w.fds[o := fd]);
    HeldIsOpen(w);
    assert Balanced(w');
    forall n
      ensures Owned(w'.fds, n) <==> n == fd || Owned(w.fds, n)
    {
      OwnedAfterSet(w.fds, o, fd, n);
    }
  }

  /** Giving a number to a new object. */
  lemma OwnedAfterSet<O>(fds: map<O, int>, o: O, fd: int, n: int)
    requires o !in fds
    ensures Owned(fds[o := fd], n) <==> n == fd || Owned(fds, n)
  {
    var fds' := fds[o := fd];
    assert o in fds';
    if Owned(fds, n) {
      var p :| p in fds && fds[p] == n;
      assert p in fds';
    }
  }

  lemma HeldIsOpen<O>(w: World<O>)
    requires UniquelyOwned(w)
    ensures forall o :: o in w.fds && w.fds[o] >= 0 ==> w.fds[o] in w.open
  {
    forall o | o in w.fds && w.fds[o] >= 0
      ensures w.fds[o] in w.open
    {
      assert Owned(w.fds, w.fds[o]);
    }
  }

  lemma MoveKeeps<O>(w: World<O>, o: O, from: O)
    requires UniquelyOwned(w) && Enabled(w, Move(o, from))
    ensures UniquelyOwned(Apply(w, Move(o, from)))
  {
    var fds' := Apply(w, Move(o, from)).fds;
    forall n | n >= 0
      ensures Owned(fds', n) <==> Owned(w.fds, n)
    {
      if Owned(w.fds, n) {
        var p :| p in w.fds && w.fds[p] == n;
        assert (if p == from then o else p) in fds';
      }
      if Owned(fds', n) {
        var p :| p in fds' && fds'[p] == n;
        assert (if p == o then from else p) in w.fds;
      }
    }
  }

  lemma SwapKeeps<O>(w: World<O>, a: O, b: O)
    requires UniquelyOwned(w) && Enabled(w, Swap(a, b))
    ensures UniquelyOwned(Apply(w, Swap(a, b)))
  {
    var fds' := Apply(w, Swap(a, b)).fds;
    forall n
      ensures Owned(fds', n) <==> Owned(w.fds, n)
    {
      if Owned(w.fds, n) {
        var p :| p in w.fds && w.fds[p] == n;
        assert (if p == a then b else if p == b then a else p) in fds';
      }
      if Owned(fds', n) {
        var p :| p in fds' && fds'[p] == n;
        assert (if p == a then b else if p == b then a else p) in w.fds;
      }
    }
  }

  lemma DestroyKeeps<O>(w: World<O>, o: O)
    requires UniquelyOwned(w) && o in w.fds
    ensures UniquelyOwned(Apply(w, Destroy(o)))
  {
    HeldIsOpen(w);
    var w' := Apply(w, Destroy(o));
    assert Balanced(w');
    forall n | n >= 0
      ensures Owned(w'.fds, n) <==> Owned(w.fds, n) && n != w.fds[o]
    {
      if Owned(w.fds, n) && n != w.fds[o] {
        var p :| p in w.fds && w.fds[p] == n;
        assert p in w'.fds;
      }
    }
  }

  lemma StepKeeps<O>(w: World<O>, op: Op<O>)
    requires UniquelyOwned(w) && Enabled(w, op) && Disciplined(op)
    ensures UniquelyOwned(Apply(w, op))
  {
    match op
    case Acquire(o, fd) => AcquireKeeps(w, o, fd);
    case Move(o, from) => MoveKeeps(w, o, from);
    case Swap(a, b) => SwapKeeps(w, a, b);
    case Dup(o, from, fd) => if fd >= 0 { AcquireKeeps(w, o, fd); }
    case Destroy(o) => DestroyKeeps(w, o);
  }

  /** The operations can be carried out one after the other. */
  predicate Possible<O(==)>(w: World<O>, ops: seq<Op<O>>)
    decreases |ops|
  {
    ops == [] || (Enabled(w, ops[0]) && Possible(Apply(w, ops[0]), ops[1..]))
  }

  function ApplyAll<O(==)>(w: World<O>, ops: seq<Op<O>>): World<O>
    requires Possible(w, ops)
    decreases |ops|
  {
    if ops == [] then w else ApplyAll(Apply(w, ops[0]), ops[1..])
  }

  lemma {:induction false} RunKeeps<O>(w: World<O>, ops: seq<Op<O>>)
    requires UniquelyOwned(w) && Possible(w, ops)
    requires forall i :: 0 <= i < |ops| ==> Disciplined(ops[i])
    ensures UniquelyOwned(ApplyAll(w, ops))
    decreases |ops|
  {
    if ops != [] {
      StepKeeps(w, ops[0]);
      RunKeeps(Apply(w, ops[0]), ops[1..]);
    }
  }

  lemma NoObjectsNoNumbers<O>(w: World<O>)
    requires OpenIsOwned(w.fds, w.open) && w.fds == map[]
    ensures w.open == {}
  {
    forall n
      ensures n !in w.open
    {
      assert n in w.open ==> Owned(w.fds, n);
    }
  }

  /** No descriptor leaks and none is closed twice: over any run no two live objects hold the same
      open number, nothing that is not open is ever closed, and a number is open exactly if it
      has been opened once more than closed.  When all objects are gone, all is closed. */
  lemma NoLeaksNoDoubleCloses<O>(ops: seq<Op<O>>)
    requires Possible(EmptyWorld<O>(), ops)
    requires forall i :: 0 <= i < |ops| ==> Disciplined(ops[i])
    ensures var w := ApplyAll(EmptyWorld<O>(), ops);
            UniquelyOwned(w) && w.badCloses == 0 &&
            (w.fds == map[] ==> w.open == {} && w.opens == w.closes)
  {
    RunKeeps(EmptyWorld<O>(), ops);
    var w := ApplyAll(EmptyWorld<O>(), ops);
    if w.fds == map[] {
      NoObjectsNoNumbers(w);
      assert forall n :: w.opens[n] == w.closes[n];
    }
  }

  // ---- A file follows its object ----

  /** What the destruction of an object that holds `fd` does to the kernel's table. */
  ghost predicate ClosesOnly<O>(w: World<O>, w': World<O>, fd: int) {
    w'.open == w.open - {fd} && w'.opens == w.opens && w'.badCloses == w.badCloses &&
    w'.closes == if fd >= 0 then w.closes + multiset{fd} else w.closes
  }

  lemma DestroyClosesOnly<O>(w: World<O>, o: O)
    requires UniquelyOwned(w) && o in w.fds
    ensures ClosesOnly(w, Apply(w, Destroy(o)), w.fds[o])
    ensures Apply(w, Destroy(o)).fds == w.fds - {o}
  {
    HeldIsOpen(w);
    if w.fds[o] < 0 {
      assert w.fds[o] !in w.open;
    }
  }

  /** Move construction: destroying the new object closes exactly what the other one held; destroying
      the other one closes nothing. */
  lemma MoveHandsOver<O>(w: World<O>, o: O, from: O)
    requires UniquelyOwned(w) && Enabled(w, Move(o, from))
    ensures var w1 := Apply(w, Move(o, from));
            o in w1.fds && from in w1.fds &&
            ClosesOnly(w, Apply(w1, Destroy(o)), w.fds[from]) && ClosesOnly(w, Apply(w1, Destroy(from)), -1) &&
            w1.fds - {o, from} == w.fds - {from}
  {
    StepKeeps(w, Move(o, from));
    var w1 := Apply(w, Move(o, from));
    DestroyClosesOnly(w1, o);
    DestroyClosesOnly(w1, from);
  }

  /** Move assignment: destroying either object closes exactly what the other one held before; to
      itself, and twice in a row, it changes nothing. */
  lemma SwapExchanges<O>(w: World<O>, a: O, b: O)
    requires UniquelyOwned(w) && Enabled(w, Swap(a, b))
    ensures var w1 := Apply(w, Swap(a, b));
            a in w1.fds && b in w1.fds &&
            ClosesOnly(w, Apply(w1, Destroy(a)), w.fds[b]) && ClosesOnly(w, Apply(w1, Destroy(b)), w.fds[a]) &&
            w1.fds - {a, b} == w.fds - {a, b} && Apply(w1, Swap(a, b)) == w
  {
    StepKeeps(w, Swap(a, b));
    var w1 := Apply(w, Swap(a, b));
    DestroyClosesOnly(w1, a);
    DestroyClosesOnly(w1, b);
    assert Apply(w1, Swap(a, b)).fds == w.fds;
  }

  /** A copy has a number of its own: creating it leaves the other objects alone, and destroying it
      closes this number only. */
  lemma CopyIsIndependent<O>(w: World<O>, o: O, from: O, fd: int)
    requires UniquelyOwned(w) && Enabled(w, Dup(o, from, fd)) && fd >= 0
    ensures var w1 := Apply(w, Dup(o, from, fd));
            o in w1.fds && w1.fds[o] == fd && w1.fds - {o} == w.fds && w1.open == w.open + {fd} &&
            ClosesOnly(w1, Apply(w1, Destroy(o)), fd) &&
            Apply(w1, Destroy(o)).open == w.open && Apply(w1, Destroy(o)).fds == w.fds
  {
    StepKeeps(w, Dup(o, from, fd));
    DestroyClosesOnly(Apply(w, Dup(o, from, fd)), o);
  }

  /** Constructing an object from a number of unknown origin keeps the discipline exactly when
      there is no descriptor behind it. */
  lemma WrapKeepsIff<O>(w: World<O>, o: O, fd: int)
    requires UniquelyOwned(w) && Enabled(w, Wrap(o, fd))
    ensures UniquelyOwned(Apply(w, Wrap(o, fd))) <==> fd < 0
  {
    var fds' := w.fds[o := fd];
    forall n
      ensures Owned(fds', n) <==> n == fd || Owned(w.fds, n)
    {
      OwnedAfterSet(w.fds, o, fd, n);
    }
    if fd >= 0 && Owned(w.fds, fd) {
      var p :| p in w.fds && w.fds[p] == fd;
      assert fds'[p] == fds'[o];
    }
  }

  /** So `file::dup` never keeps it: a `file` always holds a descriptor.  Destroying both objects
      closes it once and then closes a number that is no longer this file's. */
  lemma FileDupClosesTwice<O>(w: World<O>, o: O, from: O)
    requires UniquelyOwned(w) && Enabled(w, FileDup(o, from)) && w.fds[from] >= 0
    ensures var w1 := Apply(w, FileDup(o, from));
            !UniquelyOwned(w1) && Enabled(w1, Destroy(o)) &&
            var w2 := Apply(w1, Destroy(o));
            Enabled(w2, Destroy(from)) && Apply(w2, Destroy(from)).badCloses == 1
  {
    WrapKeepsIff(w, o, w.fds[from]);
    var w1 := Apply(w, FileDup(o, from));
    assert w1 == Apply(w, Wrap(o, w.fds[from]));
  }
}
