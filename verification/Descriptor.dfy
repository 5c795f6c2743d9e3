/** The descriptor class.  `live` is the set of all descriptor objects there are, `t` the kernel's
    table of open numbers; every method is proved against `Ownership.Apply`. */
module Descriptor {
  import O = Ownership

  class FdTable {
    var open: set<int>
    ghost var opens: multiset<int>
    ghost var closes: multiset<int>
    ghost var badCloses: nat
    ghost var refusals: nat        // calls of ::dup that have failed
    ghost var file: int -> int     // what a number stands for, when it is open

    /** ::close */
    method Close(fd: int)
      modifies this
      ensures open == old(open) - {fd} && opens == old(opens)
      ensures file == old(file) && refusals == old(refusals)
      ensures if fd in old(open) then closes == old(closes) + multiset{fd} && badCloses == old(badCloses)
              else closes == old(closes) && badCloses == old(badCloses) + 1
    {
      if fd in open {
        open, closes := open - {fd}, closes + multiset{fd};
      } else {
        badCloses := badCloses + 1;
      }
    }

    /** ::dup: a number that is not in use, or -1. */
    method Dup(fd: int) returns (r: int)
      modifies this
      ensures r < 0 || (fd in old(open) && r !in old(open))
      ensures refusals == old(refusals) + if r < 0 then 1 else 0
      ensures if r < 0 then open == old(open) && opens == old(opens)
              else open == old(open) + {r} && opens == old(opens) + multiset{r}
      ensures closes == old(closes) && badCloses == old(badCloses)
      ensures r >= 0 ==> file(r) == old(file)(fd) && forall n :: n != r ==> file(n) == old(file)(n)
    {
      var n: nat :| true;
      if fd in open && n !in open {
        r := n;
        open, opens := open + {r}, opens + multiset{r};
        ghost var was := file;
        file := x => if x == n then was(fd) else was(x);
      } else {
        r := -1;
        refusals := refusals + 1;
      }
    }
  }

  ghost function Abs(live: set<Descriptor>, t: FdTable): O.World<Descriptor>
    reads live, t
  {
    O.World(map d | d in live :: d.fd, t.open, t.opens, t.closes, t.badCloses)
  }

  class Descriptor {
    var fd: int

    constructor (fd: int)
      ensures this.fd == fd
    {
      this.fd := fd;
    }

    /** The move constructor. */
    constructor Move(other: Descriptor, ghost live: set<Descriptor>, ghost t: FdTable)
      requires other in live
      modifies other
      ensures this !in live
      ensures Abs(live + {this}, t) == O.Apply(old(Abs(live, t)), O.Move(this, other))
      ensures fd == old(other.fd) && other.fd == -1
    {
      fd := other.fd;
      new;
      other.fd := -1;
      assert Abs(live + {this}, t).fds == old(Abs(live, t)).fds[this := fd][other := -1];
    }

    /** Move assignment swaps. */
    method MoveAssign(other: Descriptor, ghost live: set<Descriptor>, ghost t: FdTable)
      requires this in live && other in live
      modifies this, other
      ensures Abs(live, t) == O.Apply(old(Abs(live, t)), O.Swap(this, other))
      ensures fd == old(other.fd) && other.fd == old(fd)
    {
      ghost var before: map<Descriptor, int> := Abs(live, t).fds;
      fd, other.fd := other.fd, fd;
      assert Abs(live, t).fds == before[this := before[other]][other := before[this]];
    }

    /** The destructor. */
    method Destroy(t: FdTable, ghost live: set<Descriptor>)
      requires this in live
      modifies t
      ensures Abs(live - {this}, t) == O.Apply(old(Abs(live, t)), O.Destroy(this))
    {
      ghost var before: map<Descriptor, int> := Abs(live, t).fds;
      if fd >= 0 {
        t.Close(fd);
      }
      assert Abs(live - {this}, t).fds == before - {this};
    }

    /** The copy constructor of the classes that call ::dup; `null` when it throws. */
    method Dup(t: FdTable, ghost live: set<Descriptor>) returns (d: Descriptor?, ghost n: int)
      requires this in live
      modifies t
      ensures d == null <==> t.refusals != old(t.refusals)
      ensures d != null ==> fresh(d) && n >= 0 && O.Enabled(old(Abs(live, t)), O.Dup(d, this, n))
      ensures d != null ==> Abs(live + {d}, t) == O.Apply(old(Abs(live, t)), O.Dup(d, this, n))
      ensures d == null ==> Abs(live, t) == old(Abs(live, t))
      ensures d != null ==> d.fd == n != fd && t.file(d.fd) == t.file(fd) == old(t.file)(fd)
    {
      ghost var before: map<Descriptor, int> := Abs(live, t).fds;
      var r := t.Dup(fd);
      n := r;
      d := null;
      if r >= 0 {
        d := new Descriptor(r);
        assert Abs(live + {d}, t).fds == before[d := r];
      }
    }

    /** The copy constructor of `file`, which does not. */
    method FileDup(ghost t: FdTable, ghost live: set<Descriptor>) returns (d: Descriptor?)
      requires this in live
      ensures d == null <==> fd < 0
      ensures d != null ==> d.fd == fd
      ensures d != null ==> fresh(d) && Abs(live + {d}, t) == O.Apply(old(Abs(live, t)), O.FileDup(d, this))
    {
      d := null;
      if fd >= 0 {
        d := new Descriptor(fd);
        assert Abs(live + {d}, t).fds == Abs(live, t).fds[d := fd];
      }
    }
  }
}
