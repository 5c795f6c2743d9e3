/** The buffered socket itself, over a connected stream socket. */
module BufferedSocket {
  import opened Bytes
  import opened ByteStream
  import opened Codec
  import opened InputWindow
  import opened OutputOrder

  datatype Transfer = Moved(k: nat) | WouldBlock | Error

  /** What has been asked of a socket: how many calls have failed, not counting those that found
      nothing to receive; how many octets non-blocking and blocking receives were ready to take; and how
      many blocking receives came back with less, or failed. */
  datatype Tally = Tally(failures: nat, offered: nat, asked: nat, cut: nat)

  function Done(t: Tally, ok: bool): Tally {
    t.(failures := t.failures + if ok then 0 else 1)
  }

  function Offered(t: Tally, room: nat, ok: bool): Tally {
    Done(t.(offered := t.offered + room), ok)
  }

  function Asked(t: Tally, n: nat, ok: bool, whole: bool): Tally {
    Done(t.(asked := t.asked + n, cut := t.cut + if whole then 0 else 1), ok)
  }

  /** A connected stream socket as one end sees it: what this end has sent so far, and all the
      octets that the peer will ever send, of which `taken` have been received.  How much of
      the stream has arrived at any moment, how far a call gets, and whether it fails, are
      not determined. */
  class Socket {
    var sent: seq<byte>
    var stream: seq<byte>
    var taken: nat
    ghost var tally: Tally

    constructor (stream: seq<byte>)
      ensures sent == [] && this.stream == stream && taken == 0
    {
      sent, this.stream, taken := [], stream, 0;
      tally := Tally(0, 0, 0, 0);
    }

    ghost predicate Valid()
      reads this
    {
      taken <= |stream|
    }

    /** send(2): at least one octet of a non-empty request, or an error. */
    method Send(buf: array<byte>, lo: nat, n: nat) returns (r: Transfer)
      requires lo + n <= buf.Length
      modifies this`sent, this`tally
      ensures !r.WouldBlock? && tally == Done(old(tally), !r.Error?)
      ensures r.Moved? ==> r.k <= n && (n > 0 ==> r.k > 0) && sent == old(sent) + buf[lo..lo + r.k]
      ensures r.Error? ==> sent == old(sent)
    {
      var fails: bool := *;
      tally := Done(tally, !fails);
      if fails {
        return Error;
      }
      var k: nat :| k <= n && (n > 0 ==> k > 0);
      sent := sent + buf[lo..lo + k];
      r := Moved(k);
    }

    /** recv(2) with MSG_DONTWAIT: some of what has arrived. */
    method RecvNow(buf: array<byte>, lo: nat, n: nat) returns (r: Transfer)
      requires Valid() && lo + n <= buf.Length
      modifies this`taken, this`tally, buf
      ensures tally == Offered(old(tally), n, !r.Error?)
      ensures Valid() && taken == old(taken) + (if r.Moved? then r.k else 0)
      ensures r.Moved? ==> r.k <= n
      ensures buf[..] == old(buf[..lo]) + stream[old(taken)..taken] + old(buf[..])[lo + taken - old(taken)..]
    {
      var choice: int := *;
      if choice == 0 {
        r := WouldBlock;
      } else if choice == 1 {
        r := Error;
      } else {
        var k: nat :| k <= n && taken + k <= |stream|;
        Deposit(buf, lo, k);
        r := Moved(k);
      }
      tally := Offered(tally, n, !r.Error?);
    }

    /** recv(2) with MSG_WAITALL: all that is asked for, except at the end of the stream or when
        a signal cuts the call short. */
    method RecvAll(buf: array<byte>, lo: nat, n: nat) returns (r: Transfer)
      requires Valid() && lo + n <= buf.Length
      modifies this`taken, this`tally, buf
      ensures !r.WouldBlock? && tally == Asked(old(tally), n, !r.Error?, r == Moved(n))
      ensures Valid() && taken == old(taken) + (if r.Moved? then r.k else 0)
      ensures r.Moved? ==> r.k <= n
      ensures buf[..] == old(buf[..lo]) + stream[old(taken)..taken] + old(buf[..])[lo + taken - old(taken)..]
    {
      ghost var before := tally;
      r := RecvNow(buf, lo, n);
      if r.WouldBlock? {
        r := Error;
      }
      tally := Asked(before, n, !r.Error?, r == Moved(n));
    }

    method Deposit(buf: array<byte>, lo: nat, k: nat)
      requires Valid() && taken + k <= |stream| && lo + k <= buf.Length
      modifies this`taken, buf
      ensures Valid() && taken == old(taken) + k
      ensures buf[..] == old(buf[..lo]) + stream[old(taken)..taken] + old(buf[lo + k..])
    {
      forall i | 0 <= i < k {
        buf[lo + i] := stream[taken + i];
      }
      taken := taken + k;
    }
  }

  datatype Extraction = Extracted(chars: seq<byte>) | Interrupted(chars: seq<byte>) | OffTheEnd

  class BufferedSocket {
    var sock: Socket?
    var mem: array?<byte>      // one allocation: the input buffer, then the output buffer
    var inRd: nat
    var inSize: nat
    var inCap: nat
    var outBase: nat           // where the output buffer starts
    var outSize: nat
    var outCap: nat
    ghost var delivered: seq<byte>   // every octet that reads have handed out
    ghost var spills: nat      // how often a write has called `send_all`

    ghost predicate Valid()
      reads this, mem, sock
    {
      Shape() && sock.stream[..sock.taken] == delivered + Window()
    }

    ghost predicate Shape()
      reads this, mem, sock
    {
      mem != null && sock != null && sock.Valid() &&
      mem.Length == inCap + outCap && outBase == inCap &&
      InBounds(Position(), inCap) &&
      (outSize < outCap || outSize == 0)
    }

    function Position(): Cursor
      reads this
    {
      Cursor(inRd, inSize)
    }

    /** The octets received and not yet read. */
    function Window(): seq<byte>
      requires mem != null && inRd <= inSize <= mem.Length
      reads this, mem
    {
      mem[inRd..inSize]
    }

    /** The octets written and not yet sent. */
    function Pending(): seq<byte>
      requires mem != null && outBase + outSize <= mem.Length
      reads this, mem
    {
      mem[outBase..outBase + outSize]
    }

    /** The sending side, as `OutputOrder` describes it. */
    ghost function Output(): Out<byte>
      requires Valid()
      reads this, mem, sock
    {
      Out(sock.sent, Pending(), spills)
    }

    constructor (sock: Socket, inputSize: nat, outputSize: nat)
      requires sock.Valid()
      ensures Valid() && this.sock == sock && fresh(mem)
      ensures inCap == inputSize && outCap == outputSize
      ensures Window() == [] && delivered == sock.stream[..sock.taken]
      ensures Output() == Out(sock.sent, [], 0)
    {
      this.sock := sock;
      mem := new byte[inputSize + outputSize];
      inRd, inSize, inCap := 0, 0, inputSize;
      outBase, outSize, outCap := inputSize, 0, outputSize;
      delivered, spills := sock.stream[..sock.taken], 0;
    }

    /** Taking over another socket's stream in both directions.  The other object gives up its
        buffers and is good for destruction only. */
    constructor Moved(other: BufferedSocket)
      requires other.Valid()
      modifies other
      ensures Valid() && sock == old(other.sock) && mem == old(other.mem)
      ensures inCap == old(other.inCap) && outCap == old(other.outCap)
      ensures Position() == old(other.Position()) && delivered == old(other.delivered)
      ensures Window() == old(other.Window()) && Pending() == old(other.Pending())
      ensures other.mem == null && other.sock == null
    {
      sock, mem := other.sock, other.mem;
      inRd, inSize, inCap := other.inRd, other.inSize, other.inCap;
      outBase, outSize, outCap := other.outBase, other.outSize, other.outCap;
      delivered, spills := other.delivered, other.spills;
      new;
      other.mem, other.sock := null, null;
    }

    /** Move assignment: the socket and the buffers are exchanged, and the indices and capacities copied. */
    method MoveAssign(other: BufferedSocket)
      requires other.Valid()
      modifies this, other
      ensures Valid() && sock == old(other.sock) && mem == old(other.mem)
      ensures inRd == old(other.inRd) && inSize == old(other.inSize) && delivered == old(other.delivered)
      ensures inCap == old(other.inCap) && outCap == old(other.outCap) && spills == old(other.spills)
      ensures outBase == old(other.outBase) && outSize == old(other.outSize)
      ensures this != other ==> other.mem == old(mem) && other.sock == old(sock) && other.outBase == old(outBase)
      ensures this != other ==>
                unchanged(other`inRd, other`inSize, other`inCap, other`outSize, other`outCap)
    {
      ExchangeBuffers(other);
      CopyIndices(other);
    }

    method ExchangeBuffers(other: BufferedSocket)
      modifies this`sock, this`mem, this`outBase, other`sock, other`mem, other`outBase
      ensures sock == old(other.sock) && mem == old(other.mem) && outBase == old(other.outBase)
      ensures other.sock == old(sock) && other.mem == old(mem) && other.outBase == old(outBase)
    {
      sock, other.sock := other.sock, sock;
      mem, other.mem := other.mem, mem;
      outBase, other.outBase := other.outBase, outBase;
    }

    method CopyIndices(other: BufferedSocket)
      modifies this`inRd, this`inSize, this`inCap, this`outSize, this`outCap, this`delivered, this`spills
      ensures inRd == old(other.inRd) && inSize == old(other.inSize) && delivered == old(other.delivered)
      ensures inCap == old(other.inCap) && outCap == old(other.outCap) && spills == old(other.spills)
      ensures outSize == old(other.outSize)
    {
      inRd, inSize, inCap := other.inRd, other.inSize, other.inCap;
      outSize, outCap := other.outSize, other.outCap;
      delivered, spills := other.delivered, other.spills;
    }

    // ---- Output ----

    /** Loops over short sends.  An error may come after some octets have gone out. */
    method SendAll(buf: array<byte>, lo: nat, size: nat) returns (ok: bool, ghost k: nat)
      requires sock != null && lo + size <= buf.Length
      modifies sock`sent, sock`tally
      ensures sock.tally == Done(old(sock.tally), ok)
      ensures k <= size && if ok then k == size else k < size || k == 0
      ensures sock.sent == old(sock.sent) + buf[lo..lo + k]
    {
      var n := 0;
      while true
        invariant (n < size || n == 0) && sock.tally == old(sock.tally)
        invariant sock.sent == old(sock.sent) + buf[lo..lo + n]
        decreases size - n
      {
        var r := sock.Send(buf, lo + n, size - n);
        if r.Error? {
          return false, n;
        }
        Adjoin(old(sock.sent), buf[..], lo, lo + n, lo + n + r.k);
        assert buf[..][lo..lo + n] == buf[lo..lo + n];
        n := n + r.k;
        if n == size {
          return true, n;
        }
      }
    }

    static lemma Adjoin(before: seq<byte>, all: seq<byte>, lo: nat, mid: nat, hi: nat)
      requires lo <= mid <= hi <= |all|
      ensures before + all[lo..mid] + all[mid..hi] == before + all[lo..hi]
    {
      assert all[lo..hi] == all[lo..mid] + all[mid..hi];
    }

    /** What a call of the sending side has made of `o`.  It fails exactly when a call to the socket does;
        then a part of what was to be sent has gone out, and the buffer is as it was. */
    ghost predicate Wrote(ok: bool, o: Out<byte>, tally0: Tally, op: Op<byte>)
      reads this, mem, sock
    {
      Valid() && sock.tally == Done(tally0, ok) &&
      if ok then Output() == Apply(outCap, o, op)
      else Pending() == o.pending && o.sent <= sock.sent <= Apply(outCap, o, op).sent
    }

    /** A write as `OutputOrder.Apply` describes it. */
    method WriteOutputBuffer(buf: array<byte>, size: nat) returns (ok: bool)
      requires Valid() && buf != mem && size <= buf.Length
      modifies this`outSize, this`spills, mem, sock`sent, sock`tally
      ensures Wrote(ok, old(Output()), old(sock.tally), Op.Write(buf[..size])) && Window() == old(Window())
    {
      if size >= outCap {
        ok := Bypass(buf, size);
      } else {
        ok := Coalesce(buf, size);
      }
    }

    /** The branch for an item that fits. */
    method Coalesce(buf: array<byte>, size: nat) returns (ok: bool)
      requires Valid() && buf != mem && size < outCap && size <= buf.Length
      modifies this`outSize, this`spills, mem, sock`sent, sock`tally
      ensures Wrote(ok, old(Output()), old(sock.tally), Op.Write(buf[..size])) && Window() == old(Window())
    {
      ghost var o, tally0 := Output(), sock.tally;
      if outSize + size >= outCap {
        ok := Spill(o, tally0, buf[..size]);
        if !ok {
          return;
        }
      }
      ok := true;
      ghost var flushed := Output();
      Append(buf, size);
      WriteSmall(outCap, o, buf[..size]);
      assert Output() == Out(flushed.sent, flushed.pending + buf[..size], flushed.spills);
    }

    /** Making room for an item. */
    method Spill(ghost o: Out<byte>, ghost tally0: Tally, ghost item: seq<byte>) returns (ok: bool)
      requires Valid() && o == Output() && tally0 == sock.tally
      requires |item| < outCap <= outSize + |item|
      modifies this`outSize, this`spills, sock`sent, sock`tally
      ensures Valid() && Window() == old(Window()) && sock.tally == Done(tally0, ok)
      ensures if ok then Output() == Out(Apply(outCap, o, Op.Flush).sent, [], o.spills + 1)
              else Wrote(false, o, tally0, Op.Write(item))
    {
      WriteSmall(outCap, o, item);
      spills := spills + 1;
      ok := Flush();
    }

    /** The branch for an item at least as large as the buffer. */
    method Bypass(buf: array<byte>, size: nat) returns (ok: bool)
      requires Valid() && buf != mem && outCap <= size <= buf.Length
      modifies this`spills, sock`sent, sock`tally
      ensures Wrote(ok, old(Output()), old(sock.tally), Op.Write(buf[..size])) && Window() == old(Window())
    {
      ghost var o, item, k := Output(), buf[..size], 0;
      WriteLarge(outCap, o, item);
      spills := spills + 1;
      ok, k := SendAll(buf, 0, size);
      assert buf[0..k] == item[..k];
      PartSent(o.sent, item, k);
      assert Pending() == o.pending;
    }

    static lemma PartOfSlice(all: seq<byte>, begin: nat, n: nat, k: nat)
      requires k <= n && begin + n <= |all|
      ensures all[begin..begin + k] == all[begin..begin + n][..k]
    {
    }

    static lemma PartSent(before: seq<byte>, item: seq<byte>, k: nat)
      requires k <= |item|
      ensures before <= before + item[..k] <= before + item && (k == |item| ==> item[..k] == item)
    {
    }

    /** The copy at the end of `write_output_buffer`. */
    method Append(buf: array<byte>, size: nat)
      requires Valid() && buf != mem && size <= buf.Length && outSize + size < outCap
      modifies this`outSize, mem
      ensures Valid() && Window() == old(Window())
      ensures Pending() == old(Pending()) + buf[..size]
    {
      forall i | 0 <= i < size {
        mem[outBase + outSize + i] := buf[i];
      }
      outSize := outSize + size;
    }

    /** `flush`, and the same two statements in `write_output_buffer`. */
    method Flush() returns (ok: bool)
      requires Valid()
      modifies this`outSize, sock`sent, sock`tally
      ensures Wrote(ok, old(Output()), old(sock.tally), Op.Flush) && Window() == old(Window())
    {
      ghost var k;
      ghost var pending, all, begin := Pending(), mem[..], outBase;
      assert all[begin..begin + outSize] == pending;
      ok, k := SendAll(mem, outBase, outSize);
      assert mem[begin..begin + k] == all[begin..begin + k];
      PartOfSlice(all, begin, |pending|, k);
      PartSent(old(sock.sent), pending, k);
      if ok {
        outSize := 0;
        assert Pending() == [];
      }
    }

    // ---- Input ----

    /** Appends what is there for the taking, `chunk`, to the window, and leaves the octets behind it
        alone. */
    method RecvIfPossible() returns (ok: bool, ghost chunk: seq<byte>)
      requires Valid()
      modifies this`inSize, mem, sock`taken, sock`tally
      ensures sock.tally == Offered(old(sock.tally), inCap - old(inSize), ok)
      ensures Valid() && Pending() == old(Pending())
      ensures Position() == Fill(old(Position()), |chunk|) && Window() == old(Window()) + chunk
      ensures mem[inSize..] == old(mem[..])[inSize..]
      ensures !ok ==> chunk == []
    {
      if inSize >= inCap {
        assert mem[inSize..] == mem[..][inSize..];
        return true, [];
      }
      ok, chunk := ReceiveMore();
    }

    /** When there is room. */
    method ReceiveMore() returns (ok: bool, ghost chunk: seq<byte>)
      requires Valid() && inSize < inCap
      modifies this`inSize, mem, sock`taken, sock`tally
      ensures sock.tally == Offered(old(sock.tally), inCap - old(inSize), ok)
      ensures Valid() && Pending() == old(Pending())
      ensures Position() == Fill(old(Position()), |chunk|) && Window() == old(Window()) + chunk
      ensures mem[inSize..] == old(mem[..])[inSize..]
      ensures !ok ==> chunk == []
    {
      var r;
      r, chunk := ReceiveBehind();
      ok := !r.Error?;
      if r.Moved? {
        inSize := inSize + r.k;
      }
    }

    /** The same for reads that only count what has come. */
    method Refill() returns (ok: bool, ghost k: nat)
      requires Valid()
      modifies this`inSize, mem, sock`taken, sock`tally
      ensures sock.tally == Offered(old(sock.tally), inCap - old(inSize), ok)
      ensures Valid() && Pending() == old(Pending())
      ensures Position() == Fill(old(Position()), k) && sock.taken == old(sock.taken) + k
      ensures !ok ==> k == 0
    {
      ghost var chunk;
      assert |delivered| + |Window()| == sock.taken;
      ok, chunk := RecvIfPossible();
      k := |chunk|;
      assert |delivered| + |Window()| == sock.taken;
    }

    /** The non-blocking receive into the free space behind the window. */
    method ReceiveBehind() returns (r: Transfer, ghost chunk: seq<byte>)
      requires Valid() && inSize < inCap
      modifies mem, sock`taken, sock`tally
      ensures sock.tally == Offered(old(sock.tally), inCap - inSize, !r.Error?)
      ensures sock.Valid() && inSize + |chunk| <= inCap && |chunk| == if r.Moved? then r.k else 0
      ensures sock.stream[..sock.taken] == delivered + (old(Window()) + chunk)
      ensures mem[inRd..inSize + |chunk|] == old(Window()) + chunk && Pending() == old(Pending())
      ensures mem[inSize + |chunk|..] == old(mem[..])[inSize + |chunk|..]
    {
      ghost var before, start, window := mem[..], sock.taken, Window();
      ghost var pending, base, end := Pending(), outBase, outBase + outSize;
      assert window == before[inRd..inSize] && pending == before[base..end];
      assert before[..inSize] == mem[..inSize];
      r := sock.RecvNow(mem, inSize, inCap - inSize);
      chunk := sock.stream[start..sock.taken];
      Spliced(before, mem[..], inRd, inSize, chunk, base, end);
      assert Pending() == mem[..][base..end] == pending;
      Grows(sock.stream, start, sock.taken);
      Associate(delivered, window, chunk);
    }

    static lemma Grows(stream: seq<byte>, before: nat, after: nat)
      requires before <= after <= |stream|
      ensures stream[..after] == stream[..before] + stream[before..after]
    {
    }

    /** Overwriting part of an array with `chunk`, seen from a slice that ends with it and from
        the octets behind it. */
    static lemma Spliced(before: seq<byte>, after: seq<byte>, from: nat, lo: nat, chunk: seq<byte>, base: nat, end: nat)
      requires from <= lo <= lo + |chunk| <= base <= end <= |before|
      requires after == before[..lo] + chunk + before[lo + |chunk|..]
      ensures after[from..lo + |chunk|] == before[from..lo] + chunk
      ensures after[lo + |chunk|..] == before[lo + |chunk|..]
      ensures after[base..end] == before[base..end]
    {
    }

    /** Serves the next `n` octets of the stream: from the window first, and the shortfall, no
        more, by one blocking receive.  `k` octets came in by the non-blocking receive; `got`
        octets of the request were filled, fewer than `n` only if the blocking receive was cut
        short, which goes unnoticed.  A failing read hands out nothing and loses nothing. */
    method ReadInputBuffer(dst: array<byte>, n: nat) returns (ok: bool, ghost k: nat, ghost got: nat)
      requires Valid() && dst != mem && n <= dst.Length
      modifies this`inRd, this`inSize, this`delivered, mem, sock`taken, sock`tally, dst
      ensures Valid() && Pending() == old(Pending())
      ensures old(inSize) + k <= inCap
      ensures var polled := Offered(old(sock.tally), inCap - old(inSize), true);
              var missing := Missing(n, |old(Window())| + k);
              if ok then sock.tally == Asked(polled, missing, true, got == n)
              else
                sock.tally == Done(polled, false) ||
                (missing > 0 && sock.tally == Asked(polled, missing, false, false))
      ensures Position() == if ok then Serve(Fill(old(Position()), k), n) else Fill(old(Position()), k)
      ensures got <= n && delivered == old(delivered) + dst[..got]
      ensures ok ==> dst[got..] == old(dst[got..]) && (got == n || got >= |old(Window())| + k)
      ensures sock.taken == old(sock.taken) + k + Missing(got, |old(Window())| + k)
      ensures !ok ==> got == 0
    {
      got := 0;
      ok, k := Refill();
      if ok {
        ok, got := Answer(dst, n);
      }
    }

    /** The rest of `read_input_buffer`. */
    method Answer(dst: array<byte>, n: nat) returns (ok: bool, ghost got: nat)
      requires Valid() && dst != mem && n <= dst.Length
      modifies this`inRd, this`inSize, this`delivered, sock`taken, sock`tally, dst
      ensures Valid() && Pending() == old(Pending())
      ensures Position() == if ok then Serve(old(Position()), n) else old(Position())
      ensures sock.tally == Asked(old(sock.tally), Missing(n, |old(Window())|), ok, got == n)
      ensures got <= n && delivered == old(delivered) + dst[..got]
      ensures ok ==> dst[got..] == old(dst[got..]) && (got == n || got >= |old(Window())|)
      ensures sock.taken == old(sock.taken) + Missing(got, |old(Window())|)
      ensures !ok ==> got == 0 && n > |old(Window())|
    {
      if inRd + n >= inSize {
        ok, got := TopUp(dst, n);
      } else {
        ok, got := true, n;
        ServeFromWindow(dst, n);
      }
    }

    /** The shortfall of a request of `n` octets. */
    static function Missing(n: nat, available: nat): nat {
      if n > available then n - available else 0
    }

    static lemma SplitAt(whole: seq<byte>, front: seq<byte>, back: seq<byte>)
      requires whole == front + back
      ensures whole[..|front|] == front && whole[|front|..] == back
    {
    }

    /** memmove(3) out of the window. */
    method CopyOut(dst: array<byte>, n: nat)
      requires mem != null && dst != mem && inSize <= mem.Length
      requires n <= dst.Length && inRd + n <= inSize
      modifies dst
      ensures dst[..n] == Window()[..n] && dst[n..] == old(dst[n..])
    {
      forall i | 0 <= i < n {
        dst[i] := mem[inRd + i];
      }
    }

    /** The branch of `read_input_buffer` that uses up the window. */
    method TopUp(dst: array<byte>, n: nat) returns (ok: bool, ghost got: nat)
      requires Valid() && dst != mem && n <= dst.Length && inRd + n >= inSize
      modifies this`inRd, this`inSize, this`delivered, sock`taken, sock`tally, dst
      ensures sock.tally == Asked(old(sock.tally), n - |old(Window())|, ok, got == n)
      ensures Valid() && Pending() == old(Pending())
      ensures Position() == if ok then Cursor(0, 0) else old(Position())
      ensures got <= n && delivered == old(delivered) + dst[..got]
      ensures ok ==> dst[got..] == old(dst[got..])
      ensures ok ==> |old(Window())| <= got && sock.taken == old(sock.taken) + got - |old(Window())|
      ensures !ok ==> got == 0 && n > |old(Window())| && sock.taken == old(sock.taken)
    {
      var copySize := inSize - inRd;
      var recvSize := n - copySize;
      ghost var window, original := Window(), dst[..];
      CopyOut(dst, copySize);
      assert dst[..copySize] == window;
      assert dst[copySize..] == original[copySize..];
      ghost var chunk;
      ok, chunk := ReceiveShortfall(dst, copySize, recvSize);
      if !ok {
        return false, 0;
      }
      got := copySize + |chunk|;
      assert dst[got..] == original[copySize..][|chunk|..] == original[got..];
      assert dst[..got] == window + chunk;
      StartOver(window, chunk);
    }

    /** The window is used up, and the buffer starts over. */
    method StartOver(ghost window: seq<byte>, ghost chunk: seq<byte>)
      requires Shape() && sock.stream[..sock.taken] == delivered + window + chunk
      modifies this`inRd, this`inSize, this`delivered
      ensures Valid() && Pending() == old(Pending())
      ensures Position() == Cursor(0, 0) && delivered == old(delivered) + (window + chunk)
    {
      assert delivered + (window + chunk) == delivered + window + chunk;
      delivered := delivered + (window + chunk);
      inRd, inSize := 0, 0;
      assert Window() == [] && delivered + [] == delivered;
    }

    /** The blocking receive, skipped when nothing is missing. */
    method ReceiveShortfall(dst: array<byte>, from: nat, n: nat) returns (ok: bool, ghost chunk: seq<byte>)
      requires sock != null && sock.Valid() && from + n <= dst.Length
      modifies sock`taken, sock`tally, dst
      ensures sock.tally == Asked(old(sock.tally), n, ok, |chunk| == n)
      ensures sock.Valid() && |chunk| <= n && sock.taken == old(sock.taken) + |chunk|
      ensures sock.stream[..sock.taken] == old(sock.stream[..sock.taken]) + chunk
      ensures dst[..from + |chunk|] == old(dst[..from]) + chunk
      ensures dst[from + |chunk|..] == old(dst[from..])[|chunk|..]
      ensures !ok ==> chunk == [] && n > 0
    {
      ghost var start, before := sock.taken, dst[..];
      ok := true;
      if n != 0 {
        var r := sock.RecvAll(dst, from, n);
        ok := r.Moved?;
      }
      chunk := sock.stream[start..sock.taken];
      Grows(sock.stream, start, sock.taken);
      SplitAt(dst[..], before[..from] + chunk, before[from + |chunk|..]);
      assert before[from + |chunk|..] == before[from..][|chunk|..];
    }

    /** The branch of `read_input_buffer` that leaves part of the window. */
    method ServeFromWindow(dst: array<byte>, n: nat)
      requires Valid() && dst != mem && n <= dst.Length && inRd + n < inSize
      modifies this`inRd, this`delivered, dst
      ensures Valid() && Pending() == old(Pending())
      ensures Position() == Cursor(old(inRd) + n, old(inSize))
      ensures delivered == old(delivered) + dst[..n] && dst[n..] == old(dst[n..])
      ensures dst[..n] + Window() == old(Window())
    {
      ghost var window := Window();
      CopyOut(dst, n);
      assert dst[..n] + mem[inRd + n..inSize] == window;
      delivered := delivered + dst[..n];
      inRd := inRd + n;
    }

    // ---- Strings ----

    /** Single-octet reads have returned `val` since the indices were `start`, the tally was `tally0` and
        `first` had been handed out, `ks` having arrived in front of them.  None has failed; and none has
        had to wait, as long as the window of then was enough. */
    ghost predicate Underway(start: Cursor, tally0: Tally, first: seq<byte>, val: seq<byte>, ks: seq<nat>)
      reads this, mem, sock
    {
      Valid() && |ks| == |val| && Schedulable(inCap, start, ks) && Position() == ReadSingles(start, ks) &&
      sock.tally.failures == tally0.failures && sock.tally.cut >= tally0.cut &&
      sock.tally.offered == tally0.offered + Offers(inCap, start, ks) &&
      (start.rd + |val| <= start.size ==> sock.tally.cut == tally0.cut) &&
      (sock.tally.cut == tally0.cut ==> delivered == first + val)
    }

    /** The next one has failed. */
    ghost predicate Halted(start: Cursor, tally0: Tally, first: seq<byte>, val: seq<byte>)
      reads this, mem, sock
    {
      Valid() && sock.tally.failures == tally0.failures + 1 &&
      (start.rd + |val| <= start.size ==> delivered == first + val)
    }

    /** A single-octet read. */
    method ReadChar(ghost start: Cursor, ghost tally0: Tally, ghost first: seq<byte>, ghost val: seq<byte>,
                    ghost ks: seq<nat>)
      returns (ok: bool, c: byte, ghost ks': seq<nat>)
      requires Underway(start, tally0, first, val, ks) && InBounds(start, inCap)
      modifies this`inRd, this`inSize, this`delivered, mem, sock`taken, sock`tally
      ensures Pending() == old(Pending()) && sock.taken >= old(sock.taken)
      ensures if ok then Underway(start, tally0, first, val + [c], ks') else Halted(start, tally0, first, val)
    {
      ghost var k, got;
      InsideWindow(inCap, start, ks);
      var buf := new byte[1];
      ok, k, got := ReadInputBuffer(buf, 1);
      c, ks' := buf[0], ks + [k];
      if ok {
        SinglesSnoc(inCap, start, ks, k);
        FirstOf(buf);
        Associate(first, val, [c]);
      }
    }

    static lemma FirstOf(buf: array<byte>)
      requires buf.Length == 1
      ensures buf[..1] == [buf[0]] && buf[..0] == []
    {
    }

    /** Inside the window that there was, no read waits. */
    static lemma InsideWindow(cap: nat, start: Cursor, ks: seq<nat>)
      requires InBounds(start, cap) && Schedulable(cap, start, ks)
      ensures start.rd + |ks| + 1 <= start.size ==> ReadSingles(start, ks).rd < ReadSingles(start, ks).size
    {
      if start.rd + |ks| + 1 <= start.size {
        SinglesInside(cap, start, ks);
      }
    }

    /** How a string extraction ends for which `strlen` ran over the raw `memory`, with the indices `c0`
        and the tally `tally0`, when `first` had been handed out.  If the terminator it found is in the
        window, the string up to there is extracted without waiting, the terminator is consumed, and the
        indices stay in order; a receive error on the way leaves a consistent socket that has handed
        out the characters read so far.  If it is not, as many characters are read, the indices go where
        `InputWindow.Extract` says, and the characters are the next ones of the stream unless a
        blocking receive was cut short. */
    ghost predicate Yields(r: Extraction, ks: seq<nat>, memory: seq<byte>, c0: Cursor, tally0: Tally, first: seq<byte>)
      requires c0.rd <= c0.size <= |memory|
      reads this, mem, sock
    {
      var window, length := memory[c0.rd..c0.size], FirstNul(memory[c0.rd..]);
      sock != null &&
      match r
      case OffTheEnd =>
        Valid() && length == |memory| - c0.rd && Position() == c0 && ks == [] && sock.tally == tally0
      case Interrupted(chars) =>
        Valid() && sock.tally.failures == tally0.failures + 1 && |chars| <= length &&
        (length < |window| ==> chars <= window && delivered == first + chars)
      case Extracted(chars) =>
        |chars| == length < |memory| - c0.rd &&
        sock.tally.failures == tally0.failures && sock.tally.offered == tally0.offered + Offers(inCap, c0, ks) &&
        |ks| == |chars| && Schedulable(inCap, c0, ks) && Position() == Extract(c0, ks) &&
        (sock.tally.cut == tally0.cut ==> first + chars <= delivered) &&
        (length < |window| ==>
           Valid() && sock.tally.cut == tally0.cut && chars == window[..length] &&
           delivered == first + chars + [0])
    }

    /** `operator>>` for strings.  `memory` is the allocation as `strlen` sees it, `c0` the indices then:
        what was received by the first receive has been put behind the window. */
    method GetString()
      returns (r: Extraction, ghost chunk: seq<byte>, ghost memory: seq<byte>, ghost c0: Cursor, ghost ks: seq<nat>)
      requires Valid()
      modifies this`inRd, this`inSize, this`delivered, mem, sock`taken, sock`tally
      ensures old(delivered + Window()) + chunk <= sock.stream
      ensures c0 == Fill(old(Position()), |chunk|) && c0.size <= inCap <= mem.Length == |memory|
      ensures memory[c0.rd..c0.size] == old(Window()) + chunk && memory[c0.size..] == old(mem[..])[c0.size..]
      ensures Pending() == old(Pending())
      ensures Yields(r, ks, memory, c0, Offered(old(sock.tally), inCap - old(inSize), true), old(delivered))
    {
      var ok;
      ok, chunk := RecvIfPossible();
      memory, c0 := mem[..], Position();
      assert memory[c0.rd..c0.size] == Window() && memory[c0.size..] == mem[inSize..];
      Associate(old(delivered), old(Window()), chunk);
      r, ks := ExtractReceived(ok, Offered(old(sock.tally), inCap - old(inSize), true));
    }

    /** The string `operator>>`, after its first receive, unless that has failed. */
    method ExtractReceived(received: bool, ghost tally0: Tally) returns (r: Extraction, ghost ks: seq<nat>)
      requires Valid() && sock.tally == Done(tally0, received)
      modifies this`inRd, this`inSize, this`delivered, mem, sock`taken, sock`tally
      ensures Pending() == old(Pending())
      ensures Yields(r, ks, old(mem[..]), old(Position()), tally0, old(delivered))
    {
      if !received {
        assert delivered + [] == delivered;
        return Interrupted([]), [];
      }
      var size := FirstNul(mem[..][inRd..]);
      if size == mem.Length - inRd {
        r, ks := OffTheEnd, [];
      } else {
        r, ks := ExtractChars(size);
      }
    }

    /** And once `strlen` has given a length. */
    method ExtractChars(size: nat) returns (r: Extraction, ghost ks: seq<nat>)
      requires Valid() && size == FirstNul(mem[..][inRd..]) < mem.Length - inRd
      modifies this`inRd, this`inSize, this`delivered, mem, sock`taken, sock`tally
      ensures Pending() == old(Pending())
      ensures Yields(r, ks, old(mem[..]), old(Position()), old(sock.tally), old(delivered))
    {
      ghost var memory, first, c0, tally0 := mem[..], delivered, Position(), sock.tally;
      ghost var window := memory[inRd..inSize];
      assert window == Window() && first + window == sock.stream[..sock.taken];
      assert |first| + |window| == sock.taken;
      var ok, val;
      ok, val, ks := ReadChars(size);
      if size < |window| {
        SameStream(sock.stream, first, window, val, Window());
      }
      if !ok {
        r := Interrupted(val);
      } else {
        FinishString(memory, c0, tally0, first, val, ks);
        r := Extracted(val);
      }
    }

    /** The end of it. */
    method FinishString(ghost memory: seq<byte>, ghost c0: Cursor, ghost tally0: Tally, ghost first: seq<byte>,
                        ghost val: seq<byte>, ghost ks: seq<nat>)
      requires InBounds(c0, inCap) && c0.size <= |memory| && Underway(c0, tally0, first, val, ks)
      requires |val| == FirstNul(memory[c0.rd..]) < |memory| - c0.rd
      requires var window := memory[c0.rd..c0.size];
               |val| < |window| ==> val == window[..|val|] && window[|val|..] <= Window()
      modifies this`inRd, this`delivered
      ensures Pending() == old(Pending())
      ensures Yields(Extracted(val), ks, memory, c0, tally0, first)
    {
      ghost var window := memory[c0.rd..c0.size];
      assert |val| < |window| ==> window[|val|..][0] == memory[c0.rd..][|val|] == 0;
      SkipTerminator();
    }

    /** The loop of the string `operator>>`. */
    method ReadChars(length: nat) returns (ok: bool, val: seq<byte>, ghost ks: seq<nat>)
      requires Valid()
      modifies this`inRd, this`inSize, this`delivered, mem, sock`taken, sock`tally
      ensures Pending() == old(Pending()) && sock.taken >= old(sock.taken)
      ensures |val| <= length && (ok ==> |val| == length)
      ensures if ok then Underway(old(Position()), old(sock.tally), old(delivered), val, ks)
              else Halted(old(Position()), old(sock.tally), old(delivered), val)
    {
      ghost var start, tally0, first, seen, pending := Position(), sock.tally, delivered, sock.taken, Pending();
      val, ks, ok := [], [], true;
      var size := length;
      assert Underway(start, tally0, first, val, ks) by {
        assert first + [] == first;
      }
      while size > 0 && ok
        invariant 0 <= size <= length && |val| <= length - size && (ok ==> |val| == length - size)
        invariant Valid() && Pending() == pending && sock.taken >= seen
        invariant if ok then Underway(start, tally0, first, val, ks) else Halted(start, tally0, first, val)
      {
        size := size - 1;
        var c;
        ok, c, ks := ReadChar(start, tally0, first, val, ks);
        if ok {
          val := val + [c];
        }
      }
    }

    /** Two looks at the same stream: what was read since the first is what was ahead then. */
    static lemma SameStream(stream: seq<byte>, first: seq<byte>, window: seq<byte>, val: seq<byte>, rest: seq<byte>)
      requires first + window <= stream && first + val + rest <= stream
      requires |val| <= |window| <= |val| + |rest|
      ensures val == window[..|val|] && window[|val|..] <= rest
    {
      assert forall i :: 0 <= i < |window| ==> window[i] == stream[|first| + i];
      assert forall i :: 0 <= i < |val| ==> val[i] == stream[|first| + i];
      assert forall i :: 0 <= i < |rest| ==> rest[i] == stream[|first| + |val| + i];
    }

    /** The unchecked `++_in_rd`. */
    method SkipTerminator()
      requires Valid()
      modifies this`inRd, this`delivered
      ensures Position() == Cursor(old(inRd) + 1, old(inSize))
      ensures Pending() == old(Pending()) && old(delivered) <= delivered
      ensures old(Window()) != [] && old(Window())[0] == 0 ==>
                Valid() && delivered == old(delivered) + [0]
    {
      if Window() != [] {
        assert delivered + Window() == delivered + [Window()[0]] + Window()[1..];
        delivered := delivered + [Window()[0]];
      }
      inRd := inRd + 1;
    }

    // ---- Typed values ----

    /** `operator<<`. */
    method Put(h: Host, v: Value) returns (ok: bool)
      requires Valid() && v.InRange()
      modifies this`outSize, this`spills, mem, sock`sent, sock`tally
      ensures Wrote(ok, old(Output()), old(sock.tally), Op.Write(Encode(h, v))) && Window() == old(Window())
    {
      var octets := Encode(h, v);
      var buf := new byte[|octets|](i requires 0 <= i < |octets| => octets[i]);
      assert buf[..|octets|] == octets;
      ok := WriteOutputBuffer(buf, |octets|);
    }

    /** `operator>>` for all but strings: the value of the next octets of the stream, unless
        the blocking receive failed or was cut short. */
    method Get(h: Host, kind: Kind) returns (ok: bool, v: Value, ghost chunk: seq<byte>)
      requires Valid() && kind.Ask().Fixed?
      modifies this`inRd, this`inSize, this`delivered, mem, sock`taken, sock`tally
      ensures Valid() && Pending() == old(Pending()) && delivered == old(delivered) + chunk
      ensures ok <==> sock.tally.failures == old(sock.tally.failures)
      ensures ok ==> (|chunk| == kind.Ask().n <==> sock.tally.cut == old(sock.tally.cut))
      ensures ok && sock.tally.cut == old(sock.tally.cut) ==> v == Decode(h, kind, chunk)
      ensures ok && sock.tally.cut != old(sock.tally.cut) ==> |chunk| < kind.Ask().n && Window() == []
      ensures !ok ==> chunk == []
    {
      var octets;
      ok, octets, chunk := ReadOctets(kind.Ask().n);
      v := Decode(h, kind, octets);
    }

    /** The read of `operator>>`, into a variable of `n` octets. */
    method ReadOctets(n: nat) returns (ok: bool, octets: seq<byte>, ghost chunk: seq<byte>)
      requires Valid()
      modifies this`inRd, this`inSize, this`delivered, mem, sock`taken, sock`tally
      ensures Valid() && Pending() == old(Pending()) && delivered == old(delivered) + chunk
      ensures ok <==> sock.tally.failures == old(sock.tally.failures)
      ensures ok ==> (|chunk| == n <==> sock.tally.cut == old(sock.tally.cut))
      ensures |octets| == n && (ok && |chunk| == n ==> octets == chunk)
      ensures ok && |chunk| != n ==> |chunk| < n && Window() == []
      ensures !ok ==> chunk == []
    {
      var buf := new byte[n];
      ghost var k, got;
      ok, k, got := ReadInputBuffer(buf, n);
      octets, chunk := buf[..], buf[..got];
    }
  }
}
