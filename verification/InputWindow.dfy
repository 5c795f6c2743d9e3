/** The two indices of the input buffer, and when extracting a string keeps them in order.

    Octets `[rd, size)` of the buffer have been received and not yet read.  The operations are
    those of `recv_if_possible` (append `k` octets), of `read_input_buffer` (serve `n` octets,
    starting over at 0 once the window is used up), and of the string `operator>>`, which
    trusts `strlen` on the raw buffer and finishes with an unchecked `++_in_rd`. */
module InputWindow {
  import opened Bytes
  import opened ByteStream

  datatype Cursor = Cursor(rd: nat, size: nat)

  predicate InBounds(c: Cursor, cap: nat) {
    c.rd <= c.size <= cap
  }

  function Fill(c: Cursor, k: nat): Cursor {
    Cursor(c.rd, c.size + k)
  }

  function Serve(c: Cursor, n: nat): Cursor {
    if c.rd + n >= c.size then Cursor(0, 0) else Cursor(c.rd + n, c.size)
  }

  /** One single-octet read after another; before each, `ks[i]` octets happen to arrive. */
  function ReadSingles(c: Cursor, ks: seq<nat>): Cursor {
    if ks == [] then c
    else
      var n := |ks| - 1;
      Serve(Fill(ReadSingles(c, ks[..n]), ks[n]), 1)
  }

  /** The arrivals `ks` fit the buffer at the time they happen. */
  predicate Schedulable(cap: nat, c: Cursor, ks: seq<nat>) {
    ks == [] ||
    (var n := |ks| - 1;
     Schedulable(cap, c, ks[..n]) && ReadSingles(c, ks[..n]).size + ks[n] <= cap)
  }

  /** String extraction: `|ks|` is what `strlen` said; the terminator is skipped unread. */
  function Extract(c: Cursor, ks: seq<nat>): Cursor {
    var c' := ReadSingles(c, ks);
    Cursor(c'.rd + 1, c'.size)
  }

  /** How many octets the non-blocking receives in front of these reads are ready to take. */
  function Offers(cap: nat, c: Cursor, ks: seq<nat>): nat {
    if ks == [] then 0
    else
      var n := |ks| - 1;
      var size := ReadSingles(c, ks[..n]).size;
      Offers(cap, c, ks[..n]) + if size < cap then cap - size else 0
  }

  lemma SinglesSnoc(cap: nat, c: Cursor, ks: seq<nat>, k: nat)
    requires Schedulable(cap, c, ks) && ReadSingles(c, ks).size + k <= cap
    ensures Schedulable(cap, c, ks + [k])
    ensures ReadSingles(c, ks + [k]) == Serve(Fill(ReadSingles(c, ks), k), 1)
    ensures Offers(cap, c, ks + [k]) == Offers(cap, c, ks) + cap - ReadSingles(c, ks).size
  {
    assert (ks + [k])[..|ks|] == ks;
  }

  lemma {:induction false} SinglesInBounds(cap: nat, c: Cursor, ks: seq<nat>)
    requires InBounds(c, cap) && Schedulable(cap, c, ks)
    ensures InBounds(ReadSingles(c, ks), cap)
  {
    if ks != [] {
      SinglesInBounds(cap, c, ks[..|ks| - 1]);
    }
  }

  function Sum(ks: seq<nat>): nat {
    if ks == [] then 0 else Sum(ks[..|ks| - 1]) + ks[|ks| - 1]
  }

  /** With the terminator in the window no read empties it, so the window is never reset: what
      arrives during the extraction could as well have arrived after it. */
  lemma {:induction false} SinglesInside(cap: nat, c: Cursor, ks: seq<nat>)
    requires InBounds(c, cap) && |ks| < c.size - c.rd && Schedulable(cap, c, ks)
    ensures ReadSingles(c, ks) == Fill(Cursor(c.rd + |ks|, c.size), Sum(ks))
    ensures c.size + Sum(ks) <= cap
    ensures Extract(c, ks) == Fill(Extract(Cursor(c.rd + |ks|, c.size), []), Sum(ks))
  {
    if ks != [] {
      SinglesInside(cap, c, ks[..|ks| - 1]);
    }
  }

  function NoArrivals(n: nat): (ks: seq<nat>)
    ensures |ks| == n
  {
    if n == 0 then [] else NoArrivals(n - 1) + [0]
  }

  /** While nothing arrives, the window is reset as soon as as many octets as it holds are read. */
  lemma {:induction false} SinglesQuiet(cap: nat, c: Cursor, n: nat)
    requires InBounds(c, cap)
    ensures Schedulable(cap, c, NoArrivals(n))
    ensures ReadSingles(c, NoArrivals(n)) ==
            if n == 0 || n < c.size - c.rd then Cursor(c.rd + n, c.size) else Cursor(0, 0)
  {
    if n > 0 {
      SinglesQuiet(cap, c, n - 1);
      assert NoArrivals(n)[..n - 1] == NoArrivals(n - 1);
      SinglesInBounds(cap, c, NoArrivals(n - 1));
    }
  }

  /** String extraction leaves the indices in order under every schedule of arrivals exactly
      when the terminator that `strlen` found lies inside the window. */
  lemma ExtractionSafeIff(cap: nat, c: Cursor, length: nat)
    requires InBounds(c, cap)
    ensures (forall ks :: |ks| == length && Schedulable(cap, c, ks) ==> InBounds(Extract(c, ks), cap))
            <==> length < c.size - c.rd
  {
    if length < c.size - c.rd {
      forall ks | |ks| == length && Schedulable(cap, c, ks)
        ensures InBounds(Extract(c, ks), cap)
      {
        SinglesInside(cap, c, ks);
      }
    } else {
      SinglesQuiet(cap, c, length);
      assert !InBounds(Extract(c, NoArrivals(length)), cap);
    }
  }

  /** `strlen` runs over whatever the buffer holds; its terminator lies in the window exactly
      when the octets received and unread contain one. */
  lemma StrlenInWindow(memory: seq<byte>, c: Cursor)
    requires c.rd <= c.size <= |memory|
    ensures FirstNul(memory[c.rd..]) < c.size - c.rd <==> 0 in memory[c.rd..c.size]
    ensures 0 in memory[c.rd..c.size] ==>
              FirstNul(memory[c.rd..]) == FirstNul(memory[c.rd..c.size])
  {
    var tail, window := memory[c.rd..], memory[c.rd..c.size];
    var k := FirstNul(tail);
    assert forall i :: 0 <= i < |window| ==> window[i] == tail[i];
    if k < |window| {
      FirstNulUnique(window, k);
    }
  }

  /** `size_t` subtraction. */
  function SizeMinus(a: nat, b: nat): nat {
    (a - b) % 0x1_0000_0000_0000_0000
  }

  /** The smallest failure: nothing received, and a stale NUL at offset 0.  The result is the
      empty string and a window whose length, as the next read computes it, is 2^64 - 1. */
  lemma StaleTerminatorWitness()
    ensures var c := Extract(Cursor(0, 0), []);
            FirstNul([0]) == 0 && c == Cursor(1, 0) &&
            SizeMinus(c.size, c.rd) == 0xFFFF_FFFF_FFFF_FFFF
  {
  }
}
