/** Walking over the records that a read from an inotify descriptor returns. */
module Inotify {
  import opened Bytes
  import opened Codec

  /** `struct inotify_event`: four 4-octet fields in the host's layout, then `len` octets of name. */
  datatype Event = Event(wd: int, mask: nat, cookie: nat, name: seq<byte>)
  {
    predicate InRange() {
      0 <= 2 * wd + Pow256(4) < 2 * Pow256(4) &&
      mask < Pow256(4) && cookie < Pow256(4) && |name| < Pow256(4)
    }
  }

  const HEADER_SIZE := 16

  function Serialise(h: Host, e: Event): (s: seq<byte>)
    requires e.InRange()
    ensures |s| == HEADER_SIZE + |e.name|
  {
    Store(h, ToUnsigned(e.wd, 4), 4) + Store(h, e.mask, 4) + Store(h, e.cookie, 4) + Store(h, |e.name|, 4) + e.name
  }

  /** Where the fields of a record lie, each as the host lays out a word of four octets. */
  lemma RecordLayout(h: Host, e: Event)
    requires e.InRange()
    ensures var s := Serialise(h, e);
            s[0..4] == Store(h, if e.wd < 0 then e.wd + 0x1_0000_0000 else e.wd, 4) &&
            s[4..8] == Store(h, e.mask, 4) && s[8..12] == Store(h, e.cookie, 4) &&
            s[12..16] == Store(h, |e.name|, 4) && s[16..] == e.name
  {
    assert Pow256(4) == 0x1_0000_0000 by {
      assert Pow256(1) == 256 * Pow256(0) && Pow256(2) == 256 * Pow256(1) && Pow256(3) == 256 * Pow256(2);
    }
    var s := Serialise(h, e);
    assert s[4..] == Store(h, e.mask, 4) + Store(h, e.cookie, 4) + Store(h, |e.name|, 4) + e.name;
  }

  predicate AllInRange(es: seq<Event>) {
    forall i :: 0 <= i < |es| ==> es[i].InRange()
  }

  function SerialiseAll(h: Host, es: seq<Event>): seq<byte>
    requires AllInRange(es)
  {
    if es == [] then [] else Serialise(h, es[0]) + SerialiseAll(h, es[1..])
  }

  // ---- Reading a record in place ----

  function Field(h: Host, buf: seq<byte>, at: nat): nat
    requires at + 4 <= |buf|
  {
    Load(h, buf[at..at + 4])
  }

  function LenAt(h: Host, buf: seq<byte>, at: nat): nat
    requires at + HEADER_SIZE <= |buf|
  {
    Field(h, buf, at + 12)
  }

  function EventAt(h: Host, buf: seq<byte>, at: nat): Event
    requires at + HEADER_SIZE <= |buf| && at + HEADER_SIZE + LenAt(h, buf, at) <= |buf|
  {
    Event(ToSigned(Field(h, buf, at), 4), Field(h, buf, at + 4), Field(h, buf, at + 8),
          buf[at + HEADER_SIZE..at + HEADER_SIZE + LenAt(h, buf, at)])
  }

  // ---- The walk ----

  /** The offsets visited and where the walk ends; `PastEnd` when it reads a header that is not
      wholly inside the buffer. */
  datatype Walk = Visited(offsets: seq<nat>, stop: nat) | PastEnd

  function WalkFrom(h: Host, buf: seq<byte>, at: nat): Walk
    decreases |buf| - at
  {
    if at >= |buf| then Visited([], at)
    else if at + HEADER_SIZE > |buf| then PastEnd
    else Prepend([at], WalkFrom(h, buf, at + HEADER_SIZE + LenAt(h, buf, at)))
  }

  function Prepend(offsets: seq<nat>, w: Walk): Walk {
    if w.Visited? then Visited(offsets + w.offsets, w.stop) else PastEnd
  }

  lemma PrependTwice(a: seq<nat>, b: seq<nat>, w: Walk)
    ensures Prepend(a, Prepend(b, w)) == Prepend(a + b, w)
  {
    if w.Visited? {
      assert a + (b + w.offsets) == a + b + w.offsets;
    }
  }

  /** The loop of FOR_EACH_INOTIFY_EVENT. */
  method ForEachEvent(h: Host, buffer: array<byte>, size: nat) returns (w: Walk)
    requires size <= buffer.Length
    ensures w == WalkFrom(h, buffer[..size], 0)
  {
    var event: nat := 0;
    var offsets: seq<nat> := [];
    var buf := buffer[..size];
    assert WalkFrom(h, buf, 0) == Prepend([], WalkFrom(h, buf, 0));
    while event < size
      invariant WalkFrom(h, buf, 0) == Prepend(offsets, WalkFrom(h, buf, event))
      decreases size - event
    {
      if event + HEADER_SIZE > size {
        return PastEnd;
      }
      var next := event + HEADER_SIZE + LenAt(h, buf, event);
      PrependTwice(offsets, [event], WalkFrom(h, buf, next));
      offsets, event := offsets + [event], next;
    }
    w := Visited(offsets, event);
    assert offsets + [] == offsets;
  }

  // ---- Words in the host's layout ----

  lemma SplitDigit(d: byte, v: nat)
    ensures (d + 256 * v) % 256 == d && (d + 256 * v) / 256 == v
    ensures (256 * v + d) % 256 == d && (256 * v + d) / 256 == v
  {
  }

  lemma {:induction false} LittleEndianOf(bs: seq<byte>)
    ensures FromLittleEndian(bs) < Pow256(|bs|)
    ensures LittleEndian(FromLittleEndian(bs), |bs|) == bs
  {
    if bs != [] {
      LittleEndianOf(bs[1..]);
      SplitDigit(bs[0], FromLittleEndian(bs[1..]));
      assert bs == [bs[0]] + bs[1..];
    }
  }

  lemma {:induction false} BigEndianOf(bs: seq<byte>)
    ensures FromBigEndian(bs) < Pow256(|bs|)
    ensures BigEndian(FromBigEndian(bs), |bs|) == bs
  {
    if bs != [] {
      BigEndianOf(bs[..|bs| - 1]);
      SplitDigit(bs[|bs| - 1], FromBigEndian(bs[..|bs| - 1]));
      assert bs == bs[..|bs| - 1] + [bs[|bs| - 1]];
    }
  }

  lemma StoreLoad(h: Host, bs: seq<byte>)
    ensures Load(h, bs) < Pow256(|bs|)
    ensures Store(h, Load(h, bs), |bs|) == bs
  {
    LittleEndianOf(bs);
    BigEndianOf(bs);
  }

  lemma LoadStore(h: Host, v: nat, w: nat)
    requires v < Pow256(w)
    ensures Load(h, Store(h, v, w)) == v
  {
    LittleEndianInverse(v, w);
    BigEndianInverse(v, w);
  }

  // ---- Theorems ----

  /** Where the records of a list begin, the first one at `at`. */
  function Offsets(es: seq<Event>, at: nat): (s: seq<nat>)
    ensures |s| == |es|
  {
    if es == [] then [] else [at] + Offsets(es[1..], at + HEADER_SIZE + |es[0].name|)
  }

  lemma FieldOf(h: Host, buf: seq<byte>, at: nat, v: nat)
    requires v < Pow256(4) && at + 4 <= |buf| && buf[at..at + 4] == Store(h, v, 4)
    ensures Field(h, buf, at) == v
  {
    LoadStore(h, v, 4);
  }

  /** The record at an offset is a given event. */
  predicate Holds(h: Host, buf: seq<byte>, at: nat, e: Event) {
    at + HEADER_SIZE <= |buf| && at + HEADER_SIZE + LenAt(h, buf, at) <= |buf| && EventAt(h, buf, at) == e
  }

  /** A record is read back as it was laid out, wherever it stands. */
  lemma RecordRoundTrip(h: Host, e: Event, buf: seq<byte>, at: nat)
    requires e.InRange() && at <= |buf| && Serialise(h, e) <= buf[at..]
    ensures Holds(h, buf, at, e)
  {
    var s := Serialise(h, e);
    assert forall i :: 0 <= i < |s| ==> s[i] == buf[at + i];
    assert s[0..4] == buf[at..at + 4] && s[4..8] == buf[at + 4..at + 8];
    assert s[8..12] == buf[at + 8..at + 12] && s[12..16] == buf[at + 12..at + 16];
    FieldOf(h, buf, at, ToUnsigned(e.wd, 4));
    FieldOf(h, buf, at + 4, e.mask);
    FieldOf(h, buf, at + 8, e.cookie);
    FieldOf(h, buf, at + 12, |e.name|);
    assert s[16..] == e.name == buf[at + HEADER_SIZE..at + HEADER_SIZE + |e.name|];
  }

  /** The walk inverts serialisation: over a buffer that holds a list of records it visits exactly
      these records, in order, and ends exactly at the end of the buffer ... */
  lemma {:induction false} WalkVisitsRecords(h: Host, es: seq<Event>, buf: seq<byte>, at: nat)
    requires AllInRange(es) && at <= |buf| && buf[at..] == SerialiseAll(h, es)
    ensures WalkFrom(h, buf, at) == Visited(Offsets(es, at), |buf|)
    decreases |es|
  {
    if es != [] {
      var next := at + HEADER_SIZE + |es[0].name|;
      RestFollows(h, es, buf, at);
      WalkVisitsRecords(h, es[1..], buf, next);
      VisitFirst(h, es, buf, at);
    }
  }

  lemma VisitFirst(h: Host, es: seq<Event>, buf: seq<byte>, at: nat)
    requires AllInRange(es) && es != [] && at <= |buf| && buf[at..] == SerialiseAll(h, es)
    ensures WalkFrom(h, buf, at) == Prepend([at], WalkFrom(h, buf, at + HEADER_SIZE + |es[0].name|))
  {
    FirstLength(h, es, buf, at);
  }

  /** ... and each of them is read back as it was written. */
  lemma {:induction false} WalkReadsRecords(h: Host, es: seq<Event>, buf: seq<byte>, at: nat, i: nat)
    requires AllInRange(es) && at <= |buf| && buf[at..] == SerialiseAll(h, es) && i < |es|
    ensures Holds(h, buf, Offsets(es, at)[i], es[i])
    decreases |es|
  {
    if i > 0 {
      RestFollows(h, es, buf, at);
      WalkReadsRecords(h, es[1..], buf, at + HEADER_SIZE + |es[0].name|, i - 1);
    } else {
      RecordRoundTrip(h, es[0], buf, at);
    }
  }

  lemma RestFollows(h: Host, es: seq<Event>, buf: seq<byte>, at: nat)
    requires AllInRange(es) && es != [] && at <= |buf| && buf[at..] == SerialiseAll(h, es)
    ensures var next := at + HEADER_SIZE + |es[0].name|;
            next <= |buf| && buf[next..] == SerialiseAll(h, es[1..])
  {
    var s := Serialise(h, es[0]);
    assert buf[at..] == s + SerialiseAll(h, es[1..]);
    assert buf[at + |s|..] == buf[at..][|s|..];
  }

  lemma FirstLength(h: Host, es: seq<Event>, buf: seq<byte>, at: nat)
    requires AllInRange(es) && es != [] && at <= |buf| && buf[at..] == SerialiseAll(h, es)
    ensures at + HEADER_SIZE <= |buf| && LenAt(h, buf, at) == |es[0].name|
  {
    RecordRoundTrip(h, es[0], buf, at);
    assert |EventAt(h, buf, at).name| == LenAt(h, buf, at);
  }

  lemma {:induction false} WalkStopsLate(h: Host, buf: seq<byte>, at: nat)
    requires WalkFrom(h, buf, at).Visited?
    ensures WalkFrom(h, buf, at).stop >= |buf| && WalkFrom(h, buf, at).stop >= at
    decreases |buf| - at
  {
    if at < |buf| {
      WalkStopsLate(h, buf, at + HEADER_SIZE + LenAt(h, buf, at));
    }
  }

  lemma RecordIsSerialised(h: Host, buf: seq<byte>, at: nat)
    requires at + HEADER_SIZE <= |buf| && at + HEADER_SIZE + LenAt(h, buf, at) <= |buf|
    ensures var e := EventAt(h, buf, at);
            e.InRange() && Serialise(h, e) == buf[at..at + HEADER_SIZE + LenAt(h, buf, at)]
  {
    StoreLoad(h, buf[at..at + 4]);
    StoreLoad(h, buf[at + 4..at + 8]);
    StoreLoad(h, buf[at + 8..at + 12]);
    StoreLoad(h, buf[at + 12..at + 16]);
    var e := EventAt(h, buf, at);
    assert e.InRange() && ToUnsigned(e.wd, 4) == Field(h, buf, at);
    var end := at + HEADER_SIZE + LenAt(h, buf, at);
    assert buf[at..end] ==
           buf[at..at + 4] + buf[at + 4..at + 8] + buf[at + 8..at + 12] + buf[at + 12..at + 16] + buf[at + 16..end];
  }

  /** Only well-formed buffers can be walked: the walk stays inside and ends at the end exactly
      when the buffer is a sequence of whole records. */
  lemma WalkStaysInsideIff(h: Host, buf: seq<byte>)
    ensures WalkFrom(h, buf, 0).Visited? && WalkFrom(h, buf, 0).stop == |buf| <==>
            exists es :: AllInRange(es) && SerialiseAll(h, es) == buf
  {
    if WalkFrom(h, buf, 0).Visited? && WalkFrom(h, buf, 0).stop == |buf| {
      var es := WalkedRecords(h, buf, 0);
      assert buf[0..] == buf;
    }
    if es :| AllInRange(es) && SerialiseAll(h, es) == buf {
      assert buf[0..] == buf;
      WalkVisitsRecords(h, es, buf, 0);
    }
  }

  lemma {:induction false} WalkedRecords(h: Host, buf: seq<byte>, at: nat) returns (es: seq<Event>)
    requires at <= |buf| && WalkFrom(h, buf, at).Visited? && WalkFrom(h, buf, at).stop == |buf|
    ensures AllInRange(es) && SerialiseAll(h, es) == buf[at..]
    decreases |buf| - at
  {
    es := [];
    if at < |buf| {
      var next := at + HEADER_SIZE + LenAt(h, buf, at);
      WalkStopsLate(h, buf, next);
      RecordIsSerialised(h, buf, at);
      var later := WalkedRecords(h, buf, next);
      es := [EventAt(h, buf, at)] + later;
      assert es[1..] == later;
      assert buf[at..] == buf[at..next] + buf[next..];
    }
  }
}
