/** The typed layer: `operator<<` and `operator>>` of the buffered socket. */
module Codec {
  import opened Bytes
  import opened ByteStream
  import opened Options

  predicate IsWidth(w: nat) {
    w in {1, 2, 4, 8}
  }

  /** The values with an `operator<<`.  `Float` and `Double` hold bit patterns; `Text` holds
      the characters of a `std::string`, which may include NULs. */
  datatype Value =
    | Char(c: byte)
    | Unsigned(w: nat, u: nat)
    | Signed(w: nat, i: int)
    | Float(bits: nat)
    | Double(bits: nat)
    | Text(chars: seq<byte>)
  {
    predicate InRange() {
      match this
      case Char(_) => true
      case Unsigned(w, u) => IsWidth(w) && u < Pow256(w)
      case Signed(w, i) => IsWidth(w) && 0 <= 2 * i + Pow256(w) < 2 * Pow256(w)
      case Float(bits) => bits < Pow256(4)
      case Double(bits) => bits < Pow256(8)
      case Text(_) => true
    }

    function Kind(): Kind {
      match this
      case Char(_) => CharKind
      case Unsigned(w, _) => UnsignedKind(w)
      case Signed(w, _) => SignedKind(w)
      case Float(_) => FloatKind
      case Double(_) => DoubleKind
      case Text(_) => TextKind
    }
  }

  datatype Kind = CharKind | UnsignedKind(w: nat) | SignedKind(w: nat) | FloatKind | DoubleKind | TextKind
  {
    /** How many octets `operator>>` reads, or that it reads to a terminator. */
    function Ask(): Ask {
      match this
      case CharKind => Fixed(1)
      case UnsignedKind(w) => Fixed(w)
      case SignedKind(w) => Fixed(w)
      case FloatKind => Fixed(4)
      case DoubleKind => Fixed(8)
      case TextKind => Terminated
    }
  }

  /** `static_cast<uintN_t>` of an intN_t. */
  function ToUnsigned(i: int, w: nat): nat
    requires 0 <= 2 * i + Pow256(w) < 2 * Pow256(w)
  {
    if i < 0 then i + Pow256(w) else i
  }

  /** The intN_t whose two's complement pattern is `u`. */
  function ToSigned(u: nat, w: nat): int {
    if 2 * u < Pow256(w) then u else u - Pow256(w)
  }

  function EncodeWord(h: Host, u: nat, w: nat): (bs: seq<byte>)
    requires u < Pow256(w)
    ensures |bs| == w
  {
    if w == 1 then assert Pow256(0) == 1; [u] else Store(h, HostToBig(h, u, w), w)
  }

  function DecodeWord(h: Host, bs: seq<byte>, w: nat): nat
    requires |bs| == w
  {
    if w == 1 then bs[0] else HostToBig(h, Load(h, bs), w)
  }

  /** The octets `operator<<` hands to the output buffer on host `h`. */
  function Encode(h: Host, v: Value): seq<byte>
    requires v.InRange()
  {
    match v
    case Char(c) => [c]
    case Unsigned(w, u) => EncodeWord(h, u, w)
    case Signed(w, i) => EncodeWord(h, ToUnsigned(i, w), w)
    case Float(bits) => EncodeWord(h, bits, 4)
    case Double(bits) => EncodeWord(h, bits, 8)
    case Text(chars) => chars + [0]
  }

  /** What `operator>>` makes on host `h` of the octets it has read. */
  function Decode(h: Host, k: Kind, bs: seq<byte>): Value
    requires Conforms(k.Ask(), bs)
  {
    match k
    case CharKind => Char(bs[0])
    case UnsignedKind(w) => Unsigned(w, DecodeWord(h, bs, w))
    case SignedKind(w) => Signed(w, ToSigned(DecodeWord(h, bs, w), w))
    case FloatKind => Float(DecodeWord(h, bs, 4))
    case DoubleKind => Double(DecodeWord(h, bs, 8))
    case TextKind => Text(bs[..|bs| - 1])
  }

  lemma WordRoundTrip(from: Host, to: Host, u: nat, w: nat)
    requires u < Pow256(w)
    ensures DecodeWord(to, EncodeWord(from, u, w), w) == u
    ensures EncodeWord(from, u, w) == EncodeWord(to, u, w) == BigEndian(u, w)
  {
    if w == 1 {
      assert Pow256(1) == 256 * Pow256(0);
      assert BigEndian(u, 1) == BigEndian(u / 256, 0) + [u % 256];
    } else {
      WireFormHostIndependent(from, u, w);
      WireFormHostIndependent(to, u, w);
      LoadInvertsWireForm(to, u, w);
    }
  }

  /** Any host's `>>` inverts any host's `<<`; the wire form names no host. */
  lemma ValueRoundTrip(from: Host, to: Host, v: Value)
    requires v.InRange() && (v.Text? ==> 0 !in v.chars)
    ensures Encode(from, v) == Encode(to, v)
    ensures Conforms(v.Kind().Ask(), Encode(from, v))
    ensures Decode(to, v.Kind(), Encode(from, v)) == v
  {
    match v
    case Char(_) =>
    case Unsigned(w, u) => WordRoundTrip(from, to, u, w);
    case Signed(w, i) => SignedRoundTrip(from, to, w, i);
    case Float(bits) => WordRoundTrip(from, to, bits, 4);
    case Double(bits) => WordRoundTrip(from, to, bits, 8);
    case Text(chars) => StringRoundTrip(from, to, chars);
  }

  /** What `operator<<` puts on the wire, octet by octet: of an integer the digits of its value to the
      base 256, most significant first, in two's complement when it is negative (division rounds
      down); of floats the same of their bit patterns; characters as they are. */
  lemma WireOctets(h: Host, v: Value, j: nat)
    requires v.InRange() && j < |Encode(h, v)|
    ensures match v
            case Char(c) => Encode(h, v) == [c]
            case Unsigned(w, u) => |Encode(h, v)| == w && Encode(h, v)[j] == u / Pow256(w - 1 - j) % 256
            case Signed(w, i) => |Encode(h, v)| == w && Encode(h, v)[j] == i / Pow256(w - 1 - j) % 256
            case Float(bits) => |Encode(h, v)| == 4 && Encode(h, v)[j] == bits / Pow256(3 - j) % 256
            case Double(bits) => |Encode(h, v)| == 8 && Encode(h, v)[j] == bits / Pow256(7 - j) % 256
            case Text(chars) => Encode(h, v) == chars + [0]
  {
    match v
    case Char(_) =>
    case Unsigned(w, u) => WordOctet(h, u, w, j);
    case Signed(w, i) =>
      WordOctet(h, ToUnsigned(i, w), w, j);
      if i < 0 {
        DigitOfSum(i, w, w - 1 - j);
      }
    case Float(bits) => WordOctet(h, bits, 4, j);
    case Double(bits) => WordOctet(h, bits, 8, j);
    case Text(_) =>
  }

  lemma WordOctet(h: Host, u: nat, w: nat, j: nat)
    requires u < Pow256(w) && j < w
    ensures EncodeWord(h, u, w)[j] == u / Pow256(w - 1 - j) % 256
  {
    WordRoundTrip(h, h, u, w);
    BigEndianOctet(u, w, j);
    ShiftIsDivision(u, w - 1 - j);
  }

  lemma SignedRoundTrip(from: Host, to: Host, w: nat, i: int)
    requires Signed(w, i).InRange()
    ensures var bs := EncodeWord(from, ToUnsigned(i, w), w);
            bs == EncodeWord(to, ToUnsigned(i, w), w) && ToSigned(DecodeWord(to, bs, w), w) == i
  {
    WordRoundTrip(from, to, ToUnsigned(i, w), w);
  }

  lemma StringRoundTrip(from: Host, to: Host, chars: seq<byte>)
    requires 0 !in chars
    ensures Conforms(Terminated, Encode(from, Text(chars)))
    ensures Decode(to, TextKind, Encode(from, Text(chars))) == Text(chars)
  {
    assert (chars + [0])[..|chars|] == chars;
    FirstNulUnique(chars + [0], |chars|);
  }

  /** A `std::string` survives the trip exactly when it holds no NUL: a reader always finds a
      terminated string at the front of what was written, but it is the written one only then. */
  lemma TextRoundTripIff(from: Host, to: Host, chars: seq<byte>, rest: seq<byte>)
    ensures var r := FirstChunk(Terminated, Encode(from, Text(chars)) + rest);
            r.Some? && Conforms(Terminated, r.value) &&
            (Decode(to, TextKind, r.value) == Text(chars) <==> 0 !in chars)
  {
    var sent := chars + [0];
    var k := FirstNul(sent);
    assert sent[|chars|] == 0 && k <= |chars|;
    var c := sent[..k + 1];
    FirstNulUnique(c, k);
    FirstChunkExact(Terminated, c, sent[k + 1..] + rest);
    assert c + (sent[k + 1..] + rest) == sent + rest;
    assert c[..k] == chars[..k];
    assert k < |chars| ==> chars[k] == 0;
    assert 0 in chars <==> k < |chars|;
  }

  // ---- Lists of values ----

  predicate AllSendable(vs: seq<Value>) {
    forall v :: v in vs ==> v.InRange() && (v.Text? ==> 0 !in v.chars)
  }

  function EncodeEach(h: Host, vs: seq<Value>): seq<seq<byte>>
    requires forall v :: v in vs ==> v.InRange()
  {
    seq(|vs|, i requires 0 <= i < |vs| => Encode(h, vs[i]))
  }

  function Asks(kinds: seq<Kind>): seq<Ask> {
    seq(|kinds|, i requires 0 <= i < |kinds| => kinds[i].Ask())
  }

  function Kinds(vs: seq<Value>): seq<Kind> {
    seq(|vs|, i requires 0 <= i < |vs| => vs[i].Kind())
  }

  predicate AllConform(kinds: seq<Kind>, chunks: seq<seq<byte>>) {
    |kinds| == |chunks| && forall i :: 0 <= i < |kinds| ==> Conforms(kinds[i].Ask(), chunks[i])
  }

  function DecodeEach(h: Host, kinds: seq<Kind>, chunks: seq<seq<byte>>): seq<Value>
    requires AllConform(kinds, chunks)
  {
    seq(|kinds|, i requires 0 <= i < |kinds| => Decode(h, kinds[i], chunks[i]))
  }

  /** A heterogeneous list, encoded and concatenated, is split and decoded to itself by a
      reader that asks for the same types, and what follows it is left alone. */
  lemma ListRoundTrip(from: Host, to: Host, vs: seq<Value>, rest: seq<byte>)
    requires AllSendable(vs)
    ensures SplitAll(Asks(Kinds(vs)), Flatten(EncodeEach(from, vs)) + rest)
            == Some(Split(EncodeEach(from, vs), rest))
    ensures AllConform(Kinds(vs), EncodeEach(from, vs))
    ensures DecodeEach(to, Kinds(vs), EncodeEach(from, vs)) == vs
  {
    var kinds, chunks := Kinds(vs), EncodeEach(from, vs);
    forall i | 0 <= i < |vs|
      ensures Conforms(kinds[i].Ask(), chunks[i]) && Decode(to, kinds[i], chunks[i]) == vs[i]
    {
      assert vs[i] in vs;
      ValueRoundTrip(from, to, vs[i]);
    }
    SplitFlattened(Asks(kinds), chunks, rest);
  }
}
