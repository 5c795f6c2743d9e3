/** Octets, and the two ways a machine word can be laid out in them.

    The wire form of every integer is the one of Appendix B of RFC 791: the most
    significant octet first.  The program reaches it on any host by `htobe` followed
    by a copy of the host's own memory layout; this module says what that composition
    is, and that `be..toh` after a copy into memory undoes it. */
module Bytes {
  type byte = b: int | 0 <= b < 256

  function Pow256(w: nat): (p: nat)
    ensures p > 0
  {
    if w == 0 then 1 else 256 * Pow256(w - 1)
  }

  /** The `w` low octets of `v`, least significant first. */
  function LittleEndian(v: nat, w: nat): (bs: seq<byte>)
    ensures |bs| == w
  {
    if w == 0 then [] else [v % 256] + LittleEndian(v / 256, w - 1)
  }

  /** The `w` low octets of `v`, most significant first. */
  function BigEndian(v: nat, w: nat): (bs: seq<byte>)
    ensures |bs| == w
  {
    if w == 0 then [] else BigEndian(v / 256, w - 1) + [v % 256]
  }

  function FromLittleEndian(bs: seq<byte>): nat {
    if bs == [] then 0 else bs[0] + 256 * FromLittleEndian(bs[1..])
  }

  function FromBigEndian(bs: seq<byte>): nat {
    if bs == [] then 0 else 256 * FromBigEndian(bs[..|bs| - 1]) + bs[|bs| - 1]
  }

  /** The `bswap` instruction on a word of `w` octets, as arithmetic. */
  function Swap(v: nat, w: nat): nat {
    if w == 0 then 0 else (v % 256) * Pow256(w - 1) + Swap(v / 256, w - 1)
  }

  datatype Host = LittleHost | BigHost

  /** What a copy of a `w`-octet word out of memory yields. */
  function Store(h: Host, v: nat, w: nat): (bs: seq<byte>)
    ensures |bs| == w
  {
    match h
    case LittleHost => LittleEndian(v, w)
    case BigHost => BigEndian(v, w)
  }

  /** The word that the octets `bs` make once copied into memory. */
  function Load(h: Host, bs: seq<byte>): nat {
    match h
    case LittleHost => FromLittleEndian(bs)
    case BigHost => FromBigEndian(bs)
  }

  /** `htobe` and `be..toh`: the same operation, a swap on little-endian hosts only. */
  function HostToBig(h: Host, v: nat, w: nat): nat {
    if h == LittleHost then Swap(v, w) else v
  }

  // ---- Arithmetic of digits ----

  lemma {:induction false} DivideBelow(v: nat, w: nat)
    requires w > 0 && v < Pow256(w)
    ensures v / 256 < Pow256(w - 1)
  {
  }

  lemma DigitBelow(a: nat, p: nat)
    requires a < 256
    ensures a * p <= 255 * p
  {
    assert 0 <= (255 - a) * p;
  }

  lemma {:induction false} SwapBound(v: nat, w: nat)
    ensures Swap(v, w) < Pow256(w)
  {
    if w > 0 {
      SwapBound(v / 256, w - 1);
      DigitBelow(v % 256, Pow256(w - 1));
    }
  }

  /** Putting a digit above `k` others adds it at the far end of the little-endian form ... */
  lemma {:induction false} LittleEndianTop(a: nat, b: nat, k: nat)
    requires a < 256 && b < Pow256(k)
    ensures LittleEndian(a * Pow256(k) + b, k + 1) == LittleEndian(b, k) + [a]
  {
    if k == 0 {
      assert LittleEndian(a, 1) == [a % 256] + LittleEndian(a / 256, 0);
    } else {
      var p := Pow256(k - 1);
      var v := a * Pow256(k) + b;
      assert a * Pow256(k) == 256 * (a * p);
      assert v % 256 == b % 256 && v / 256 == a * p + b / 256;
      LittleEndianTop(a, b / 256, k - 1);
    }
  }

  /** ... and at the near end of the big-endian one. */
  lemma {:induction false} BigEndianTop(a: nat, b: nat, k: nat)
    requires a < 256 && b < Pow256(k)
    ensures BigEndian(a * Pow256(k) + b, k + 1) == [a] + BigEndian(b, k)
  {
    if k == 0 {
      assert BigEndian(a, 1) == BigEndian(a / 256, 0) + [a % 256];
    } else {
      var p := Pow256(k - 1);
      var v := a * Pow256(k) + b;
      assert a * Pow256(k) == 256 * (a * p);
      assert v % 256 == b % 256 && v / 256 == a * p + b / 256;
      BigEndianTop(a, b / 256, k - 1);
    }
  }

  lemma {:induction false} SwapReverses(v: nat, w: nat)
    ensures LittleEndian(Swap(v, w), w) == BigEndian(v, w)
    ensures BigEndian(Swap(v, w), w) == LittleEndian(v, w)
  {
    if w > 0 {
      SwapReverses(v / 256, w - 1);
      SwapBound(v / 256, w - 1);
      LittleEndianTop(v % 256, Swap(v / 256, w - 1), w - 1);
      BigEndianTop(v % 256, Swap(v / 256, w - 1), w - 1);
    }
  }

  lemma {:induction false} LittleEndianInverse(v: nat, w: nat)
    requires v < Pow256(w)
    ensures FromLittleEndian(LittleEndian(v, w)) == v
  {
    if w > 0 {
      DivideBelow(v, w);
      LittleEndianInverse(v / 256, w - 1);
      assert LittleEndian(v, w)[1..] == LittleEndian(v / 256, w - 1);
    }
  }

  lemma {:induction false} BigEndianInverse(v: nat, w: nat)
    requires v < Pow256(w)
    ensures FromBigEndian(BigEndian(v, w)) == v
  {
    if w > 0 {
      DivideBelow(v, w);
      BigEndianInverse(v / 256, w - 1);
      assert BigEndian(v, w)[..w - 1] == BigEndian(v / 256, w - 1);
    }
  }

  lemma {:induction false} SwapInvolution(v: nat, w: nat)
    requires v < Pow256(w)
    ensures Swap(Swap(v, w), w) == v
  {
    SwapReverses(v, w);
    SwapReverses(Swap(v, w), w);
    SwapBound(Swap(v, w), w);
    LittleEndianInverse(v, w);
    LittleEndianInverse(Swap(Swap(v, w), w), w);
  }

  // ---- The wire form ----

  /** `v >> 8 * k` */
  function ShiftOctets(v: nat, k: nat): nat {
    if k == 0 then v else ShiftOctets(v / 256, k - 1)
  }

  /** RFC 791, Appendix B: octet `i` of a `w`-octet field has `w - 1 - i` octets below it. */
  lemma {:induction false} BigEndianOctet(v: nat, w: nat, i: nat)
    requires i < w
    ensures BigEndian(v, w)[i] == ShiftOctets(v, w - 1 - i) % 256
  {
    if i < w - 1 {
      BigEndianOctet(v / 256, w - 1, i);
    }
  }

  /** ... and of a word laid out from the other end, `i`. */
  lemma {:induction false} LittleEndianOctet(v: nat, w: nat, i: nat)
    requires i < w
    ensures LittleEndian(v, w)[i] == ShiftOctets(v, i) % 256
  {
    if i > 0 {
      LittleEndianOctet(v / 256, w - 1, i - 1);
    }
  }

  lemma DivideTwice(v: int, p: nat)
    requires p > 0
    ensures v / 256 / p == v / (256 * p)
  {
    var q, r := v / 256 / p, v / 256 % p;
    assert v / 256 == q * p + r && v == 256 * (v / 256) + v % 256;
    var low := 256 * r + v % 256;
    assert 256 * (q * p) == q * (256 * p);
    assert 0 <= low < 256 * p && v == q * (256 * p) + low;
    QuotientIs(v, 256 * p, q, low);
  }

  lemma QuotientIs(v: int, d: nat, q: int, r: nat)
    requires r < d && v == q * d + r
    ensures v / d == q
  {
    var e := v / d - q;
    assert e * d == r - v % d;
    assert e >= 1 ==> e * d - d >= 0;
    assert e <= -1 ==> e * d + d <= 0;
  }

  lemma {:induction false} ShiftIsDivision(v: nat, k: nat)
    ensures ShiftOctets(v, k) == v / Pow256(k)
  {
    if k > 0 {
      ShiftIsDivision(v / 256, k - 1);
      DivideTwice(v, Pow256(k - 1));
    }
  }

  /** A multiple of all digits does not show in one of them. */
  lemma DigitOfSum(v: int, w: nat, k: nat)
    requires k < w
    ensures ((v + Pow256(w)) / Pow256(k)) % 256 == (v / Pow256(k)) % 256
  {
    PowAbove(w, k);
    AddMultiple(v, Pow256(k), 256 * Pow256(w - 1 - k));
    HigherDigits(v / Pow256(k), Pow256(w - 1 - k));
  }

  lemma PowAbove(w: nat, k: nat)
    requires k < w
    ensures Pow256(w) == 256 * Pow256(w - 1 - k) * Pow256(k)
  {
    PowSum(w - k, k);
    assert w - k + k == w;
  }

  lemma HigherDigits(d: int, m: nat)
    ensures (d + 256 * m) % 256 == d % 256
  {
  }

  lemma AddMultiple(v: int, p: nat, q: nat)
    requires p > 0
    ensures (v + q * p) / p == v / p + q
  {
    assert v == v / p * p + v % p;
    assert v / p * p + q * p == (v / p + q) * p;
    QuotientIs(v + q * p, p, v / p + q, v % p);
  }

  lemma {:induction false} PowSum(a: nat, b: nat)
    ensures Pow256(a + b) == Pow256(a) * Pow256(b)
  {
    if a > 0 {
      PowSum(a - 1, b);
      assert a + b - 1 == a - 1 + b;
      Factors(Pow256(a - 1), Pow256(b));
    }
  }

  lemma Factors(p: nat, q: nat)
    ensures 256 * (p * q) == 256 * p * q
  {
  }

  /** `htobe` followed by the host's own layout is the same on every host. */
  lemma WireFormHostIndependent(h: Host, v: nat, w: nat)
    ensures Store(h, HostToBig(h, v, w), w) == BigEndian(v, w)
  {
    SwapReverses(v, w);
  }

  /** A copy into memory followed by `be..toh` recovers the word, on any host. */
  lemma LoadInvertsWireForm(h: Host, v: nat, w: nat)
    requires v < Pow256(w)
    ensures HostToBig(h, Load(h, BigEndian(v, w)), w) == v
  {
    SwapReverses(v, w);
    SwapBound(v, w);
    LittleEndianInverse(Swap(v, w), w);
    SwapInvolution(v, w);
    BigEndianInverse(v, w);
  }
}
