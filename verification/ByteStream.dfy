/** Reading straight from a byte stream: the simple form that buffered reading has to
    agree with.  A reader asks for a fixed number of octets, or for a string that ends
    at the next NUL. */
module ByteStream {
  import opened Bytes
  import opened Options

  datatype Ask = Fixed(n: nat) | Terminated

  datatype Split = Split(chunks: seq<seq<byte>>, rest: seq<byte>)

  /** `strlen`: the index of the first NUL, or the length when there is none. */
  function FirstNul(s: seq<byte>): (k: nat)
    ensures k <= |s|
    ensures forall i :: 0 <= i < k ==> s[i] != 0
    ensures k < |s| ==> s[k] == 0
  {
    if s == [] || s[0] == 0 then 0 else FirstNul(s[1..]) + 1
  }

  lemma FirstNulUnique(s: seq<byte>, k: nat)
    requires k < |s| && s[k] == 0
    requires forall i :: 0 <= i < k ==> s[i] != 0
    ensures FirstNul(s) == k
  {
    var j := FirstNul(s);
    assert !(j < k) && !(k < j);
  }

  function Flatten<T>(chunks: seq<seq<T>>): seq<T> {
    if chunks == [] then [] else Flatten(chunks[..|chunks| - 1]) + chunks[|chunks| - 1]
  }

  /** What one ask takes from the front of a stream, when the stream holds enough. */
  function FirstChunk(ask: Ask, stream: seq<byte>): (r: Option<seq<byte>>)
    ensures r.Some? ==> r.value <= stream
  {
    match ask
    case Fixed(n) => if n <= |stream| then Some(stream[..n]) else None
    case Terminated =>
      var k := FirstNul(stream);
      if k < |stream| then Some(stream[..k + 1]) else None
  }

  /** What a list of asks takes from a stream, one after the other. */
  function SplitAll(asks: seq<Ask>, stream: seq<byte>): Option<Split> {
    if asks == [] then Some(Split([], stream))
    else
      match SplitAll(asks[..|asks| - 1], stream)
      case None => None
      case Some(done) =>
        match FirstChunk(asks[|asks| - 1], done.rest)
        case None => None
        case Some(c) => Some(Split(done.chunks + [c], done.rest[|c|..]))
  }

  /** A chunk that an ask takes whole, whatever follows it. */
  predicate Conforms(ask: Ask, c: seq<byte>) {
    match ask
    case Fixed(n) => |c| == n
    case Terminated => c != [] && FirstNul(c) == |c| - 1
  }

  lemma FirstChunkExact(ask: Ask, c: seq<byte>, rest: seq<byte>)
    requires Conforms(ask, c)
    ensures FirstChunk(ask, c + rest) == Some(c) && (c + rest)[|c|..] == rest
  {
    if ask.Terminated? {
      assert (c + rest)[..|c| - 1] == c[..|c| - 1];
      FirstNulUnique(c + rest, |c| - 1);
      assert (c + rest)[..|c|] == c;
    } else {
      assert (c + rest)[..|c|] == c;
    }
  }

  /** Conversely, whatever an ask takes conforms to it. */
  lemma FirstChunkConforms(ask: Ask, stream: seq<byte>)
    requires FirstChunk(ask, stream).Some?
    ensures Conforms(ask, FirstChunk(ask, stream).value)
  {
    if ask.Terminated? {
      var k := FirstNul(stream);
      var c := stream[..k + 1];
      assert c[..k] == stream[..k];
      FirstNulUnique(c, k);
    }
  }

  lemma FlattenLast<T>(chunks: seq<seq<T>>, rest: seq<T>)
    requires chunks != []
    ensures var n := |chunks| - 1;
            Flatten(chunks) + rest == Flatten(chunks[..n]) + (chunks[n] + rest) &&
            chunks[..n] + [chunks[n]] == chunks
  {
    var n := |chunks| - 1;
    Associate(Flatten(chunks[..n]), chunks[n], rest);
  }

  lemma Associate<T>(a: seq<T>, b: seq<T>, c: seq<T>)
    ensures a + (b + c) == a + b + c
  {
  }

  /** Unique decodability: a stream cut into conforming chunks is split at those cuts. */
  lemma {:induction false} SplitFlattened(asks: seq<Ask>, chunks: seq<seq<byte>>, rest: seq<byte>)
    requires |asks| == |chunks|
    requires forall i :: 0 <= i < |asks| ==> Conforms(asks[i], chunks[i])
    ensures SplitAll(asks, Flatten(chunks) + rest) == Some(Split(chunks, rest))
  {
    if asks == [] {
      assert Flatten(chunks) + rest == rest;
    } else {
      var n := |asks| - 1;
      var c := chunks[n];
      SplitFlattened(asks[..n], chunks[..n], c + rest);
      FirstChunkExact(asks[n], c, rest);
      FlattenLast(chunks, rest);
    }
  }

  /** What has been split off a stream is unaffected by what arrives later. */
  lemma {:induction false} SplitExtends(asks: seq<Ask>, stream: seq<byte>, more: seq<byte>)
    requires SplitAll(asks, stream).Some?
    ensures var s := SplitAll(asks, stream).value;
            SplitAll(asks, stream + more) == Some(Split(s.chunks, s.rest + more))
  {
    if asks != [] {
      var n := |asks| - 1;
      SplitExtends(asks[..n], stream, more);
      ChunkExtends(asks[n], SplitAll(asks[..n], stream).value.rest, more);
    }
  }

  lemma ChunkExtends(ask: Ask, stream: seq<byte>, more: seq<byte>)
    requires FirstChunk(ask, stream).Some?
    ensures FirstChunk(ask, stream + more) == FirstChunk(ask, stream)
    ensures var c := FirstChunk(ask, stream).value; (stream + more)[|c|..] == stream[|c|..] + more
  {
    FirstChunkConforms(ask, stream);
    var c := FirstChunk(ask, stream).value;
    assert stream + more == c + (stream[|c|..] + more);
    FirstChunkExact(ask, c, stream[|c|..] + more);
  }

  lemma {:induction false} FlattenAppend<T>(a: seq<seq<T>>, b: seq<seq<T>>)
    ensures Flatten(a + b) == Flatten(a) + Flatten(b)
  {
    if b == [] {
      assert a + b == a;
    } else {
      var n := |b| - 1;
      FlattenAppend(a, b[..n]);
      assert (a + b)[..|a + b| - 1] == a + b[..n] && (a + b)[|a + b| - 1] == b[n];
      Associate(Flatten(a), Flatten(b[..n]), b[n]);
    }
  }
}
