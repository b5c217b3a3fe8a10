/** One digest over a list of files: path NUL payload NUL, file after file. */
module Framing {
  import opened Options
  import opened ByteStrings

  const NUL: Byte := 0

  const PREFIX := AsciiBytes("sha256:")

  // The bytes of an ASCII text.
  function AsciiBytes(s: string): (b: Bytes)
    requires forall i | 0 <= i < |s| :: s[i] < '\U{80}'
    ensures |b| == |s| && forall i | 0 <= i < |s| :: b[i] as int == s[i] as int
  {
    seq(|s|, i requires 0 <= i < |s| => (s[i] as int) as Byte)
  }

  datatype Frame = Frame(path: Bytes, payload: Bytes)

  // The bytes of one frame.
  function Framed(f: Frame): Bytes {
    f.path + [NUL] + f.payload + [NUL]
  }

  function Encode(fs: seq<Frame>): Bytes {
    if fs == [] then [] else Framed(fs[0]) + Encode(fs[1..])
  }

  // ----- decoding -----

  function UpToNul(s: Bytes): (r: Bytes)
    ensures r <= s && NUL !in r
    ensures |r| < |s| ==> s[|r|] == NUL
  {
    if s == [] || s[0] == NUL then [] else [s[0]] + UpToNul(s[1..])
  }

  // The frames of a stream, if it is one of frames without NUL.
  function Decode(s: Bytes): Option<seq<Frame>>
    decreases |s|
  {
    if s == [] then Some([])
    else
      var path := UpToNul(s);
      if |path| == |s| then None
      else
        var rest := s[|path| + 1..];
        var payload := UpToNul(rest);
        if |payload| == |rest| then None
        else
          match Decode(rest[|payload| + 1..])
          case None => None
          case Some(fs) => Some([Frame(path, payload)] + fs)
  }

  predicate NulFree(fs: seq<Frame>) {
    forall i | 0 <= i < |fs| :: NUL !in fs[i].path && NUL !in fs[i].payload
  }

  lemma {:induction false} UpToNulStops(a: Bytes, s: Bytes)
    requires NUL !in a
    ensures UpToNul(a + [NUL] + s) == a
  {
    if a == [] {
      assert (a + [NUL] + s)[0] == NUL;
    } else {
      assert (a + [NUL] + s)[1..] == a[1..] + [NUL] + s;
      assert (a + [NUL] + s)[0] == a[0];
      UpToNulStops(a[1..], s);
    }
  }

  lemma DecodeFirst(f: Frame, tail: Bytes)
    requires NUL !in f.path && NUL !in f.payload
    ensures Decode(Framed(f) + tail) ==
            match Decode(tail) { case None => None case Some(fs) => Some([f] + fs) }
  {
    var s, rest := Framed(f) + tail, f.payload + [NUL] + tail;
    Regroup(f.path, [NUL], f.payload, [NUL], tail);
    UpToNulStops(f.path, rest);
    assert s[|f.path| + 1..] == rest;
    UpToNulStops(f.payload, tail);
    assert rest[|f.payload| + 1..] == tail;
  }

  lemma {:induction false} DecodeEncode(fs: seq<Frame>)
    requires NulFree(fs)
    ensures Decode(Encode(fs)) == Some(fs)
  {
    if fs != [] {
      assert fs == [fs[0]] + fs[1..];
      DecodeEncode(fs[1..]);
      EncodeCons(fs[0], fs[1..]);
      DecodeFirst(fs[0], Encode(fs[1..]));
    }
  }

  // A stream that decodes starts with the bytes of the first frame.
  lemma SplitFirst(s: Bytes) returns (f: Frame, tail: Bytes)
    requires s != [] && Decode(s).Some?
    ensures s == Framed(f) + tail && |tail| < |s| && NUL !in f.path && NUL !in f.payload
    ensures Decode(tail).Some? && Decode(s).value == [f] + Decode(tail).value
  {
    var path := UpToNul(s);
    var rest := s[|path| + 1..];
    var payload := UpToNul(rest);
    f, tail := Frame(path, payload), rest[|payload| + 1..];
    CutAtNul(s);
    CutAtNul(rest);
    Regroup(path, [NUL], payload, [NUL], tail);
  }

  lemma CutAtNul(s: Bytes)
    requires |UpToNul(s)| < |s|
    ensures s == UpToNul(s) + [NUL] + s[|UpToNul(s)| + 1..]
  {
  }

  lemma Regroup(a: Bytes, b: Bytes, c: Bytes, d: Bytes, e: Bytes)
    ensures a + b + (c + d + e) == a + b + c + d + e
  {
  }

  lemma {:induction false} EncodeDecode(s: Bytes)
    requires Decode(s).Some?
    ensures NulFree(Decode(s).value) && Encode(Decode(s).value) == s
    decreases |s|
  {
    if s != [] {
      var f, tail := SplitFirst(s);
      EncodeDecode(tail);
      EncodeCons(f, Decode(tail).value);
    }
  }

  lemma EncodeCons(f: Frame, fs: seq<Frame>)
    ensures Encode([f] + fs) == Framed(f) + Encode(fs)
  {
    assert ([f] + fs)[1..] == fs;
  }

  /** Decode inverts Encode on exactly the lists of frames without NUL. */
  lemma DecodesIff(s: Bytes, fs: seq<Frame>)
    ensures Decode(s) == Some(fs) <==> NulFree(fs) && s == Encode(fs)
  {
    if Decode(s) == Some(fs) {
      EncodeDecode(s);
    }
    if NulFree(fs) {
      DecodeEncode(fs);
    }
  }

  /** One more file adds its path, a zero byte, its payload and a zero byte to the stream. */
  lemma {:induction false} StreamAdds(fs: seq<Frame>, f: Frame)
    ensures Encode(fs + [f]) == Encode(fs) + f.path + [0] + f.payload + [0]
    ensures Encode([]) == []
  {
    EncodeSnoc(fs, f);
    assert Encode(fs) + Framed(f) == Encode(fs) + f.path + [0] + f.payload + [0];
  }

  // ----- arbitrary payloads -----

  function Zip(paths: seq<Bytes>, payloads: seq<Bytes>): (fs: seq<Frame>)
    requires |paths| == |payloads|
  {
    if paths == [] then [] else [Frame(paths[0], payloads[0])] + Zip(paths[1..], payloads[1..])
  }

  // The stream of these paths tells which payloads went in.
  ghost predicate DeterminesPayloads(paths: seq<Bytes>) {
    forall a: seq<Bytes>, b: seq<Bytes> |
      |a| == |b| == |paths| && Encode(Zip(paths, a)) == Encode(Zip(paths, b)) :: a == b
  }

  // Two lists of payloads that the frames of these paths confuse.
  function Confused(paths: seq<Bytes>): (r: (seq<Bytes>, seq<Bytes>))
    requires |paths| >= 2
    ensures |r.0| == |r.1| == |paths| && r.0 != r.1
  {
    var s, rest := [NUL] + paths[1] + [NUL], Empties(|paths| - 2);
    assert [[], s][0] != [s, []][0];
    assert ([[], s] + rest)[0] != ([s, []] + rest)[0];
    ([[], s] + rest, [s, []] + rest)
  }

  function Empties(n: nat): (r: seq<Bytes>)
    ensures |r| == n
  {
    if n == 0 then [] else [[]] + Empties(n - 1)
  }

  lemma ConfusedStreams(paths: seq<Bytes>)
    requires |paths| >= 2
    ensures Encode(Zip(paths, Confused(paths).0)) == Encode(Zip(paths, Confused(paths).1))
  {
    var s, rest := [NUL] + paths[1] + [NUL], Empties(|paths| - 2);
    TwoFrames(paths, [], s, rest);
    TwoFrames(paths, s, [], rest);
    SameMiddle(s);
  }

  lemma SameMiddle(s: Bytes)
    ensures Middle([], s, s) == Middle(s, s, [])
  {
  }

  // Two payloads and what stands between them.
  function Middle(x: Bytes, between: Bytes, y: Bytes): Bytes {
    x + between + y
  }

  lemma TwoFrames(paths: seq<Bytes>, x: Bytes, y: Bytes, rest: seq<Bytes>)
    requires |paths| == |rest| + 2
    ensures Encode(Zip(paths, [x, y] + rest)) ==
            paths[0] + [NUL] + (Middle(x, [NUL] + paths[1] + [NUL], y) + [NUL] + Encode(Zip(paths[2..], rest)))
  {
    var a := [x, y] + rest;
    assert a[1..] == [y] + rest && a[2..] == rest;
    ZipCons(paths, a);
    ZipCons(paths[1..], a[1..]);
    assert paths[1..][1..] == paths[2..] && a[1..][1..] == rest;
    Regroup(paths[0], [NUL], x, [NUL], Framed(Frame(paths[1], y)) + Encode(Zip(paths[2..], rest)));
    Spread(x, paths[1], y, Encode(Zip(paths[2..], rest)));
  }

  lemma ZipCons(paths: seq<Bytes>, payloads: seq<Bytes>)
    requires |paths| == |payloads| > 0
    ensures Encode(Zip(paths, payloads)) ==
            Framed(Frame(paths[0], payloads[0])) + Encode(Zip(paths[1..], payloads[1..]))
  {
    EncodeCons(Frame(paths[0], payloads[0]), Zip(paths[1..], payloads[1..]));
  }

  lemma Spread(x: Bytes, path: Bytes, y: Bytes, tail: Bytes)
    ensures x + [NUL] + (Framed(Frame(path, y)) + tail) == Middle(x, [NUL] + path + [NUL], y) + [NUL] + tail
  {
  }

  /** For a known list of paths and arbitrary payloads, the stream determines the payloads exactly when
      there is at most one path: a payload may contain the next frame's header. */
  lemma DeterminesPayloadsIff(paths: seq<Bytes>)
    ensures DeterminesPayloads(paths) <==> |paths| <= 1
  {
    if |paths| >= 2 {
      ConfusedStreams(paths);
    } else {
      forall a: seq<Bytes>, b: seq<Bytes> |
        |a| == |b| == |paths| && Encode(Zip(paths, a)) == Encode(Zip(paths, b))
        ensures a == b
      {
        if |paths| == 1 {
          OneFrame(paths[0], a[0]);
          OneFrame(paths[0], b[0]);
          assert a == [a[0]] && b == [b[0]] && paths == [paths[0]];
        }
      }
    }
  }

  lemma OneFrame(path: Bytes, payload: Bytes)
    ensures Encode(Zip([path], [payload])) == path + [NUL] + payload + [NUL]
    ensures Encode(Zip([path], [payload]))[|path| + 1..][..|payload|] == payload
    ensures |Encode(Zip([path], [payload]))| == |path| + |payload| + 2
  {
  }

  // ----- the digest -----

  /** A streaming hash: what it returns depends only on the concatenation of what it has absorbed. */
  class Digest {
    const h: Bytes -> Bytes
    var absorbed: Bytes

    constructor (h: Bytes -> Bytes)
      ensures this.h == h && absorbed == []
    {
      this.h := h;
      absorbed := [];
    }

    method Update(data: Bytes)
      modifies this
      ensures absorbed == old(absorbed) + data
    {
      absorbed := absorbed + data;
    }

    method HexDigest() returns (d: Bytes)
      ensures d == h(absorbed)
    {
      d := h(absorbed);
    }
  }

  // The blobs that git returned, with their paths, when it returned all of them.
  function Frames(paths: seq<Bytes>, blobs: seq<Option<Bytes>>): Option<seq<Frame>>
    requires |paths| == |blobs|
  {
    if paths == [] then Some([])
    else
      match Frames(paths[..|paths| - 1], blobs[..|paths| - 1])
      case None => None
      case Some(fs) =>
        match blobs[|paths| - 1]
        case None => None
        case Some(payload) => Some(fs + [Frame(paths[|paths| - 1], payload)])
  }

  lemma {:induction false} FramesIff(paths: seq<Bytes>, blobs: seq<Option<Bytes>>)
    requires |paths| == |blobs|
    ensures Frames(paths, blobs) == None <==> None in blobs
    ensures Frames(paths, blobs).Some? ==>
              var fs := Frames(paths, blobs).value;
              && |fs| == |paths|
              && forall i | 0 <= i < |paths| :: fs[i].path == paths[i] && blobs[i] == Some(fs[i].payload)
  {
    if paths != [] {
      var n := |paths| - 1;
      FramesIff(paths[..n], blobs[..n]);
      assert blobs == blobs[..n] + [blobs[n]];
    }
  }

  lemma {:induction false} EncodeSnoc(fs: seq<Frame>, f: Frame)
    ensures Encode(fs + [f]) == Encode(fs) + Framed(f)
  {
    if fs == [] {
      assert [] + [f] == [f];
      assert Encode([f][1..]) == [];
    } else {
      assert (fs + [f])[1..] == fs[1..] + [f];
      EncodeSnoc(fs[1..], f);
    }
  }

  method AbsorbFrame(digest: Digest, path: Bytes, payload: Bytes)
    modifies digest
    ensures digest.absorbed == old(digest.absorbed) + Framed(Frame(path, payload))
  {
    digest.Update(path);
    digest.Update([NUL]);
    digest.Update(payload);
    digest.Update([NUL]);
  }

  /** aggregate_digest_at_revision: the digest of the encoded frames, and the empty text when some
      blob is missing. The i-th blob is what git answered for the i-th path. */
  method AggregateDigest(h: Bytes -> Bytes, paths: seq<Bytes>, blobs: seq<Option<Bytes>>) returns (r: Bytes)
    requires |paths| == |blobs|
    ensures r == [] <==> None in blobs
    ensures r != [] ==>
              Frames(paths, blobs).Some? && r == AsciiBytes("sha256:") + h(Encode(Frames(paths, blobs).value))
  {
    var digest := new Digest(h);
    FramesIff(paths, blobs);
    for i := 0 to |paths|
      invariant digest.h == h && None !in blobs[..i]
      invariant Frames(paths[..i], blobs[..i]).Some?
      invariant digest.absorbed == Encode(Frames(paths[..i], blobs[..i]).value)
    {
      assert paths[..i + 1][..i] == paths[..i] && blobs[..i + 1][..i] == blobs[..i];
      var payload := blobs[i];
      if payload == None {
        return [];
      }
      EncodeSnoc(Frames(paths[..i], blobs[..i]).value, Frame(paths[i], payload.value));
      AbsorbFrame(digest, paths[i], payload.value);
    }
    assert paths[..|paths|] == paths && blobs[..|paths|] == blobs;
    var hex := digest.HexDigest();
    r := PREFIX + hex;
  }

  /** Equal digests of two revisions whose paths and blobs hold no NUL mean the same paths with the
      same blobs, unless the hash collides on their streams. */
  lemma EqualDigestsMeanEqualFiles(h: Bytes -> Bytes, a: seq<Frame>, b: seq<Frame>)
    requires NulFree(a) && NulFree(b) && PREFIX + h(Encode(a)) == PREFIX + h(Encode(b))
    ensures a == b || (Encode(a) != Encode(b) && h(Encode(a)) == h(Encode(b)))
  {
    assert (PREFIX + h(Encode(a)))[|PREFIX|..] == h(Encode(a));
    assert (PREFIX + h(Encode(b)))[|PREFIX|..] == h(Encode(b));
    DecodesIff(Encode(a), a);
    DecodesIff(Encode(b), b);
  }
}
