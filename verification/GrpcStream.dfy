/** A received byte stream read as frames: which payload bytes it carries, what is left
    over, and how both behave when the stream grows.  This is the meaning the transport's
    incremental reader is held to. */
module GrpcStream {
  import opened Bytes
  import opened GrpcCodec

  const MAX_INBOUND_FRAME_LEN: nat := 256 * 1024

  datatype Verdict = More | TooLarge | Bad(error: FrameError) | Complete(payload: Bytes, consumed: nat)

  /** The reader's view of its buffer: the declared length is checked before parsing. */
  function Inspect(buf: Bytes): (v: Verdict)
    ensures v.Complete? ==> 5 <= v.consumed <= |buf|
  {
    var declared := DeclaredLen(buf);
    if declared.Some? && declared.value > MAX_INBOUND_FRAME_LEN then TooLarge
    else
      match ParseFrame(buf)
      case NeedMore => More
      case Invalid(e) => Bad(e)
      case Frame(p, n) => Complete(p, n)
  }

  lemma {:induction false} InspectCases(buf: Bytes)
    ensures var declared, p := DeclaredLen(buf), ParseFrame(buf);
            Inspect(buf) ==
            if declared.Some? && declared.value > MAX_INBOUND_FRAME_LEN then TooLarge
            else if p.NeedMore? then More
            else if p.Invalid? then Bad(p.error)
            else Complete(p.payload, p.consumed)
  {
  }

  /** The reader's view, byte by byte: a declared length over 256 KiB is too much before anything else
      is looked at, then compression is refused, then the rest of the frame is waited for. */
  lemma {:induction false} InspectExactly(buf: Bytes)
    ensures |buf| < 5 ==> Inspect(buf) == More
    ensures |buf| >= 5 ==>
              var len := 0x100_0000 * (buf[1] as int) + 0x1_0000 * (buf[2] as int) + 0x100 * (buf[3] as int) + (buf[4] as int);
              && (Inspect(buf) == TooLarge <==> len > 262144)
              && (len <= 262144 && buf[0] != 0 ==> Inspect(buf) == Bad(GrpcCodec.Compressed))
              && (Inspect(buf) == More <==> len <= 262144 && buf[0] == 0 && |buf| < 5 + len)
    ensures forall p, n :: Inspect(buf) == Complete(p, n) <==> ParseFrame(buf) == Frame(p, n) && n <= 5 + 262144
  {
    hide FieldsFrom;
  }

  /** Payload bytes of all complete frames at the start of the stream. */
  function Payload(s: Bytes): Bytes {
    match Inspect(s)
    case Complete(p, n) => p + Payload(s[n..])
    case _ => []
  }

  /** What remains after those frames. */
  function Rest(s: Bytes): Bytes {
    match Inspect(s)
    case Complete(p, n) => Rest(s[n..])
    case _ => s
  }

  /** A stream is whole when it is a concatenation of complete frames. */
  ghost predicate IsFrames(s: Bytes, frames: seq<Bytes>) {
    && s == Concat(frames)
    && forall i :: 0 <= i < |frames| ==> Inspect(frames[i]).Complete? && Inspect(frames[i]).consumed == |frames[i]|
  }

  lemma {:induction false} InspectStable(buf: Bytes, more: Bytes)
    requires !Inspect(buf).More?
    ensures Inspect(buf + more) == Inspect(buf)
  {
    assert |buf| >= 5;
    assert (buf + more)[1..5] == buf[1..5];
    if !Inspect(buf).TooLarge? {
      ParseStable(buf, more);
    }
  }

  /** A buffer that still needs bytes is shorter than one maximal frame. */
  lemma {:induction false} MoreIsBounded(buf: Bytes)
    requires Inspect(buf).More?
    ensures |buf| < 5 + MAX_INBOUND_FRAME_LEN
  {
  }

  lemma {:induction false} RestIsStuck(s: Bytes)
    ensures !Inspect(Rest(s)).Complete?
    ensures |Rest(s)| <= |s| && Rest(s) == s[|s| - |Rest(s)|..]
    decreases |s|
  {
    hide Inspect;
    var v := Inspect(s);
    if v.Complete? {
      RestIsStuck(s[v.consumed..]);
    }
  }

  /** Behind a whole number of frames, decoding starts afresh. */
  lemma {:induction false} DecodeAppend(c: Bytes, x: Bytes)
    requires Rest(c) == []
    ensures Payload(c + x) == Payload(c) + Payload(x)
    ensures Rest(c + x) == Rest(x)
    decreases |c|
  {
    hide Inspect;
    if c == [] {
      EmptyStream();
      assert c + x == x;
    } else {
      var v := Inspect(c);
      assert v.Complete?;
      InspectStable(c, x);
      assert (c + x)[v.consumed..] == c[v.consumed..] + x;
      DecodeAppend(c[v.consumed..], x);
    }
  }

  lemma {:induction false} EmptyStream()
    ensures Inspect([]).More? && Payload([]) == [] && Rest([]) == []
  {
  }

  /** More bytes never take back a payload byte. */
  lemma {:induction false} PayloadGrows(s: Bytes, t: Bytes)
    ensures Payload(s) <= Payload(s + t)
    decreases |s|
  {
    hide Inspect;
    var v := Inspect(s);
    if v.Complete? {
      InspectStable(s, t);
      assert (s + t)[v.consumed..] == s[v.consumed..] + t;
      PayloadGrows(s[v.consumed..], t);
    }
  }

  /** Framing only adds bytes. */
  lemma {:induction false} PayloadShorter(s: Bytes)
    ensures |Payload(s)| <= |s|
    decreases |s|
  {
    hide FieldsFrom;
    var v := Inspect(s);
    if v.Complete? {
      FieldsFit(s[..v.consumed], 5);
      PayloadShorter(s[v.consumed..]);
    }
  }

  /** A stream that went bad stays bad, with the same payload. */
  lemma {:induction false} StuckForGood(s: Bytes, t: Bytes)
    requires Inspect(Rest(s)).Bad? || Inspect(Rest(s)).TooLarge?
    ensures Payload(s + t) == Payload(s)
    ensures Inspect(Rest(s + t)) == Inspect(Rest(s))
    decreases |s|
  {
    hide Inspect;
    var v := Inspect(s);
    if v.Complete? {
      InspectStable(s, t);
      assert (s + t)[v.consumed..] == s[v.consumed..] + t;
      StuckForGood(s[v.consumed..], t);
    } else {
      InspectStable(s, t);
    }
  }

  /** Nothing is left over exactly when the stream splits into complete frames. */
  lemma {:induction false} WholeExactly(s: Bytes)
    ensures Rest(s) == [] <==> exists frames :: IsFrames(s, frames)
  {
    if Rest(s) == [] {
      var frames := SplitFrames(s);
      assert IsFrames(s, frames);
    }
    forall frames | IsFrames(s, frames) ensures Rest(s) == [] {
      FramesLeaveNothing(s, frames);
    }
  }

  lemma {:induction false} SplitFrames(s: Bytes) returns (frames: seq<Bytes>)
    requires Rest(s) == []
    ensures IsFrames(s, frames)
    decreases |s|
  {
    hide Inspect;
    if s == [] {
      frames := [];
    } else {
      var n := Inspect(s).consumed;
      var more := SplitFrames(s[n..]);
      FirstFrame(s);
      frames := [s[..n]] + more;
      assert frames[1..] == more;
    }
  }

  lemma {:induction false} FirstFrame(s: Bytes)
    requires Inspect(s).Complete?
    ensures var n := Inspect(s).consumed; Inspect(s[..n]) == Inspect(s)
  {
    var n := Inspect(s).consumed;
    assert s[..n][1..5] == s[1..5];
    assert s[..n][..n] == s[..n];
  }

  lemma {:induction false} FramesLeaveNothing(s: Bytes, frames: seq<Bytes>)
    requires IsFrames(s, frames)
    ensures Rest(s) == []
    decreases |frames|
  {
    hide Inspect;
    if frames == [] {
      EmptyStream();
    } else {
      var tail := Concat(frames[1..]);
      InspectStable(frames[0], tail);
      assert s == frames[0] + tail;
      assert s[|frames[0]|..] == tail;
      FramesLeaveNothing(tail, frames[1..]);
    }
  }

  // ------------------------------------------------- streams made by the encoder

  function EncodeAll(chunks: seq<Bytes>): Bytes {
    if chunks == [] then [] else FrameBytes(chunks[0]) + EncodeAll(chunks[1..])
  }

  lemma {:induction false} EncodeAllSnoc(chunks: seq<Bytes>, c: Bytes)
    ensures EncodeAll(chunks + [c]) == EncodeAll(chunks) + FrameBytes(c)
  {
    hide FrameBytes;
    if chunks == [] {
      assert chunks + [c] == [c];
      assert EncodeAll([c]) == FrameBytes(c) + EncodeAll([]);
    } else {
      assert (chunks + [c])[1..] == chunks[1..] + [c];
      EncodeAllSnoc(chunks[1..], c);
    }
  }

  /** Every chunk fits the frame's 32-bit length field. */
  ghost predicate Encodable(chunks: seq<Bytes>) {
    forall i :: 0 <= i < |chunks| ==> ProtoLen(|chunks[i]|) < TWO_32
  }

  /** Every chunk is small enough for the receiver. */
  ghost predicate Acceptable(chunks: seq<Bytes>) {
    forall i :: 0 <= i < |chunks| ==> ProtoLen(|chunks[i]|) <= MAX_INBOUND_FRAME_LEN
  }

  /** The receiver takes an encoded chunk whole, or rejects it for its declared length. */
  lemma {:induction false} InspectEncoded(c: Bytes, tail: Bytes)
    requires ProtoLen(|c|) < TWO_32
    ensures Inspect(FrameBytes(c) + tail) ==
            if ProtoLen(|c|) <= MAX_INBOUND_FRAME_LEN then Complete(c, |FrameBytes(c)|) else TooLarge
  {
    hide FrameBytes;
    FrameRoundTrip(c, tail);
    FrameBytesLen(c);
  }

  /** The bytes decoded from any part of an encoded stream are a prefix of what was
      encoded; the receiver is never out of step as long as all chunks are acceptable. */
  lemma {:induction false} EncodedPrefix(s: Bytes, chunks: seq<Bytes>)
    requires s <= EncodeAll(chunks) && Encodable(chunks)
    ensures Payload(s) <= Concat(chunks)
    ensures Acceptable(chunks) ==> Inspect(Rest(s)).More?
    ensures Acceptable(chunks) && s == EncodeAll(chunks) ==> Payload(s) == Concat(chunks) && Rest(s) == []
    decreases |chunks|
  {
    hide FrameBytes, Inspect, ProtoLen;
    if chunks == [] {
      EmptyStream();
    } else {
      var f, more := FrameBytes(chunks[0]), EncodeAll(chunks[1..]);
      if |s| < |f| {
        PartialFrame(s, f, chunks[0]);
      } else {
        assert s == f + s[|f|..];
        InspectEncoded(chunks[0], s[|f|..]);
        if Inspect(s).Complete? {
          assert s[|f|..] <= more by {
            assert (f + more)[|f|..] == more;
          }
          EncodedPrefix(s[|f|..], chunks[1..]);
        }
      }
    }
  }

  lemma {:induction false} PartialFrame(s: Bytes, f: Bytes, c: Bytes)
    requires ProtoLen(|c|) < TWO_32 && f == FrameBytes(c) && s <= f && |s| < |f|
    ensures ProtoLen(|c|) <= MAX_INBOUND_FRAME_LEN ==> Inspect(s).More?
    ensures Payload(s) == []
  {
    hide FrameBytes;
    var t := f[|s|..];
    assert s + t == f && f + [] == f;
    InspectEncoded(c, []);
    if !Inspect(s).More? {
      InspectStable(s, t);
    }
  }

  /** The longest payload a peer of the same kind accepts is 262140 bytes. */
  lemma {:induction false} AcceptedExactly(c: Bytes)
    requires ProtoLen(|c|) < TWO_32
    ensures Inspect(FrameBytes(c)).Complete? <==> |c| <= 262140
  {
    InspectEncoded(c, []);
    assert FrameBytes(c) + [] == FrameBytes(c);
    VarintLenIsLength(|c|);
    VarintBytesBound3(|c|);
  }

  lemma {:induction false} VarintBytesBound3(v: nat)
    ensures 262140 - 128 <= v <= 262144 ==> |VarintBytes(v)| == 3
    ensures v <= 262144 ==> |VarintBytes(v)| <= 3
  {
    if v <= 262144 {
      assert Pow128(3) == 0x20_0000;
      VarintBytesBound(v, 3);
    }
  }
}
