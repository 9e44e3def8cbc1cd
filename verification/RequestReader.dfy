/** Reading one Trojan request from a stream that arrives in pieces of any size. */
module RequestReader {
  import opened Bytes
  import opened Trojan

  datatype Outcome =
    | Parsed(request: Request)
    | Rejected(why: string)
    | TooLarge
    | ClosedEmpty
    | ClosedPartial
    | Failed

  /** The request with more bytes behind its payload. */
  function Extended(r: Request, more: Bytes): Request {
    Request(r.password, r.cmd, r.addr, r.payload + more)
  }

  /** The outcome is the verdict on the whole stream, wherever it was cut. */
  ghost predicate Verdict(out: Outcome, stream: Bytes, unread: Bytes, fails: bool) {
    match out
    case Parsed(r) =>
      && WellFormedRequest(r)
      && stream == HeaderBytes(r) + r.payload + unread
      && DecodeRequest(stream) == Ok(Extended(r, unread), |HeaderBytes(r)|)
    case Rejected(why) => DecodeRequest(stream) == Invalid(why)
    case TooLarge => true
    case ClosedEmpty => stream == [] && !fails
    case ClosedPartial => stream != [] && !fails && unread == [] && DecodeRequest(stream) == NeedMoreData
    case Failed => fails && unread == [] && DecodeRequest(stream) == NeedMoreData
  }

  /** read_trojan_request.  The stream delivers `chunks`, then an error if `fails`, else its end. */
  method ReadTrojanRequest(chunks: seq<Bytes>, fails: bool, bufferSize: nat)
    returns (out: Outcome, taken: nat, buf: Bytes)
    requires forall c :: c in chunks ==> c != []
    ensures taken <= |chunks|
    ensures Verdict(out, Concat(chunks), Concat(chunks[taken..]), fails)
    ensures buf == if out.Parsed? then [] else Concat(chunks[..taken])
    ensures taken > 0 ==> DecodeRequest(Concat(chunks[..taken - 1])).NeedMoreData?
    ensures out.TooLarge? <==> |Concat(chunks[..taken])| > 2 * bufferSize
    ensures out.TooLarge? ==> taken > 0
    ensures out.TooLarge? && (forall c :: c in chunks ==> |c| <= bufferSize) ==> bufferSize < 319
  {
    hide DecodeRequest, WellFormedRequest, HeaderBytes;
    buf, taken := [], 0;
    EmptyIsUndecided();
    while true
      invariant taken <= |chunks|
      invariant buf == Concat(chunks[..taken])
      invariant |buf| <= 2 * bufferSize
      invariant taken > 0 ==> DecodeRequest(Concat(chunks[..taken - 1])).NeedMoreData?
      invariant taken == 0 <==> buf == []
      decreases |chunks| - taken
    {
      Split(chunks, taken);
      ghost var unread := Concat(chunks[taken..]);
      RequestStable(buf, unread);
      CheckIsDecode(buf);
      if |buf| >= REQUEST_MIN_SIZE {
        var check := CheckComplete(buf);
        if check.Complete? {
          RequestSound(buf);
          var req, rest := DecodeRequestInPlace(buf);
          match req {
            case Ok(r, _) =>
              assert buf == HeaderBytes(r) + r.payload;
              out, buf := Parsed(r), rest;
              return;
            case Invalid(_) => assert false;
            case NeedMoreData => assert false;
          }
        } else if check.Malformed? {
          out := Rejected(check.msg);
          return;
        }
      }
      if taken == |chunks| {
        assert unread == [] && Concat(chunks) == buf;
        out := if fails then Failed else if buf == [] then ClosedEmpty else ClosedPartial;
        return;
      }
      UndecidedIsShort(buf);
      Take(chunks, taken);
      assert chunks[taken] in chunks;
      buf, taken := buf + chunks[taken], taken + 1;
      if |buf| > bufferSize * 2 {
        out := TooLarge;
        return;
      }
    }
  }

  lemma {:induction false} EmptyIsUndecided()
    ensures Concat([]) == [] && DecodeRequest([]).NeedMoreData?
  {
  }

  /** The completeness test and the decoder reach the same verdict on every buffer. */
  lemma {:induction false} CheckIsDecode(buf: Bytes)
    ensures CheckComplete(buf).Complete? <==> DecodeRequest(buf).Ok?
    ensures CheckComplete(buf).Complete? ==> DecodeRequest(buf).consumed == CheckComplete(buf).headerLen
    ensures forall m :: CheckComplete(buf) == Malformed(m) <==> DecodeRequest(buf) == Invalid(m)
    ensures CheckComplete(buf).Incomplete? <==> DecodeRequest(buf).NeedMoreData?
    ensures |buf| < REQUEST_MIN_SIZE ==> DecodeRequest(buf).NeedMoreData?
  {
    hide DecodeAddress;
  }

  lemma {:induction false} Split(chunks: seq<Bytes>, k: nat)
    requires k <= |chunks|
    ensures Concat(chunks) == Concat(chunks[..k]) + Concat(chunks[k..])
  {
    ConcatAppend(chunks[..k], chunks[k..]);
    assert chunks == chunks[..k] + chunks[k..];
  }

  lemma {:induction false} Take(chunks: seq<Bytes>, k: nat)
    requires k < |chunks|
    ensures Concat(chunks[..k + 1]) == Concat(chunks[..k]) + chunks[k]
    ensures chunks[..k + 1][..k] == chunks[..k]
  {
    ConcatSnoc(chunks[..k], chunks[k]);
    assert chunks[..k + 1] == chunks[..k] + [chunks[k]];
  }

  /** However a stream is cut, every reader that is not stopped by the size limit or an error
      reaches the same verdict. */
  lemma {:induction false} CutsDoNotMatter(a: Outcome, b: Outcome, stream: Bytes, restA: Bytes, restB: Bytes)
    requires Verdict(a, stream, restA, false) && Verdict(b, stream, restB, false)
    requires !a.TooLarge? && !b.TooLarge?
    ensures a.Parsed? <==> b.Parsed?
    ensures a.Parsed? ==> Extended(a.request, restA) == Extended(b.request, restB)
    ensures !a.Parsed? ==> a == b
  {
    hide DecodeRequest, WellFormedRequest, HeaderBytes;
    EmptyIsUndecided();
  }

  /** A request is never recognised, nor rejected, before the last byte of its header. */
  lemma {:induction false} HeaderPrefixIsUndecided(r: Request, k: nat)
    requires WellFormedRequest(r) && |HeaderBytes(r) + r.payload| >= REQUEST_MIN_SIZE
    requires k < |HeaderBytes(r)|
    ensures DecodeRequest((HeaderBytes(r) + r.payload)[..k]).NeedMoreData?
  {
    hide DecodeRequest, WellFormedRequest, HeaderBytes;
    var stream := HeaderBytes(r) + r.payload;
    RequestRoundTrip(r);
    RequestStable(stream[..k], stream[k..]);
    assert stream == stream[..k] + stream[k..];
  }

  function Filler(n: nat): (s: Bytes)
    ensures |s| == n
  {
    seq(n, _ => 0)
  }

  lemma {:induction false} FillerIsText(n: nat)
    ensures ValidUtf8(Filler(n))
  {
    if n > 0 {
      FillerIsText(n - 1);
      assert Filler(n)[1..] == Filler(n - 1);
    }
  }

  /** The request with the longest possible header. */
  function LongestRequest(payload: Bytes): (r: Request)
  {
    Request(Filler(56), Connect, Domain(Filler(255), 443), payload)
  }

  lemma {:induction false} LongestHeader(payload: Bytes)
    ensures WellFormedRequest(LongestRequest(payload))
    ensures |HeaderBytes(LongestRequest(payload))| == 320
  {
    hide ValidUtf8, EncodeAddress;
    FillerIsText(255);
    AddressLen(Domain(Filler(255), 443));
  }

  /** A stream cut into reads of at most n bytes. */
  function Cut(s: Bytes, n: nat): (chunks: seq<Bytes>)
    requires n > 0
    ensures forall c :: c in chunks ==> 0 < |c| <= n
  {
    if s == [] then [] else [s[..Min(n, |s|)]] + Cut(s[Min(n, |s|)..], n)
  }

  lemma {:induction false} FirstOf(x: Bytes, rest: seq<Bytes>)
    ensures Concat([x] + rest) == x + Concat(rest)
  {
    assert ([x] + rest)[1..] == rest;
  }

  lemma {:induction false} CutIsWhole(s: Bytes, n: nat)
    requires n > 0
    ensures Concat(Cut(s, n)) == s
  {
    if s != [] {
      var m := Min(n, |s|);
      var rest := Cut(s[m..], n);
      CutIsWhole(s[m..], n);
      assert Cut(s, n) == [s[..m]] + rest;
      FirstOf(s[..m], rest);
    }
  }

  lemma {:induction false} PrefixGrows(chunks: seq<Bytes>, i: nat, j: nat)
    requires i <= j <= |chunks|
    ensures |Concat(chunks[..i])| <= |Concat(chunks[..j])|
  {
    ConcatAppend(chunks[..i], chunks[i..j]);
    assert chunks[..j] == chunks[..i] + chunks[i..j];
  }

  /** Two reads up to `held`, then reads of n bytes. */
  lemma {:induction false} TwoThenCut(s: Bytes, n: nat, held: nat)
    requires 0 < n <= held && held + n <= |s|
    ensures var chunks := [s[..n], s[n..held]] + Cut(s[held..], n);
            && Concat(chunks) == s && |chunks| >= 3
            && |Concat(chunks[..2])| == held && |Concat(chunks[..3])| == held + n
  {
    hide Concat;
    var head, tail := [s[..n], s[n..held]], Cut(s[held..], n);
    EmptyIsUndecided();
    var chunks := head + tail;
    ConcatAppend(head, tail);
    CutIsWhole(s[held..], n);
    ConcatSnoc([s[..n]], s[n..held]);
    ConcatSnoc([], s[..n]);
    assert [] + [s[..n]] == [s[..n]] && [s[..n]] + [s[n..held]] == head;
    assert Concat(head) == s[..held];
    assert s == s[..held] + s[held..];
    assert chunks[..2] == head;
    assert |chunks[2]| == n;
    Take(chunks, 2);
  }

  /** With a smaller buffer than 319 bytes the limit turns away a well-formed request, although no
      read is larger than the buffer. */
  method SmallBufferTurnsAway(bufferSize: nat) returns (chunks: seq<Bytes>, out: Outcome)
    requires 0 < bufferSize < 319
    ensures forall c :: c in chunks ==> 0 < |c| <= bufferSize
    ensures DecodeRequest(Concat(chunks)).Ok?
    ensures out.TooLarge?
  {
    hide DecodeRequest, WellFormedRequest, HeaderBytes, Filler, Concat, Cut;
    var held := Min(2 * bufferSize, 319);
    var r := LongestRequest(Filler(bufferSize));
    LongestHeader(Filler(bufferSize));
    var stream := HeaderBytes(r) + r.payload;
    chunks := [stream[..bufferSize], stream[bufferSize..held]] + Cut(stream[held..], bufferSize);
    TwoThenCut(stream, bufferSize, held);
    RequestRoundTrip(r);
    var taken, rest;
    out, taken, rest := ReadTrojanRequest(chunks, false, bufferSize);
    Split(chunks, taken);
    if taken <= 2 {
      PrefixGrows(chunks, taken, 2);
    } else {
      PrefixGrows(chunks, 3, taken);
    }
  }
}
