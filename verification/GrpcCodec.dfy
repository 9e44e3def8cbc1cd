/** The gRPC tunnel codec: base-128 varints and length-prefixed frames that carry
    `0x0A <varint length> <bytes>` fields.  The loops of the source are methods, each
    proved equal to a function that says what it computes without a loop. */
module GrpcCodec {
  import opened Bytes

  const TWO_32: nat := 0x1_0000_0000
  const TWO_64: nat := 0x1_0000_0000_0000_0000
  const FIELD_TAG: Byte := 0x0A
  const MAX_VARINT_BYTES: nat := 10

  // ---------------------------------------------------------------- varints

  datatype VarintResult = Value(value: nat, size: nat) | TooLong | Incomplete

  /** Number read off the low seven bits of each byte, least significant first. */
  function Base128(data: Bytes): nat {
    if data == [] then 0 else data[0] % 128 + 128 * Base128(data[1..])
  }

  /** Index of the first byte without continuation bit, or the length if there is none. */
  function Terminator(data: Bytes): (k: nat)
    ensures k <= |data|
  {
    if data == [] || data[0] < 128 then 0 else 1 + Terminator(data[1..])
  }

  /** The low 64 bits of a number. */
  function Low64(n: nat): (low: nat)
    ensures low < TWO_64
  {
    if n < TWO_64 then n else Low64(n - TWO_64)
  }

  lemma {:induction false} Low64IsMod(n: nat)
    ensures Low64(n) == n % TWO_64
  {
    if n >= TWO_64 { Low64IsMod(n - TWO_64); }
  }

  /** What a varint at the start of `data` means: a terminated run of at most ten bytes. */
  function Varint(data: Bytes): VarintResult {
    var k := Terminator(data);
    if k < |data| && k < MAX_VARINT_BYTES then Value(Low64(Base128(data[..k + 1])), k + 1)
    else if |data| > MAX_VARINT_BYTES then TooLong
    else Incomplete
  }

  function Pow128(n: nat): (p: nat)
    ensures p > 0
  {
    if n == 0 then 1 else 128 * Pow128(n - 1)
  }

  lemma {:induction false} Pow128Nine()
    ensures Pow128(9) == TWO_64 / 2
  {
    assert Pow128(3) == 0x20_0000;
    assert Pow128(6) == 0x400_0000_0000;
  }

  lemma {:induction false} Base128Snoc(data: Bytes, b: Byte)
    ensures Base128(data + [b]) == Base128(data) + (b % 128) * Pow128(|data|)
  {
    if data == [] {
      assert data + [b] == [b] && [b][1..] == [];
    } else {
      Base128Snoc(data[1..], b);
      assert (data + [b])[1..] == data[1..] + [b];
      Shift(Base128(data[1..]), b % 128, Pow128(|data| - 1));
    }
  }

  lemma {:induction false} Shift(rest: nat, group: nat, p: nat)
    ensures 128 * (rest + group * p) == 128 * rest + group * (128 * p)
  {
  }

  lemma {:induction false} Base128Bound(data: Bytes)
    ensures Base128(data) < Pow128(|data|)
  {
    if data != [] {
      Base128Bound(data[1..]);
    }
  }

  lemma {:induction false} Pow128Monotone(m: nat, n: nat)
    requires m <= n
    ensures Pow128(m) <= Pow128(n)
    decreases n
  {
    if m < n { Pow128Monotone(m, n - 1); }
  }

  lemma {:induction false} TerminatorIs(data: Bytes, k: nat)
    requires k <= |data| && (k < |data| ==> data[k] < 128)
    requires forall i :: 0 <= i < k ==> data[i] >= 128
    ensures Terminator(data) == k
  {
    if k > 0 { TerminatorIs(data[1..], k - 1); }
  }

  lemma {:induction false} TerminatorAtLeast(data: Bytes, k: nat)
    requires k <= |data| && forall i :: 0 <= i < k ==> data[i] >= 128
    ensures Terminator(data) >= k
  {
    if k > 0 { TerminatorAtLeast(data[1..], k - 1); }
  }

  /** Adding the next group, cut to 64 bits, keeps the value modulo 2^64; up to nine
      groups nothing is cut. */
  lemma {:induction false} NextGroup(data: Bytes, i: nat)
    requires i < |data| && i < MAX_VARINT_BYTES
    ensures var value := Base128(data[..i]) + (data[i] % 128 * Pow128(i)) % TWO_64;
            && value == Base128(data[..i + 1]) % TWO_64
            && (i < 9 ==> value == Base128(data[..i + 1]))
  {
    hide Base128, Pow128;
    assert data[..i + 1] == data[..i] + [data[i]];
    Base128Snoc(data[..i], data[i]);
    Pow128Nine();
    if i < 9 {
      Base128Bound(data[..i + 1]);
      Pow128Monotone(i + 1, 9);
      var group := data[i] % 128 * Pow128(i);
      assert 0 <= group <= Base128(data[..i + 1]) < TWO_64;
    } else {
      Base128Bound(data[..i]);
      TopGroup(Base128(data[..i]), data[i] % 128);
    }
  }

  lemma {:induction false} TopGroup(low: nat, g: nat)
    requires low < TWO_64 / 2
    ensures low + (g * (TWO_64 / 2)) % TWO_64 == (low + g * (TWO_64 / 2)) % TWO_64
  {
    var q, r := g / 2, g % 2;
    assert g * (TWO_64 / 2) == q * TWO_64 + r * (TWO_64 / 2);
  }

  /** decode_varint.  On naturals the disjoint `|=` of the source is `+`; the shifted
      group is cut to 64 bits as the source's `<<` does. */
  method DecodeVarint(data: Bytes) returns (r: VarintResult)
    ensures r == Varint(data)
  {
    var result: nat, i: nat, weight: nat := 0, 0, 1;
    while i < |data|
      invariant 0 <= i <= |data| && i <= MAX_VARINT_BYTES
      invariant forall j :: 0 <= j < i ==> data[j] >= 128
      invariant i < MAX_VARINT_BYTES ==> weight == Pow128(i) && result == Base128(data[..i])
    {
      if i >= MAX_VARINT_BYTES {
        TerminatorAtLeast(data, i);
        return TooLong;
      }
      var byte := data[i];
      NextGroup(data, i);
      result := result + (byte % 128 * weight) % TWO_64;
      if byte < 128 {
        TerminatorIs(data, i);
        Low64IsMod(Base128(data[..i + 1]));
        return Value(result, i + 1);
      }
      weight := 128 * weight;
      i := i + 1;
    }
    TerminatorIs(data, |data|);
    r := Incomplete;
  }

  /** The bytes of a varint, least significant group first. */
  function VarintBytes(v: nat): (r: Bytes)
    ensures |r| >= 1
  {
    if v < 128 then [v] else [v % 128 + 128] + VarintBytes(v / 128)
  }

  /** encode_varint: append the groups of `v` to `buf`. */
  method EncodeVarint(v: nat, buf: Bytes) returns (out: Bytes)
    requires v < TWO_64
    ensures out == buf + VarintBytes(v)
  {
    out := buf;
    var value := v;
    while true
      invariant out + VarintBytes(value) == buf + VarintBytes(v)
      decreases value
    {
      var byte := value % 128;
      var rest := value / 128;
      if rest != 0 {
        byte := byte + 128;
      }
      out := out + [byte];
      if rest == 0 {
        break;
      }
      value := rest;
    }
  }

  function BitLength(v: nat): nat {
    if v == 0 then 0 else 1 + BitLength(v / 2)
  }

  /** varint_len: bits over seven, rounded up. */
  function VarintLen(v: nat): nat {
    if v == 0 then 1 else (BitLength(v) + 6) / 7
  }

  lemma {:induction false} BitLengthBound(v: nat, n: nat)
    requires v < Pow2(n)
    ensures BitLength(v) <= n
  {
    if v != 0 { BitLengthBound(v / 2, n - 1); }
  }

  function Pow2(n: nat): nat {
    if n == 0 then 1 else 2 * Pow2(n - 1)
  }

  lemma {:induction false} BitLengthShift(v: nat)
    requires v >= 128
    ensures BitLength(v) == 7 + BitLength(v / 128)
  {
    var a := v / 2; var b := a / 2; var c := b / 2; var d := c / 2;
    var e := d / 2; var f := e / 2; var g := f / 2;
    assert g == v / 128;
    assert BitLength(v) == 1 + BitLength(a);
    assert BitLength(a) == 1 + BitLength(b);
    assert BitLength(b) == 1 + BitLength(c);
    assert BitLength(c) == 1 + BitLength(d);
    assert BitLength(d) == 1 + BitLength(e);
    assert BitLength(e) == 1 + BitLength(f);
    assert BitLength(f) == 1 + BitLength(g);
  }

  /** The precomputed length is the length of the encoding. */
  lemma {:induction false} VarintLenIsLength(v: nat)
    ensures |VarintBytes(v)| == VarintLen(v)
  {
    if v >= 128 {
      VarintLenIsLength(v / 128);
      BitLengthShift(v);
    } else if v > 0 {
      assert Pow2(7) == 128;
      BitLengthBound(v, 7);
    }
  }

  lemma {:induction false} LongerShape(group: nat, rest: Bytes)
    requires group < 128
    ensures var e := [group + 128] + rest;
            && Base128(e) == group + 128 * Base128(rest)
            && forall i :: 0 < i < |e| ==> e[i] == rest[i - 1]
  {
    assert ([group + 128] + rest)[1..] == rest && (group + 128) % 128 == group;
  }

  lemma {:induction false} VarintBytesShape(v: nat)
    ensures var e := VarintBytes(v);
            && Base128(e) == v
            && e[|e| - 1] < 128
            && forall i :: 0 <= i < |e| - 1 ==> e[i] >= 128
  {
    if v >= 128 {
      VarintBytesShape(v / 128);
      LongerShape(v % 128, VarintBytes(v / 128));
    } else {
      assert [v as Byte][1..] == [];
    }
  }

  lemma {:induction false} VarintBytesBound(v: nat, n: nat)
    requires n > 0 && v < Pow128(n)
    ensures |VarintBytes(v)| <= n
  {
    if v >= 128 {
      assert n > 1 by { assert Pow128(1) == 128; }
      VarintBytesBound(v / 128, n - 1);
    }
  }

  /** Every 64-bit value survives encoding, whatever follows it. */
  lemma {:induction false} VarintRoundTrip(v: nat, tail: Bytes)
    requires v < TWO_64
    ensures Varint(VarintBytes(v) + tail) == Value(v, VarintLen(v))
  {
    var e := VarintBytes(v);
    VarintBytesShape(v);
    VarintLenIsLength(v);
    Pow128Nine();
    assert v < Pow128(10);
    VarintBytesBound(v, 10);
    TerminatorIs(e + tail, |e| - 1);
    assert (e + tail)[..|e|] == e;
  }

  /** Group i of a number is the low seven bits of byte i: the least significant group comes first. */
  lemma {:induction false} GroupAt(data: Bytes, i: nat)
    requires i < |data|
    ensures Base128(data) / Pow128(i) % 128 == data[i] % 128
  {
    if i > 0 {
      GroupAt(data[1..], i - 1);
      Drop128(Base128(data[1..]), data[0] % 128, Pow128(i - 1));
    }
  }

  lemma {:induction false} Drop128(rest: nat, group: nat, p: nat)
    requires group < 128 && p > 0
    ensures (group + 128 * rest) / (128 * p) == rest / p
  {
    var q, r := rest / p, rest % p;
    assert rest == q * p + r;
    Quotient(group + 128 * rest, 128 * p, q, group + 128 * r);
  }

  lemma {:induction false} Quotient(n: nat, d: nat, q: nat, r: nat)
    requires d > 0 && r < d && n == q * d + r
    ensures n / d == q
  {
    var p, s := n / d, n % d;
    assert n == p * d + s;
    assert (p - q) * d == r - s;
    Multiple(p - q, d);
  }

  lemma {:induction false} Multiple(x: int, d: nat)
    ensures x >= 1 ==> x * d >= d
    ensures x <= -1 ==> x * d + d <= 0
  {
  }

  /** Each verdict on a varint, byte by byte. */
  lemma {:induction false} VarintExactly(data: Bytes, v: nat, k: nat)
    ensures Varint(data) == Value(v, k) <==>
            && 1 <= k <= 10 && k <= |data| && data[k - 1] < 128
            && (forall i :: 0 <= i < k - 1 ==> data[i] >= 128)
            && v == Base128(data[..k]) % 0x1_0000_0000_0000_0000
    ensures Varint(data) == TooLong <==> |data| > 10 && forall i :: 0 <= i < 10 ==> data[i] >= 128
    ensures Varint(data) == Incomplete <==> |data| <= 10 && forall i :: 0 <= i < |data| ==> data[i] >= 128
  {
    hide Base128, Low64;
    TerminatorMeans(data);
    Low64IsMod(Base128(data[..Min(Terminator(data) + 1, |data|)]));
  }

  lemma {:induction false} TerminatorMeans(data: Bytes)
    ensures var k := Terminator(data);
            (forall i :: 0 <= i < k ==> data[i] >= 128) && (k < |data| ==> data[k] < 128)
  {
    if data != [] && data[0] >= 128 {
      TerminatorMeans(data[1..]);
      forall i | 0 <= i < Terminator(data) ensures data[i] >= 128 {
        if i > 0 {
          assert data[i] == data[1..][i - 1];
        }
      }
    }
  }

  // ---------------------------------------------------------------- frames

  datatype FrameError = Compressed | BadTag | BadVarint(why: VarintResult) | FieldTooLong

  datatype FieldsResult = Fields(parts: seq<Bytes>) | BadFields(error: FrameError)

  datatype ParseResult = NeedMore | Invalid(error: FrameError) | Frame(payload: Bytes, consumed: nat)

  function U32(b: Bytes): (n: nat)
    requires |b| == 4
    ensures n < TWO_32
  {
    var b0: int, b1: int, b2: int, b3: int := b[0], b[1], b[2], b[3];
    ((b0 * 256 + b1) * 256 + b2) * 256 + b3
  }

  function U32Bytes(n: nat): (b: Bytes)
    ensures |b| == 4
    ensures U32(b) == n % TWO_32
  {
    var m := n % TWO_32;
    var q1 := m / 256;
    var q2 := q1 / 256;
    var q3 := q2 / 256;
    [q3, q2 % 256, q1 % 256, m % 256]
  }

  /** declared_frame_len. */
  function DeclaredLen(buf: Bytes): Option<nat> {
    if |buf| < 5 then None else Some(U32(buf[1..5]))
  }

  /** The rest of a message, from `pos` on, read as a list of field-1 entries. */
  function FieldsFrom(frame: Bytes, pos: nat): FieldsResult
    requires pos <= |frame|
    decreases |frame| - pos
  {
    if pos == |frame| then Fields([])
    else if frame[pos] != FIELD_TAG then BadFields(BadTag)
    else
      var v := Varint(frame[pos + 1..]);
      if !v.Value? then BadFields(BadVarint(v))
      else
        var start, end := pos + 1 + v.size, pos + 1 + v.size + v.value;
        if end > |frame| then BadFields(FieldTooLong)
        else Prepend([frame[start..end]], FieldsFrom(frame, end))
  }

  function Prepend(parts: seq<Bytes>, r: FieldsResult): FieldsResult {
    match r
    case Fields(more) => Fields(parts + more)
    case BadFields(e) => BadFields(e)
  }

  /** One frame at the start of `buf`: the concatenation of all its entries. */
  function ParseFrame(buf: Bytes): (r: ParseResult)
    ensures r.Frame? ==> 5 <= r.consumed <= |buf| && DeclaredLen(buf) == Some(r.consumed - 5)
    ensures r.NeedMore? <==> |buf| < 5 || (buf[0] == 0 && |buf| < 5 + U32(buf[1..5]))
  {
    if |buf| < 5 then NeedMore
    else if buf[0] != 0 then Invalid(Compressed)
    else
      var consumed := 5 + U32(buf[1..5]);
      if |buf| < consumed then NeedMore
      else
        match FieldsFrom(buf[..consumed], 5)
        case Fields(parts) => Frame(Concat(parts), consumed)
        case BadFields(e) => Invalid(e)
  }

  /** The entries of a message are no longer than the message. */
  lemma {:induction false} FieldsFit(frame: Bytes, pos: nat)
    requires pos <= |frame| && FieldsFrom(frame, pos).Fields?
    ensures |Concat(FieldsFrom(frame, pos).parts)| <= |frame| - pos
    decreases |frame| - pos
  {
    hide Varint;
    if pos < |frame| {
      var v := Varint(frame[pos + 1..]);
      var start, end := pos + 1 + v.size, pos + 1 + v.size + v.value;
      FieldsFit(frame, end);
      var more := FieldsFrom(frame, end).parts;
      ConcatAppend([frame[start..end]], more);
      assert Concat([frame[start..end]]) == frame[start..end] + Concat([]);
    }
  }

  function Slices(buf: Bytes, ranges: seq<(nat, nat)>): (parts: seq<Bytes>)
    requires InRange(buf, ranges)
    ensures |parts| == |ranges|
  {
    seq(|ranges|, i requires 0 <= i < |ranges| => buf[ranges[i].0..ranges[i].1])
  }

  ghost predicate InRange(buf: Bytes, ranges: seq<(nat, nat)>) {
    forall i :: 0 <= i < |ranges| ==> ranges[i].0 <= ranges[i].1 <= |buf|
  }

  lemma {:induction false} SlicesSnoc(buf: Bytes, ranges: seq<(nat, nat)>, x: (nat, nat))
    requires InRange(buf, ranges) && x.0 <= x.1 <= |buf|
    ensures Slices(buf, ranges + [x]) == Slices(buf, ranges) + [buf[x.0..x.1]]
  {
  }

  /** What the walk has established at `pos`: the entries found so far, then the rest. */
  ghost predicate Walked(frame: Bytes, all: seq<(nat, nat)>, pos: nat) {
    && 5 <= pos <= |frame|
    && InRange(frame, all)
    && FieldsFrom(frame, 5) == Prepend(Slices(frame, all), FieldsFrom(frame, pos))
  }

  lemma {:induction false} WalkOne(frame: Bytes, all: seq<(nat, nat)>, pos: nat, v: VarintResult)
    requires Walked(frame, all, pos)
    requires pos < |frame| && frame[pos] == FIELD_TAG && v == Varint(frame[pos + 1..])
    requires v.Value? && pos + 1 + v.size + v.value <= |frame|
    ensures Walked(frame, all + [(pos + 1 + v.size, pos + 1 + v.size + v.value)], pos + 1 + v.size + v.value)
  {
    hide Varint;
    var lo, hi := pos + 1 + v.size, pos + 1 + v.size + v.value;
    SlicesSnoc(frame, all, (lo, hi));
    PrependOne(Slices(frame, all), frame[lo..hi], FieldsFrom(frame, hi));
  }

  /** A field the walk cannot take makes the whole message bad, with the same error. */
  lemma {:induction false} WalkBad(frame: Bytes, all: seq<(nat, nat)>, pos: nat, v: VarintResult)
    requires Walked(frame, all, pos) && pos < |frame| && v == Varint(frame[pos + 1..])
    ensures frame[pos] != FIELD_TAG ==> FieldsFrom(frame, 5) == BadFields(BadTag)
    ensures frame[pos] == FIELD_TAG && !v.Value? ==> FieldsFrom(frame, 5) == BadFields(BadVarint(v))
    ensures frame[pos] == FIELD_TAG && v.Value? && pos + 1 + v.size + v.value > |frame| ==>
              FieldsFrom(frame, 5) == BadFields(FieldTooLong)
  {
    hide Varint;
    assert FieldsFrom(frame, pos).BadFields? ==> FieldsFrom(frame, 5) == FieldsFrom(frame, pos);
  }

  lemma {:induction false} WalkEnds(frame: Bytes, all: seq<(nat, nat)>)
    requires Walked(frame, all, |frame|)
    ensures FieldsFrom(frame, 5) == Fields(Slices(frame, all))
  {
    hide Varint;
    assert Slices(frame, all) + [] == Slices(frame, all);
  }

  /** The field walk of parse_grpc_message_zerocopy: one range on the fast path, a list of
      ranges only from the second field on. */
  method WalkFields(frame: Bytes)
    returns (first: Option<(nat, nat)>, fields: seq<(nat, nat)>, error: Option<FrameError>,
             ghost all: seq<(nat, nat)>)
    requires 5 <= |frame| < TWO_64
    ensures error.Some? ==> FieldsFrom(frame, 5) == BadFields(error.value)
    ensures error.None? ==> InRange(frame, all) && FieldsFrom(frame, 5) == Fields(Slices(frame, all))
    ensures first == if all == [] then None else Some(all[0])
    ensures fields == if |all| < 2 then [] else all
  {
    hide Varint, FieldsFrom;
    first, fields, error, all := None, [], None, [];
    var pos := 5;
    assert Prepend(Slices(frame, all), FieldsFrom(frame, 5)) == FieldsFrom(frame, 5);
    while pos < |frame|
      invariant Walked(frame, all, pos)
      invariant first == if all == [] then None else Some(all[0])
      invariant fields == if |all| < 2 then [] else all
    {
      WalkBad(frame, all, pos, Varint(frame[pos + 1..]));
      if frame[pos] != FIELD_TAG {
        error := Some(BadTag);
        return;
      }
      var v := DecodeVarint(frame[pos + 1..]);
      if !v.Value? {
        error := Some(BadVarint(v));
        return;
      }
      var dataStart := pos + 1 + v.size;
      var dataEnd := dataStart + v.value;
      if dataEnd >= TWO_64 || dataEnd > |frame| {
        error := Some(FieldTooLong);
        return;
      }
      WalkOne(frame, all, pos, v);
      match first {
        case None =>
          first := Some((dataStart, dataEnd));
        case Some(f) =>
          if fields == [] {
            fields := [f];
          }
          fields := fields + [(dataStart, dataEnd)];
      }
      all := all + [(dataStart, dataEnd)];
      pos := dataEnd;
    }
    WalkEnds(frame, all);
  }

  /** The payload of a walked frame: a plain slice for one field, a copy for several. */
  method JoinFields(frame: Bytes, first: Option<(nat, nat)>, fields: seq<(nat, nat)>, ghost all: seq<(nat, nat)>)
    returns (payload: Bytes)
    requires InRange(frame, all)
    requires first == if all == [] then None else Some(all[0])
    requires fields == if |all| < 2 then [] else all
    ensures payload == Concat(Slices(frame, all))
  {
    payload := [];
    if fields != [] {
      ghost var parts := Slices(frame, all);
      for i := 0 to |fields|
        invariant payload == Concat(parts[..i])
      {
        assert parts[..i + 1] == parts[..i] + [parts[i]];
        ConcatSnoc(parts[..i], parts[i]);
        payload := payload + frame[fields[i].0..fields[i].1];
      }
      assert parts[..|fields|] == parts;
    } else if first.Some? {
      payload := frame[first.value.0..first.value.1];
      ConcatSnoc([], payload);
      assert Slices(frame, all) == [] + [payload];
    }
  }

  /** parse_grpc_message_zerocopy: the frame is split off the buffer on success only. */
  method ParseGrpcMessage(buf: Bytes) returns (r: ParseResult, rest: Bytes)
    ensures r == ParseFrame(buf)
    ensures rest == if r.Frame? then buf[r.consumed..] else buf
  {
    rest := buf;
    if |buf| < 5 {
      return NeedMore, rest;
    }
    if buf[0] != 0 {
      return Invalid(Compressed), rest;
    }
    var consumed := 5 + U32(buf[1..5]);
    if |buf| < consumed {
      return NeedMore, rest;
    }
    var first, fields, error, all := WalkFields(buf[..consumed]);
    if error.Some? {
      return Invalid(error.value), rest;
    }
    var payload := JoinFields(buf[..consumed], first, fields, all);
    rest := buf[consumed..];
    r := Frame(payload, consumed);
  }

  lemma {:induction false} PrependOne(parts: seq<Bytes>, p: Bytes, r: FieldsResult)
    ensures Prepend(parts, Prepend([p], r)) == Prepend(parts + [p], r)
  {
    if r.Fields? {
      assert parts + ([p] + r.parts) == parts + [p] + r.parts;
    }
  }

  // ---------------------------------------------------------------- frames on the wire

  /** An entry of a message: the bytes of its length, and its data. */
  datatype Field = Field(len: Bytes, data: Bytes)

  /** The length, in whatever form, is that of the data. */
  ghost predicate FieldOk(f: Field) {
    && 1 <= |f.len| <= 10 && f.len[|f.len| - 1] < 128
    && (forall i :: 0 <= i < |f.len| - 1 ==> f.len[i] >= 128)
    && |f.data| == Base128(f.len) % 0x1_0000_0000_0000_0000
  }

  ghost predicate FieldsOk(fs: seq<Field>) {
    forall f :: f in fs ==> FieldOk(f)
  }

  function FieldsBytes(fs: seq<Field>): Bytes {
    if fs == [] then [] else [10] + fs[0].len + fs[0].data + FieldsBytes(fs[1..])
  }

  function Contents(fs: seq<Field>): seq<Bytes> {
    if fs == [] then [] else [fs[0].data] + Contents(fs[1..])
  }

  /** The entry at the start of some bytes. */
  lemma {:induction false} FieldAhead(f: Field, more: Bytes)
    requires FieldOk(f)
    ensures Varint(f.len + f.data + more) == Value(|f.data|, |f.len|)
  {
    hide Varint, Base128;
    var data := f.len + f.data + more;
    assert data[..|f.len|] == f.len;
    VarintExactly(data, |f.data|, |f.len|);
  }

  lemma {:induction false} OneFieldFound(ahead: Bytes, f: Field, more: Bytes)
    requires FieldOk(f)
    ensures var next := ahead + ([10] + f.len + f.data);
            FieldsFrom(next + more, |ahead|) == Prepend([f.data], FieldsFrom(next + more, |next|))
  {
    hide Varint, FieldOk;
    FieldAhead(f, more);
    var next := ahead + ([10] + f.len + f.data);
    var frame := next + more;
    assert frame[|ahead| + 1..] == f.len + f.data + more;
    assert frame[|ahead| + 1 + |f.len|..|next|] == f.data;
  }

  /** Entries are found one after the other, up to whatever else there is. */
  lemma {:induction false} FieldsFound(ahead: Bytes, fs: seq<Field>, rest: Bytes)
    requires FieldsOk(fs)
    ensures FieldsFrom(ahead + FieldsBytes(fs) + rest, |ahead|) ==
            Prepend(Contents(fs), FieldsFrom(ahead + FieldsBytes(fs) + rest, |ahead| + |FieldsBytes(fs)|))
    decreases |fs|
  {
    hide FieldsFrom, FieldOk;
    var frame := ahead + FieldsBytes(fs) + rest;
    if fs == [] {
      NoPrefix(FieldsFrom(frame, |ahead|));
    } else {
      var f, more := fs[0], FieldsBytes(fs[1..]);
      assert f in fs && FieldsOk(fs[1..]);
      var next := ahead + ([10] + f.len + f.data);
      FieldsFound(next, fs[1..], rest);
      assert next + more + rest == frame && next + (more + rest) == frame;
      OneFieldFound(ahead, f, more + rest);
      PrependTwo([f.data], Contents(fs[1..]), FieldsFrom(frame, |next| + |more|));
    }
  }

  lemma {:induction false} NoPrefix(r: FieldsResult)
    ensures Prepend([], r) == r
  {
  }

  lemma {:induction false} PrependTwo(a: seq<Bytes>, b: seq<Bytes>, r: FieldsResult)
    ensures Prepend(a, Prepend(b, r)) == Prepend(a + b, r)
  {
    if r.Fields? {
      assert a + (b + r.parts) == a + b + r.parts;
    }
  }

  /** What is read as entries is made of them. */
  lemma {:induction false} FieldsRead(frame: Bytes, pos: nat) returns (fs: seq<Field>)
    requires pos <= |frame| && FieldsFrom(frame, pos).Fields?
    ensures FieldsOk(fs) && frame[pos..] == FieldsBytes(fs) && FieldsFrom(frame, pos).parts == Contents(fs)
    decreases |frame| - pos
  {
    hide Varint, FieldOk, FieldsBytes, Contents;
    if pos == |frame| {
      fs := [];
      NoFields();
    } else {
      var v := Varint(frame[pos + 1..]);
      var start, end := pos + 1 + v.size, pos + 1 + v.size + v.value;
      var f := Field(frame[pos + 1..start], frame[start..end]);
      FieldAt(frame, pos, v, f);
      var more := FieldsRead(frame, end);
      fs := [f] + more;
      OneMoreField(f, more);
      assert frame[pos..] == [10] + f.len + f.data + frame[end..];
    }
  }

  lemma {:induction false} NoFields()
    ensures FieldsBytes([]) == [] && Contents([]) == []
  {
  }

  lemma {:induction false} OneMoreField(f: Field, fs: seq<Field>)
    ensures FieldsBytes([f] + fs) == [10] + f.len + f.data + FieldsBytes(fs)
    ensures Contents([f] + fs) == [f.data] + Contents(fs)
  {
    assert ([f] + fs)[1..] == fs;
  }

  lemma {:induction false} FieldAt(frame: Bytes, pos: nat, v: VarintResult, f: Field)
    requires pos < |frame| && v == Varint(frame[pos + 1..]) && v.Value? && pos + 1 + v.size + v.value <= |frame|
    requires f.len == frame[pos + 1..pos + 1 + v.size] && f.data == frame[pos + 1 + v.size..pos + 1 + v.size + v.value]
    ensures FieldOk(f)
  {
    hide Varint, Base128;
    var data := frame[pos + 1..];
    VarintExactly(data, v.value, v.size);
    assert f.len == data[..v.size];
  }

  /** A frame on the wire, byte by byte: no compression, the length of the message with its high byte
      first, and entries with the tag of field 1; the payload is all their data. */
  lemma {:induction false} FrameExactly(buf: Bytes, payload: Bytes, n: nat)
    ensures ParseFrame(buf) == Frame(payload, n) <==>
            && 5 <= n <= |buf| && buf[0] == 0
            && n - 5 == 0x100_0000 * (buf[1] as int) + 0x1_0000 * (buf[2] as int) + 0x100 * (buf[3] as int) + (buf[4] as int)
            && exists fs :: FieldsOk(fs) && buf[5..n] == FieldsBytes(fs) && payload == Concat(Contents(fs))
  {
    hide FieldsFrom, FieldsOk, Concat;
    if ParseFrame(buf) == Frame(payload, n) {
      var fs := FieldsRead(buf[..n], 5);
      assert buf[..n][5..] == buf[5..n];
    }
    if && 5 <= n <= |buf| && buf[0] == 0
       && n - 5 == 0x100_0000 * (buf[1] as int) + 0x1_0000 * (buf[2] as int) + 0x100 * (buf[3] as int) + (buf[4] as int) {
      forall fs | FieldsOk(fs) && buf[5..n] == FieldsBytes(fs) && payload == Concat(Contents(fs))
        ensures ParseFrame(buf) == Frame(payload, n)
      {
        FieldsFound(buf[..5], fs, []);
        assert buf[..5] + FieldsBytes(fs) + [] == buf[..n];
        NoMoreFields(buf[..n]);
        assert Contents(fs) + [] == Contents(fs);
      }
    }
  }

  lemma {:induction false} NoMoreFields(frame: Bytes)
    ensures FieldsFrom(frame, |frame|) == Fields([])
  {
  }

  /** The entries of some data, in the form the encoder gives them. */
  function FieldsOf(parts: seq<Bytes>): (fs: seq<Field>) {
    if parts == [] then [] else [Field(VarintBytes(|parts[0]|), parts[0])] + FieldsOf(parts[1..])
  }

  lemma {:induction false} FieldsOfOk(parts: seq<Bytes>)
    requires |FieldsBytes(FieldsOf(parts))| < TWO_32
    ensures FieldsOk(FieldsOf(parts)) && Contents(FieldsOf(parts)) == parts
  {
    hide Base128, VarintBytes;
    if parts != [] {
      var f := Field(VarintBytes(|parts[0]|), parts[0]);
      assert FieldsOf(parts)[1..] == FieldsOf(parts[1..]);
      FieldsOfOk(parts[1..]);
      VarintBytesShape(|parts[0]|);
      VarintRoundTrip(|parts[0]|, []);
      VarintExactly(f.len + [], |parts[0]|, VarintLen(|parts[0]|));
      VarintLenIsLength(|parts[0]|);
      assert f.len + [] == f.len;
      assert FieldOk(f);
    }
  }

  /** A message of any number of entries, in front of any bytes, is read as all their data. */
  lemma {:induction false} EntriesRoundTrip(parts: seq<Bytes>, tail: Bytes)
    requires |FieldsBytes(FieldsOf(parts))| < TWO_32
    ensures var body := FieldsBytes(FieldsOf(parts));
            var len := |body|;
            ParseFrame([0, len / 0x100_0000, len / 0x1_0000 % 256, len / 0x100 % 256, len % 256] + body + tail) ==
            Frame(Concat(parts), 5 + len)
  {
    hide ParseFrame, Concat;
    var body := FieldsBytes(FieldsOf(parts));
    var len := |body|;
    FieldsOfOk(parts);
    HighByteFirst(len);
    var buf := [0, len / 0x100_0000, len / 0x1_0000 % 256, len / 0x100 % 256, len % 256] + body + tail;
    assert buf[5..5 + len] == body;
    FrameExactly(buf, Concat(parts), 5 + len);
  }

  lemma {:induction false} HighByteFirst(n: nat)
    requires n < TWO_32
    ensures n == 0x100_0000 * (n / 0x100_0000) + 0x1_0000 * (n / 0x1_0000 % 256) + 0x100 * (n / 0x100 % 256) + n % 256
    ensures n / 0x100_0000 < 256
  {
    assert n / 0x1_0000 == n / 0x100 / 256 && n / 0x100_0000 == n / 0x1_0000 / 256;
  }

  /** What is wrong with a message is told by the first entry that is wrong. */
  lemma {:induction false} FirstBadField(ahead: Bytes, fs: seq<Field>, rest: Bytes)
    requires FieldsOk(fs) && rest != []
    ensures var r := FieldsFrom(ahead + FieldsBytes(fs) + rest, |ahead|);
            && (rest[0] != 10 ==> r == BadFields(BadTag))
            && (rest[0] == 10 && !Varint(rest[1..]).Value? ==> r == BadFields(BadVarint(Varint(rest[1..]))))
            && (rest[0] == 10 && Varint(rest[1..]).Value?
                  && |rest| < 1 + Varint(rest[1..]).size + Varint(rest[1..]).value
                ==> r == BadFields(FieldTooLong))
  {
    hide Varint, FieldOk;
    FieldsFound(ahead, fs, rest);
    var frame, pos := ahead + FieldsBytes(fs) + rest, |ahead| + |FieldsBytes(fs)|;
    assert frame[pos + 1..] == rest[1..];
  }

  /** A verdict other than "need more" does not depend on what follows. */
  lemma {:induction false} ParseStable(buf: Bytes, more: Bytes)
    requires !ParseFrame(buf).NeedMore?
    ensures ParseFrame(buf + more) == ParseFrame(buf)
  {
    assert (buf + more)[1..5] == buf[1..5];
    if buf[0] == 0 {
      var consumed := 5 + U32(buf[1..5]);
      assert (buf + more)[..consumed] == buf[..consumed];
    }
  }

  /** Declared length of the frame that carries an `n`-byte payload. */
  function ProtoLen(n: nat): (len: nat)
    ensures len >= n + 1
  {
    1 + VarintLen(n) + n
  }

  lemma {:induction false} BitLengthMonotone(a: nat, b: nat)
    requires a <= b
    ensures BitLength(a) <= BitLength(b)
  {
    if a != 0 { BitLengthMonotone(a / 2, b / 2); }
  }

  lemma {:induction false} ProtoLenMonotone(a: nat, b: nat)
    requires a <= b
    ensures ProtoLen(a) <= ProtoLen(b)
  {
    BitLengthMonotone(a, b);
    if a == 0 && b != 0 {
      BitLengthMonotone(1, b);
    }
  }

  /** A payload as one frame; the length field keeps 32 bits, as the source's cast does. */
  function FrameBytes(payload: Bytes): (f: Bytes)
    ensures |f| >= 6 + |payload|
  {
    [0] + U32Bytes(ProtoLen(|payload|)) + [FIELD_TAG] + VarintBytes(|payload|) + payload
  }

  /** encode_grpc_message. */
  method EncodeGrpcMessage(payload: Bytes) returns (buf: Bytes)
    requires |payload| < TWO_64
    ensures buf == FrameBytes(payload)
  {
    var protoLen := 1 + VarintLen(|payload|) + |payload|;
    buf := [0];
    buf := buf + U32Bytes(protoLen);
    buf := buf + [FIELD_TAG];
    buf := EncodeVarint(|payload|, buf);
    buf := buf + payload;
  }

  lemma {:induction false} FrameBytesLen(payload: Bytes)
    ensures |FrameBytes(payload)| == 5 + ProtoLen(|payload|)
  {
    VarintLenIsLength(|payload|);
  }

  lemma {:induction false} SingleField(header: Bytes, e: Bytes, payload: Bytes)
    requires |header| == 5 && Varint(e + payload) == Value(|payload|, |e|)
    ensures FieldsFrom(header + [FIELD_TAG] + e + payload, 5) == Fields([payload])
  {
    var frame := header + [FIELD_TAG] + e + payload;
    assert frame[6..] == e + payload;
    assert frame[6 + |e|..] == payload;
    assert frame[6 + |e|..|frame|] == payload;
    assert FieldsFrom(frame, |frame|) == Fields([]);
    assert [payload] + [] == [payload];
  }

  /** Frame round trip, in front of any other bytes. */
  lemma {:induction false} FrameRoundTrip(payload: Bytes, tail: Bytes)
    requires ProtoLen(|payload|) < TWO_32
    ensures ParseFrame(FrameBytes(payload) + tail) == Frame(payload, |FrameBytes(payload)|)
  {
    hide VarintBytes, Varint, VarintLen, U32Bytes, FieldsFrom;
    var e := VarintBytes(|payload|);
    var header := [0] + U32Bytes(ProtoLen(|payload|));
    var f := FrameBytes(payload);
    VarintLenIsLength(|payload|);
    VarintRoundTrip(|payload|, payload);
    SingleField(header, e, payload);
    assert f == header + [FIELD_TAG] + e + payload;
    assert (f + tail)[1..5] == U32Bytes(ProtoLen(|payload|));
    assert (f + tail)[..|f|] == f;
    ConcatSnoc([], payload);
    assert [] + [payload] == [payload];
  }

  /** What is written for any payload, byte by byte; the length keeps 32 bits. */
  lemma {:induction false} FrameLayout(payload: Bytes)
    ensures var f, len := FrameBytes(payload), VarintBytes(|payload|);
            && |f| == 6 + |len| + |payload| && f[0] == 0 && f[5] == 10
            && 0x100_0000 * (f[1] as int) + 0x1_0000 * (f[2] as int) + 0x100 * (f[3] as int) + (f[4] as int) ==
               (1 + |len| + |payload|) % TWO_32
            && f[6..6 + |len|] == len && f[6 + |len|..] == payload
  {
    hide VarintBytes, VarintLen;
    VarintLenIsLength(|payload|);
    var f := FrameBytes(payload);
    assert f[1..5] == U32Bytes(ProtoLen(|payload|));
    assert U32(f[1..5]) == ProtoLen(|payload|) % TWO_32;
  }

  /** The 32-bit length field is the exact limit of the round trip. */
  lemma {:induction false} FrameRoundTripExactly(payload: Bytes)
    ensures ParseFrame(FrameBytes(payload)) == Frame(payload, |FrameBytes(payload)|) <==> ProtoLen(|payload|) < TWO_32
  {
    var f := FrameBytes(payload);
    FrameBytesLen(payload);
    assert f[1..5] == U32Bytes(ProtoLen(|payload|));
    if ProtoLen(|payload|) < TWO_32 {
      FrameRoundTrip(payload, []);
      assert f + [] == f;
    }
  }
}
