/** The Trojan wire format: addresses, the request header and the UDP packets carried in the
    stream.  Decoding is stated to be the exact inverse of encoding. */
module Trojan {
  import opened Bytes

  const ATYP_IPV4: Byte := 1
  const ATYP_DOMAIN: Byte := 3
  const ATYP_IPV6: Byte := 4
  const CRLF: Bytes := [13, 10]

  datatype DecodeResult<+T> = Ok(value: T, consumed: nat) | NeedMoreData | Invalid(msg: string)

  // ---------------------------------------------------------------- text

  predicate Continuation(b: Byte) {
    0x80 <= b < 0xC0
  }

  /** Length of the well-formed UTF-8 sequence at the start, or 0 if there is none. */
  function Utf8Head(s: Bytes): nat {
    if s == [] then 0
    else if s[0] < 0x80 then 1
    else if |s| >= 2 && 0xC2 <= s[0] < 0xE0 && Continuation(s[1]) then 2
    else if && |s| >= 3 && 0xE0 <= s[0] < 0xF0 && Continuation(s[1]) && Continuation(s[2])
            && (s[0] == 0xE0 ==> s[1] >= 0xA0) && (s[0] == 0xED ==> s[1] < 0xA0) then 3
    else if && |s| >= 4 && 0xF0 <= s[0] < 0xF5 && Continuation(s[1]) && Continuation(s[2]) && Continuation(s[3])
            && (s[0] == 0xF0 ==> s[1] >= 0x90) && (s[0] == 0xF4 ==> s[1] < 0x90) then 4
    else 0
  }

  /** What std::str::from_utf8 accepts. */
  predicate ValidUtf8(s: Bytes) {
    s == [] || (0 < Utf8Head(s) <= |s| && ValidUtf8(s[Utf8Head(s)..]))
  }

  /** A Unicode scalar value. */
  predicate Scalar(c: nat) {
    c < 0xD800 || 0xE000 <= c < 0x11_0000
  }

  /** Its UTF-8 form (RFC 3629, section 3). */
  function Utf8Of(c: nat): Bytes
    requires Scalar(c)
  {
    if c < 0x80 then [c]
    else if c < 0x800 then [0xC0 + c / 64, 0x80 + c % 64]
    else if c < 0x1_0000 then [0xE0 + c / 4096, 0x80 + c / 64 % 64, 0x80 + c % 64]
    else [0xF0 + c / 0x4_0000, 0x80 + c / 4096 % 64, 0x80 + c / 64 % 64, 0x80 + c % 64]
  }

  ghost predicate Scalars(cs: seq<nat>) {
    forall c :: c in cs ==> Scalar(c)
  }

  function Utf8(cs: seq<nat>): Bytes
    requires Scalars(cs)
  {
    if cs == [] then [] else Utf8Of(cs[0]) + Utf8(cs[1..])
  }

  /** A sequence at the start of some bytes is the form of a scalar value. */
  lemma {:induction false} HeadDecodes(s: Bytes) returns (c: nat)
    requires Utf8Head(s) > 0
    ensures Utf8Head(s) <= |s| && Scalar(c) && Utf8Of(c) == s[..Utf8Head(s)]
  {
    var n := Utf8Head(s);
    var b0: int := s[0];
    if n == 1 {
      c := b0;
    } else if n == 2 {
      c := (b0 - 0xC0) * 64 + (s[1] - 0x80);
    } else if n == 3 {
      c := Three(b0 - 0xE0, s[1] - 0x80, s[2] - 0x80);
    } else {
      c := Four(b0 - 0xF0, s[1] - 0x80, s[2] - 0x80, s[3] - 0x80);
    }
  }

  lemma {:induction false} Three(a: nat, b: nat, d: nat) returns (c: nat)
    requires a < 16 && b < 64 && d < 64 && (a == 0 ==> b >= 32) && (a == 13 ==> b < 32)
    ensures Scalar(c) && Utf8Of(c) == [0xE0 + a, 0x80 + b, 0x80 + d]
  {
    c := (a * 64 + b) * 64 + d;
    assert c / 64 == a * 64 + b && c / 4096 == a;
  }

  lemma {:induction false} Four(a: nat, b: nat, d: nat, e: nat) returns (c: nat)
    requires a < 5 && b < 64 && d < 64 && e < 64 && (a == 0 ==> b >= 16) && (a == 4 ==> b < 16)
    ensures Scalar(c) && Utf8Of(c) == [0xF0 + a, 0x80 + b, 0x80 + d, 0x80 + e]
  {
    c := ((a * 64 + b) * 64 + d) * 64 + e;
    assert c / 64 == (a * 64 + b) * 64 + d && c / 4096 == a * 64 + b && c / 0x4_0000 == a;
  }

  /** And the form of a scalar value is such a sequence, whatever follows. */
  lemma {:induction false} HeadOfForm(c: nat, tail: Bytes)
    requires Scalar(c)
    ensures Utf8Head(Utf8Of(c) + tail) == |Utf8Of(c)|
  {
    if 0x1_0000 <= c {
      assert c / 0x4_0000 == c / 4096 / 64;
    }
  }

  /** What is accepted is exactly the UTF-8 text there is. */
  lemma {:induction false} ValidUtf8Exactly(s: Bytes)
    ensures ValidUtf8(s) <==> exists cs :: Scalars(cs) && s == Utf8(cs)
  {
    if ValidUtf8(s) {
      var cs := TextOf(s);
    }
    if cs :| Scalars(cs) && s == Utf8(cs) {
      TextIsValid(cs);
    }
  }

  lemma {:induction false} TextOf(s: Bytes) returns (cs: seq<nat>)
    requires ValidUtf8(s)
    ensures Scalars(cs) && s == Utf8(cs)
  {
    hide Utf8Of;
    if s == [] {
      cs := [];
    } else {
      var c := HeadDecodes(s);
      var rest := TextOf(s[Utf8Head(s)..]);
      cs := [c] + rest;
      assert cs[1..] == rest;
    }
  }

  lemma {:induction false} TextIsValid(cs: seq<nat>)
    requires Scalars(cs)
    ensures ValidUtf8(Utf8(cs))
  {
    hide Utf8Head, Utf8Of;
    if cs != [] {
      assert cs[0] in cs;
      var s, form := Utf8(cs), Utf8Of(cs[0]);
      TextIsValid(cs[1..]);
      HeadOfForm(cs[0], Utf8(cs[1..]));
      FormLen(cs[0]);
      assert s[|form|..] == Utf8(cs[1..]);
    }
  }

  lemma {:induction false} FormLen(c: nat)
    requires Scalar(c)
    ensures 0 < |Utf8Of(c)| <= 4
  {
  }

  // ---------------------------------------------------------------- numbers

  function U16(hi: Byte, lo: Byte): (n: nat)
    ensures n < 0x1_0000
  {
    var h: int, l: int := hi, lo;
    h * 256 + l
  }

  /** Two bytes of a number, big-endian; higher bits are cut off. */
  function U16Bytes(n: nat): (b: Bytes)
    ensures |b| == 2
    ensures U16(b[0], b[1]) == n % 0x1_0000
  {
    var m := n % 0x1_0000;
    [m / 256, m % 256]
  }

  lemma {:induction false} U16Inverse(hi: Byte, lo: Byte)
    ensures U16Bytes(U16(hi, lo)) == [hi, lo]
  {
  }

  // ---------------------------------------------------------------- addresses

  datatype Address = IPv4(ip: Bytes, port: nat) | IPv6(ip: Bytes, port: nat) | Domain(name: Bytes, port: nat)

  /** What the types of the fields guarantee: octet counts, 16-bit ports, UTF-8 names. */
  predicate WellTyped(a: Address) {
    && a.port < 0x1_0000
    && (a.IPv4? ==> |a.ip| == 4)
    && (a.IPv6? ==> |a.ip| == 16)
    && (a.Domain? ==> ValidUtf8(a.name))
  }

  /** The name fits the length byte. */
  predicate Fits(a: Address) {
    a.Domain? ==> |a.name| <= 255
  }

  /** Address::decode. */
  function DecodeAddress(buf: Bytes): (r: DecodeResult<Address>)
    ensures r.Ok? ==> r.consumed <= |buf|
  {
    if buf == [] then NeedMoreData
    else if buf[0] == ATYP_IPV4 then
      if |buf| < 7 then NeedMoreData else Ok(IPv4(buf[1..5], U16(buf[5], buf[6])), 7)
    else if buf[0] == ATYP_IPV6 then
      if |buf| < 19 then NeedMoreData else Ok(IPv6(buf[1..17], U16(buf[17], buf[18])), 19)
    else if buf[0] == ATYP_DOMAIN then
      if |buf| < 2 then NeedMoreData
      else
        var len: nat := buf[1];
        var total := 1 + 1 + len + 2;
        if |buf| < total then NeedMoreData
        else if !ValidUtf8(buf[2..2 + len]) then Invalid("invalid domain encoding")
        else Ok(Domain(buf[2..2 + len], U16(buf[2 + len], buf[3 + len])), total)
    else Invalid("invalid address type")
  }

  /** Address::encode; a name that is too long for its length byte is cut. */
  function EncodeAddress(a: Address): (e: Bytes)
    ensures |e| >= 3
  {
    match a
    case IPv4(ip, port) => [ATYP_IPV4] + ip + U16Bytes(port)
    case IPv6(ip, port) => [ATYP_IPV6] + ip + U16Bytes(port)
    case Domain(name, port) =>
      var n := Min(|name|, 255);
      [ATYP_DOMAIN, n] + name[..n] + U16Bytes(port)
  }

  lemma {:induction false} AddressLen(a: Address)
    requires WellTyped(a)
    ensures |EncodeAddress(a)| == (if a.IPv4? then 7 else if a.IPv6? then 19 else 4 + Min(|a.name|, 255))
  {
  }

  /** Encoding, then decoding in front of any bytes. */
  lemma {:induction false} AddressRoundTrip(a: Address, tail: Bytes)
    requires WellTyped(a) && Fits(a)
    ensures DecodeAddress(EncodeAddress(a) + tail) == Ok(a, |EncodeAddress(a)|)
  {
    hide ValidUtf8;
    var e := EncodeAddress(a);
    var buf := e + tail;
    match a {
      case IPv4(ip, port) =>
        assert buf[1..5] == ip;
        assert [buf[5], buf[6]] == U16Bytes(port);
      case IPv6(ip, port) =>
        assert buf[1..17] == ip;
        assert [buf[17], buf[18]] == U16Bytes(port);
      case Domain(name, port) =>
        assert name[..|name|] == name;
        assert buf[2..2 + |name|] == name;
        assert [buf[2 + |name|], buf[3 + |name|]] == U16Bytes(port);
    }
  }

  /** What decodes is the encoding of the result. */
  lemma {:induction false} AddressSound(buf: Bytes)
    requires DecodeAddress(buf).Ok?
    ensures var r := DecodeAddress(buf);
            WellTyped(r.value) && Fits(r.value) && buf[..r.consumed] == EncodeAddress(r.value)
  {
    hide ValidUtf8;
    var r := DecodeAddress(buf);
    var n := r.consumed;
    U16Inverse(buf[n - 2], buf[n - 1]);
    match r.value {
      case IPv4(ip, port) =>
        assert buf[..n] == [ATYP_IPV4] + ip + [buf[5], buf[6]];
      case IPv6(ip, port) =>
        assert buf[..n] == [ATYP_IPV6] + ip + [buf[17], buf[18]];
      case Domain(name, port) =>
        assert name[..|name|] == name;
        assert buf[..n] == [ATYP_DOMAIN, |name|] + name + [buf[n - 2], buf[n - 1]];
    }
  }

  /** Decoding yields an address exactly when the buffer starts with its encoding. */
  lemma {:induction false} AddressExactly(buf: Bytes, a: Address, n: nat)
    ensures DecodeAddress(buf) == Ok(a, n) <==>
            WellTyped(a) && Fits(a) && n == |EncodeAddress(a)| && EncodeAddress(a) <= buf
  {
    hide ValidUtf8, WellTyped, EncodeAddress;
    if DecodeAddress(buf) == Ok(a, n) {
      AddressSound(buf);
    }
    if WellTyped(a) && Fits(a) && EncodeAddress(a) <= buf {
      var e := EncodeAddress(a);
      assert buf == e + buf[|e|..];
      AddressRoundTrip(a, buf[|e|..]);
    }
  }

  /** The length byte is the exact limit of the round trip. */
  lemma {:induction false} AddressRoundTripExactly(a: Address)
    requires WellTyped(a)
    ensures DecodeAddress(EncodeAddress(a)) == Ok(a, |EncodeAddress(a)|) <==> Fits(a)
  {
    hide ValidUtf8;
    var e := EncodeAddress(a);
    assert e + [] == e;
    if Fits(a) {
      AddressRoundTrip(a, []);
    }
  }

  /** An address on the wire, byte by byte: its type, its host, and its port with the high byte
      first. */
  lemma {:induction false} AddressLayout(buf: Bytes, a: Address, n: nat)
    requires DecodeAddress(buf) == Ok(a, n)
    ensures 4 <= n <= |buf| && a.port == 256 * (buf[n - 2] as int) + (buf[n - 1] as int)
    ensures match a
            case IPv4(ip, _) => buf[0] == 1 && n == 7 && ip == buf[1..5]
            case IPv6(ip, _) => buf[0] == 4 && n == 19 && ip == buf[1..17]
            case Domain(name, _) => buf[0] == 3 && n == 4 + (buf[1] as int) && name == buf[2..n - 2]
  {
  }

  /** Bytes until an address is complete, by its type. */
  function AddressEnd(buf: Bytes): (n: nat)
    requires |buf| >= 2
  {
    if buf[0] == 1 then 7 else if buf[0] == 4 then 19 else 4 + (buf[1] as int)
  }

  /** When an address is undecided, and when it is invalid, byte by byte. */
  lemma {:induction false} AddressVerdict(buf: Bytes)
    requires |buf| >= 2
    ensures DecodeAddress(buf).NeedMoreData? <==> buf[0] in {1, 3, 4} && |buf| < AddressEnd(buf)
    ensures DecodeAddress(buf).Invalid? <==>
            || buf[0] !in {1, 3, 4}
            || (buf[0] == 3 && |buf| >= AddressEnd(buf) && !ValidUtf8(buf[2..2 + (buf[1] as int)]))
  {
    hide ValidUtf8;
  }

  lemma {:induction false} AddressStable(buf: Bytes, more: Bytes)
    requires !DecodeAddress(buf).NeedMoreData?
    ensures DecodeAddress(buf + more) == DecodeAddress(buf)
  {
    hide ValidUtf8;
    var all := buf + more;
    if |buf| >= 7 && buf[0] == ATYP_IPV4 {
      assert all[1..5] == buf[1..5];
    } else if |buf| >= 19 && buf[0] == ATYP_IPV6 {
      assert all[1..17] == buf[1..17];
    } else if |buf| >= 2 && buf[0] == ATYP_DOMAIN {
      var len: nat := buf[1];
      assert all[2..2 + len] == buf[2..2 + len];
    }
  }

  lemma {:induction false} AddressUndecidedIsShort(buf: Bytes)
    requires DecodeAddress(buf).NeedMoreData?
    ensures |buf| < 259
  {
  }

  // ---------------------------------------------------------------- requests

  const PASSWORD_LEN: nat := 56
  const REQUEST_MIN_SIZE: nat := 68

  datatype Cmd = Connect | UdpAssociate

  function ParseCmd(b: Byte): Option<Cmd> {
    if b == 1 then Some(Connect) else if b == 3 then Some(UdpAssociate) else None
  }

  function CmdByte(c: Cmd): Byte {
    match c
    case Connect => 1
    case UdpAssociate => 3
  }

  datatype Request = Request(password: Bytes, cmd: Cmd, addr: Address, payload: Bytes)

  predicate WellFormedRequest(r: Request) {
    |r.password| == PASSWORD_LEN && WellTyped(r.addr) && Fits(r.addr)
  }

  /** The header a client sends. */
  function HeaderBytes(r: Request): Bytes {
    r.password + CRLF + [CmdByte(r.cmd)] + EncodeAddress(r.addr) + CRLF
  }

  datatype CheckResult = Complete(headerLen: nat) | Incomplete | Malformed(msg: string)

  /** TrojanRequest::check_complete. */
  function CheckComplete(buf: Bytes): CheckResult {
    if |buf| < REQUEST_MIN_SIZE then Incomplete
    else if buf[56] != 13 || buf[57] != 10 then Malformed("missing CRLF after password")
    else if ParseCmd(buf[58]).None? then Malformed("invalid trojan command")
    else
      match DecodeAddress(buf[59..])
      case NeedMoreData => Incomplete
      case Invalid(msg) => Malformed(msg)
      case Ok(_, n) =>
        if |buf| < 59 + n + 2 then Incomplete
        else if buf[59 + n] != 13 || buf[59 + n + 1] != 10 then Malformed("missing CRLF after address")
        else Complete(59 + n + 2)
  }

  /** TrojanRequest::decode_zerocopy: the result and what stays in the buffer. */
  method DecodeRequestInPlace(buf: Bytes) returns (r: DecodeResult<Request>, rest: Bytes)
    ensures r == DecodeRequest(buf)
    ensures rest == if r.Ok? then [] else buf
    ensures r.Ok? ==> r.consumed + |r.value.payload| + |rest| == |buf|
  {
    hide DecodeAddress;
    r, rest := NeedMoreData, buf;
    if |buf| < REQUEST_MIN_SIZE {
      return;
    }
    var password := buf[..PASSWORD_LEN];
    if buf[56] != 13 || buf[57] != 10 {
      r := Invalid("missing CRLF after password");
      return;
    }
    var cmd := ParseCmd(buf[58]);
    if cmd.None? {
      r := Invalid("invalid trojan command");
      return;
    }
    var addr := DecodeAddress(buf[59..]);
    if addr.NeedMoreData? {
      return;
    }
    if addr.Invalid? {
      r := Invalid(addr.msg);
      return;
    }
    var crlfPos := 59 + addr.consumed;
    if |buf| < crlfPos + 2 {
      return;
    }
    if buf[crlfPos] != 13 || buf[crlfPos + 1] != 10 {
      r := Invalid("missing CRLF after address");
      return;
    }
    var headerLen := crlfPos + 2;
    rest := rest[headerLen..];
    var payload := rest;
    rest := [];
    r := Ok(Request(password, cmd.value, addr.value, payload), headerLen);
  }

  /** What the request decoder answers, on the whole buffer at once. */
  function DecodeRequest(buf: Bytes): (r: DecodeResult<Request>) {
    match CheckComplete(buf)
    case Incomplete => NeedMoreData
    case Malformed(msg) => Invalid(msg)
    case Complete(n) =>
      Ok(Request(buf[..56], ParseCmd(buf[58]).value, DecodeAddress(buf[59..]).value, buf[n..]), n)
  }

  lemma {:induction false} HeaderLen(r: Request)
    requires WellFormedRequest(r)
    ensures |HeaderBytes(r)| == 61 + |EncodeAddress(r.addr)|
  {
  }

  /** What decodes is the header of the result followed by its payload. */
  lemma {:induction false} RequestSound(buf: Bytes)
    requires DecodeRequest(buf).Ok?
    ensures var d := DecodeRequest(buf);
            && WellFormedRequest(d.value)
            && buf == HeaderBytes(d.value) + d.value.payload
            && d.consumed == |HeaderBytes(d.value)|
  {
    hide DecodeAddress, EncodeAddress, WellTyped, Fits;
    var d := DecodeRequest(buf);
    AddressSound(buf[59..]);
    var n := DecodeAddress(buf[59..]).consumed;
    var h := 59 + n + 2;
    assert buf[59..][..n] == buf[59..59 + n];
    assert buf[59 + n..h] == CRLF;
    assert buf[56..58] == CRLF;
    assert buf[58..59] == [CmdByte(d.value.cmd)];
    assert buf[..h] == buf[..56] + buf[56..58] + buf[58..59] + buf[59..59 + n] + buf[59 + n..h];
    assert buf == buf[..h] + buf[h..];
  }

  /** A well-formed request is read back from its bytes, once there are 68 of them. */
  lemma {:induction false} RequestRoundTrip(r: Request)
    requires WellFormedRequest(r)
    requires |HeaderBytes(r) + r.payload| >= REQUEST_MIN_SIZE
    ensures DecodeRequest(HeaderBytes(r) + r.payload) == Ok(r, |HeaderBytes(r)|)
  {
    hide DecodeAddress, EncodeAddress, WellTyped, Fits;
    var buf := HeaderBytes(r) + r.payload;
    var e := EncodeAddress(r.addr);
    AddressRoundTrip(r.addr, CRLF + r.payload);
    assert buf[59..] == e + (CRLF + r.payload);
    assert buf[..56] == r.password;
    assert buf[61 + |e|..] == r.payload;
  }

  /** Decoding answers a request exactly when the buffer is that request on the wire and has the
      minimum size. */
  lemma {:induction false} RequestExactly(buf: Bytes, r: Request, n: nat)
    ensures DecodeRequest(buf) == Ok(r, n) <==>
            && WellFormedRequest(r) && |buf| >= REQUEST_MIN_SIZE
            && buf == HeaderBytes(r) + r.payload && n == |HeaderBytes(r)|
  {
    hide DecodeAddress, WellFormedRequest, HeaderBytes;
    if DecodeRequest(buf) == Ok(r, n) {
      RequestSound(buf);
    }
    if WellFormedRequest(r) && |buf| >= REQUEST_MIN_SIZE && buf == HeaderBytes(r) + r.payload {
      RequestRoundTrip(r);
    }
  }

  /** A whole request is recognised exactly when it has the minimum size: a header that names a
      host of at most two bytes waits for its payload. */
  lemma {:induction false} RequestRecognisedExactly(r: Request)
    requires WellFormedRequest(r)
    ensures DecodeRequest(HeaderBytes(r) + r.payload) == Ok(r, |HeaderBytes(r)|) <==>
            |HeaderBytes(r) + r.payload| >= REQUEST_MIN_SIZE
    ensures |HeaderBytes(r)| < REQUEST_MIN_SIZE <==> r.addr.Domain? && |r.addr.name| <= 2
  {
    hide DecodeRequest, EncodeAddress;
    RequestExactly(HeaderBytes(r) + r.payload, r, |HeaderBytes(r)|);
    AddressLen(r.addr);
    HeaderLen(r);
  }

  /** Bytes that follow never change a verdict; they only lengthen the payload. */
  lemma {:induction false} RequestStable(buf: Bytes, more: Bytes)
    ensures DecodeRequest(buf).Invalid? ==> DecodeRequest(buf + more) == DecodeRequest(buf)
    ensures DecodeRequest(buf).Ok? ==>
              var d := DecodeRequest(buf);
              DecodeRequest(buf + more) ==
                Ok(Request(d.value.password, d.value.cmd, d.value.addr, d.value.payload + more), d.consumed)
  {
    hide DecodeAddress;
    if |buf| >= REQUEST_MIN_SIZE {
      assert (buf + more)[59..] == buf[59..] + more;
      assert (buf + more)[..56] == buf[..56];
      if !DecodeAddress(buf[59..]).NeedMoreData? {
        AddressStable(buf[59..], more);
      }
      if CheckComplete(buf).Complete? {
        var n := CheckComplete(buf).headerLen;
        assert (buf + more)[n..] == buf[n..] + more;
      }
    }
  }

  /** A buffer that still needs data is shorter than the longest header. */
  lemma {:induction false} UndecidedIsShort(buf: Bytes)
    requires DecodeRequest(buf).NeedMoreData?
    ensures |buf| < 320
  {
    hide DecodeAddress;
    if |buf| >= REQUEST_MIN_SIZE {
      if DecodeAddress(buf[59..]).NeedMoreData? {
        AddressUndecidedIsShort(buf[59..]);
      } else if DecodeAddress(buf[59..]).Ok? {
        AddressConsumes(buf[59..]);
      }
    }
  }

  /** A request on the wire, byte by byte. */
  lemma {:induction false} RequestLayout(buf: Bytes, r: Request, n: nat)
    requires DecodeRequest(buf) == Ok(r, n)
    ensures 68 <= |buf| && 65 <= n <= |buf| && r.password == buf[..56] && r.payload == buf[n..]
    ensures buf[56] == 13 && buf[57] == 10 && buf[n - 2] == 13 && buf[n - 1] == 10
    ensures buf[58] == match r.cmd case Connect => 1 case UdpAssociate => 3
    ensures r.addr.port == 256 * (buf[n - 4] as int) + (buf[n - 3] as int)
    ensures match r.addr
            case IPv4(ip, _) => buf[59] == 1 && n == 68 && ip == buf[60..64]
            case IPv6(ip, _) => buf[59] == 4 && n == 80 && ip == buf[60..76]
            case Domain(name, _) => buf[59] == 3 && n == 65 + (buf[60] as int) && name == buf[61..n - 4]
  {
    hide DecodeAddress, ValidUtf8;
    var a := buf[59..];
    AddressLayout(a, r.addr, n - 61);
    if r.addr.IPv4? {
      SliceBehind(buf, 59, 1, 5);
    } else if r.addr.IPv6? {
      SliceBehind(buf, 59, 1, 17);
    } else {
      SliceBehind(buf, 59, 2, n - 63);
    }
  }

  /** When a request is undecided, byte by byte: below the minimum size, or with nothing wrong in a
      header that is not complete. */
  lemma {:induction false} RequestUndecidedExactly(buf: Bytes)
    ensures DecodeRequest(buf).NeedMoreData? <==>
            || |buf| < 68
            || (&& buf[56] == 13 && buf[57] == 10 && buf[58] in {1, 3} && buf[59] in {1, 3, 4}
                && |buf| < 61 + AddressEnd(buf[59..])
                && (buf[59] == 3 && |buf| >= 63 + (buf[60] as int) ==> ValidUtf8(buf[61..61 + (buf[60] as int)])))
  {
    hide ValidUtf8, DecodeAddress;
    if |buf| >= 68 {
      var a := buf[59..];
      AddressVerdict(a);
      if buf[59] == 3 && |buf| >= 63 + (buf[60] as int) {
        SliceBehind(buf, 59, 2, 2 + (a[1] as int));
      }
      if DecodeAddress(a).Ok? {
        AddressLayout(a, DecodeAddress(a).value, DecodeAddress(a).consumed);
      }
    }
  }

  predicate Ascii(s: Bytes) {
    forall b :: b in s ==> b < 0x80
  }

  lemma {:induction false} AsciiBehind(s: Bytes, t: Bytes)
    requires ValidUtf8(s) && Ascii(t)
    ensures ValidUtf8(s + t)
    decreases |s| + |t|
  {
    if s != [] {
      var n := Utf8Head(s);
      assert (s + t)[n..] == s[n..] + t;
      AsciiBehind(s[n..], t);
    } else if t != [] {
      assert s + t == t;
      assert t[0] in t;
      assert forall b :: b in t[1..] ==> b in t;
      AsciiBehind([], t[1..]);
      assert [] + t[1..] == t[1..];
    }
  }

  /** A request that is undecided for more than its size can still be completed, unless the name has
      broken off in the middle of a character or the byte behind the address is not the one due: no
      rejection waits any longer than that. */
  lemma {:induction false} UndecidedIsOpen(buf: Bytes) returns (more: Bytes)
    requires |buf| >= 68 && DecodeRequest(buf).NeedMoreData?
    requires buf[59] == 3 ==> ValidUtf8(buf[61..Min(|buf|, 61 + (buf[60] as int))])
    requires |buf| == 60 + AddressEnd(buf[59..]) ==> buf[|buf| - 1] == 13
    ensures DecodeRequest(buf + more).Ok?
  {
    hide ValidUtf8, DecodeAddress;
    RequestUndecidedExactly(buf);
    var end := 59 + AddressEnd(buf[59..]);
    if |buf| <= end {
      more := seq(end - |buf|, i => 0x61) + CRLF;
    } else {
      more := [10];
    }
    Completed(buf, more);
  }

  lemma {:induction false} FillIsAscii(buf: Bytes, more: Bytes, fill: Bytes)
    requires |buf| >= 68 && buf[59] == 3 && |buf + more| == 65 + (buf[60] as int)
    requires forall i :: 0 <= i < |more| - 2 ==> more[i] == 0x61
    requires fill == (buf + more)[Min(|buf|, 61 + (buf[60] as int))..61 + (buf[60] as int)]
    ensures Ascii(fill)
  {
    forall b | b in fill ensures b < 0x80 {
      var i :| 0 <= i < |fill| && fill[i] == b;
      assert fill[i] == (buf + more)[Min(|buf|, 61 + (buf[60] as int)) + i];
    }
  }

  lemma {:induction false} Completed(buf: Bytes, more: Bytes)
    requires |buf| >= 68 && buf[56] == 13 && buf[57] == 10 && buf[58] in {1, 3} && buf[59] in {1, 3, 4}
    requires |buf + more| == 61 + AddressEnd(buf[59..]) && |more| > 0
    requires (buf + more)[|buf + more| - 2..] == CRLF
    requires buf[59] == 3 ==> ValidUtf8(buf[61..Min(|buf|, 61 + (buf[60] as int))])
    requires forall i :: 0 <= i < |more| - 2 ==> more[i] == 0x61
    ensures DecodeRequest(buf + more).Ok?
  {
    hide ValidUtf8, DecodeAddress, Ascii;
    var all := buf + more;
    var a := all[59..];
    assert AddressEnd(a) == AddressEnd(buf[59..]);
    AddressVerdict(a);
    if buf[59] == 3 {
      var have := buf[61..Min(|buf|, 61 + (buf[60] as int))];
      var name := a[2..2 + (a[1] as int)];
      var fill := name[|have|..];
      SliceBehind(all, 59, 2, 2 + (a[1] as int));
      assert have == name[..|have|];
      assert name == have + fill;
      assert Ascii(fill) by { FillIsAscii(buf, more, fill); }
      AsciiBehind(have, fill);
    }
    var d := DecodeAddress(a);
    AddressLayout(a, d.value, d.consumed);
  }

  lemma {:induction false} AddressConsumes(buf: Bytes)
    requires DecodeAddress(buf).Ok?
    ensures 4 <= DecodeAddress(buf).consumed <= 259
  {
  }

  // ---------------------------------------------------------------- UDP packets

  const PACKET_MIN_SIZE: nat := 11

  datatype Packet = Packet(addr: Address, payload: Bytes)

  predicate WellFormedPacket(p: Packet) {
    WellTyped(p.addr) && Fits(p.addr) && |p.payload| < 0x1_0000
  }

  /** TrojanUdpPacket::encode; the length field keeps 16 bits of the payload length. */
  function EncodePacket(addr: Address, payload: Bytes): Bytes {
    EncodeAddress(addr) + U16Bytes(|payload|) + CRLF + payload
  }

  function PacketBytes(p: Packet): Bytes {
    EncodePacket(p.addr, p.payload)
  }

  /** TrojanUdpPacket::decode. */
  function DecodePacket(buf: Bytes): (r: DecodeResult<Packet>)
    ensures r.Ok? ==> 0 < r.consumed <= |buf|
  {
    if |buf| < PACKET_MIN_SIZE then NeedMoreData
    else
      match DecodeAddress(buf)
      case NeedMoreData => NeedMoreData
      case Invalid(msg) => Invalid(msg)
      case Ok(addr, n) =>
        if |buf| < n + 4 then NeedMoreData
        else
          var len := U16(buf[n], buf[n + 1]);
          if buf[n + 2] != 13 || buf[n + 3] != 10 then Invalid("missing CRLF in UDP packet")
          else if |buf| < n + 4 + len then NeedMoreData
          else Ok(Packet(addr, buf[n + 4..n + 4 + len]), n + 4 + len)
  }

  /** TrojanUdpPacket::decode_zerocopy: takes the packet off the front of the buffer. */
  method DecodePacketInPlace(buf: Bytes) returns (r: DecodeResult<Packet>, rest: Bytes)
    ensures r == DecodePacket(buf)
    ensures rest == if r.Ok? then buf[r.consumed..] else buf
  {
    hide DecodeAddress;
    r, rest := NeedMoreData, buf;
    if |buf| < PACKET_MIN_SIZE {
      return;
    }
    var addr := DecodeAddress(buf);
    if addr.NeedMoreData? {
      return;
    }
    if addr.Invalid? {
      r := Invalid(addr.msg);
      return;
    }
    var addrLen := addr.consumed;
    if |buf| < addrLen + 4 {
      return;
    }
    var payloadLen := U16(buf[addrLen], buf[addrLen + 1]);
    if buf[addrLen + 2] != 13 || buf[addrLen + 3] != 10 {
      r := Invalid("missing CRLF in UDP packet");
      return;
    }
    var totalLen := addrLen + 4 + payloadLen;
    if |buf| < totalLen {
      return;
    }
    rest := rest[addrLen + 4..];
    var payload := rest[..payloadLen];
    rest := rest[payloadLen..];
    assert payload == buf[addrLen + 4..totalLen];
    r := Ok(Packet(addr.value, payload), totalLen);
  }

  lemma {:induction false} PacketSound(buf: Bytes)
    requires DecodePacket(buf).Ok?
    ensures var d := DecodePacket(buf);
            WellFormedPacket(d.value) && buf[..d.consumed] == PacketBytes(d.value)
  {
    hide DecodeAddress, EncodeAddress, WellTyped, Fits;
    AddressSound(buf);
    var n := DecodeAddress(buf).consumed;
    U16Inverse(buf[n], buf[n + 1]);
    var t := DecodePacket(buf).consumed;
    assert buf[..t] == buf[..n] + [buf[n], buf[n + 1]] + CRLF + buf[n + 4..t];
  }

  lemma {:induction false} PacketRoundTrip(p: Packet, tail: Bytes)
    requires WellFormedPacket(p)
    requires |PacketBytes(p) + tail| >= PACKET_MIN_SIZE
    ensures DecodePacket(PacketBytes(p) + tail) == Ok(p, |PacketBytes(p)|)
  {
    hide DecodeAddress, EncodeAddress, WellTyped, Fits;
    var e := EncodeAddress(p.addr);
    var n := |e|;
    var buf := PacketBytes(p) + tail;
    var len := U16Bytes(|p.payload|);
    assert buf == e + (len + CRLF + p.payload + tail);
    AddressRoundTrip(p.addr, len + CRLF + p.payload + tail);
    assert buf[n] == len[0] && buf[n + 1] == len[1];
    assert buf[n + 4..n + 4 + |p.payload|] == p.payload;
  }

  /** Decoding answers a packet exactly when the buffer starts with its encoding and has the
      minimum size. */
  lemma {:induction false} PacketExactly(buf: Bytes, p: Packet, n: nat)
    ensures DecodePacket(buf) == Ok(p, n) <==>
            && WellFormedPacket(p) && |buf| >= PACKET_MIN_SIZE
            && PacketBytes(p) <= buf && n == |PacketBytes(p)|
  {
    hide DecodeAddress, WellFormedPacket, PacketBytes;
    if DecodePacket(buf) == Ok(p, n) {
      PacketSound(buf);
    }
    if WellFormedPacket(p) && |buf| >= PACKET_MIN_SIZE && PacketBytes(p) <= buf {
      var e := PacketBytes(p);
      assert buf == e + buf[|e|..];
      PacketRoundTrip(p, buf[|e|..]);
    }
  }

  /** A packet on the wire, byte by byte. */
  lemma {:induction false} PacketLayout(buf: Bytes, p: Packet, t: nat)
    requires DecodePacket(buf) == Ok(p, t)
    ensures var n := t - 4 - |p.payload|;
            && 4 <= n && t <= |buf| && |p.payload| == 256 * (buf[n] as int) + (buf[n + 1] as int)
            && buf[n + 2] == 13 && buf[n + 3] == 10 && p.payload == buf[n + 4..t]
            && p.addr.port == 256 * (buf[n - 2] as int) + (buf[n - 1] as int)
            && match p.addr
               case IPv4(ip, _) => buf[0] == 1 && n == 7 && ip == buf[1..5]
               case IPv6(ip, _) => buf[0] == 4 && n == 19 && ip == buf[1..17]
               case Domain(name, _) => buf[0] == 3 && n == 4 + (buf[1] as int) && name == buf[2..n - 2]
  {
    hide DecodeAddress;
    AddressLayout(buf, p.addr, t - 4 - |p.payload|);
  }

  /** What is written for any packet, byte by byte: a name is cut to its first 255 bytes, and the length
      keeps 16 bits; the payload is always written whole. */
  lemma {:induction false} EncodedLayout(addr: Address, payload: Bytes)
    requires WellTyped(addr)
    ensures var e, n := EncodePacket(addr, payload), |EncodeAddress(addr)|;
            && n + 4 <= |e| && e[..n] == EncodeAddress(addr) && e[n + 4..] == payload
            && 256 * (e[n] as int) + (e[n + 1] as int) == |payload| % 0x1_0000 && e[n + 2] == 13 && e[n + 3] == 10
    ensures var e, n := EncodeAddress(addr), |EncodeAddress(addr)|;
            && 256 * (e[n - 2] as int) + (e[n - 1] as int) == addr.port
            && match addr
               case IPv4(ip, _) => n == 7 && e[0] == 1 && e[1..5] == ip
               case IPv6(ip, _) => n == 19 && e[0] == 4 && e[1..17] == ip
               case Domain(name, _) =>
                 n >= 4 && e[0] == 3 && (e[1] as int) == n - 4 == Min(|name|, 255) && e[2..n - 2] == name[..n - 4]
  {
    hide ValidUtf8;
  }

  /** When a packet is undecided, byte by byte. */
  lemma {:induction false} PacketUndecidedExactly(buf: Bytes)
    ensures DecodePacket(buf).NeedMoreData? <==>
            || |buf| < 11
            || (&& buf[0] in {1, 3, 4}
                && var n := AddressEnd(buf);
                || |buf| < n
                || (&& (buf[0] == 3 ==> ValidUtf8(buf[2..2 + (buf[1] as int)]))
                    && (|| |buf| < n + 4
                        || (&& buf[n + 2] == 13 && buf[n + 3] == 10
                            && |buf| < n + 4 + 256 * (buf[n] as int) + (buf[n + 1] as int)))))
  {
    hide DecodeAddress, ValidUtf8;
    if |buf| >= 11 {
      AddressVerdict(buf);
      var d := DecodeAddress(buf);
      if d.Ok? {
        AddressLayout(buf, d.value, d.consumed);
      }
    }
  }

  lemma {:induction false} PacketStable(buf: Bytes, more: Bytes)
    requires !DecodePacket(buf).NeedMoreData?
    ensures DecodePacket(buf + more) == DecodePacket(buf)
  {
    hide DecodeAddress;
    AddressStable(buf, more);
    if DecodePacket(buf).Ok? {
      var n, t := DecodeAddress(buf).consumed, DecodePacket(buf).consumed;
      assert (buf + more)[n + 4..t] == buf[n + 4..t];
    }
  }

  /** Reading an encoded packet back gives the packet exactly when its name and its payload fit
      their length fields and the encoding is not shorter than the minimum. */
  lemma {:induction false} PacketRoundTripExactly(addr: Address, payload: Bytes)
    requires WellTyped(addr)
    ensures DecodePacket(EncodePacket(addr, payload)) == Ok(Packet(addr, payload), |EncodePacket(addr, payload)|) <==>
            && Fits(addr) && |payload| < 0x1_0000
            && |EncodePacket(addr, payload)| >= PACKET_MIN_SIZE
  {
    hide DecodeAddress, WellTyped, EncodePacket;
    var e := EncodePacket(addr, payload);
    PacketExactly(e, Packet(addr, payload), |e|);
  }
}
