/** The packets in a client's UDP stream, as a function of its bytes alone. */
module UdpFraming {
  import opened Bytes
  import opened Trojan

  const UDP_MAX_READ_BUFFER_SIZE: nat := 0x1_0000

  /** The packets that can be taken off the front, one after the other. */
  function Packets(s: Bytes): seq<Packet>
    decreases |s|
  {
    match DecodePacket(s)
    case Ok(p, n) => [p] + Packets(s[n..])
    case NeedMoreData => []
    case Invalid(_) => []
  }

  /** What is left behind them. */
  function Leftover(s: Bytes): Bytes
    decreases |s|
  {
    match DecodePacket(s)
    case Ok(_, n) => Leftover(s[n..])
    case NeedMoreData => s
    case Invalid(_) => s
  }

  /** The stream is out of sync behind its packets. */
  predicate OutOfSync(s: Bytes) {
    DecodePacket(Leftover(s)).Invalid?
  }

  lemma {:induction false} LeftoverIsStuck(s: Bytes)
    ensures !DecodePacket(Leftover(s)).Ok?
    ensures |Leftover(s)| <= |s|
    decreases |s|
  {
    hide DecodePacket;
    if DecodePacket(s).Ok? {
      LeftoverIsStuck(s[DecodePacket(s).consumed..]);
    }
  }

  /** Draining what has arrived and then the rest is the same as draining it all at once. */
  lemma {:induction false} DrainAppend(s: Bytes, more: Bytes)
    ensures Packets(s + more) == Packets(s) + Packets(Leftover(s) + more)
    ensures Leftover(s + more) == Leftover(Leftover(s) + more)
    decreases |s|
  {
    hide DecodePacket;
    match DecodePacket(s) {
      case Ok(p, n) =>
        PacketStable(s, more);
        assert (s + more)[n..] == s[n..] + more;
        DrainAppend(s[n..], more);
      case NeedMoreData =>
      case Invalid(_) =>
    }
  }

  /** Once out of sync, nothing that follows is ever framed again. */
  lemma {:induction false} OutOfSyncForGood(s: Bytes, more: Bytes)
    requires OutOfSync(s)
    ensures OutOfSync(s + more) && Packets(s + more) == Packets(s)
  {
    hide DecodePacket;
    DrainAppend(s, more);
    PacketStable(Leftover(s), more);
  }

  /** A client's packets, one encoding after the other. */
  function Stream(ps: seq<Packet>): Bytes {
    if ps == [] then [] else PacketBytes(ps[0]) + Stream(ps[1..])
  }

  predicate AllWellFormed(ps: seq<Packet>) {
    forall p :: p in ps ==> WellFormedPacket(p)
  }

  lemma {:induction false} StreamAtLeastLast(ps: seq<Packet>)
    requires ps != []
    ensures |Stream(ps)| >= |PacketBytes(ps[|ps| - 1])|
    decreases |ps|
  {
    hide PacketBytes;
    if |ps| > 1 {
      StreamAtLeastLast(ps[1..]);
    }
  }

  /** The last packet, if any, has the minimum size. */
  predicate EndsLongEnough(ps: seq<Packet>) {
    ps == [] || |PacketBytes(ps[|ps| - 1])| >= PACKET_MIN_SIZE
  }

  /** Taking the first packet off a stream of packets. */
  lemma {:induction false} FirstPacket(ps: seq<Packet>)
    requires ps != [] && AllWellFormed(ps)
    ensures |Stream(ps)| >= PACKET_MIN_SIZE ==>
              DecodePacket(Stream(ps)) == Ok(ps[0], |PacketBytes(ps[0])|)
    ensures |Stream(ps)| < PACKET_MIN_SIZE ==> DecodePacket(Stream(ps)).NeedMoreData?
    ensures Stream(ps)[|PacketBytes(ps[0])|..] == Stream(ps[1..])
  {
    hide WellFormedPacket, PacketBytes, DecodeAddress;
    assert ps[0] in ps;
    if |Stream(ps)| >= PACKET_MIN_SIZE {
      PacketRoundTrip(ps[0], Stream(ps[1..]));
    }
  }

  /** The stream of a packet list drains to exactly that list, with nothing left, if and only if
      the last packet has the minimum size: a shorter one is held back. */
  lemma {:induction false} EmittedExactly(ps: seq<Packet>)
    requires AllWellFormed(ps)
    ensures EndsLongEnough(ps) <==> Packets(Stream(ps)) == ps
    ensures EndsLongEnough(ps) ==> Leftover(Stream(ps)) == []
    ensures !OutOfSync(Stream(ps))
    decreases |ps|
  {
    hide WellFormedPacket, PacketBytes, DecodePacket, Packets, Leftover, OutOfSync, Stream;
    if ps == [] {
      NothingToDrain();
    } else {
      StreamAtLeastLast(ps);
      if |Stream(ps)| >= PACKET_MIN_SIZE {
        FirstDrained(ps);
        EmittedExactly(ps[1..]);
        assert ps == [ps[0]] + ps[1..];
        if |ps| == 1 {
          SinglePacket(ps[0]);
          assert ps == [ps[0]] && ps[1..] == [];
        }
      } else {
        HeldBack(ps);
      }
    }
  }

  lemma {:induction false} NothingToDrain()
    ensures Stream([]) == [] && Packets([]) == [] && Leftover([]) == [] && !OutOfSync([])
  {
    hide DecodePacket;
    EmptyDrains();
  }

  lemma {:induction false} FirstDrained(ps: seq<Packet>)
    requires ps != [] && AllWellFormed(ps) && |Stream(ps)| >= PACKET_MIN_SIZE
    ensures Packets(Stream(ps)) == [ps[0]] + Packets(Stream(ps[1..]))
    ensures Leftover(Stream(ps)) == Leftover(Stream(ps[1..])) && (OutOfSync(Stream(ps)) <==> OutOfSync(Stream(ps[1..])))
  {
    hide WellFormedPacket, PacketBytes, DecodePacket, Stream;
    FirstPacket(ps);
  }

  lemma {:induction false} HeldBack(ps: seq<Packet>)
    requires ps != [] && AllWellFormed(ps) && |Stream(ps)| < PACKET_MIN_SIZE
    ensures Packets(Stream(ps)) == [] && !OutOfSync(Stream(ps))
  {
    hide WellFormedPacket, PacketBytes, DecodePacket, Stream;
    FirstPacket(ps);
  }

  lemma {:induction false} EmptyDrains()
    ensures Packets([]) == [] && Leftover([]) == [] && !OutOfSync([])
  {
  }

  lemma {:induction false} SinglePacket(p: Packet)
    ensures Stream([p]) == PacketBytes(p)
  {
    assert Stream([p]) == PacketBytes(p) + Stream([]);
  }

  /** Every part of a stream of packets drains to some of the packets, in order, and what is left
      is shorter than the next one, or than the minimum size. */
  lemma {:induction false} PartOfStream(ps: seq<Packet>, k: nat)
    requires AllWellFormed(ps) && k <= |Stream(ps)|
    ensures var got := Packets(Stream(ps)[..k]);
            && got <= ps
            && !OutOfSync(Stream(ps)[..k])
            && (|Leftover(Stream(ps)[..k])| < PACKET_MIN_SIZE
                || (|got| < |ps| && |Leftover(Stream(ps)[..k])| < |PacketBytes(ps[|got|])|))
    decreases |ps|
  {
    hide WellFormedPacket, PacketBytes, DecodePacket;
    var part := Stream(ps)[..k];
    if ps == [] {
      EmptyDrains();
    } else {
      var n := |PacketBytes(ps[0])|;
      if k >= PACKET_MIN_SIZE && k >= n {
        FirstOfPart(ps, k);
        PartOfStream(ps[1..], k - n);
        assert part[n..] == Stream(ps[1..])[..k - n];
        assert ps == [ps[0]] + ps[1..];
      } else {
        PartialPacket(ps, k);
      }
    }
  }

  lemma {:induction false} FirstOfPart(ps: seq<Packet>, k: nat)
    requires ps != [] && AllWellFormed(ps) && PACKET_MIN_SIZE <= k <= |Stream(ps)| && |PacketBytes(ps[0])| <= k
    ensures DecodePacket(Stream(ps)[..k]) == Ok(ps[0], |PacketBytes(ps[0])|)
  {
    hide WellFormedPacket, PacketBytes, DecodeAddress;
    assert ps[0] in ps;
    PacketExactly(Stream(ps)[..k], ps[0], |PacketBytes(ps[0])|);
  }

  lemma {:induction false} PartialPacket(ps: seq<Packet>, k: nat)
    requires ps != [] && AllWellFormed(ps) && k <= |Stream(ps)|
    requires k < PACKET_MIN_SIZE || k < |PacketBytes(ps[0])|
    ensures DecodePacket(Stream(ps)[..k]).NeedMoreData?
  {
    hide WellFormedPacket, PacketBytes, DecodeAddress;
    if k >= PACKET_MIN_SIZE {
      var s := Stream(ps);
      FirstPacket(ps);
      assert s == s[..k] + s[k..];
      if !DecodePacket(s[..k]).NeedMoreData? {
        PacketStable(s[..k], s[k..]);
      }
    }
  }

  /** The read-buffer limit is out of reach for every way of cutting the stream exactly when no
      packet is longer than the limit. */
  lemma {:induction false} LimitExactly(ps: seq<Packet>)
    requires AllWellFormed(ps)
    ensures (forall p :: p in ps ==> |PacketBytes(p)| <= 65536) <==>
            (forall k | 0 <= k <= |Stream(ps)| :: |Leftover(Stream(ps)[..k])| < UDP_MAX_READ_BUFFER_SIZE)
  {
    hide WellFormedPacket, PacketBytes, Packets, Leftover, Stream, OutOfSync;
    if forall p :: p in ps ==> |PacketBytes(p)| <= UDP_MAX_READ_BUFFER_SIZE {
      forall k | 0 <= k <= |Stream(ps)|
        ensures |Leftover(Stream(ps)[..k])| < UDP_MAX_READ_BUFFER_SIZE
      {
        PartOfStream(ps, k);
      }
    } else {
      var p :| p in ps && |PacketBytes(p)| > UDP_MAX_READ_BUFFER_SIZE;
      var i :| 0 <= i < |ps| && ps[i] == p;
      var k := LongPacketFills(ps, i);
    }
  }

  /** When exactly the first 65536 bytes of a longer packet have arrived, the limit is reached. */
  lemma {:induction false} LongPacketFills(ps: seq<Packet>, i: nat) returns (k: nat)
    requires AllWellFormed(ps) && i < |ps| && |PacketBytes(ps[i])| > UDP_MAX_READ_BUFFER_SIZE
    ensures k <= |Stream(ps)|
    ensures |Leftover(Stream(ps)[..k])| == UDP_MAX_READ_BUFFER_SIZE
    decreases i
  {
    hide WellFormedPacket, PacketBytes, DecodePacket;
    if i == 0 {
      k := UDP_MAX_READ_BUFFER_SIZE;
      PartialPacket(ps, k);
    } else {
      var n := |PacketBytes(ps[0])|;
      var j := LongPacketFills(ps[1..], i - 1);
      k := n + j;
      var part := Stream(ps)[..k];
      LeftoverIsStuck(Stream(ps[1..])[..j]);
      assert part[n..] == Stream(ps[1..])[..j];
      FirstOfPart(ps, k);
    }
  }
}
