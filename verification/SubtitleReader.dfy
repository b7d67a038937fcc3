/** The subtitle packets found in a stream that arrives in pieces: reader_thread of lib/libdvbsub/dvbsub.cpp. */
module SubtitleReader {
  import opened Collections
  import opened Octets
  import opened BitStreams
  import opened BitFields
  import opened LengthFields

  // ----- what is to be found

  /** Where the first 00 00 01 starts, or the length of the stream if there is none. */
  function SyncAt(s: seq<byte>): (i: nat)
    ensures i <= |s|
  {
    if |s| < 3 then |s| else if s[..3] == [0, 0, 1] then 0 else 1 + SyncAt(s[1..])
  }

  /** No start code before it, and one at it if there is any. */
  lemma {:induction false} SyncIsFirst(s: seq<byte>, k: nat)
    requires k + 3 <= |s| && k < SyncAt(s)
    ensures s[k..k + 3] != [0, 0, 1]
  {
    if k > 0 {
      SyncIsFirst(s[1..], k - 1);
      assert s[k..k + 3] == s[1..][k - 1..k + 2];
    }
  }

  lemma {:induction false} SyncIsThere(s: seq<byte>)
    requires SyncAt(s) < |s|
    ensures SyncAt(s) + 3 <= |s| && s[SyncAt(s)..SyncAt(s) + 3] == [0, 0, 1]
  {
    if s[..3] != [0, 0, 1] {
      SyncIsThere(s[1..]);
      var k := SyncAt(s[1..]);
      assert s[k + 1..k + 4] == s[1..][k..k + 3];
    }
  }

  /** The length a packet header gives, with the header. */
  function PacketLength(s: seq<byte>): nat
    requires |s| >= 6
  {
    s[4] as nat * 256 + s[5] as nat + 6
  }

  const LONGEST: nat := 65535

  /** The packets of a stream, and whether one was met that is too long for a 16-bit length. */
  datatype Scan = Scan(packets: seq<seq<byte>>, tooLong: bool)

  /** One packet after the other, each from the next start code on; what comes behind a packet too long is not looked at. */
  function Packets(s: seq<byte>): Scan
    decreases |s|
  {
    var t := s[SyncAt(s)..];
    if |t| < 6 then Scan([], false)
    else if PacketLength(t) > LONGEST then Scan([], true)
    else if PacketLength(t) > |t| then Scan([], false)
    else
      var rest := Packets(t[PacketLength(t)..]);
      Scan([t[..PacketLength(t)]] + rest.packets, rest.tooLong)
  }

  // ----- the device

  /** What is still to arrive, in pieces that come one at a time; an empty piece is a read that times out. */
  class Demux {
    var chunks: seq<seq<byte>>

    constructor (chunks: seq<seq<byte>>)
      ensures this.chunks == chunks
    {
      this.chunks := chunks;
    }

    ghost function Rest(): seq<byte>
      reads this
    {
      Concat(chunks)
    }

    /** All the bytes and all the timeouts to come. */
    ghost function Work(): nat
      reads this
    {
      |chunks| + |Concat(chunks)|
    }

    /** What a read of at most n bytes gets. */
    method Arrive(n: nat) returns (piece: seq<byte>, paused: bool)
      requires n > 0
      modifies this
      ensures |piece| <= n && old(Rest()) == piece + Rest()
      ensures paused <==> old(chunks) == []
      ensures if paused then piece == [] && Rest() == [] && Work() == old(Work()) else Work() < old(Work())
    {
      if chunks == [] {
        return [], true;
      }
      var chunk, later := chunks[0], chunks[1..];
      ConcatFirst(chunks);
      ConcatFirst([chunk[if |chunk| <= n then |chunk| else n..]] + later);
      if |chunk| <= n {
        chunks := later;
        return chunk, false;
      }
      chunks := [chunk[n..]] + later;
      assert chunks[1..] == later && chunk == chunk[..n] + chunk[n..];
      assert chunk + Concat(later) == chunk[..n] + (chunk[n..] + Concat(later));
      return chunk[..n], false;
    }

    /** A read of at most n bytes: as many as have arrived. Once everything has arrived, reading is paused. */
    method Read(a: array<byte>, at: nat, n: nat) returns (len: nat, paused: bool)
      requires at + n <= a.Length && n > 0
      modifies this, a
      ensures len <= n && len <= |old(Rest())|
      ensures a[..at + len] == old(a[..at]) + old(Rest())[..len] && a[at + len..] == old(a[at + len..])
      ensures Rest() == old(Rest())[len..]
      ensures if paused then len == 0 && Rest() == [] && Work() == old(Work()) else Work() < old(Work())
    {
      hide Concat;
      var piece;
      piece, paused := Arrive(n);
      len := |piece|;
      ghost var left := chunks;
      var k := 0;
      while k < len
        invariant 0 <= k <= len && chunks == left
        invariant forall i :: 0 <= i < a.Length ==> a[i] == if at <= i < at + k then piece[i - at] else old(a[i])
      {
        a[at + k] := piece[k];
        k := k + 1;
      }
      assert a[..at + len] == old(a[..at]) + piece;
      assert old(Rest())[..len] == piece && old(Rest())[len..] == Rest();
    }
  }

  /** Reads on until n bytes of the buffer are filled, or reading is paused. */
  method Fill(dmx: Demux, buf: array<byte>, from: nat, n: nat) returns (count: nat)
    requires from <= n <= buf.Length
    modifies dmx, buf
    ensures count <= n && (count < n ==> dmx.Rest() == [] && |old(dmx.Rest())| < n - from)
    ensures count == n ==> n - from <= |old(dmx.Rest())| && dmx.Rest() == old(dmx.Rest())[n - from..]
    ensures count == n ==> buf[..n] == old(buf[..from]) + old(dmx.Rest())[..n - from]
    ensures dmx.Work() <= old(dmx.Work()) && (count == n > from ==> dmx.Work() < old(dmx.Work()))
  {
    hide Concat;
    count := from;
    ghost var s := dmx.Rest();
    while count < n
      invariant from <= count <= n && count - from <= |s|
      invariant buf[..count] == old(buf[..from]) + s[..count - from] && dmx.Rest() == s[count - from..]
      invariant dmx.Work() <= old(dmx.Work()) && (count > from ==> dmx.Work() < old(dmx.Work()))
      decreases dmx.Work()
    {
      ghost var had := count;
      var len, paused := dmx.Read(buf, count, n - count);
      if paused {
        return;
      }
      count := count + len;
      assert s[..count - from] == s[..had - from] + s[had - from..][..len];
    }
  }

  lemma SyncSkips(s: seq<byte>)
    requires |s| >= 3 && s[..3] != [0, 0, 1]
    ensures SyncAt(s) == 1 + SyncAt(s[1..]) && s[SyncAt(s)..] == s[1..][SyncAt(s[1..])..]
  {
  }

  lemma SyncFound(s: seq<byte>)
    requires |s| >= 3 && s[..3] == [0, 0, 1]
    ensures SyncAt(s) == 0 && s[SyncAt(s)..] == s
  {
  }

  /** A read behind what is there already: nothing is lost between the window and what is still to arrive. */
  method ReadBehind(dmx: Demux, tmp: array<byte>, count: nat, n: nat) returns (len: nat, paused: bool)
    requires count + n <= tmp.Length && n > 0
    modifies dmx, tmp
    ensures len <= n && tmp[..count + len] + dmx.Rest() == old(tmp[..count] + dmx.Rest())
    ensures if paused then len == 0 && dmx.Rest() == [] && dmx.Work() == old(dmx.Work()) else dmx.Work() < old(dmx.Work())
  {
    hide Concat;
    ghost var s := dmx.Rest();
    len, paused := dmx.Read(tmp, count, n);
    assert s == s[..len] + s[len..];
  }

  /** The last two of three bytes are kept. */
  method MoveUp(tmp: array<byte>)
    requires tmp.Length == 16
    modifies tmp
    ensures tmp[..2] == old(tmp[..3])[1..]
  {
    tmp[0], tmp[1] := tmp[1], tmp[2];
  }

  method AtStart(tmp: array<byte>) returns (b: bool)
    requires tmp.Length == 16
    ensures b <==> tmp[..3] == [0, 0, 1]
  {
    assert tmp[..3] == [tmp[0], tmp[1], tmp[2]];
    b := tmp[0] == 0 && tmp[1] == 0 && tmp[2] == 1;
  }

  /** The loop that waits for a start code: the last three bytes are looked at, one byte later each time. */
  method Sync(dmx: Demux, tmp: array<byte>) returns (found: bool)
    requires tmp.Length == 16
    modifies dmx, tmp
    ensures var s := old(dmx.Rest()); var t := s[SyncAt(s)..];
      if found then |t| >= 3 && tmp[..3] == t[..3] && dmx.Rest() == t[3..] else |t| < 3 && dmx.Rest() == []
    ensures dmx.Work() <= old(dmx.Work()) && (found ==> dmx.Work() < old(dmx.Work()))
  {
    hide Concat, SyncAt;
    ghost var s := dmx.Rest();
    ghost var goal := s[SyncAt(s)..];
    var count := 0;
    assert tmp[..0] + dmx.Rest() == s;
    while true
      invariant 0 <= count < 3
      invariant var p := tmp[..count] + dmx.Rest(); p[SyncAt(p)..] == goal
      invariant dmx.Work() <= old(dmx.Work())
      decreases dmx.Work()
    {
      ghost var p := tmp[..count] + dmx.Rest();
      var len, paused := ReadBehind(dmx, tmp, count, 3 - count);
      if paused {
        assert p == tmp[..count];
        return false;
      }
      if len == 3 - count {
        ghost var window := tmp[..3];
        assert p[..3] == window;
        var start := AtStart(tmp);
        if start {
          SyncFound(p);
          return true;
        }
        SyncSkips(p);
        MoveUp(tmp);
        count := 2;
        assert window[1..] + dmx.Rest() == p[1..];
      } else {
        count := count + len;
      }
    }
  }

  lemma LengthField(tmp: seq<byte>)
    requires |tmp| == 16
    ensures Number(Bits(tmp)[32..48]) == tmp[4] as nat * 256 + tmp[5] as nat
  {
    hide Bits, Number;
    BitsWithin(tmp, 4, 2);
    assert tmp[4..6] == [tmp[4]] + [tmp[5]];
    BitsConcat([tmp[4]], [tmp[5]]);
    OneByte(tmp[4]);
    OneByte(tmp[5]);
    NumberConcat(Bits([tmp[4]]), Bits([tmp[5]]));
    SmallPowers();
  }

  /** Three bytes of start code, the stream number and the length. */
  method ReadHeader(dmx: Demux, tmp: array<byte>) returns (complete: bool)
    requires tmp.Length == 16
    modifies dmx, tmp
    ensures var s := old(dmx.Rest()); var t := s[SyncAt(s)..];
      if complete then |t| >= 6 && tmp[..6] == t[..6] && dmx.Rest() == t[6..] else |t| < 6
    ensures dmx.Work() <= old(dmx.Work()) && (complete ==> dmx.Work() < old(dmx.Work()))
  {
    hide Concat, SyncAt;
    ghost var s := dmx.Rest();
    ghost var t := s[SyncAt(s)..];
    var found := Sync(dmx, tmp);
    if !found {
      return false;
    }
    var count := Fill(dmx, tmp, 3, 6);
    complete := count == 6;
    assert complete ==> t[..6] == t[..3] + t[3..][..3] && t[3..][3..] == t[6..];
  }

  /** The rest of a packet, behind the header that is already there. */
  method ReadBody(dmx: Demux, tmp: array<byte>, packlen: nat, ghost t: seq<byte>) returns (complete: bool, packet: seq<byte>)
    requires tmp.Length == 16 && packlen >= 6 && |t| >= 6 && tmp[..6] == t[..6] && dmx.Rest() == t[6..]
    modifies dmx
    ensures if complete then packlen <= |t| && packet == t[..packlen] && dmx.Rest() == t[packlen..] else |t| < packlen
    ensures dmx.Work() <= old(dmx.Work())
  {
    hide Concat;
    var buf := new byte[packlen];
    forall i | 0 <= i < 6 {
      buf[i] := tmp[i];
    }
    assert buf[..6] == tmp[..6];
    var count := Fill(dmx, buf, 6, packlen);
    if count < packlen {
      return false, [];
    }
    assert t[..packlen] == t[..6] + t[6..][..packlen - 6] && t[6..][packlen - 6..] == t[packlen..];
    return true, buf[..packlen];
  }

  /** What one turn of the reader comes to. */
  datatype Turn = Paused | TooLong | Packet(bytes: seq<byte>)

  function AfterTurn(turn: Turn, rest: seq<byte>): Scan {
    match turn
    case Paused => Scan([], false)
    case TooLong => Scan([], true)
    case Packet(bytes) => Scan([bytes] + Packets(rest).packets, Packets(rest).tooLong)
  }

  lemma PacketsStep(s: seq<byte>, t: seq<byte>)
    requires t == s[SyncAt(s)..]
    ensures |t| < 6 ==> Packets(s) == AfterTurn(Paused, [])
    ensures |t| >= 6 && PacketLength(t) > LONGEST ==> Packets(s) == AfterTurn(TooLong, [])
    ensures |t| >= 6 && |t| < PacketLength(t) <= LONGEST ==> Packets(s) == AfterTurn(Paused, [])
    ensures |t| >= 6 && PacketLength(t) <= LONGEST && PacketLength(t) <= |t| ==>
      Packets(s) == AfterTurn(Packet(t[..PacketLength(t)]), t[PacketLength(t)..])
  {
    hide SyncAt;
  }

  lemma Wrapped(value: nat)
    requires value < 65536
    ensures (value + 6) % 65536 == if value + 6 > LONGEST then value + 6 - 65536 else value + 6
  {
  }

  lemma TurnIgnoresRest(turn: Turn, rest: seq<byte>)
    ensures !turn.Packet? ==> AfterTurn(turn, rest) == AfterTurn(turn, [])
  {
  }

  /** One turn: a packet from the next start code on. A length that wraps in 16 bits leaves no room for the header. */
  method ReadPacket(dmx: Demux, tmp: array<byte>) returns (turn: Turn)
    requires tmp.Length == 16
    modifies dmx, tmp
    ensures Packets(old(dmx.Rest())) == AfterTurn(turn, dmx.Rest())
    ensures dmx.Work() <= old(dmx.Work()) && (turn.Packet? ==> dmx.Work() < old(dmx.Work()))
  {
    hide Concat, SyncAt, Bits, Number, Packets, AfterTurn;
    ghost var s := dmx.Rest();
    ghost var t := s[SyncAt(s)..];
    PacketsStep(s, t);
    var complete := ReadHeader(dmx, tmp);
    if !complete {
      TurnIgnoresRest(Paused, dmx.Rest());
      return Paused;
    }
    assert tmp[4] == tmp[..6][4] && tmp[5] == tmp[..6][5] && tmp[..][4] == tmp[4] && tmp[..][5] == tmp[5];
    var value := GetBits(tmp[..], 4 * 8, 16);
    LengthField(tmp[..]);
    assert value + 6 == PacketLength(t);
    Wrapped(value);
    var packlen := (value + 6) % 65536;
    if packlen < 6 {
      TurnIgnoresRest(TooLong, dmx.Rest());
      return TooLong;
    }
    var packet;
    complete, packet := ReadBody(dmx, tmp, packlen, t);
    TurnIgnoresRest(Paused, dmx.Rest());
    return if complete then Packet(packet) else Paused;
  }

  /** The reader, while it is not paused: the packets it queues are those of the stream, whatever the pieces it comes in. */
  method ReaderThread(dmx: Demux) returns (queue: seq<seq<byte>>, overrun: bool)
    modifies dmx
    ensures Scan(queue, overrun) == Packets(old(dmx.Rest()))
  {
    hide Concat, Packets;
    var tmp := new byte[16];
    queue := [];
    ghost var all := Packets(dmx.Rest());
    while true
      invariant all == Scan(queue + Packets(dmx.Rest()).packets, Packets(dmx.Rest()).tooLong)
      decreases dmx.Work()
    {
      var turn := ReadPacket(dmx, tmp);
      match turn {
        case Paused =>
          assert queue + [] == queue;
          return queue, false;
        case TooLong =>
          assert queue + [] == queue;
          return queue, true;
        case Packet(bytes) =>
          assert queue + ([bytes] + Packets(dmx.Rest()).packets) == queue + [bytes] + Packets(dmx.Rest()).packets;
          queue := queue + [bytes];
      }
    }
  }

  // ----- packets as they are sent

  predicate StartAt(s: seq<byte>, k: nat) {
    k + 3 <= |s| && s[k] == 0 && s[k + 1] == 0 && s[k + 2] == 1
  }

  /** In front of a start code none begins in these bytes. */
  predicate NoStartIn(junk: seq<byte>) {
    forall k :: 0 <= k < |junk| ==> !StartAt(junk + [0, 0, 1], k)
  }

  /** A packet of ISO/IEC 13818-1 section 2.4.3.6, and bytes in front of it in which no start code begins. */
  datatype Sent = Sent(junk: seq<byte>, stream: byte, body: seq<byte>) {
    predicate Valid() {
      |body| <= LONGEST - 6 && NoStartIn(junk)
    }

    function Packet(): seq<byte> {
      [0, 0, 1, stream] + BigEndian(2, |body|) + body
    }
  }

  function StreamOf(list: seq<Sent>): seq<byte> {
    if list == [] then [] else list[0].junk + (list[0].Packet() + StreamOf(list[1..]))
  }

  function PacketsOf(list: seq<Sent>): seq<seq<byte>> {
    if list == [] then [] else [list[0].Packet()] + PacketsOf(list[1..])
  }

  lemma {:induction false} SyncBehind(junk: seq<byte>, rest: seq<byte>)
    requires |rest| >= 3 && rest[..3] == [0, 0, 1]
    requires NoStartIn(junk)
    ensures SyncAt(junk + rest) == |junk|
  {
    var s := junk + rest;
    if junk == [] {
      assert s == rest;
    } else {
      var marked, tail := junk + [0, 0, 1], junk[1..] + [0, 0, 1];
      assert rest[0] == rest[..3][0] && rest[1] == rest[..3][1] && rest[2] == rest[..3][2];
      assert !StartAt(marked, 0);
      assert s[0] == marked[0] && s[1] == marked[1] && s[2] == marked[2];
      assert s[..3] != [0, 0, 1] by {
        assert s[..3][0] == s[0] && s[..3][1] == s[1] && s[..3][2] == s[2];
      }
      assert s[1..] == junk[1..] + rest && marked[1..] == tail;
      assert forall k :: 0 <= k < |junk| - 1 && StartAt(tail, k) ==> StartAt(marked, k + 1);
      SyncBehind(junk[1..], rest);
    }
  }

  lemma PacketIsWhole(s: Sent, rest: seq<byte>)
    requires s.Valid()
    ensures var t := s.Packet() + rest;
      && |t| >= 6 && t[..3] == [0, 0, 1] && PacketLength(t) == |s.Packet()| <= LONGEST
      && t[..|s.Packet()|] == s.Packet() && t[|s.Packet()|..] == rest
  {
    var n := |s.body|;
    assert BigEndian(1, n / 256) == [] + [(n / 256 % 256) as byte];
    assert BigEndian(2, n) == [(n / 256) as byte, (n % 256) as byte];
  }

  /** The packets queued are those that were sent, whatever lies between them. */
  lemma {:induction false} PacketsBack(list: seq<Sent>)
    requires forall s :: s in list ==> s.Valid()
    ensures Packets(StreamOf(list)) == Scan(PacketsOf(list), false)
  {
    if list != [] {
      hide Packets, Sent.Packet, SyncAt, PacketLength, Sent.Valid;
      var first, rest := list[0], StreamOf(list[1..]);
      var t := first.Packet() + rest;
      PacketIsWhole(first, rest);
      assert NoStartIn(first.junk) by { ValidParts(first); }
      SyncBehind(first.junk, t);
      assert (first.junk + t)[|first.junk|..] == t;
      PacketsStep(first.junk + t, t);
      PacketsBack(list[1..]);
    }
  }

  lemma ValidParts(s: Sent)
    requires s.Valid()
    ensures NoStartIn(s.junk)
  {
  }
}
