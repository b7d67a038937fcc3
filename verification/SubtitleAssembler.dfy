/** Segments put together from fragments: cDvbSubtitleAssembler of lib/libdvbsub/dvbsubtitle.cpp. */
module SubtitleAssembler {
  import opened Collections
  import opened Octets
  import opened LengthFields

  const HEADER: nat := 6

  /** The length of the segment that starts with these bytes, header included. */
  function SegmentLength(s: seq<byte>): (n: nat)
    requires |s| >= HEADER
    ensures n >= HEADER
  {
    s[4] as nat * 256 + s[5] as nat + HEADER
  }

  predicate Complete(s: seq<byte>) {
    |s| >= HEADER && |s| >= SegmentLength(s)
  }

  /** The segments of a stream, one behind the other, as far as they are complete. */
  function Segments(s: seq<byte>): seq<seq<byte>>
    decreases |s|
  {
    if !Complete(s) then [] else [s[..SegmentLength(s)]] + Segments(s[SegmentLength(s)..])
  }

  predicate Whole(s: seq<byte>) {
    |s| >= HEADER && |s| == SegmentLength(s)
  }

  lemma FirstSegment(p: seq<byte>, rest: seq<byte>)
    requires Whole(p)
    ensures Segments(p + rest) == [p] + Segments(rest)
  {
    var s := p + rest;
    assert SegmentLength(s) == |p| && s[..|p|] == p && s[|p|..] == rest;
  }

  /** Whole segments in front are the first segments of a stream, whatever is behind them. */
  lemma {:induction false} SegmentsBehind(parts: seq<seq<byte>>, rest: seq<byte>)
    requires forall p :: p in parts ==> Whole(p)
    ensures Segments(Concat(parts) + rest) == parts + Segments(rest)
  {
    hide Segments, Whole;
    if parts == [] {
      assert [] + rest == rest;
    } else {
      ConcatFirst(parts);
      FirstSegment(parts[0], Concat(parts[1..]) + rest);
      assert Concat(parts) + rest == parts[0] + (Concat(parts[1..]) + rest);
      SegmentsBehind(parts[1..], rest);
      assert parts == [parts[0]] + parts[1..];
      assert parts + Segments(rest) == [parts[0]] + (parts[1..] + Segments(rest));
    }
  }

  class Assembler {
    var data: array<byte>
    var length: nat
    var pos: nat
    /** What Get has returned since the last reset. */
    ghost var returned: seq<seq<byte>>

    ghost predicate Valid()
      reads this, data
    {
      && pos <= length <= data.Length
      && (forall s :: s in returned ==> Whole(s))
      && data[..pos] == Concat(returned)
    }

    /** All that was put in since the last reset. */
    ghost function Stream(): seq<byte>
      requires Valid()
      reads this, data
    {
      data[..length]
    }

    constructor ()
      ensures Valid() && Stream() == [] && returned == [] && fresh(data)
    {
      data := new byte[0];
      length, pos, returned := 0, 0, [];
    }

    method Reset()
      requires Valid()
      modifies this
      ensures Valid() && Stream() == [] && returned == [] && data == old(data)
    {
      length, pos, returned := 0, 0, [];
    }

    /** Realloc: room for size bytes, at least 2048 of them if there has to be more; what is there stays. */
    method Realloc(size: nat)
      requires Valid()
      modifies this`data
      ensures Valid() && data.Length >= size && Stream() == old(Stream())
      ensures data == old(data) || fresh(data)
      ensures data.Length == if size <= old(data.Length) then old(data.Length) else if size > 2048 then size else 2048
    {
      if size > data.Length {
        var more := new byte[if size > 2048 then size else 2048];
        var i := 0;
        while i < length
          invariant 0 <= i <= length && more[..i] == data[..i]
          modifies more
        {
          more[i] := data[i];
          i := i + 1;
        }
        assert more[..length] == data[..length];
        assert more[..pos] == more[..length][..pos] == data[..length][..pos] == data[..pos];
        data := more;
      }
    }

    /** Put: a fragment goes behind what is there. */
    method Put(fragment: seq<byte>)
      requires Valid()
      modifies this, data
      ensures Valid() && Stream() == old(Stream()) + fragment && returned == old(returned) && pos == old(pos)
      ensures data == old(data) || fresh(data)
    {
      if |fragment| > 0 {
        Realloc(length + |fragment|);
        ghost var before := data[..length];
        Memcpy(data, length, fragment);
        assert data[..length + |fragment|] == before + fragment;
        assert data[..pos] == before[..pos];
        length := length + |fragment|;
      }
    }

    /** Get: the next segment, once all of it is there. */
    method Get() returns (segment: Option<seq<byte>>)
      requires Valid()
      modifies `pos, `returned
      ensures Valid() && Stream() == old(Stream())
      ensures segment.None? ==> returned == old(returned) && pos == old(pos) && Segments(Stream()[pos..]) == []
      ensures segment.Some? ==> Whole(segment.value) && returned == old(returned) + [segment.value] && pos >= old(pos) + HEADER
    {
      segment := None;
      ghost var rest := data[pos..length];
      assert Stream()[pos..] == rest;
      if length > pos + 5 {
        var n := data[pos + 4] as nat * 256 + data[pos + 5] as nat + 6;
        assert rest[4] == data[pos + 4] && rest[5] == data[pos + 5];
        if length >= pos + n {
          var result := data[pos..pos + n];
          segment := Some(result);
          ConcatLast(returned, result);
          assert data[..pos + n] == data[..pos] + result;
          pos, returned := pos + n, returned + [result];
        }
      }
    }

    /** The segments returned so far and those still to come are always the segments of everything put in. */
    lemma NothingLost()
      requires Valid()
      ensures Segments(Stream()) == returned + Segments(Stream()[pos..])
    {
      assert Stream() == data[..pos] + Stream()[pos..];
      SegmentsBehind(returned, Stream()[pos..]);
    }

    /** The loop of ConvertFragments: segments are handed on until there is none, one does not start with the sync byte,
        or one is refused. */
    method Drain() returns (handed: seq<seq<byte>>, stopped: bool)
      requires Valid()
      modifies `pos, `returned
      ensures Valid() && Stream() == old(Stream())
      ensures old(returned) + handed <= returned && forall s :: s in handed ==> Whole(s) && s[0] == 0x0f
      ensures !stopped ==> returned == old(returned) + handed == Segments(Stream())
    {
      handed, stopped := [], false;
      assert old(returned) + [] == returned;
      while true
        invariant Valid() && pos <= length && Stream() == old(Stream())
        invariant returned == old(returned) + handed && forall s :: s in handed ==> Whole(s) && s[0] == 0x0f
        decreases length - pos
      {
        var segment := Get();
        if segment.None? {
          NothingLost();
          return;
        }
        if segment.value[0] != 0x0f {
          return handed, true;
        }
        handed := handed + [segment.value];
        var refused := *;
        if refused {
          return handed, true;
        }
      }
    }
  }

  // ----- segments as they are sent

  /** A segment of ETSI EN 300 743 section 7.2: the sync byte, its type, the page it is for, its length and its fields. */
  datatype Segment = Segment(kind: byte, page: nat, body: seq<byte>) {
    predicate Valid() {
      page < 0x1_0000 && |body| < 0x1_0000
    }

    function Bytes(): seq<byte> {
      [0x0f, kind] + BigEndian(2, page) + BigEndian(2, |body|) + body
    }
  }

  lemma TwoBytes(v: nat)
    requires v < 0x1_0000
    ensures BigEndian(2, v) == [(v / 256) as byte, (v % 256) as byte]
  {
    assert BigEndian(1, v / 256) == [] + [(v / 256 % 256) as byte];
  }

  lemma SegmentIsWhole(s: Segment)
    requires s.Valid()
    ensures Whole(s.Bytes()) && s.Bytes()[0] == 0x0f
  {
    TwoBytes(s.page);
    TwoBytes(|s.body|);
  }

  function AllBytes(list: seq<Segment>): (parts: seq<seq<byte>>)
    ensures |parts| == |list| && forall i :: 0 <= i < |list| ==> parts[i] == list[i].Bytes()
  {
    seq(|list|, i requires 0 <= i < |list| => list[i].Bytes())
  }

  /** Segments sent one behind the other are the segments of the stream. */
  lemma SegmentsBack(list: seq<Segment>)
    requires forall s :: s in list ==> s.Valid()
    ensures Segments(Concat(AllBytes(list))) == AllBytes(list)
  {
    hide Concat, Whole, Segments;
    var parts := AllBytes(list);
    forall i | 0 <= i < |list|
      ensures Whole(parts[i])
    {
      SegmentIsWhole(list[i]);
    }
    SegmentsBehind(parts, []);
    NoSegments();
    assert Concat(parts) + [] == Concat(parts) && parts + [] == parts;
  }

  lemma NoSegments()
    ensures Segments([]) == []
  {
  }

  /** What ConvertFragments puts in of the data of a packet: nothing of three bytes or less, and the data identifier and the
      stream number in front of the first segment are left out. */
  function Kept(data: seq<byte>): seq<byte> {
    if |data| <= 3 then [] else if data[..3] == [0x20, 0x00, 0x0f] then data[2..] else data
  }

  /** ConvertFragments, for the data of one packet. */
  method ConvertFragment(assembler: Assembler, data: seq<byte>) returns (handed: seq<seq<byte>>, stopped: bool)
    requires assembler.Valid()
    modifies assembler, assembler.data
    ensures assembler.Valid() && (assembler.data == old(assembler.data) || fresh(assembler.data))
    ensures assembler.Stream() == old(assembler.Stream()) + Kept(data)
    ensures !stopped && (|data| > 3 || old(assembler.returned) == Segments(old(assembler.Stream()))) ==>
      assembler.returned == old(assembler.returned) + handed == Segments(assembler.Stream())
  {
    hide Segments;
    handed, stopped := [], false;
    assert assembler.Stream() + [] == assembler.Stream();
    assert assembler.returned + [] == assembler.returned;
    if |data| > 3 {
      if data[0] == 0x20 && data[1] == 0x00 && data[2] == 0x0f {
        assembler.Put(data[2..]);
      } else {
        assembler.Put(data);
      }
      handed, stopped := assembler.Drain();
    }
  }

  function AllKept(packets: seq<seq<byte>>): seq<byte> {
    if packets == [] then [] else AllKept(packets[..|packets| - 1]) + Kept(packets[|packets| - 1])
  }

  /** The segments of packet after packet: when no segment is refused, those handed on are exactly the segments that were
      sent, however the packets cut them. */
  method ConvertPackets(packets: seq<seq<byte>>, ghost list: seq<Segment>) returns (handed: seq<seq<byte>>, stopped: bool)
    requires (forall s :: s in list ==> s.Valid()) && AllKept(packets) == Concat(AllBytes(list))
    ensures !stopped ==> handed == AllBytes(list)
  {
    hide Segments, Kept, Concat;
    var assembler := new Assembler();
    handed, stopped := [], false;
    NoSegments();
    var i := 0;
    while i < |packets|
      invariant 0 <= i <= |packets| && assembler.Valid() && fresh(assembler) && fresh(assembler.data)
      invariant assembler.Stream() == AllKept(packets[..i])
      invariant assembler.returned == handed == Segments(assembler.Stream())
    {
      var more;
      more, stopped := ConvertFragment(assembler, packets[i]);
      if stopped {
        return;
      }
      assert packets[..i + 1][..i] == packets[..i];
      handed := handed + more;
      i := i + 1;
    }
    assert packets[..|packets|] == packets;
    SegmentsBack(list);
  }

  /** The data of a packet is put in as it is exactly when it is empty or has more than three bytes and does not start with
      what stands in front of the first segment. */
  lemma KeptExactly(data: seq<byte>)
    ensures Kept(data) == data <==> data == [] || (|data| > 3 && data[..3] != [0x20, 0x00, 0x0f])
  {
  }

  lemma FirstPacket(data: seq<byte>)
    requires |data| >= 2 && data[0] == 0x0f
    ensures Kept([0x20, 0x00] + data) == data
  {
  }
}
