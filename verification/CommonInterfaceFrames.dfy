/** The bytes of a DVB common interface link, EN 50221: transport units, session units and application units. */
module CommonInterfaceFrames {
  import opened Collections
  import opened Octets
  import opened LengthFields

  const T_DATA_LAST: byte := 0xa0
  const T_DATA_MORE: byte := 0xa1

  const SESSION_DATA: byte := 0x90
  const OPEN_SESSION_REQUEST: byte := 0x91
  const OPEN_SESSION_RESPONSE: byte := 0x92
  const CREATE_SESSION_RESPONSE: byte := 0x94
  const CLOSE_SESSION_REQUEST: byte := 0x95
  const CLOSE_SESSION_RESPONSE: byte := 0x96

  // ----- application units

  datatype Apdu = Apdu(tag: seq<byte>, body: seq<byte>)

  predicate Buildable(a: Apdu) {
    |a.tag| == 3 && Built(|a.body|).Some?
  }

  /** The bytes sendAPDU puts behind the session header. */
  function ApduBytes(a: Apdu): (s: seq<byte>)
    requires Buildable(a)
    ensures |s| >= 4
  {
    a.tag + Built(|a.body|).value + a.body
  }

  function ApdusBytes(list: seq<Apdu>): seq<byte>
    requires forall a :: a in list ==> Buildable(a)
  {
    if list == [] then [] else ApduBytes(list[0]) + ApdusBytes(list[1..])
  }

  /** The length taken for an application unit with len bytes behind its length field: one or two bytes that would be left
      over are taken as part of it. */
  function TakenLength(alen: int, len: nat): int {
    if 0 < len - alen < 3 then len else alen
  }

  /** The source takes the difference in unsigned 32-bit words, which comes to the same. */
  lemma TakenInWords(word: nat, len: nat)
    requires word < TWO32 && len < 0x8000_0000
    ensures 0 < (len - word) % TWO32 < 3 <==> 0 < len - Signed(word) < 3
  {
    var x := len - word;
    assert x % TWO32 == if x < 0 then x + TWO32 else x;
  }

  /** The first application unit in some bytes and what is behind it; None where the program leaves these bytes, behind
      their end or, with a length that is negative, in front of the place it has reached. */
  function FirstApdu(s: seq<byte>): (r: Option<(Apdu, seq<byte>)>)
    ensures r.Some? ==> |r.value.1| < |s|
  {
    if |s| < 3 || Decoded(s[3..]).None? then None
    else
      var f := Decoded(s[3..]).value;
      var rest := s[3 + f.size..];
      var alen := TakenLength(Signed(f.length), |rest|);
      if 0 <= alen <= |rest| then Some((Apdu(s[..3], rest[..alen]), rest[alen..])) else None
  }

  /** The application units in some bytes, up to the first that is not inside them. */
  function Apdus(s: seq<byte>): seq<Apdu>
    decreases |s|
  {
    var r := FirstApdu(s);
    if s == [] || r.None? then [] else [r.value.0] + Apdus(r.value.1)
  }

  /** Bytes that are application units and nothing else. */
  predicate AllApdus(s: seq<byte>)
    decreases |s|
  {
    s == [] || (FirstApdu(s).Some? && AllApdus(FirstApdu(s).value.1))
  }

  /** An application unit as it stands in some bytes, with whatever form its length field has. */
  datatype Framed = Framed(tag: seq<byte>, field: seq<byte>, body: seq<byte>) {
    function Bytes(): seq<byte> { tag + field + body }

    /** The length field says how long the body is; that of the last unit may say one or two bytes less. */
    predicate Fits(last: bool) {
      && |tag| == 3 && Decoded(field).Some? && Decoded(field).value.size == |field|
      && var short := |body| - Signed(Decoded(field).value.length); short == 0 || (last && 0 < short < 3)
    }
  }

  /** Units side by side. */
  predicate SideBySide(us: seq<Framed>, s: seq<byte>)
    decreases |us|
  {
    if us == [] then s == []
    else us[0].Fits(|us| == 1) && us[0].Bytes() <= s && SideBySide(us[1..], s[|us[0].Bytes()|..])
  }

  lemma DecodedOfField(s: seq<byte>)
    requires Decoded(s).Some?
    ensures var n := Decoded(s).value.size; Decoded(s[..n]) == Decoded(s)
  {
    var n := Decoded(s).value.size;
    assert s[..n][1..n] == s[1..n];
  }

  lemma DecodedOfMore(field: seq<byte>, rest: seq<byte>)
    requires Decoded(field).Some? && Decoded(field).value.size == |field|
    ensures Decoded(field + rest) == Decoded(field)
  {
    assert (field + rest)[1..|field|] == field[1..|field|];
  }

  lemma FirstFramed(s: seq<byte>) returns (u: Framed)
    requires FirstApdu(s).Some?
    ensures u.Bytes() + FirstApdu(s).value.1 == s && u.Fits(FirstApdu(s).value.1 == [])
    ensures FirstApdu(s).value.0 == Apdu(u.tag, u.body)
  {
    hide Decoded;
    var n := Decoded(s[3..]).value.size;
    var rest, behind := s[3 + n..], FirstApdu(s).value.1;
    DecodedOfField(s[3..]);
    var k := |rest| - |behind|;
    u := Framed(s[..3], s[3..][..n], rest[..k]);
    assert rest == rest[..k] + behind && s == s[..3] + s[3..][..n] + rest;
  }

  lemma FramedFirst(u: Framed, rest: seq<byte>)
    requires u.Fits(rest == []) && (rest == [] || |rest| >= 3)
    ensures FirstApdu(u.Bytes() + rest) == Some((Apdu(u.tag, u.body), rest))
  {
    hide Decoded;
    var s := u.Bytes() + rest;
    assert s[3..] == u.field + (u.body + rest);
    DecodedOfMore(u.field, u.body + rest);
    assert s[3 + |u.field|..] == u.body + rest && s[..3] == u.tag;
  }

  /** Exactly the bytes made of units side by side are taken apart to the end. */
  lemma {:induction false} AllApdusExactly(s: seq<byte>)
    ensures AllApdus(s) <==> exists us :: SideBySide(us, s)
    decreases |s|
  {
    if AllApdus(s) {
      var us := Cut(s);
    }
    if us :| SideBySide(us, s) {
      CutBack(us, s);
    }
  }

  lemma {:induction false} Cut(s: seq<byte>) returns (us: seq<Framed>)
    requires AllApdus(s)
    ensures SideBySide(us, s) && (us == [] <==> s == [])
    decreases |s|
  {
    hide FirstApdu, Framed.Fits;
    us := [];
    if s != [] {
      var u := FirstFramed(s);
      var behind := Cut(FirstApdu(s).value.1);
      us := [u] + behind;
      assert us[1..] == behind && s[|u.Bytes()|..] == FirstApdu(s).value.1;
    }
  }

  lemma {:induction false} CutBack(us: seq<Framed>, s: seq<byte>)
    requires SideBySide(us, s)
    ensures AllApdus(s) && (us != [] ==> |s| >= 4)
    ensures Apdus(s) == seq(|us|, i requires 0 <= i < |us| => Apdu(us[i].tag, us[i].body))
    decreases |us|
  {
    hide FirstApdu;
    if us != [] {
      var rest := s[|us[0].Bytes()|..];
      CutBack(us[1..], rest);
      assert s == us[0].Bytes() + rest;
      FramedFirst(us[0], rest);
    }
  }

  /** A unit that announces 127 bytes and has none, and one or two bytes: none of these is taken apart to the end. */
  lemma OverrunsAt(b: byte, c: byte)
    ensures !AllApdus([0x9f, 0x80, 0x30, 0x7f, 0x00]) && Apdus([0x9f, 0x80, 0x30, 0x7f, 0x00]) == []
    ensures !AllApdus([b]) && !AllApdus([b, c])
  {
    var s := [0x9f, 0x80, 0x30, 0x7f, 0x00];
    assert s[3..] == [0x7f, 0x00];
  }

  lemma FirstApduBack(a: Apdu, rest: seq<byte>)
    requires Buildable(a) && (rest == [] || |rest| >= 3)
    ensures FirstApdu(ApduBytes(a) + rest) == Some((a, rest))
  {
    var s, l := ApduBytes(a) + rest, Built(|a.body|).value;
    BuiltRoundTrip(|a.body|, a.body + rest);
    assert s[3..] == l + (a.body + rest);
    assert s[3 + |l|..] == a.body + rest;
    assert s[..3] == a.tag;
  }

  /** Application units as they are built are found again one by one, in order, with nothing left over. */
  lemma {:induction false} ApdusBack(list: seq<Apdu>)
    requires forall a :: a in list ==> Buildable(a)
    ensures Apdus(ApdusBytes(list)) == list && AllApdus(ApdusBytes(list))
    ensures list == [] || |ApdusBytes(list)| >= 4
  {
    if list != [] {
      ApdusBack(list[1..]);
      FirstApduBack(list[0], ApdusBytes(list[1..]));
    }
  }

  // ----- session units

  datatype Spdu =
    | Open(resource: seq<byte>, payload: seq<byte>)
    | Addressed(tag: byte, session: nat, first: byte, payload: seq<byte>)
    | Malformed

  /** The bytes sendSPDU puts together. */
  function SpduBytes(tag: byte, data: seq<byte>, session: nat, payload: seq<byte>): seq<byte>
    requires |data| + 2 < 65535 && session < 65536
  {
    [tag] + Built(|data| + 2).value + data + [(session / 256) as byte, (session % 256) as byte] + payload
  }

  /** The parts receiveData finds; Malformed where it would look behind the end. */
  function ReadSpdu(s: seq<byte>): (u: Spdu)
    ensures u.Open? ==> |u.resource| == 4
    ensures u.Addressed? ==> u.session < 65536
  {
    if s == [] || Decoded(s[1..]).None? then Malformed
    else
      var f := Decoded(s[1..]).value;
      var pkt := s[1 + f.size..];
      if Signed(f.length) < 0 || f.length > |pkt| then Malformed
      else if s[0] == OPEN_SESSION_REQUEST then
        if |pkt| < 4 then Malformed else Open(pkt[..4], pkt[f.length..])
      else if f.length < 2 then Malformed
      else Addressed(s[0], pkt[f.length - 2] as nat * 256 + pkt[f.length - 1] as nat, pkt[0], pkt[f.length..])
  }

  /** A close request without room for a session number. */
  lemma MalformedAt()
    ensures ReadSpdu([CLOSE_SESSION_REQUEST, 4, 0, 1]).Malformed?
  {
  }

  lemma SpduBack(tag: byte, data: seq<byte>, session: nat, payload: seq<byte>)
    requires |data| + 2 < 65535 && session < 65536 && tag != OPEN_SESSION_REQUEST
    ensures ReadSpdu(SpduBytes(tag, data, session, payload)).Addressed?
    ensures var u := ReadSpdu(SpduBytes(tag, data, session, payload));
            u.tag == tag && u.session == session && u.payload == payload && (data != [] ==> u.first == data[0])
  {
    var s, l := SpduBytes(tag, data, session, payload), Built(|data| + 2).value;
    var number := [(session / 256) as byte, (session % 256) as byte];
    BuiltRoundTrip(|data| + 2, data + number + payload);
    assert s[1..] == l + (data + number + payload);
    assert s[1 + |l|..] == data + number + payload;
  }

  /** A resource is opened with four bytes. */
  lemma OpenBack(resource: seq<byte>)
    requires |resource| == 4
    ensures ReadSpdu([OPEN_SESSION_REQUEST] + Built(4).value + resource) == Open(resource, [])
  {
    var s := [OPEN_SESSION_REQUEST] + Built(4).value + resource;
    assert s[1..] == Built(4).value + resource;
    BuiltRoundTrip(4, resource);
    assert s[2..] == resource;
  }

  // ----- transport units

  datatype Tpdu = Tpdu(tag: byte, connection: byte, body: seq<byte>)

  /** Length fields of one, two and three bytes; the link takes them all. */
  function ShortForm(length: nat, size: nat): (s: seq<byte>)
    requires 1 <= size <= 3 && length < (if size == 1 then 128 else if size == 2 then 256 else 65536)
    ensures |s| == size
  {
    if size == 1 then [length as byte]
    else if size == 2 then [0x81, length as byte]
    else [0x82, (length / 256) as byte, (length % 256) as byte]
  }

  predicate Fits(length: nat, size: nat) {
    1 <= size <= 3 && length < (if size == 1 then 128 else if size == 2 then 256 else 65536)
  }

  function TpduBytes(t: Tpdu, size: nat): seq<byte>
    requires Fits(|t.body| + 1, size)
  {
    [t.tag] + ShortForm(|t.body| + 1, size) + [t.connection] + t.body
  }

  /** The first transport unit in some bytes and what is behind it. */
  function FirstTpdu(d: seq<byte>): (r: Option<(Tpdu, seq<byte>)>)
    ensures r.Some? ==> |r.value.1| < |d|
  {
    if d == [] || AsnDecode(d[1..]).None? then None
    else
      var f := AsnDecode(d[1..]).value;
      if f.length < 1 || f.length > |d| - (1 + f.size) then None
      else
        var rest := d[1 + f.size..];
        Some((Tpdu(d[0], rest[0], rest[1..f.length]), rest[f.length..]))
  }

  /** The transport units of one read, up to the first that is not whole. */
  function Tpdus(d: seq<byte>): seq<Tpdu>
    decreases |d|
  {
    var r := FirstTpdu(d);
    if r.None? then [] else [r.value.0] + Tpdus(r.value.1)
  }

  /** The bytes of a read behind its whole units. */
  function Left(d: seq<byte>): seq<byte>
    decreases |d|
  {
    var r := FirstTpdu(d);
    if r.None? then d else Left(r.value.1)
  }

  function TpdusBytes(list: seq<Tpdu>, sizes: seq<nat>): seq<byte>
    requires |sizes| == |list| && forall i :: 0 <= i < |list| ==> Fits(|list[i].body| + 1, sizes[i])
    decreases |list|
  {
    if list == [] then [] else TpduBytes(list[0], sizes[0]) + TpdusBytes(list[1..], sizes[1..])
  }

  lemma ShortFormBack(length: nat, size: nat, rest: seq<byte>)
    requires Fits(length, size)
    ensures AsnDecode(ShortForm(length, size) + rest) == Some(Field(length, size))
  {
  }

  lemma FirstTpduBack(t: Tpdu, size: nat, rest: seq<byte>)
    requires Fits(|t.body| + 1, size)
    ensures FirstTpdu(TpduBytes(t, size) + rest) == Some((t, rest))
  {
    var d := TpduBytes(t, size) + rest;
    hide AsnDecode, ShortForm;
    var l, tail := ShortForm(|t.body| + 1, size), [t.connection] + t.body + rest;
    ShortFormBack(|t.body| + 1, size, tail);
    assert d == [t.tag] + (l + tail);
    assert d[1..] == l + tail;
    assert d[1 + size..] == tail;
    assert tail[1..|t.body| + 1] == t.body && tail[|t.body| + 1..] == rest;
  }

  lemma NoUnits()
    ensures Tpdus([]) == [] && Left([]) == []
  {
  }

  /** Whole transport units are found again one by one, in whatever form their lengths are written. */
  lemma {:induction false} TpdusBack(list: seq<Tpdu>, sizes: seq<nat>)
    requires |sizes| == |list| && forall i :: 0 <= i < |list| ==> Fits(|list[i].body| + 1, sizes[i])
    ensures Tpdus(TpdusBytes(list, sizes)) == list && Left(TpdusBytes(list, sizes)) == []
  {
    hide FirstTpdu, TpduBytes, Fits, Tpdus, Left;
    if list == [] {
      NoUnits();
    } else {
      var behind := TpdusBytes(list[1..], sizes[1..]);
      TpdusBack(list[1..], sizes[1..]);
      FirstTpduBack(list[0], sizes[0], behind);
      FirstThen(TpduBytes(list[0], sizes[0]) + behind, list[0], behind);
    }
  }

  lemma FirstThen(d: seq<byte>, t: Tpdu, behind: seq<byte>)
    requires FirstTpdu(d) == Some((t, behind))
    ensures Tpdus(d) == [t] + Tpdus(behind) && Left(d) == Left(behind)
  {
    hide FirstTpdu;
  }

  // ----- reassembly

  /** What a slot has collected of the message being received, and the messages it has passed on. */
  datatype Link = Link(pending: Option<seq<byte>>, messages: seq<seq<byte>>) {
    function Pending(): seq<byte> { if pending.None? then [] else pending.value }
  }

  function Feed(l: Link, t: Tpdu): Link {
    if t.tag == T_DATA_MORE then Link(Some(l.Pending() + t.body), l.messages)
    else if t.tag == T_DATA_LAST then Link(None, l.messages + [l.Pending() + t.body])
    else l
  }

  function FeedAll(l: Link, ts: seq<Tpdu>): Link
    decreases |ts|
  {
    if ts == [] then l else FeedAll(Feed(l, ts[0]), ts[1..])
  }

  lemma {:induction false} FeedAllAppend(l: Link, a: seq<Tpdu>, b: seq<Tpdu>)
    ensures FeedAll(l, a + b) == FeedAll(FeedAll(l, a), b)
    decreases |a|
  {
    if a == [] {
      assert a + b == b;
    } else {
      assert (a + b)[1..] == a[1..] + b;
      FeedAllAppend(Feed(l, a[0]), a[1..], b);
    }
  }

  predicate IsData(t: Tpdu) { t.tag == T_DATA_MORE || t.tag == T_DATA_LAST }

  function DataOf(ts: seq<Tpdu>): seq<Tpdu> {
    if ts == [] then [] else (if IsData(ts[0]) then [ts[0]] else []) + DataOf(ts[1..])
  }

  /** ts carries the fragments of one message: T_DATA_MORE for all but the last of them. */
  predicate Carries(ts: seq<Tpdu>, fragments: seq<seq<byte>>) {
    && |ts| == |fragments| > 0
    && forall i :: 0 <= i < |ts| ==> ts[i].body == fragments[i] && ts[i].tag == if i == |ts| - 1 then T_DATA_LAST else T_DATA_MORE
  }

  /** Units that carry no data, such as the status that closes each answer, may come anywhere between. */
  lemma {:induction false} OnlyDataCounts(l: Link, ts: seq<Tpdu>)
    ensures FeedAll(l, ts) == FeedAll(l, DataOf(ts))
    decreases |ts|
  {
    if ts != [] {
      OnlyDataCounts(Feed(l, ts[0]), ts[1..]);
      if IsData(ts[0]) {
        assert ([ts[0]] + DataOf(ts[1..]))[1..] == DataOf(ts[1..]);
      } else {
        assert [] + DataOf(ts[1..]) == DataOf(ts[1..]);
      }
    }
  }

  lemma {:induction false} MoreCollects(l: Link, ts: seq<Tpdu>, fragments: seq<seq<byte>>)
    requires |ts| == |fragments| && forall i :: 0 <= i < |ts| ==> ts[i].body == fragments[i] && ts[i].tag == T_DATA_MORE
    ensures FeedAll(l, ts).Pending() == l.Pending() + Concat(fragments) && FeedAll(l, ts).messages == l.messages
  {
    if ts != [] {
      var n := |ts| - 1;
      MoreCollects(l, ts[..n], fragments[..n]);
      FeedAllAppend(l, ts[..n], ts[n..]);
      assert ts == ts[..n] + ts[n..];
      assert FeedAll(FeedAll(l, ts[..n]), ts[n..]) == Feed(FeedAll(l, ts[..n]), ts[n]);
    }
  }

  /** However a message is cut into fragments, exactly their concatenation is passed on, and nothing stays behind. */
  lemma MessageReassembled(messages: seq<seq<byte>>, ts: seq<Tpdu>, fragments: seq<seq<byte>>)
    requires Carries(DataOf(ts), fragments)
    ensures FeedAll(Link(None, messages), ts) == Link(None, messages + [Concat(fragments)])
  {
    hide DataOf, FeedAll;
    var l, d, n := Link(None, messages), DataOf(ts), |fragments| - 1;
    OnlyDataCounts(l, ts);
    MoreCollects(l, d[..n], fragments[..n]);
    FeedAllAppend(l, d[..n], [d[n]]);
    assert d == d[..n] + [d[n]];
    FeedOne(FeedAll(l, d[..n]), d[n]);
    assert [] + Concat(fragments[..n]) + d[n].body == Concat(fragments);
  }

  lemma FeedOne(l: Link, t: Tpdu)
    ensures FeedAll(l, [t]) == Feed(l, t)
  {
    assert [t][1..] == [];
  }

  /** The messages that pieces in fragments make. */
  function Assembled(cuts: seq<seq<seq<byte>>>): (messages: seq<seq<byte>>)
    ensures |messages| == |cuts| && forall i :: 0 <= i < |cuts| ==> messages[i] == Concat(cuts[i])
  {
    if cuts == [] then [] else Assembled(cuts[..|cuts| - 1]) + [Concat(cuts[|cuts| - 1])]
  }

  /** Message after message. */
  lemma {:induction false} MessagesReassembled(messages: seq<seq<byte>>, parts: seq<seq<Tpdu>>, cuts: seq<seq<seq<byte>>>)
    requires |parts| == |cuts| && forall i :: 0 <= i < |parts| ==> Carries(DataOf(parts[i]), cuts[i])
    ensures FeedAll(Link(None, messages), Concat(parts)) == Link(None, messages + Assembled(cuts))
    decreases |parts|
  {
    hide Carries, DataOf, Feed;
    if parts == [] {
      assert messages + Assembled([]) == messages;
    } else {
      var n := |parts| - 1;
      MessagesReassembled(messages, parts[..n], cuts[..n]);
      FeedAllAppend(Link(None, messages), Concat(parts[..n]), parts[n]);
      MessageReassembled(messages + Assembled(cuts[..n]), parts[n], cuts[n]);
      assert messages + Assembled(cuts[..n]) + [Concat(cuts[n])] == messages + Assembled(cuts);
    }
  }

  /** The transport units of one read, which starts with a slot and a connection number, and the bytes behind them. */
  function UnitsOfOne(piece: seq<byte>): seq<Tpdu> {
    if |piece| < 2 then [] else Tpdus(piece[2..])
  }

  function LeftOfOne(piece: seq<byte>): seq<byte> {
    if |piece| < 2 then [] else Left(piece[2..])
  }

  /** The transport units of read after read. */
  function UnitsOf(pieces: seq<seq<byte>>): seq<Tpdu> {
    if pieces == [] then [] else UnitsOf(pieces[..|pieces| - 1]) + UnitsOfOne(pieces[|pieces| - 1])
  }

  /** One read: a slot and a connection number, and whole units, each with a length field of some size. */
  datatype Piece = Piece(slot: byte, connection: byte, units: seq<Tpdu>, sizes: seq<nat>) {
    predicate Valid() {
      |sizes| == |units| && forall i :: 0 <= i < |units| ==> Fits(|units[i].body| + 1, sizes[i])
    }

    function Bytes(): (s: seq<byte>)
      requires Valid()
      ensures |s| >= 2
    {
      [slot, connection] + TpdusBytes(units, sizes)
    }
  }

  /** The units of reads that hold whole ones. */
  function UnitsIn(link: seq<Piece>): seq<Tpdu> {
    if link == [] then [] else UnitsIn(link[..|link| - 1]) + link[|link| - 1].units
  }

  lemma {:induction false} PiecesBack(link: seq<Piece>, pieces: seq<seq<byte>>)
    requires |link| == |pieces| && forall i :: 0 <= i < |link| ==> link[i].Valid() && pieces[i] == link[i].Bytes()
    ensures UnitsOf(pieces) == UnitsIn(link)
    ensures forall i :: 0 <= i < |pieces| ==> LeftOfOne(pieces[i]) == []
    decreases |link|
  {
    hide Tpdus, Left, TpdusBytes, Fits;
    if link != [] {
      var n := |link| - 1;
      PiecesBack(link[..n], pieces[..n]);
      TpdusBack(link[n].units, link[n].sizes);
      assert pieces[n][2..] == TpdusBytes(link[n].units, link[n].sizes);
      assert forall i :: 0 <= i < n ==> pieces[..n][i] == pieces[i];
    }
  }

  // ----- deliveries

  /** An application unit and the number of the session that is given it. */
  datatype Delivery = Delivery(session: nat, apdu: Apdu)

  function Tagged(session: nat, apdus: seq<Apdu>): seq<Delivery> {
    seq(|apdus|, i requires 0 <= i < |apdus| => Delivery(session, apdus[i]))
  }

  /** A message with data for one of some sessions, and whole units in it. */
  predicate DataFor(message: seq<byte>, numbers: set<nat>) {
    var u := ReadSpdu(message);
    u.Addressed? && u.tag == SESSION_DATA && u.session in numbers && AllApdus(u.payload)
  }

  function DeliveriesOf(message: seq<byte>): seq<Delivery> {
    var u := ReadSpdu(message);
    if u.Addressed? then Tagged(u.session, Apdus(u.payload)) else []
  }

  predicate AllDataFor(messages: seq<seq<byte>>, numbers: set<nat>) {
    forall m :: m in messages ==> DataFor(m, numbers)
  }

  function AllDeliveries(messages: seq<seq<byte>>): seq<Delivery> {
    if messages == [] then [] else AllDeliveries(messages[..|messages| - 1]) + DeliveriesOf(messages[|messages| - 1])
  }

  lemma {:induction false} AllDeliveriesAppend(a: seq<seq<byte>>, b: seq<seq<byte>>)
    ensures AllDeliveries(a + b) == AllDeliveries(a) + AllDeliveries(b)
  {
    hide DeliveriesOf;
    if b == [] {
      assert a + b == a;
    } else {
      assert (a + b)[..|a + b| - 1] == a + b[..|b| - 1];
      AllDeliveriesAppend(a, b[..|b| - 1]);
    }
  }

  /** What a module sends to one session in one message. */
  datatype Letter = Letter(session: nat, apdus: seq<Apdu>) {
    predicate Valid() {
      1 <= session < 65536 && forall a :: a in apdus ==> Buildable(a)
    }

    /** The message as sendAPDU and sendSPDU would build it. */
    function Bytes(): seq<byte>
      requires Valid()
    {
      SpduBytes(SESSION_DATA, [], session, ApdusBytes(apdus))
    }
  }

  function Expected(letters: seq<Letter>): seq<Delivery> {
    if letters == [] then []
    else Expected(letters[..|letters| - 1]) + Tagged(letters[|letters| - 1].session, letters[|letters| - 1].apdus)
  }

  /** Every unit of every letter is found, in order, with its exact bytes. */
  lemma {:induction false} LettersRead(letters: seq<Letter>, messages: seq<seq<byte>>, numbers: set<nat>)
    requires |messages| == |letters|
    requires forall i :: 0 <= i < |letters| ==> letters[i].Valid() && letters[i].session in numbers && messages[i] == letters[i].Bytes()
    ensures AllDataFor(messages, numbers) && AllDeliveries(messages) == Expected(letters)
  {
    hide ReadSpdu, SpduBytes, Apdus, ApdusBytes, AllApdus;
    if letters != [] {
      var n := |letters| - 1;
      LettersRead(letters[..n], messages[..n], numbers);
      SpduBack(SESSION_DATA, [], letters[n].session, ApdusBytes(letters[n].apdus));
      ApdusBack(letters[n].apdus);
      assert messages == messages[..n] + [messages[n]];
    }
  }
}
