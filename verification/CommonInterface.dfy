/** The host side of the DVB common interface: lib/libazbox/dvbci_session.cpp and the slot loop of lib/libazbox/dvb-ci.cpp. */
module CommonInterface {
  import opened Collections
  import opened Octets
  import opened LengthFields
  import opened CommonInterfaceFrames

  const SLMS: nat := 256

  /** The states of every session, and those a resource has of its own. */
  datatype State = InCreation | InDeletion | Started | Private(which: nat)

  const RESOURCE_MANAGER: seq<byte> := [0x00, 0x01, 0x00, 0x41]
  const APPLICATION_MANAGER: seq<byte> := [0x00, 0x02, 0x00, 0x41]
  const CA_MANAGER: seq<byte> := [0x00, 0x03, 0x00, 0x41]
  const DATE_TIME: seq<byte> := [0x00, 0x24, 0x00, 0x41]
  const MMI: seq<byte> := [0x00, 0x40, 0x00, 0x41]

  /** The state in which receivedAPDU of a resource leaves its session. */
  function AfterApdu(resource: seq<byte>, tag: seq<byte>, state: State): State {
    if resource == RESOURCE_MANAGER && tag == [0x9f, 0x80, 0x10] then Private(2)
    else if resource == RESOURCE_MANAGER && tag == [0x9f, 0x80, 0x11] && state != Private(0) then Private(3)
    else if resource == DATE_TIME && tag == [0x9f, 0x84, 0x40] then Private(1)
    else if resource == MMI && tag == [0x9f, 0x88, 0x01] then Private(0)
    else state
  }

  function AfterApdus(resource: seq<byte>, apdus: seq<Apdu>, state: State): State
    decreases |apdus|
  {
    if apdus == [] then state else AfterApdus(resource, apdus[1..], AfterApdu(resource, apdus[0].tag, state))
  }

  /** A unit to which a resource answers by moving to a state of its own, whatever the state was. */
  predicate Moves(resource: seq<byte>, tag: seq<byte>) {
    || (resource == RESOURCE_MANAGER && tag in {[0x9f, 0x80, 0x10], [0x9f, 0x80, 0x11]})
    || (resource == DATE_TIME && tag == [0x9f, 0x84, 0x40])
    || (resource == MMI && tag == [0x9f, 0x88, 0x01])
  }

  /** A session that is being closed stays so exactly when no unit makes its resource move. */
  lemma {:induction false} StaysClosing(resource: seq<byte>, apdus: seq<Apdu>, state: State)
    ensures AfterApdus(resource, apdus, state) == InDeletion <==> state == InDeletion && forall a :: a in apdus ==> !Moves(resource, a.tag)
    decreases |apdus|
  {
    if apdus != [] {
      StaysClosing(resource, apdus[1..], AfterApdu(resource, apdus[0].tag, state));
      assert apdus == [apdus[0]] + apdus[1..];
    }
  }

  const ENQUIRY: Apdu := Apdu([0x9f, 0x80, 0x10], [])

  /** A close request with a profile enquiry in it leaves a session of the resource manager open. */
  lemma ReopenedAt()
    ensures Buildable(ENQUIRY) && ApduBytes(ENQUIRY) == [0x9f, 0x80, 0x10, 0]
    ensures var u := ReadSpdu(SpduBytes(CLOSE_SESSION_REQUEST, [], 1, ApduBytes(ENQUIRY)));
      && u.Addressed? && u.tag == CLOSE_SESSION_REQUEST && u.session == 1 && AllApdus(u.payload)
      && AfterApdus(RESOURCE_MANAGER, Apdus(u.payload), InDeletion) == Private(2)
  {
    hide ReadSpdu, SpduBytes, Apdus, AllApdus, FirstApdu;
    ApdusBack([ENQUIRY]);
    assert ApdusBytes([ENQUIRY]) == ApduBytes(ENQUIRY) + [] == ApduBytes(ENQUIRY);
    SpduBack(CLOSE_SESSION_REQUEST, [], 1, ApduBytes(ENQUIRY));
    assert [ENQUIRY][1..] == [];
  }

  /** A session unit handed to the transport of a slot. */
  datatype Sent = Sent(slot: int, spdu: seq<byte>)

  class Session {
    const number: nat
    const slot: int
    const resource: seq<byte>
    var state: State
    var status: byte
    var action: bool

    constructor (number: nat, slot: int, resource: seq<byte>)
      ensures this.number == number && this.slot == slot && this.resource == resource && state == InCreation
    {
      this.number, this.slot, this.resource := number, slot, resource;
      state, status, action := InCreation, 0, false;
    }

    /** What a session unit leaves behind in the session it is for, before its application units are looked at. */
    ghost predicate AfterTag(tag: byte, first: byte, oldStatus: byte, oldAction: bool)
      reads this
    {
      if tag == CREATE_SESSION_RESPONSE then status == first && action
      else status == oldStatus && (oldAction || tag == CLOSE_SESSION_REQUEST ==> action)
    }
  }

  /** The state of the session a session unit is for, before its application units are looked at. */
  function StateFor(tag: byte, state: State): State {
    if tag == CREATE_SESSION_RESPONSE then Started else if tag == CLOSE_SESSION_REQUEST then InDeletion else state
  }

  /** The open sessions after a request to close one of them: it stays open if a unit in the request makes its resource
      move. */
  function AfterClosing(numbers: set<nat>, number: nat, resource: seq<byte>, payload: seq<byte>): set<nat> {
    if exists a :: a in Apdus(payload) && Moves(resource, a.tag) then numbers else numbers - {number}
  }

  /** The session units whose application units are handed on. */
  predicate HandedOn(tag: byte) {
    tag in {SESSION_DATA, CREATE_SESSION_RESPONSE, CLOSE_SESSION_REQUEST}
  }

  predicate KnownResource(id: seq<byte>) {
    id in {RESOURCE_MANAGER, APPLICATION_MANAGER, CA_MANAGER, DATE_TIME, MMI}
  }

  class SessionTable {
    var sessions: seq<Session?>
    var sent: seq<Sent>
    /** What the sessions' receivedAPDU was called with. */
    ghost var delivered: seq<Delivery>
    /** The session units received. */
    ghost var units: seq<seq<byte>>

    ghost predicate Valid()
      reads this
    {
      && |sessions| == SLMS && sessions[SLMS - 1] == null
      && forall i :: 0 <= i < SLMS && sessions[i] != null ==> sessions[i].number == i + 1
    }

    ghost function Objects(): set<object>
      reads this
    {
      set s: Session | s in sessions
    }

    ghost predicate Open(n: nat)
      requires Valid() && 1 <= n <= SLMS
      reads this, Objects()
    {
      sessions[n - 1] != null && sessions[n - 1].state != InDeletion
    }

    /** The numbers of the open sessions that are not being closed. */
    ghost function Healthy(): set<nat>
      requires Valid()
      reads this, Objects()
    {
      set n: nat | 1 <= n <= SLMS && Open(n)
    }

    constructor ()
      ensures Valid() && Healthy() == {} && delivered == [] && sent == [] && units == []
    {
      sessions := seq(SLMS, _ => null);
      sent, delivered, units := [], [], [];
    }

    /** createSession: the lowest free number, for a resource the host provides. */
    method CreateSession(slot: int, resource: seq<byte>) returns (s: Session?, status: byte)
      requires Valid() && |resource| == 4
      modifies `sessions
      ensures Valid()
      ensures s == null ==> sessions == old(sessions)
      ensures s == null <==> !KnownResource(resource) || forall i :: 0 <= i < SLMS - 1 ==> old(sessions)[i] != null
      ensures s != null ==> status == 0 && fresh(s) && s.slot == slot && s.resource == resource && s.state == InCreation && 1 <= s.number <= 255
      ensures s != null ==> sessions == old(sessions)[s.number - 1 := s] && old(sessions)[s.number - 1] == null
      ensures s != null ==> forall i :: 0 <= i < s.number - 1 ==> old(sessions)[i] != null
      ensures s == null ==> status == if (forall i :: 0 <= i < SLMS - 1 ==> old(sessions)[i] != null) then 0xf3 else 0xf0
    {
      var number := 1;
      while number < SLMS && sessions[number - 1] != null
        invariant 1 <= number <= SLMS
        invariant forall i :: 0 <= i < number - 1 ==> sessions[i] != null
      {
        number := number + 1;
      }
      if number == SLMS {
        return null, 0xf3;
      }
      if KnownResource(resource) {
        var session := new Session(number, slot, resource);
        sessions := sessions[number - 1 := session];
        s, status := session, 0;
      } else {
        assert sessions[number - 1] == null;
        s, status := null, 0xf0;
      }
    }

    /** deleteSessions: exactly the sessions of one slot are gone. */
    method DeleteSessions(slot: int)
      requires Valid()
      modifies `sessions
      ensures Valid()
      ensures forall i :: 0 <= i < SLMS ==> var s := old(sessions)[i]; sessions[i] == if s != null && s.slot == slot then null else s
    {
      var i := 0;
      while i < SLMS
        invariant 0 <= i <= SLMS && |sessions| == SLMS
        invariant forall k :: 0 <= k < SLMS ==>
          var s := old(sessions)[k]; sessions[k] == if k < i && s != null && s.slot == slot then null else s
      {
        if sessions[i] != null && sessions[i].slot == slot {
          sessions := sessions[i := null];
        }
        i := i + 1;
      }
    }

    method Send(slot: int, spdu: seq<byte>)
      modifies `sent
      ensures sent == old(sent) + [Sent(slot, spdu)]
    {
      sent := sent + [Sent(slot, spdu)];
    }

    /** Whether pollAll stops at a session. */
    ghost predicate Due(i: int)
      requires Valid() && 0 <= i < SLMS
      reads this, Objects()
    {
      sessions[i] != null && (sessions[i].state == InDeletion || sessions[i].action)
    }

    /** The session at which pollAll stops. */
    ghost predicate FirstDue(i: int)
      requires Valid() && 0 <= i < SLMS
      reads this, Objects()
    {
      Due(i) && forall k :: 0 <= k < i ==> !Due(k)
    }

    /** doAction of the session's resource: what it sends, which of its own states it moves to and whether there is more to
        do is up to the resource. */
    method DoAction(session: Session) returns (more: bool)
      requires session.state != InDeletion
      modifies session`action, session`state, `sent
      ensures session.state != InDeletion
    {
      more := *;
      session.action := more;
      if * {
        var which: nat := *;
        session.state := Private(which);
      }
      if * {
        sent := *;
      }
    }

    /** One turn of pollAll: a session being closed answers and is gone, one with something to do does it. */
    method PollOne(number: nat) returns (r: bool)
      requires Valid() && 1 <= number < SLMS
      modifies this`sessions, this`sent, Objects()
      ensures Valid() && Objects() <= old(Objects()) && Healthy() == old(Healthy())
      ensures r <==> old(Due(number - 1))
      ensures r <==> old(sessions)[number - 1] != null && (old(sessions[number - 1].state) == InDeletion || old(sessions[number - 1].action))
      ensures sessions == if r && old(sessions[number - 1].state) == InDeletion then old(sessions)[number - 1 := null] else old(sessions)
      ensures r && old(sessions[number - 1].state) == InDeletion ==>
        sent == old(sent) + [Sent(old(sessions[number - 1].slot), SpduBytes(CLOSE_SESSION_RESPONSE, [0x00], number, []))]
      ensures !r ==> sent == old(sent)
      ensures forall s: Session :: s in old(sessions) && !(r && s == old(sessions[number - 1])) ==>
        s.state == old(s.state) && s.action == old(s.action)
    {
      hide SpduBytes;
      var session := sessions[number - 1];
      if session == null {
        return false;
      }
      assert session in sessions;
      if session.state == InDeletion {
        Send(session.slot, SpduBytes(CLOSE_SESSION_RESPONSE, [0x00], number, []));
        sessions := sessions[number - 1 := null];
        assert forall i :: 0 <= i < SLMS && sessions[i] != null ==> sessions[i] in old(sessions);
        return true;
      }
      if session.action {
        var more := DoAction(session);
        return true;
      }
      return false;
    }

    /** pollAll: the first session with something to do, that of number at, does it; one being closed answers and is gone. */
    method PollAll() returns (r: bool, ghost at: nat)
      requires Valid()
      modifies this`sessions, this`sent, Objects()
      ensures Valid() && fresh(Objects() - old(Objects()))
      ensures Healthy() == old(Healthy()) && delivered == old(delivered)
      ensures if r then 1 <= at < SLMS && old(FirstDue(at - 1)) else forall i :: 0 <= i < SLMS - 1 ==> !old(Due(i))
      ensures sessions == if r && old(sessions[at - 1].state) == InDeletion then old(sessions)[at - 1 := null] else old(sessions)
      ensures r && old(sessions[at - 1].state) == InDeletion ==>
        sent == old(sent) + [Sent(old(sessions[at - 1].slot), SpduBytes(CLOSE_SESSION_RESPONSE, [0x00], at, []))]
      ensures !r ==> sent == old(sent)
      ensures forall s: Session :: s in old(sessions) && !(r && s == old(sessions[at - 1])) ==>
        s.state == old(s.state) && s.action == old(s.action)
    {
      hide SpduBytes;
      at := 1;
      var number := 1;
      while number < SLMS
        invariant 1 <= number == at <= SLMS
        invariant sessions == old(sessions) && sent == old(sent)
        invariant Healthy() == old(Healthy())
        invariant forall i :: 0 <= i < number - 1 ==> !old(Due(i))
        invariant forall s: Session :: s in old(sessions) ==> s.state == old(s.state) && s.action == old(s.action)
      {
        r := PollOne(number);
        if r {
          return;
        }
        number, at := number + 1, at + 1;
      }
      r := false;
    }

    /** receivedAPDU of the session's resource: what it does with the unit beyond the state of the session, and its answer,
        are up to the resource. */
    method ReceivedApdu(session: Session, apdu: Apdu) returns (r: bool)
      modifies `delivered, session`state
      ensures delivered == old(delivered) + [Delivery(session.number, apdu)]
      ensures session.state == AfterApdu(session.resource, apdu.tag, old(session.state))
    {
      delivered := delivered + [Delivery(session.number, apdu)];
      session.state := AfterApdu(session.resource, apdu.tag, session.state);
      r := *;
    }

    /** The unit at the front, with the correction of a length that leaves one or two bytes over. */
    static method NextApdu(pkt: seq<byte>) returns (apdu: Option<Apdu>, behind: seq<byte>)
      ensures apdu.Some? <==> FirstApdu(pkt).Some?
      ensures apdu.Some? ==> FirstApdu(pkt).value == (apdu.value, behind)
    {
      if |pkt| < 3 || Decoded(pkt[3..]).None? {
        return None, pkt;
      }
      var hlen, alen := ParseLength(pkt[3..]);
      var rest := pkt[3 + hlen..];
      if 0 < |rest| - alen < 3 {
        alen := |rest|;
      }
      if alen < 0 || alen > |rest| {
        return None, pkt;
      }
      return Some(Apdu(pkt[..3], rest[..alen])), rest[alen..];
    }

    /** The loop goes on outside its bytes: the session is given whatever is found there. */
    method RunOver(session: Session)
      modifies `delivered, session`state, session`action
      ensures old(delivered) <= delivered && (old(session.action) ==> session.action)
      ensures old(session.state) != InDeletion ==> session.state != InDeletion
    {
      var n: nat := *;
      while n > 0
        invariant old(delivered) <= delivered && (old(session.action) ==> session.action)
        invariant old(session.state) != InDeletion ==> session.state != InDeletion
      {
        var apdu: Apdu := *;
        var again := ReceivedApdu(session, apdu);
        session.action := session.action || again;
        n := n - 1;
      }
    }

    /** The loop over the application units of one session unit. Its number of remaining bytes is unsigned, and nothing tells
        it that a unit ends outside them: then it runs over. */
    method DeliverApdus(session: Session, payload: seq<byte>) returns (overrun: bool)
      modifies `delivered, session`state, session`action
      ensures overrun <==> !AllApdus(payload)
      ensures old(delivered) + Tagged(session.number, Apdus(payload)) <= delivered
      ensures !overrun ==> delivered == old(delivered) + Tagged(session.number, Apdus(payload))
      ensures !overrun ==> session.state == AfterApdus(session.resource, Apdus(payload), old(session.state))
      ensures old(session.state) != InDeletion ==> session.state != InDeletion
      ensures old(session.action) ==> session.action
    {
      hide Apdus, AllApdus, AfterApdus, AfterApdu, FirstApdu, Tagged;
      var pkt := payload;
      ghost var done := [];
      NoneLeft(session.number);
      while |pkt| > 0
        invariant done + Apdus(pkt) == Apdus(payload) && (AllApdus(pkt) <==> AllApdus(payload))
        invariant delivered == old(delivered) + Tagged(session.number, done) && (old(session.action) ==> session.action)
        invariant AfterApdus(session.resource, Apdus(pkt), session.state) == AfterApdus(session.resource, Apdus(payload), old(session.state))
        invariant old(session.state) != InDeletion ==> session.state != InDeletion
        decreases |pkt|
      {
        OneByOne(pkt, session.number, done, session.resource, session.state);
        var apdu, behind := NextApdu(pkt);
        if apdu.None? {
          assert done + [] == done;
          RunOver(session);
          return true;
        }
        var again := ReceivedApdu(session, apdu.value);
        if again {
          session.action := true;
        }
        ghost var before := done;
        done := done + [apdu.value];
        pkt := behind;
        assert before + ([apdu.value] + Apdus(pkt)) == done + Apdus(pkt);
      }
      assert done + [] == done;
      overrun := false;
    }

    static lemma NoneLeft(number: nat)
      ensures Apdus([]) == [] && AllApdus([]) && Tagged(number, []) == []
      ensures forall resource, state :: AfterApdus(resource, [], state) == state
    {
    }

    /** What one turn of the loop does to everything it keeps. */
    static lemma OneByOne(pkt: seq<byte>, number: nat, done: seq<Apdu>, resource: seq<byte>, state: State)
      requires pkt != []
      ensures FirstApdu(pkt).None? ==> Apdus(pkt) == [] && !AllApdus(pkt)
      ensures FirstApdu(pkt).Some? ==> var (a, behind) := FirstApdu(pkt).value;
        && Apdus(pkt) == [a] + Apdus(behind) && (AllApdus(pkt) <==> AllApdus(behind))
        && Tagged(number, done + [a]) == Tagged(number, done) + [Delivery(number, a)]
        && AfterApdus(resource, Apdus(pkt), state) == AfterApdus(resource, Apdus(behind), AfterApdu(resource, a.tag, state))
        && (state != InDeletion ==> AfterApdu(resource, a.tag, state) != InDeletion)
    {
      hide FirstApdu;
      if FirstApdu(pkt).Some? {
        var (a, behind) := FirstApdu(pkt).value;
        assert ([a] + Apdus(behind))[1..] == Apdus(behind);
      }
    }

    /** The lowest number nobody has, if it is below the limit. */
    ghost predicate LowestFree(n: nat)
      requires |sessions| == SLMS
      reads this
    {
      1 <= n < SLMS && sessions[n - 1] == null && forall i :: 0 <= i < n - 1 ==> sessions[i] != null
    }

    /** A request for a new session is answered with its number, or with zero and the reason there is none. */
    method ReceiveOpen(slot: int, resource: seq<byte>, payload: seq<byte>) returns (number: nat, status: byte)
      requires Valid() && |resource| == 4
      modifies `sessions, `sent, `delivered
      ensures Valid() && number < SLMS && fresh(Objects() - old(Objects()))
      ensures sent == old(sent) + [Sent(slot, SpduBytes(OPEN_SESSION_RESPONSE, [status] + resource, number, []))]
      ensures number == 0 <==> !KnownResource(resource) || forall i :: 0 <= i < SLMS - 1 ==> old(sessions)[i] != null
      ensures number > 0 ==> status == 0 && old(LowestFree(number))
      ensures number > 0 ==> Healthy() == old(Healthy()) + {number} && old(delivered) + Tagged(number, Apdus(payload)) <= delivered
      ensures number > 0 && AllApdus(payload) ==> delivered == old(delivered) + Tagged(number, Apdus(payload))
      ensures number > 0 ==> sessions == old(sessions)[number - 1 := sessions[number - 1]] && sessions[number - 1].slot == slot && sessions[number - 1].action
      ensures number > 0 && AllApdus(payload) ==> sessions[number - 1].state == AfterApdus(resource, Apdus(payload), Started)
      ensures number == 0 ==> status != 0 && sessions == old(sessions) && Healthy() == old(Healthy()) && delivered == old(delivered)
    {
      hide Apdus, AllApdus, SpduBytes, Tagged;
      var session;
      session, status := CreateSession(slot, resource);
      number := if session != null then session.number else 0;
      Send(slot, SpduBytes(OPEN_SESSION_RESPONSE, [status] + resource, number, []));
      if session != null {
        session.state, session.action := Started, true;
        var overrun := DeliverApdus(session, payload);
      }
    }

    /** A unit for a session: a close request or a status is noted, and its application units are handed on. The session is
        then being closed exactly when it was to be closed and no unit made its resource move. */
    method ReceiveAddressed(tag: byte, number: nat, first: byte, payload: seq<byte>)
      requires Valid()
      modifies `delivered, Objects()
      ensures Valid() && forall s: Session :: s in sessions && s.number != number ==>
        s.state == old(s.state) && s.status == old(s.status) && s.action == old(s.action)
      ensures number == 0 || number >= SLMS || sessions[number - 1] == null || !HandedOn(tag) ==>
        delivered == old(delivered) && Healthy() == old(Healthy())
      ensures 1 <= number < SLMS && sessions[number - 1] != null ==>
        sessions[number - 1].AfterTag(tag, first, old(sessions[number - 1].status), old(sessions[number - 1].action))
      ensures 1 <= number < SLMS && sessions[number - 1] != null && HandedOn(tag) ==>
        old(delivered) + Tagged(number, Apdus(payload)) <= delivered
      ensures 1 <= number < SLMS && sessions[number - 1] != null && HandedOn(tag) && AllApdus(payload) ==>
        delivered == old(delivered) + Tagged(number, Apdus(payload))
      ensures 1 <= number < SLMS && sessions[number - 1] != null && HandedOn(tag) && AllApdus(payload) ==>
        sessions[number - 1].state == AfterApdus(sessions[number - 1].resource, Apdus(payload), StateFor(tag, old(sessions[number - 1].state)))
      ensures number in old(Healthy()) && tag != CLOSE_SESSION_REQUEST ==> Healthy() == old(Healthy())
      ensures number in old(Healthy()) && tag == CLOSE_SESSION_REQUEST && AllApdus(payload) ==>
        Healthy() == AfterClosing(old(Healthy()), number, sessions[number - 1].resource, payload)
    {
      hide Apdus, AllApdus, Tagged, AfterApdus, Moves;
      if number == 0 || number >= SLMS {
        return;
      }
      var session := sessions[number - 1];
      if session == null {
        return;
      }
      match tag {
        case 0x90 =>
        case 0x94 =>
          session.status, session.state, session.action := first, Started, true;
        case 0x95 =>
          session.state, session.action := InDeletion, true;
        case _ =>
          return;
      }
      StaysClosing(session.resource, Apdus(payload), session.state);
      var overrun := DeliverApdus(session, payload);
    }

    /** What receiveData takes for the parts of a unit that it reads behind the end of: any at all. */
    method ReadOn() returns (u: Spdu)
      ensures u.Open? ==> |u.resource| == 4
      ensures u.Addressed? ==> u.session < 65536
    {
      u := *;
      if (u.Open? && |u.resource| != 4) || (u.Addressed? && u.session >= 65536) {
        u := Malformed;
      }
    }

    /** receiveData: one session unit. For an open request, number and status are what it is answered with. */
    method ReceiveData(slot: int, s: seq<byte>) returns (ghost number: nat, ghost status: byte)
      requires Valid()
      modifies this, Objects()
      ensures Valid() && fresh(Objects() - old(Objects())) && units == old(units) + [s] && number < SLMS
      ensures DataFor(s, old(Healthy())) ==>
        Healthy() == old(Healthy()) && delivered == old(delivered) + DeliveriesOf(s)
      ensures var u := ReadSpdu(s); u.Open? ==>
        && sent == old(sent) + [Sent(slot, SpduBytes(OPEN_SESSION_RESPONSE, [status] + u.resource, number, []))]
        && (number == 0 <==> !KnownResource(u.resource) || forall i :: 0 <= i < SLMS - 1 ==> old(sessions)[i] != null)
        && (number > 0 ==> status == 0 && old(LowestFree(number)) && Healthy() == old(Healthy()) + {number})
        && (number > 0 && AllApdus(u.payload) ==> delivered == old(delivered) + Tagged(number, Apdus(u.payload)))
        && (number == 0 ==> status != 0 && Healthy() == old(Healthy()) && delivered == old(delivered))
      ensures var u := ReadSpdu(s); u.Addressed? ==> sessions == old(sessions) && sent == old(sent)
      ensures var u := ReadSpdu(s); u.Addressed? && u.session in old(Healthy()) && HandedOn(u.tag) ==>
        old(delivered) + Tagged(u.session, Apdus(u.payload)) <= delivered
      ensures var u := ReadSpdu(s);
        u.Addressed? && u.session in old(Healthy()) && u.tag == CLOSE_SESSION_REQUEST && AllApdus(u.payload) ==>
          Healthy() == AfterClosing(old(Healthy()), u.session, sessions[u.session - 1].resource, u.payload)
    {
      hide Apdus, AllApdus, Tagged, ReadSpdu, SpduBytes, KnownResource, Moves, AfterApdus;
      units := units + [s];
      var u := ReadSpdu(s);
      number, status := 0, 0;
      if u.Malformed? {
        u := ReadOn();
      }
      match u
      case Malformed =>
      case Open(resource, payload) =>
        number, status := ReceiveOpen(slot, resource, payload);
      case Addressed(tag, n, first, payload) =>
        ReceiveAddressed(tag, n, first, payload);
    }
  }

  /** One slot: what it has collected of a message in pieces, and the sessions its messages go to. */
  class Slot {
    const number: int
    const table: SessionTable
    var connectionId: byte
    /** receivedData and receivedLen: None is the null pointer. */
    var receivedData: Option<seq<byte>>
    ghost var messages: seq<seq<byte>>

    constructor (number: int, table: SessionTable)
      ensures this.number == number && this.table == table && receivedData == None && messages == []
    {
      this.number, this.table := number, table;
      connectionId, receivedData, messages := 0, None, [];
    }

    ghost function Collected(): Link
      reads this
    {
      Link(receivedData, messages)
    }

    /** A complete message goes to the sessions, and one of them may act on it. */
    method PassOn(message: seq<byte>)
      requires table.Valid()
      modifies `messages, table, table.Objects()
      ensures table.Valid() && fresh(table.Objects() - old(table.Objects()))
      ensures messages == old(messages) + [message] && table.units == old(table.units) + [message]
      ensures DataFor(message, old(table.Healthy())) ==>
        table.Healthy() == old(table.Healthy()) && table.delivered == old(table.delivered) + DeliveriesOf(message)
    {
      hide DataFor, DeliveriesOf;
      ghost var answer, status := table.ReceiveData(number, message);
      var acted, at := table.PollAll();
      messages := messages + [message];
    }

    /** Every message since then was handed to the sessions; if all of them were data for the sessions then open, they are
        still open and were given all of it. */
    ghost predicate Progress(before: seq<seq<byte>>, numbers: set<nat>, deliveries: seq<Delivery>, units: seq<seq<byte>>)
      requires table.Valid()
      reads this, table, table.Objects()
    {
      && |before| <= |messages| && messages[..|before|] == before && table.units == units + messages[|before|..]
      && (AllDataFor(messages[|before|..], numbers) ==>
            table.Healthy() == numbers && table.delivered == deliveries + AllDeliveries(messages[|before|..]))
    }

    lemma NoProgress(before: seq<seq<byte>>, delivered: seq<Delivery>)
      ensures before[..|before|] == before && before[|before|..] == []
      ensures delivered + AllDeliveries([]) == delivered
    {
    }

    lemma ProgressChain(before: seq<seq<byte>>, middle: seq<seq<byte>>, after: seq<seq<byte>>, numbers: set<nat>)
      requires |before| <= |middle| <= |after| && middle[..|before|] == before && after[..|middle|] == middle
      ensures after[..|before|] == before
      ensures after[|before|..] == middle[|before|..] + after[|middle|..]
      ensures AllDataFor(after[|before|..], numbers) <==> AllDataFor(middle[|before|..], numbers) && AllDataFor(after[|middle|..], numbers)
      ensures AllDeliveries(after[|before|..]) == AllDeliveries(middle[|before|..]) + AllDeliveries(after[|middle|..])
    {
      hide DataFor, AllDeliveries;
      var a, b := middle[|before|..], after[|middle|..];
      assert after[|before|..] == a + b;
      AllDeliveriesAppend(a, b);
      assert forall m :: m in a + b <==> m in a || m in b;
    }

    /** process_tpdu, as far as it carries data. */
    method ProcessTpdu(t: Tpdu)
      requires table.Valid()
      modifies `receivedData, `messages, table, table.Objects()
      ensures table.Valid() && fresh(table.Objects() - old(table.Objects()))
      ensures Collected() == Feed(old(Collected()), t)
      ensures Progress(old(messages), old(table.Healthy()), old(table.delivered), old(table.units))
    {
      hide DataFor, DeliveriesOf;
      NoProgress(messages, table.delivered);
      if t.tag == T_DATA_MORE {
        receivedData := Some((if receivedData.None? then [] else receivedData.value) + t.body);
      } else if t.tag == T_DATA_LAST {
        ghost var message := old(Collected()).Pending() + t.body;
        if receivedData.None? {
          assert message == t.body;
          PassOn(t.body);
        } else {
          receivedData := Some(receivedData.value + t.body);
          PassOn(receivedData.value);
          receivedData := None;
        }
        assert messages[|old(messages)|..] == [message];
        assert [] + DeliveriesOf(message) == DeliveriesOf(message);
      }
    }

    /** The first unit of a read, as the loop finds it. */
    static method NextTpdu(d: seq<byte>) returns (t: Option<Tpdu>, behind: seq<byte>)
      ensures t.Some? <==> FirstTpdu(d).Some?
      ensures t.Some? ==> FirstTpdu(d).value == (t.value, behind)
    {
      if |d| == 0 {
        return None, d;
      }
      var field := AsnDecode(d[1..]);
      if field.None? {
        return None, d;
      }
      var length, size := field.value.length, field.value.size;
      if length < 1 || length > |d| - (1 + size) {
        return None, d;
      }
      var rest := d[1 + size..];
      return Some(Tpdu(d[0], rest[0], rest[1..length])), rest[length..];
    }

    /** The loop over the units of one read, behind its slot and connection number. */
    method ReadTpdus(data: seq<byte>) returns (left: seq<byte>)
      requires table.Valid()
      modifies this, table, table.Objects()
      ensures left == Left(data)
      ensures table.Valid() && fresh(table.Objects() - old(table.Objects()))
      ensures Collected() == FeedAll(old(Collected()), Tpdus(data))
      ensures Progress(old(messages), old(table.Healthy()), old(table.delivered), old(table.units))
    {
      hide FirstTpdu, Feed, AllDataFor, AllDeliveries, DataFor;
      NoProgress(messages, table.delivered);
      var d := data;
      while |d| > 0
        invariant table.Valid() && fresh(table.Objects() - old(table.Objects()))
        invariant Left(d) == Left(data)
        invariant FeedAll(Collected(), Tpdus(d)) == FeedAll(old(Collected()), Tpdus(data))
        invariant Progress(old(messages), old(table.Healthy()), old(table.delivered), old(table.units))
        decreases |d|
      {
        var t, behind := NextTpdu(d);
        if t.None? {
          return d;
        }
        connectionId := t.value.connection;
        ghost var middle := messages;
        ProcessTpdu(t.value);
        ProgressChain(old(messages), middle, messages, old(table.Healthy()));
        d := behind;
      }
      left := d;
    }

    /** One read. */
    method ReadOne(piece: seq<byte>) returns (left: seq<byte>)
      requires table.Valid()
      modifies this, table, table.Objects()
      ensures left == LeftOfOne(piece)
      ensures table.Valid() && fresh(table.Objects() - old(table.Objects()))
      ensures Collected() == FeedAll(old(Collected()), UnitsOfOne(piece))
      ensures Progress(old(messages), old(table.Healthy()), old(table.delivered), old(table.units))
    {
      hide Feed, AllDataFor, AllDeliveries, Tpdus, FeedAll, Left;
      left := [];
      if |piece| >= 2 {
        left := ReadTpdus(piece[2..]);
      } else {
        NoProgress(messages, table.delivered);
        NothingFed(Collected());
      }
    }

    /** Read after read; whole says that no read left bytes behind its units. */
    method ReadAll(pieces: seq<seq<byte>>) returns (whole: bool)
      requires table.Valid()
      modifies this, table, table.Objects()
      ensures whole <==> forall i :: 0 <= i < |pieces| ==> LeftOfOne(pieces[i]) == []
      ensures table.Valid() && fresh(table.Objects() - old(table.Objects()))
      ensures Collected() == FeedAll(old(Collected()), UnitsOf(pieces))
      ensures Progress(old(messages), old(table.Healthy()), old(table.delivered), old(table.units))
    {
      hide Feed, AllDataFor, AllDeliveries, FeedAll, UnitsOfOne, LeftOfOne;
      whole := true;
      NoProgress(messages, table.delivered);
      NothingFed(Collected());
      var i := 0;
      while i < |pieces|
        invariant 0 <= i <= |pieces|
        invariant table.Valid() && fresh(table.Objects() - old(table.Objects()))
        invariant whole <==> forall k :: 0 <= k < i ==> LeftOfOne(pieces[k]) == []
        invariant Collected() == FeedAll(old(Collected()), UnitsOf(pieces[..i]))
        invariant Progress(old(messages), old(table.Healthy()), old(table.delivered), old(table.units))
      {
        ghost var middle := messages;
        assert pieces[..i + 1][..i] == pieces[..i];
        FeedAllAppend(old(Collected()), UnitsOf(pieces[..i]), UnitsOfOne(pieces[i]));
        var left := ReadOne(pieces[i]);
        whole := whole && left == [];
        ProgressChain(old(messages), middle, messages, old(table.Healthy()));
        i := i + 1;
      }
      assert pieces[..|pieces|] == pieces;
    }

    /** Whatever a module sends to open sessions, cut into fragments in any way, with any other units between them, in any
        number of reads that hold whole units, and with lengths in any form: each session is given exactly its units, in
        order, and nothing is left over of the reads or of a message. */
    method ReadLetters(pieces: seq<seq<byte>>, ghost link: seq<Piece>, ghost parts: seq<seq<Tpdu>>, ghost cuts: seq<seq<seq<byte>>>, ghost letters: seq<Letter>)
      returns (whole: bool)
      requires table.Valid() && receivedData == None
      requires |link| == |pieces| && forall i :: 0 <= i < |link| ==> link[i].Valid() && pieces[i] == link[i].Bytes()
      requires UnitsIn(link) == Concat(parts) && |parts| == |cuts| == |letters|
      requires forall i :: 0 <= i < |parts| ==> Carries(DataOf(parts[i]), cuts[i])
      requires forall i :: 0 <= i < |letters| ==>
        letters[i].Valid() && letters[i].session in table.Healthy() && Concat(cuts[i]) == letters[i].Bytes()
      modifies this, table, table.Objects()
      ensures whole && table.Valid() && receivedData == None && table.Healthy() == old(table.Healthy())
      ensures table.delivered == old(table.delivered) + Expected(letters)
    {
      hide Feed, AllDataFor, AllDeliveries, UnitsOf, FeedAll, Carries, Letter.Bytes, Expected, Concat, DataOf, Left, UnitsIn, Piece.Valid, Piece.Bytes;
      ghost var all := Assembled(cuts);
      PiecesBack(link, pieces);
      MessagesReassembled(messages, parts, cuts);
      LettersRead(letters, all, table.Healthy());
      whole := ReadAll(pieces);
      assert messages[|old(messages)|..] == all;
    }
  }

  lemma NothingFed(l: Link)
    ensures FeedAll(l, []) == l
  {
  }

  // ----- messages of EN 50221, byte by byte

  /** A transport unit with an open request for the resource manager, and the same in two units. */
  lemma OpenOnTheLink()
    ensures Tpdus([0xa0, 0x07, 0x01, 0x91, 0x04, 0x00, 0x01, 0x00, 0x41]) == [Tpdu(0xa0, 0x01, [0x91, 0x04, 0x00, 0x01, 0x00, 0x41])]
    ensures FeedAll(Link(None, []), [Tpdu(0xa1, 0x01, [0x91, 0x04]), Tpdu(0xa0, 0x01, [0x00, 0x01, 0x00, 0x41])])
         == Link(None, [[0x91, 0x04, 0x00, 0x01, 0x00, 0x41]])
  {
    var t := Tpdu(0xa0, 0x01, [0x91, 0x04, 0x00, 0x01, 0x00, 0x41]);
    assert TpduBytes(t, 1) + [] == [0xa0, 0x07, 0x01, 0x91, 0x04, 0x00, 0x01, 0x00, 0x41];
    FirstTpduBack(t, 1, []);
    NoUnits();
    FirstThen(TpduBytes(t, 1) + [], t, []);
    var a, b := Tpdu(0xa1, 0x01, [0x91, 0x04]), Tpdu(0xa0, 0x01, [0x00, 0x01, 0x00, 0x41]);
    assert [a, b][1..] == [b];
    FeedOne(Feed(Link(None, []), a), b);
    assert [] + a.body + b.body == [0x91, 0x04, 0x00, 0x01, 0x00, 0x41];
  }

  /** Which resources a session can be opened for: resource manager, application information, conditional access, date and
      time, and man-machine interface. */
  lemma Resources(id: seq<byte>)
    ensures KnownResource(id) <==>
      |id| == 4 && id[0] == 0x00 && id[2] == 0x00 && id[3] == 0x41 && id[1] in {0x01, 0x02, 0x03, 0x24, 0x40}
  {
    if |id| == 4 {
      assert id == [id[0], id[1], id[2], id[3]];
    }
  }

  /** An open request and its answer, and data and a close request for session 0x0102. */
  lemma SessionUnits()
    ensures ReadSpdu([0x91, 0x04, 0x00, 0x01, 0x00, 0x41]) == Open([0x00, 0x01, 0x00, 0x41], [])
    ensures ReadSpdu([0x91, 0x00, 0x00, 0x01, 0x00, 0x41]) == Open([0x00, 0x01, 0x00, 0x41], [0x00, 0x01, 0x00, 0x41])
    ensures SpduBytes(OPEN_SESSION_RESPONSE, [0x00] + [0x00, 0x01, 0x00, 0x41], 0x0102, [])
         == [0x92, 0x07, 0x00, 0x00, 0x01, 0x00, 0x41, 0x01, 0x02]
    ensures SpduBytes(SESSION_DATA, [], 0x0102, ApduBytes(ENQUIRY)) == [0x90, 0x02, 0x01, 0x02, 0x9f, 0x80, 0x10, 0x00]
    ensures var u := ReadSpdu([0x95, 0x02, 0x01, 0x02]); u.Addressed? && u.tag == CLOSE_SESSION_REQUEST && u.session == 0x0102
    ensures SpduBytes(CLOSE_SESSION_RESPONSE, [0x00], 0x0102, []) == [0x96, 0x03, 0x00, 0x01, 0x02]
  {
    OpenBack([0x00, 0x01, 0x00, 0x41]);
    assert [OPEN_SESSION_REQUEST] + Built(4).value + [0x00, 0x01, 0x00, 0x41] == [0x91, 0x04, 0x00, 0x01, 0x00, 0x41];
    SpduBack(0x95, [], 0x0102, []);
    assert SpduBytes(0x95, [], 0x0102, []) == [0x95, 0x02, 0x01, 0x02];
    assert ApduBytes(ENQUIRY) == [0x9f, 0x80, 0x10, 0x00];
  }
}
