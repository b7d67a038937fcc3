/** Two threads that move a transport stream through a ring buffer into a file: lib/libazbox/record_cs.cpp over
    src/driver/ringbuffer.c, as interleaved atomic steps. */
module Recorder {
  import opened Collections
  import opened Octets
  import opened RingBuffers

  const TS_SIZE: nat := 188
  const IN_SIZE: nat := 188 * 362
  const SYNC: byte := 0x47

  // ----- the two threads

  /** Where the demux thread is. */
  datatype Source =
    | Searching                                                     // for the first sync byte
    | Found(rest: seq<byte>)                                        // it was found; rest starts with it
    | Storing(a: seq<byte>, b: seq<byte>, excess: seq<byte>, next: nat)   // a, then b, fit; next is to be read then
    | Stored(a: seq<byte>, b: seq<byte>, excess: seq<byte>, next: nat)    // a is in the cells and not yet announced
    | Panicking(dropped: seq<byte>)                                 // the ring is too full
    | Planning(todo: nat)
    | Reading(at: nat, todo: nat, todo2: nat)                       // todo bytes to at, then todo2 to the start of the ring
    | Received(at: nat, todo: nat, todo2: nat, r: nat)              // r bytes are in the cells and not yet announced
    | Finished(dropped: seq<byte>)                                  // dropped was read and never went into the ring

  /** Where the file thread is. */
  datatype Sink =
    | Looking
    | Empty                                                         // nothing was there to read when it looked
    | Writing(vec: Vector)
    | Written(vec: Vector, n: nat)                                  // n bytes are in the file and not yet released
    | Ended

  /** The shared state; demux is all that was read from the device so far. */
  datatype State = State(ring: Ring, running: bool, source: Source, sink: Sink, demux: seq<byte>, file: seq<byte>)

  /** sync_byte_offset */
  function SyncOffset(buf: seq<byte>): (i: nat)
    ensures i <= |buf| && SYNC !in buf[..i] && (i < |buf| ==> buf[i] == SYNC)
  {
    if buf == [] || buf[0] == SYNC then 0 else 1 + SyncOffset(buf[1..])
  }

  method SyncByteOffset(buf: seq<byte>) returns (offset: int)
    ensures offset == if SYNC in buf then SyncOffset(buf) as int else -1
    ensures if 0x47 in buf then 0 <= offset < |buf| && buf[offset] == 0x47 && 0x47 !in buf[..offset] else offset == -1
  {
    var i := 0;
    while i < |buf|
      invariant 0 <= i <= |buf| && SYNC !in buf[..i]
    {
      if buf[i] == SYNC {
        FirstSync(buf, i);
        return i;
      }
      i := i + 1;
    }
    return -1;
  }

  lemma FirstSync(buf: seq<byte>, i: nat)
    requires i < |buf| && SYNC !in buf[..i] && buf[i] == SYNC
    ensures SyncOffset(buf) == i
  {
    if i > 0 {
      assert buf[..i][0] == buf[0];
      assert buf[1..][..i - 1] == buf[..i][1..];
      FirstSync(buf[1..], i - 1);
    }
  }

  /** One atomic step of either thread, or of whoever stops the recording. */
  datatype Step =
    | Stop
    | Search(bytes: seq<byte>)              // a read of at most TS_SIZE bytes while no sync byte was seen
    | Measure                               // ringbuffer_write asks for the space
    | Put                                   // it copies one stretch
    | Advance                               // it moves the write position behind that stretch
    | Panic                                 // the exit flag is set because the ring is too full
    | Plan                                  // the write vector is asked for
    | Read(bytes: seq<byte>)                // a read into the ring
    | Announce                              // ringbuffer_write_advance
    | Finish                                // the demux thread sees the exit flag
    | Look                                  // the read vector is asked for
    | Write(n: nat)                         // a write of part or all of the first stretch
    | Release                               // ringbuffer_read_advance
    | CheckExit                             // the exit flag is looked at because there was nothing to write
    | WriteFailure

  /** Whether a step can come next. The exit flag may change between a thread's test of it and the step behind the test,
      so only the steps that end a thread depend on it. */
  predicate Enabled(s: State, step: Step) {
    match step
    case Stop => true
    case Search(bytes) => s.source.Searching? && |bytes| <= TS_SIZE
    case Measure => s.source.Found?
    case Put => s.source.Storing?
    case Advance => s.source.Stored?
    case Panic => s.source.Panicking?
    case Plan => s.source.Planning?
    case Read(bytes) => s.source.Reading? && |bytes| <= s.source.todo
    case Announce => s.source.Received?
    case Finish => !s.running && (s.source.Searching? || s.source.Found? || s.source.Planning? || s.source.Reading?)
    case Look => s.sink.Looking?
    case Write(n) => s.sink.Writing? && n <= s.sink.vec.len0
    case Release => s.sink.Written?
    case CheckExit => s.sink.Empty?
    case WriteFailure => s.sink.Writing?
  }

  /** The demux thread's plan for the next todo bytes, over the write vector; None where the ring has no room for them. */
  function Planned(vec: Vector, todo: nat): Option<Source> {
    if todo < vec.len0 then Some(Reading(vec.at, todo, 0))
    else if todo - vec.len0 > vec.len1 then None
    else Some(Reading(vec.at, vec.len0, todo - vec.len0))
  }

  /** The same with the two signed numbers of the source. */
  method SplitTodo(vec: Vector, todo: nat) returns (plan: Option<Source>)
    ensures plan == Planned(vec, todo)
    ensures plan == None <==> todo > vec.len0 + vec.len1
  {
    var first, todo2: int := todo, todo - vec.len0;
    if todo2 < 0 {
      todo2 := 0;
    } else {
      if todo2 > vec.len1 {
        return None;
      }
      first := vec.len0;
    }
    plan := Some(Reading(vec.at, first, todo2));
  }

  /** The part of the bytes that fits, in one or two stretches; without any space ringbuffer_write returns at once. */
  function Measured(r: Ring, bytes: seq<byte>): Source
    requires r.Valid() && |bytes| <= IN_SIZE
  {
    var n := if |bytes| > r.WriteSpace() then r.WriteSpace() else |bytes|;
    var vec := r.VectorFrom(r.wr, n);
    if n == 0 then Panicking(bytes) else Storing(bytes[..vec.len0], bytes[vec.len0..n], bytes[n..], IN_SIZE - |bytes|)
  }

  /** After the first stretch: the second, or a check that all went in. */
  function Behind(b: seq<byte>, excess: seq<byte>, next: nat): Source {
    if b != [] then Storing(b, [], excess, next) else if excess != [] then Panicking(excess) else Planning(next)
  }

  /** A plan is made exactly when there is room for all the bytes, and it is for all of them, from the start of the vector
      on; the second stretch is used when the first is full. */
  lemma PlannedExactly(vec: Vector, todo: nat)
    ensures Planned(vec, todo) == None <==> todo > vec.len0 + vec.len1
    ensures Planned(vec, todo) != None ==> var p := Planned(vec, todo).value;
      && p.Reading? && p.at == vec.at && p.todo + p.todo2 == todo
      && p.todo <= vec.len0 && p.todo2 <= vec.len1 && (p.todo2 > 0 ==> p.todo == vec.len0)
  {
  }

  /** After r bytes: on along the stretch, to the second stretch, or all done. */
  function Onward(at: nat, todo: nat, todo2: nat, r: nat): Source
    requires r <= todo
  {
    if r == 0 then Reading(at, todo, todo2)
    else if r < todo then Reading(at + r, todo - r, todo2)
    else if todo2 == 0 then Planning(IN_SIZE)
    else Reading(0, todo2, 0)
  }

  /** After n bytes of the first stretch. */
  function Further(vec: Vector, n: nat): Sink
    requires n <= vec.len0
  {
    if n < vec.len0 then Writing(Vector(vec.at + n, vec.len0 - n, vec.len1))
    else if vec.len1 == 0 then Looking
    else Writing(Vector(0, vec.len1, 0))
  }

  // ----- what every step keeps

  /** The demux thread's claim: todo bytes at the write position and todo2 more from the start of the ring are free. */
  predicate Claim(r: Ring, at: nat, todo: nat, todo2: nat)
    requires r.Valid()
  {
    at == r.wr && todo + todo2 <= r.WriteSpace() && r.wr + todo <= r.Size() && (todo2 > 0 ==> r.wr + todo == r.Size())
  }

  predicate SourceValid(ring: Ring, source: Source)
    requires ring.Valid()
  {
    match source
    case Found(rest) => 1 <= |rest| <= TS_SIZE
    case Storing(a, b, _, _) => Claim(ring, ring.wr, |a|, |b|)
    case Stored(a, b, _, _) => Claim(ring, ring.wr, |a|, |b|) && ring.cells[ring.wr..ring.wr + |a|] == a
    case Reading(at, todo, todo2) => Claim(ring, at, todo, todo2)
    case Received(at, todo, todo2, r) => Claim(ring, at, todo, todo2) && r <= todo
    case _ => true
  }

  /** The file thread's hold: its two stretches are there to be read, from the read position on. */
  predicate Hold(r: Ring, vec: Vector)
    requires r.Valid()
  {
    && vec.at == r.rd && vec.len0 + vec.len1 <= r.ReadSpace() && r.rd + vec.len0 <= r.Size()
    && (vec.len1 > 0 ==> r.rd + vec.len0 == r.Size())
  }

  predicate SinkValid(ring: Ring, sink: Sink)
    requires ring.Valid()
  {
    match sink
    case Writing(vec) => Hold(ring, vec)
    case Written(vec, n) => Hold(ring, vec) && n <= vec.len0
    case _ => true
  }

  /** The stream from its first sync byte on. */
  function FromSync(demux: seq<byte>): seq<byte> {
    demux[SyncOffset(demux)..]
  }

  /** Bytes in the file that the ring still holds. */
  function Held(sink: Sink): nat {
    if sink.Written? then sink.n else 0
  }

  /** All that went through the ring: what the file got and what is still to come. */
  function Passed(s: State): seq<byte>
    requires s.ring.Valid() && SinkValid(s.ring, s.sink) && Held(s.sink) <= |s.ring.Contents()|
  {
    s.file + s.ring.Contents()[Held(s.sink)..]
  }

  /** What was read of the stream and did not go through the ring, or has not yet. */
  function Coming(s: State): seq<byte>
    requires s.ring.Valid() && SourceValid(s.ring, s.source)
  {
    match s.source
    case Found(rest) => rest
    case Storing(a, b, excess, _) => a + b + excess
    case Stored(a, b, excess, _) => a + b + excess
    case Received(at, _, _, r) => s.ring.cells[at..at + r]
    case Panicking(dropped) => dropped
    case Finished(dropped) => dropped
    case _ => []
  }

  predicate Invariant(s: State) {
    && s.ring.Valid() && SourceValid(s.ring, s.source) && SinkValid(s.ring, s.sink)
    && Held(s.sink) <= |s.ring.Contents()|
    && Passed(s) + Coming(s) == FromSync(s.demux)
    && (s.source.Searching? ==> SYNC !in s.demux)
    && (!s.source.Searching? && !s.source.Finished? ==> SYNC in s.demux)
  }

  function Take(s: State, step: Step): State
    requires Invariant(s) && Enabled(s, step)
  {
    match step
    case Stop => s.(running := false)
    case Search(bytes) =>
      var i := SyncOffset(bytes);
      s.(demux := s.demux + bytes, source := if i < |bytes| then Found(bytes[i..]) else Searching)
    case Measure => s.(source := Measured(s.ring, s.source.rest))
    case Put =>
      var Storing(a, b, excess, next) := s.source;
      s.(ring := s.ring.Fill(s.ring.wr, a), source := Stored(a, b, excess, next))
    case Advance =>
      var Stored(a, b, excess, next) := s.source;
      s.(ring := s.ring.WriteAdvance(|a|), source := Behind(b, excess, next))
    case Panic => s.(running := false, source := Finished(s.source.dropped))
    case Plan =>
      var plan := Planned(s.ring.WriteVector(), s.source.todo);
      s.(source := if plan.Some? then plan.value else Panicking([]))
    case Read(bytes) =>
      var Reading(at, todo, todo2) := s.source;
      s.(ring := s.ring.Fill(at, bytes), demux := s.demux + bytes, source := Received(at, todo, todo2, |bytes|))
    case Announce =>
      var Received(at, todo, todo2, r) := s.source;
      s.(ring := s.ring.WriteAdvance(r), source := Onward(at, todo, todo2, r))
    case Finish => s.(source := Finished(Coming(s)))
    case Look => s.(sink := if s.ring.ReadSpace() > 0 then Writing(s.ring.ReadVector()) else Empty)
    case Write(n) =>
      var vec := s.sink.vec;
      s.(file := s.file + s.ring.cells[vec.at..vec.at + n], sink := Written(vec, n))
    case Release =>
      var Written(vec, n) := s.sink;
      s.(ring := s.ring.ReadAdvance(n), sink := Further(vec, n))
    case CheckExit => s.(sink := if s.running then Looking else Ended)
    case WriteFailure => s.(running := false, sink := Ended)
  }

  function Initial(size: nat): State
    requires size > 0
  {
    State(Ring(seq(size, _ => 0), 0, 0), true, Searching, Looking, [], [])
  }

  lemma SyncAppend(d: seq<byte>, b: seq<byte>)
    ensures SYNC !in d ==> SyncOffset(d + b) == |d| + SyncOffset(b)
    ensures SYNC in d ==> FromSync(d + b) == FromSync(d) + b
  {
    if SYNC in d {
      var k := SyncOffset(d);
      assert k < |d|;
      assert (d + b)[..k] == d[..k];
      FirstSync(d + b, k);
    } else if SYNC in b {
      var k := SyncOffset(b);
      assert (d + b)[..|d| + k] == d + b[..k];
      FirstSync(d + b, |d| + k);
    } else {
      NoSync(d + b);
      NoSync(b);
    }
  }

  lemma {:induction false} NoSync(d: seq<byte>)
    requires SYNC !in d
    ensures SyncOffset(d) == |d|
  {
    if d != [] {
      assert d[0] in d;
      NoSync(d[1..]);
    }
  }

  lemma SearchKeeps(s: State, bytes: seq<byte>)
    requires Invariant(s) && Enabled(s, Search(bytes))
    ensures Invariant(Take(s, Search(bytes)))
  {
    hide Ring.Contents, Ring.WriteSpace, Ring.ReadSpace, SyncOffset, FromSync, SinkValid;
    var e := Take(s, Search(bytes));
    SearchedStream(s.demux, bytes);
    assert Passed(s) + [] == Passed(s) == Passed(e);
    assert Passed(s) == [];
    assert [] + Coming(e) == Coming(e);
  }

  lemma SearchedStream(d: seq<byte>, b: seq<byte>)
    requires SYNC !in d
    ensures FromSync(d) == [] && FromSync(d + b) == b[SyncOffset(b)..]
    ensures SYNC !in b ==> SyncOffset(b) == |b|
  {
    hide SyncOffset;
    NoSync(d);
    SyncAppend(d, b);
    if SYNC !in b {
      NoSync(b);
    }
  }

  lemma MeasureKeeps(s: State)
    requires Invariant(s) && Enabled(s, Measure)
    ensures Invariant(Take(s, Measure))
  {
    hide Ring.Contents, SyncOffset, FromSync, Measured;
    MeasuredFits(s.ring, s.source.rest);
    assert Passed(Take(s, Measure)) == Passed(s);
  }

  lemma MeasuredFits(r: Ring, bytes: seq<byte>)
    requires r.Valid() && |bytes| <= IN_SIZE
    ensures var m := Measured(r, bytes);
      || m == Panicking(bytes)
      || (m.Storing? && Claim(r, r.wr, |m.a|, |m.b|) && m.a + m.b + m.excess == bytes)
  {
    WriteLimit(r);
  }

  lemma PutKeeps(s: State)
    requires Invariant(s) && Enabled(s, Put)
    ensures Invariant(Take(s, Put))
  {
    hide Ring.Contents, Ring.WriteSpace, Ring.ReadSpace, Ring.Fill, SyncOffset, FromSync;
    FillRing(s.ring, s.source.a);
  }

  lemma AdvanceKeeps(s: State)
    requires Invariant(s) && Enabled(s, Advance)
    ensures Invariant(Take(s, Advance))
  {
    hide Ring.Contents, Ring.WriteSpace, Ring.ReadSpace, Ring.WriteAdvance, SyncOffset, FromSync, SourceValid, Coming, Behind;
    AdvanceClaims(s);
    var Stored(a, b, excess, next) := s.source;
    PassedOn(s, Take(s, Advance), a);
    Regroup(Passed(s), a, b, excess);
  }

  lemma AdvanceClaims(s: State)
    requires Invariant(s) && Enabled(s, Advance)
    ensures var e, a := Take(s, Advance), s.source.a;
      && e.ring.Valid() && e.ring.Contents() == s.ring.Contents() + a
      && SourceValid(e.ring, e.source) && SinkValid(e.ring, e.sink) && Held(e.sink) <= |e.ring.Contents()|
      && Coming(s) == a + s.source.b + s.source.excess && Coming(e) == s.source.b + s.source.excess
      && !e.source.Searching? && !e.source.Finished?
  {
    hide Ring.Contents, Ring.WriteSpace, Ring.ReadSpace, Ring.WriteAdvance, SyncOffset, FromSync;
    AnnounceRing(s.ring, |s.source.a|);
  }

  lemma Regroup(p: seq<byte>, a: seq<byte>, b: seq<byte>, c: seq<byte>)
    ensures p + (a + b + c) == p + a + (b + c)
  {
  }

  /** Bytes that are announced pass from the demux thread to the ring. */
  lemma PassedOn(s: State, e: State, x: seq<byte>)
    requires Invariant(s) && e.ring.Valid() && e.ring.Contents() == s.ring.Contents() + x
    requires SinkValid(e.ring, e.sink) && e.sink == s.sink && e.file == s.file
    ensures Passed(e) == Passed(s) + x
  {
    hide Ring.Contents, FromSync, SinkValid, SourceValid, Coming;
    var c, h := s.ring.Contents(), Held(s.sink);
    assert (c + x)[h..] == c[h..] + x;
    assert s.file + (c[h..] + x) == s.file + c[h..] + x;
  }

  lemma PlanKeeps(s: State)
    requires Invariant(s) && Enabled(s, Plan)
    ensures Invariant(Take(s, Plan))
  {
    hide Ring.Contents;
  }

  lemma ReadKeeps(s: State, bytes: seq<byte>)
    requires Invariant(s) && Enabled(s, Read(bytes))
    ensures Invariant(Take(s, Read(bytes)))
  {
    hide Ring.Contents, Ring.WriteSpace, Ring.ReadSpace, Ring.Fill, SyncOffset, FromSync;
    FillRing(s.ring, bytes);
    SyncAppend(s.demux, bytes);
  }

  lemma AnnounceKeeps(s: State)
    requires Invariant(s) && Enabled(s, Announce)
    ensures Invariant(Take(s, Announce))
  {
    hide Ring.Contents, Ring.WriteSpace, Ring.ReadSpace, Ring.WriteAdvance, SyncOffset, FromSync;
    AnnounceRing(s.ring, s.source.r);
    var x, e := Coming(s), Take(s, Announce);
    PassedOn(s, e, x);
    assert Coming(e) == [] && Passed(s) + x + [] == Passed(s) + x;
  }

  lemma LookKeeps(s: State)
    requires Invariant(s) && Enabled(s, Look)
    ensures Invariant(Take(s, Look))
  {
    hide Ring.Contents, SyncOffset, FromSync;
    assert Passed(Take(s, Look)) == Passed(s);
  }

  lemma WriteKeeps(s: State, n: nat)
    requires Invariant(s) && Enabled(s, Write(n))
    ensures Invariant(Take(s, Write(n)))
  {
    hide Ring.Contents, Ring.WriteSpace, Ring.ReadSpace, SyncOffset, FromSync;
    ReleaseRing(s.ring, n);
    var c := s.ring.Contents();
    assert s.file + c[0..] == s.file + c[..n] + c[n..];
    assert Passed(Take(s, Write(n))) == Passed(s);
  }

  lemma ReleaseKeeps(s: State)
    requires Invariant(s) && Enabled(s, Release)
    ensures Invariant(Take(s, Release))
  {
    hide Ring.Contents, Ring.WriteSpace, Ring.ReadSpace, Ring.ReadAdvance, SyncOffset, FromSync;
    ReleaseRing(s.ring, s.sink.n);
    var q := s.ring.ReadAdvance(s.sink.n);
    assert q.Contents()[0..] == q.Contents();
    assert Passed(Take(s, Release)) == Passed(s);
  }

  /** Every step of either thread keeps the invariant. */
  lemma TakeKeeps(s: State, step: Step)
    requires Invariant(s) && Enabled(s, step)
    ensures Invariant(Take(s, step))
  {
    match step
    case Search(bytes) => SearchKeeps(s, bytes);
    case Measure => MeasureKeeps(s);
    case Put => PutKeeps(s);
    case Advance => AdvanceKeeps(s);
    case Plan => PlanKeeps(s);
    case Read(bytes) => ReadKeeps(s, bytes);
    case Announce => AnnounceKeeps(s);
    case Look => LookKeeps(s);
    case Write(n) => WriteKeeps(s, n);
    case Release => ReleaseKeeps(s);
    case _ => EndKeeps(s, step);
  }

  lemma EndKeeps(s: State, step: Step)
    requires Invariant(s) && Enabled(s, step)
    requires step.Stop? || step.Panic? || step.Finish? || step.CheckExit? || step.WriteFailure?
    ensures Invariant(Take(s, step))
  {
    hide Ring.Contents, FromSync;
    assert Passed(Take(s, step)) == Passed(s);
    assert Coming(Take(s, step)) == Coming(s);
  }

  function Run(s: State, steps: seq<Step>): (r: State)
    requires Invariant(s) && CanRun(s, steps)
    ensures Invariant(r)
    decreases |steps|
  {
    if steps == [] then s
    else
      TakeKeeps(s, steps[0]);
      Run(Take(s, steps[0]), steps[1..])
  }

  predicate CanRun(s: State, steps: seq<Step>)
    requires Invariant(s)
    decreases |steps|
  {
    steps == [] || (Enabled(s, steps[0]) && (TakeKeeps(s, steps[0]); CanRun(Take(s, steps[0]), steps[1..])))
  }


  // ----- when the threads get on

  /** The recording is given up for want of space exactly when there are fewer free bytes than wanted. */
  lemma PanicsExactly(s: State)
    requires Invariant(s)
    ensures Enabled(s, Plan) ==> (Take(s, Plan).source.Panicking? <==> s.ring.WriteSpace() < s.source.todo)
    ensures Enabled(s, Measure) ==> (Take(s, Measure).source.Panicking? <==> s.ring.WriteSpace() == 0)
    ensures Enabled(s, Advance) ==> (Take(s, Advance).source.Panicking? <==> s.source.b == [] && s.source.excess != [])
  {
    hide Ring.Contents, FromSync;
    VectorCovers(s.ring, s.ring.wr, s.ring.WriteSpace());
  }

  /** ringbuffer_write stores as many of the bytes as there is space for, the first of them in front. */
  lemma MeasuredExactly(r: Ring, bytes: seq<byte>)
    requires r.Valid() && 1 <= |bytes| <= IN_SIZE && r.WriteSpace() > 0
    ensures var m := Measured(r, bytes);
      && m.Storing? && m.a + m.b + m.excess == bytes && |bytes| + m.next == 362 * 188
      && |m.excess| == if |bytes| > r.WriteSpace() then |bytes| - r.WriteSpace() else 0
  {
    WriteLimit(r);
  }

  /** How many bytes a plan still waits for. */
  function Wanted(source: Source): nat {
    match source
    case Reading(_, todo, todo2) => todo + todo2
    case Received(_, todo, todo2, r) => todo + todo2
    case _ => 0
  }

  /** Those that have arrived and are not yet announced. */
  function Arrived(source: Source): nat { if source.Received? then source.r else 0 }

  /** While a plan is carried out: bytes of it were read, and it is done exactly when all of them are announced. */
  ghost predicate Underway(source: Source, n: nat, read: int) {
    if source.Reading? || source.Received? then Arrived(source) <= Wanted(source) && 0 < Wanted(source) && n - read == Wanted(source) - Arrived(source)
    else source == Planning(IN_SIZE) && read == n
  }

  lemma UnderwayStep(s: State, step: Step, n: nat, read: int)
    requires Invariant(s) && Enabled(s, step) && step != Finish && step != Plan && Underway(s.source, n, read)
    ensures Underway(Take(s, step).source, n, read + |Take(s, step).demux| - |s.demux|)
  {
    hide Ring.Contents, FromSync, Ring.WriteSpace, Ring.ReadSpace;
  }

  lemma {:induction false} UnderwayRun(s: State, steps: seq<Step>, n: nat, read: int)
    requires Invariant(s) && CanRun(s, steps) && Finish !in steps && Plan !in steps && Underway(s.source, n, read)
    ensures Underway(Run(s, steps).source, n, read + |Run(s, steps).demux| - |s.demux|)
    decreases |steps|
  {
    hide Invariant, Underway;
    if steps != [] {
      OneMore(s, steps);
      UnderwayStep(s, steps[0], n, read);
      UnderwayRun(Take(s, steps[0]), steps[1..], n, read + |Take(s, steps[0]).demux| - |s.demux|);
    }
  }

  /** With room for the n bytes wanted, the demux thread reads exactly n bytes for one plan, whatever the file thread does
      and however the bytes come, and makes the next plan exactly when all of them were read and announced. */
  lemma PlanCarriedOut(s: State, steps: seq<Step>, n: nat)
    requires Invariant(s) && s.source == Planning(n) && 0 < n <= s.ring.WriteSpace()
    requires Invariant(Take(s, Plan)) && CanRun(Take(s, Plan), steps) && Finish !in steps && Plan !in steps
    ensures var e := Run(Take(s, Plan), steps);
      && |s.demux| <= |e.demux| <= |s.demux| + n
      && (e.source == Planning(IN_SIZE) <==> |e.demux| == |s.demux| + n && !e.source.Received?)
      && (e.source != Planning(IN_SIZE) ==> e.source.Reading? || e.source.Received?)
  {
    hide *;
    PlanBegins(s, n);
    var s1 := Take(s, Plan);
    UnderwayRun(s1, steps, n, 0);
    DemuxGrows(s1, steps);
    UnderwayEnds(Run(s1, steps).source, n, |Run(s1, steps).demux| - |s1.demux|);
  }

  lemma UnderwayEnds(source: Source, n: nat, read: int)
    requires Underway(source, n, read)
    ensures read <= n && (source == Planning(IN_SIZE) <==> read == n && !source.Received?)
    ensures source != Planning(IN_SIZE) ==> source.Reading? || source.Received?
  {
  }

  lemma PlanBegins(s: State, n: nat)
    requires Invariant(s) && s.source == Planning(n) && 0 < n <= s.ring.WriteSpace()
    ensures Enabled(s, Plan) && Underway(Take(s, Plan).source, n, 0) && Take(s, Plan).demux == s.demux
  {
    hide Ring.Contents, FromSync;
    VectorCovers(s.ring, s.ring.wr, s.ring.WriteSpace());
    PlannedExactly(s.ring.WriteVector(), n);
  }

  lemma {:induction false} DemuxGrows(s: State, steps: seq<Step>)
    requires Invariant(s) && CanRun(s, steps)
    ensures |s.demux| <= |Run(s, steps).demux|
    decreases |steps|
  {
    hide Invariant;
    if steps != [] {
      OneMore(s, steps);
      DemuxGrows(Take(s, steps[0]), steps[1..]);
    }
  }

  /** How much of what a look found the file thread has not written yet. */
  ghost predicate Emptying(sink: Sink, n: nat, written: int) {
    match sink
    case Writing(vec) => vec.len0 > 0 && n - written == vec.len0 + vec.len1
    case Written(vec, k) => vec.len0 > 0 && k <= vec.len0 && n - written == vec.len0 + vec.len1 - k
    case Looking => written == n
    case _ => false
  }

  lemma EmptyingStep(s: State, step: Step, n: nat, written: int)
    requires Invariant(s) && Enabled(s, step) && step != Look && step != WriteFailure && Emptying(s.sink, n, written)
    ensures Emptying(Take(s, step).sink, n, written + |Take(s, step).file| - |s.file|)
  {
    hide Ring.Contents, FromSync, Ring.WriteSpace, Ring.ReadSpace;
  }

  lemma {:induction false} EmptyingRun(s: State, steps: seq<Step>, n: nat, written: int)
    requires Invariant(s) && CanRun(s, steps) && Look !in steps && WriteFailure !in steps && Emptying(s.sink, n, written)
    ensures Emptying(Run(s, steps).sink, n, written + |Run(s, steps).file| - |s.file|)
    decreases |steps|
  {
    hide Invariant, Emptying;
    if steps != [] {
      OneMore(s, steps);
      EmptyingStep(s, steps[0], n, written);
      EmptyingRun(Take(s, steps[0]), steps[1..], n, written + |Take(s, steps[0]).file| - |s.file|);
    }
  }

  /** After a look that finds n bytes the file thread writes exactly these, in any pieces, and looks again exactly when all
      of them are written and released. */
  lemma LookCarriedOut(s: State, steps: seq<Step>)
    requires Invariant(s) && s.sink.Looking? && s.ring.ReadSpace() > 0
    requires Invariant(Take(s, Look)) && CanRun(Take(s, Look), steps) && Look !in steps && WriteFailure !in steps
    ensures var e := Run(Take(s, Look), steps);
      && |e.file| <= |s.file| + s.ring.ReadSpace()
      && (e.sink.Looking? <==> |e.file| == |s.file| + s.ring.ReadSpace() && !e.sink.Written?)
  {
    hide *;
    LookBegins(s);
    var n, s1 := s.ring.ReadSpace(), Take(s, Look);
    EmptyingRun(s1, steps, n, 0);
    EmptyingEnds(Run(s1, steps).sink, n, |Run(s1, steps).file| - |s1.file|);
  }

  lemma EmptyingEnds(sink: Sink, n: nat, written: int)
    requires Emptying(sink, n, written)
    ensures written <= n && (sink.Looking? <==> written == n && !sink.Written?)
  {
  }

  lemma LookBegins(s: State)
    requires Invariant(s) && s.sink.Looking? && s.ring.ReadSpace() > 0
    ensures Enabled(s, Look) && s.ring.Valid()
    ensures Emptying(Take(s, Look).sink, s.ring.ReadSpace(), 0) && Take(s, Look).file == s.file
  {
    hide Ring.Contents, FromSync;
    VectorCovers(s.ring, s.ring.rd, s.ring.ReadSpace());
  }

  /** In every interleaving the file is a beginning of the stream from its first sync byte on, and what the demux thread
      is about to fill is free. */
  lemma FileIsPrefix(size: nat, steps: seq<Step>)
    requires size > 0 && Invariant(Initial(size)) && CanRun(Initial(size), steps)
    ensures var s := Run(Initial(size), steps);
      && s.file <= FromSync(s.demux)
      && (s.source.Reading? ==> s.source.todo + s.source.todo2 <= s.ring.WriteSpace())
  {
    hide Ring.Contents, SyncOffset;
    var s := Run(Initial(size), steps);
    assert Passed(s) <= FromSync(s.demux);
  }

  lemma InitialHolds(size: nat)
    requires size > 0
    ensures Invariant(Initial(size))
  {
  }

  /** While no write is being accounted for, the file is the whole stream exactly when the ring is empty and nothing is on
      its way there. */
  lemma WholeWhenEmpty(s: State)
    requires Invariant(s) && !s.sink.Written?
    ensures s.file == FromSync(s.demux) <==> s.ring.Contents() == [] && Coming(s) == []
  {
    hide Ring.Contents, SyncOffset, FromSync, SourceValid, Coming;
    assert |FromSync(s.demux)| == |s.file| + |s.ring.Contents()[0..]| + |Coming(s)|;
    assert s.file + [] + [] == s.file;
  }

  // ----- how a recording ends

  /** A read that brings bytes of the stream. */
  predicate ReadsStream(step: Step) {
    (step.Search? && SYNC in step.bytes) || (step.Read? && step.bytes != [])
  }

  /** The place of the last look at the ring, or -1. */
  function LastLook(steps: seq<Step>): (k: int)
    ensures -1 <= k < |steps| && (k >= 0 ==> steps[k] == Look)
    ensures forall j :: k < j < |steps| ==> steps[j] != Look
  {
    if steps == [] then -1
    else
      var k := LastLook(steps[1..]);
      if k >= 0 then k + 1 else if steps[0] == Look then 0 else -1
  }

  /** The stream only grows, and by exactly what is read. */
  lemma StreamGrows(s: State, step: Step)
    requires Invariant(s) && Enabled(s, step)
    ensures |FromSync(Take(s, step).demux)| >= |FromSync(s.demux)|
    ensures |FromSync(Take(s, step).demux)| == |FromSync(s.demux)| <==> !ReadsStream(step)
  {
    hide Ring.Contents, SyncOffset, FromSync;
    match step
    case Search(bytes) =>
      SearchedStream(s.demux, bytes);
    case Read(bytes) =>
      SyncAppend(s.demux, bytes);
    case _ =>
  }

  /** Without another look the file thread writes nothing. */
  lemma {:induction false} NoLook(s: State, steps: seq<Step>)
    requires Invariant(s) && CanRun(s, steps) && Look !in steps && (s.sink.Looking? || s.sink.Empty? || s.sink.Ended?)
    ensures Run(s, steps).file == s.file
    ensures |FromSync(Run(s, steps).demux)| >= |FromSync(s.demux)|
    ensures |FromSync(Run(s, steps).demux)| == |FromSync(s.demux)| <==> forall j :: 0 <= j < |steps| ==> !ReadsStream(steps[j])
    decreases |steps|
  {
    hide Invariant, FromSync, ReadsStream;
    if steps != [] {
      OneMore(s, steps);
      StreamGrows(s, steps[0]);
      NoLook(Take(s, steps[0]), steps[1..]);
      assert forall j :: 0 < j < |steps| ==> steps[j] == steps[1..][j - 1];
    }
  }

  /** Without another look a file thread that found something does not end by the exit flag. */
  lemma {:induction false} NeverEnds(s: State, steps: seq<Step>)
    requires Invariant(s) && CanRun(s, steps) && Look !in steps && WriteFailure !in steps
    requires !s.sink.Empty? && !s.sink.Ended?
    ensures !Run(s, steps).sink.Ended?
    decreases |steps|
  {
    hide Invariant;
    if steps != [] {
      OneMore(s, steps);
      NeverEnds(Take(s, steps[0]), steps[1..]);
    }
  }

  /** The last look of a run: it finds the ring empty, and what the file misses is what is on its way then or comes later. */
  ghost predicate Decided(s: State, steps: seq<Step>, k: nat)
    requires Invariant(s) && CanRun(s, steps) && k < |steps|
  {
    && CanRun(s, steps[..k])
    && var m, e := Run(s, steps[..k]), Run(s, steps);
       && m.sink.Looking? && m.ring.Contents() == []
       && (e.file == FromSync(e.demux) <==>
             Coming(m) == [] && forall j :: k < j < |steps| ==> !ReadsStream(steps[j]))
  }

  lemma DecidedHere(s: State, steps: seq<Step>)
    requires Invariant(s) && CanRun(s, steps) && steps != [] && steps[0] == Look && Look !in steps[1..]
    requires WriteFailure !in steps && Run(s, steps).sink.Ended?
    ensures Decided(s, steps, 0)
  {
    hide Ring.Contents, Invariant, FromSync, ReadsStream, Coming;
    OneMore(s, steps);
    var m := Take(s, Look);
    if m.sink.Writing? {
      NeverEnds(m, steps[1..]);
    }
    NoLook(m, steps[1..]);
    assert steps[..0] == [];
    NoMore(s);
    EmptyLook(s);
    WholeWhenEmpty(s);
    assert forall j :: 0 < j < |steps| ==> steps[j] == steps[1..][j - 1];
    PrefixWhole(s, Run(s, steps));
  }

  lemma EmptyLook(s: State)
    requires Invariant(s) && s.ring.ReadSpace() == 0
    ensures s.ring.Contents() == []
  {
    SpaceShared(s.ring);
  }

  /** With the same file and at least as long a stream. */
  lemma PrefixWhole(s: State, e: State)
    requires Invariant(s) && Invariant(e) && s.sink.Looking? && e.sink.Ended? && e.file == s.file
    requires |FromSync(e.demux)| >= |FromSync(s.demux)|
    ensures e.file == FromSync(e.demux) <==> s.file == FromSync(s.demux) && |FromSync(e.demux)| == |FromSync(s.demux)|
  {
    hide Ring.Contents, FromSync, Coming, SourceValid;
    assert e.file <= FromSync(e.demux) && s.file <= FromSync(s.demux);
  }

  lemma {:induction false} DecidedAtLastLook(s: State, steps: seq<Step>)
    requires Invariant(s) && CanRun(s, steps) && !s.sink.Ended? && WriteFailure !in steps && Run(s, steps).sink.Ended?
    ensures LastLook(steps) < 0 ==> s.sink.Empty?
    ensures LastLook(steps) >= 0 ==> Decided(s, steps, LastLook(steps))
    decreases |steps|
  {
    hide Invariant, Decided, LastLook;
    if LastLook(steps) < 0 {
      assert Look !in steps;
      if !s.sink.Empty? {
        NeverEnds(s, steps);
      }
    } else if LastLook(steps) == 0 {
      assert Look !in steps[1..];
      DecidedHere(s, steps);
    } else {
      LaterLook(steps);
      OneMore(s, steps);
      AfterTheEnd(Take(s, steps[0]), steps[1..]);
      DecidedAtLastLook(Take(s, steps[0]), steps[1..]);
      DecidedLater(s, steps, LastLook(steps));
    }
  }

  lemma {:induction false} AfterTheEnd(s: State, steps: seq<Step>)
    requires Invariant(s) && CanRun(s, steps)
    ensures s.sink.Ended? ==> Look !in steps
    decreases |steps|
  {
    hide Invariant;
    if steps != [] && s.sink.Ended? {
      OneMore(s, steps);
      AfterTheEnd(Take(s, steps[0]), steps[1..]);
    }
  }

  lemma LaterLook(steps: seq<Step>)
    requires LastLook(steps) > 0
    ensures LastLook(steps[1..]) == LastLook(steps) - 1
  {
  }

  lemma DecidedLater(s: State, steps: seq<Step>, k: nat)
    requires Invariant(s) && CanRun(s, steps) && 0 < k < |steps|
    requires Invariant(Take(s, steps[0])) && CanRun(Take(s, steps[0]), steps[1..])
    requires Decided(Take(s, steps[0]), steps[1..], k - 1)
    ensures Decided(s, steps, k)
  {
    hide Ring.Contents, Invariant, FromSync, ReadsStream, Coming;
    OneMore(s, steps);
    var front := steps[..k];
    assert front[0] == steps[0] && front[1..] == steps[1..][..k - 1];
    OneMore(s, front);
    assert forall j :: k < j < |steps| ==> steps[j] == steps[1..][j - 1];
  }

  /** A file thread that ends by the exit flag has found the ring empty at its last look. The file is then the whole stream
      exactly when at that look nothing was on its way into the ring, and no read after it brings bytes of the stream. */
  lemma EndsComplete(size: nat, steps: seq<Step>)
    requires size > 0 && Invariant(Initial(size)) && CanRun(Initial(size), steps)
    requires WriteFailure !in steps && Run(Initial(size), steps).sink.Ended?
    ensures var k := LastLook(steps);
      && 0 <= k && CanRun(Initial(size), steps[..k])
      && var m, e := Run(Initial(size), steps[..k]), Run(Initial(size), steps);
         && m.ring.Contents() == []
         && (e.file == FromSync(e.demux) <==>
               Coming(m) == [] && forall j :: k < j < |steps| ==> !ReadsStream(steps[j]))
  {
    hide Run, CanRun, Invariant, Coming, FromSync, Ring.Contents, LastLook;
    DecidedAtLastLook(Initial(size), steps);
  }

  /** A recording that is stopped between the file thread's look at the ring and its look at the exit flag loses its end. */
  lemma TailLost()
    ensures var steps := [Search([SYNC]), Look, Measure, Put, Advance, Stop, CheckExit, Finish];
      && Invariant(Initial(4)) && CanRun(Initial(4), steps)
      && var s := Run(Initial(4), steps);
         s.sink.Ended? && s.source.Finished? && FromSync(s.demux) == [SYNC] && s.file == []
  {
    hide Run, CanRun, Invariant, SyncOffset, FromSync, Take, Ring.WriteSpace;
    InitialHolds(4);
    var s, ending := Initial(4), [Measure, Put, Advance, Stop, CheckExit, Finish];
    OneMore(s, [Search([SYNC]), Look] + ending);
    FoundAtOnce(s);
    var s1 := Take(s, Search([SYNC]));
    assert ([Search([SYNC]), Look] + ending)[1..] == [Look] + ending;
    OneMore(s1, [Look] + ending);
    assert ([Look] + ending)[1..] == ending;
    LookedEarly(s1);
    StoredLate(Take(s1, Look));
    assert [Search([SYNC]), Look] + ending == [Search([SYNC]), Look, Measure, Put, Advance, Stop, CheckExit, Finish];
  }

  lemma FoundAtOnce(s: State)
    requires Invariant(s) && s.source.Searching? && s.demux == []
    ensures Take(s, Search([SYNC])) == s.(demux := [SYNC], source := Found([SYNC]))
    ensures FromSync([SYNC]) == [SYNC]
  {
    hide Invariant, SyncOffset;
    FirstSync([SYNC], 0);
    assert [] + [SYNC] == [SYNC];
  }

  lemma LookedEarly(s: State)
    requires Invariant(s) && s.sink.Looking? && s.ring.Valid() && s.ring.ReadSpace() == 0
    ensures Take(s, Look) == s.(sink := Empty) && s.ring.WriteSpace() == s.ring.Size() - 1
  {
    hide Invariant;
  }

  lemma StoredLate(s: State)
    requires Invariant(s) && s.source == Found([SYNC]) && s.sink.Empty? && s.ring.Valid() && s.ring.WriteSpace() >= 1
    ensures CanRun(s, [Measure, Put, Advance, Stop, CheckExit, Finish])
    ensures var e := Run(s, [Measure, Put, Advance, Stop, CheckExit, Finish]);
      e.sink.Ended? && e.source.Finished? && e.demux == s.demux && e.file == s.file
  {
    hide Run, CanRun, Invariant, Ring.Fill, Ring.WriteAdvance, Ring.WriteSpace;
    var ending := [Stop, CheckExit, Finish];
    OneMore(s, [Measure, Put, Advance] + ending);
    assert ([Measure, Put, Advance] + ending)[1..] == [Put, Advance] + ending;
    var s1 := Take(s, Measure);
    MeasuredOne(s.ring);
    OneMore(s1, [Put, Advance] + ending);
    assert ([Put, Advance] + ending)[1..] == [Advance] + ending;
    var s2 := Take(s1, Put);
    OneMore(s2, [Advance] + ending);
    assert ([Advance] + ending)[1..] == ending;
    StoppedEarly(Take(s2, Advance));
    assert [Measure, Put, Advance] + ending == [Measure, Put, Advance, Stop, CheckExit, Finish];
  }

  lemma MeasuredOne(r: Ring)
    requires r.Valid() && r.WriteSpace() >= 1
    ensures Measured(r, [SYNC]) == Storing([SYNC], [], [], IN_SIZE - 1)
  {
  }

  lemma StoppedEarly(s: State)
    requires Invariant(s) && s.source.Planning? && s.sink.Empty?
    ensures CanRun(s, [Stop, CheckExit, Finish])
    ensures var e := Run(s, [Stop, CheckExit, Finish]);
      e.sink.Ended? && e.source.Finished? && e.demux == s.demux && e.file == s.file
  {
    hide Run, CanRun, Invariant;
    OneMore(s, [Stop, CheckExit, Finish]);
    assert [Stop, CheckExit, Finish][1..] == [CheckExit, Finish];
    var s2 := Take(s, Stop);
    OneMore(s2, [CheckExit, Finish]);
    assert [CheckExit, Finish][1..] == [Finish];
    var s3 := Take(s2, CheckExit);
    OneMore(s3, [Finish]);
    assert [Finish][1..] == [];
    NoMore(Take(s3, Finish));
  }

  lemma OneMore(s: State, steps: seq<Step>)
    requires steps != [] && Invariant(s) && Enabled(s, steps[0])
    ensures Invariant(Take(s, steps[0]))
    ensures CanRun(s, steps) <==> CanRun(Take(s, steps[0]), steps[1..])
    ensures CanRun(s, steps) ==> Run(s, steps) == Run(Take(s, steps[0]), steps[1..])
  {
    hide Take, Invariant, Enabled;
    TakeKeeps(s, steps[0]);
  }

  lemma NoMore(s: State)
    requires Invariant(s)
    ensures CanRun(s, []) && Run(s, []) == s
  {
    hide Invariant;
  }
}
