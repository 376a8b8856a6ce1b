/** The reader of a mapped ring: `EventRing::event_at` as its sequence of loads, with the
    producer running freely before each of them, and the drain its documentation prescribes. */
module EventRings {
  import opened Wrappers
  import opened Bytes
  import opened Utf8
  import opened EventFormat
  import opened RingMemory

  /** The ring as both sides see it. */
  class SharedRing {
    var ring: LiveRing

    constructor (initial: LiveRing)
      ensures ring == initial
    {
      ring := initial;
    }

    /** The producer takes any number of steps of any kind. Every load below runs it first, so
        what is proved of a reader holds of every interleaving of its loads with the producer. */
    method RunProducer()
      modifies this
      ensures Later(old(ring), ring)
    {
      var steps: int := *;
      while steps > 0
        invariant Later(old(ring), ring)
      {
        var next: Ring := *;
        LaterIsTransitive(old(ring), ring, Advanced(ring, next));
        ring := Advanced(ring, next);
        steps := steps - 1;
      }
    }
  }

  /** One load through a mapping: what of, and the ring at that moment. */
  datatype What = OfGeneration | OfWrite | OfTail | OfByte(address: nat)

  datatype Load = Load(what: What, ring: Ring)

  class EventRing {
    const shared: SharedRing
    /** The capacity and the generation of the ring that was mapped. */
    const capacity: Capacity
    const mapped: nat
    /** Every load made so far. */
    ghost var loads: seq<Load>

    ghost predicate Valid()
      reads shared
    {
      && mapped <= shared.ring.generation
      && (Current() ==> shared.ring.capacity == capacity)
    }

    /** The mapping is of the present ring: it has not been resized since. */
    ghost predicate Current()
      reads shared
    {
      shared.ring.generation == mapped
    }

    constructor Map(shared: SharedRing)
      ensures this.shared == shared && Valid() && Current() && loads == []
    {
      this.shared := shared;
      this.capacity := shared.ring.capacity;
      this.mapped := shared.ring.generation;
      this.loads := [];
    }

    // ---- Single loads ----

    method Generation() returns (g: nat)
      requires Valid()
      modifies this`loads, shared
      ensures Valid() && Later(old(shared.ring), shared.ring)
      ensures g == shared.ring.generation
      ensures loads == old(loads) + [Load(OfGeneration, shared.ring)]
    {
      shared.RunProducer();
      g := shared.ring.generation;
      loads := loads + [Load(OfGeneration, shared.ring)];
    }

    method WritePos() returns (pos: nat)
      requires Valid()
      modifies this`loads, shared
      ensures Valid() && Later(old(shared.ring), shared.ring)
      ensures pos == shared.ring.write
      ensures loads == old(loads) + [Load(OfWrite, shared.ring)]
    {
      shared.RunProducer();
      pos := shared.ring.write;
      loads := loads + [Load(OfWrite, shared.ring)];
    }

    method TailPos() returns (pos: nat)
      requires Valid()
      modifies this`loads, shared
      ensures Valid() && Later(old(shared.ring), shared.ring)
      ensures pos == shared.ring.tail
      ensures loads == old(loads) + [Load(OfTail, shared.ring)]
    {
      shared.RunProducer();
      pos := shared.ring.tail;
      loads := loads + [Load(OfTail, shared.ring)];
    }

    /** One volatile byte of the data region, which is mapped twice back to back. Through a
        mapping that is no longer current, any byte at all may be read. */
    method LoadByte(address: nat) returns (b: byte)
      requires Valid() && address < 2 * capacity
      modifies this`loads, shared
      ensures Valid() && Later(old(shared.ring), shared.ring)
      ensures Current() ==> Loads(shared.ring, address, b)
      ensures loads == old(loads) + [Load(OfByte(address), shared.ring)]
    {
      shared.RunProducer();
      loads := loads + [Load(OfByte(address), shared.ring)];
      var slot := address % capacity;
      if slot < |shared.ring.mem| {
        b := shared.ring.mem[slot];
      } else {
        b := *;
      }
    }

    /** Copies a range byte by byte while the producer runs; every address loaded lies within
        the mapping. `pos` is the position the range starts at. */
    method CopyEventBytes(source: nat, length: nat, ghost pos: nat) returns (bytes: seq<byte>)
      requires Valid() && source + length <= 2 * capacity
      requires source % capacity == pos % capacity
      modifies this`loads, shared
      ensures Valid() && Later(old(shared.ring), shared.ring)
      ensures BytesBetween(old(loads), loads, old(shared.ring), shared.ring)
      ensures |bytes| == length
      ensures Current() ==> Faithful(shared.ring.log, shared.ring.tail, bytes, pos, old(shared.ring).write)
    {
      bytes := [];
      ghost var write := shared.ring.write;
      for offset := 0 to length
        invariant Valid() && Later(old(shared.ring), shared.ring)
        invariant BytesBetween(old(loads), loads, old(shared.ring), shared.ring)
        invariant |bytes| == offset
        invariant Current() ==> Faithful(shared.ring.log, shared.ring.tail, bytes, pos, write)
      {
        ghost var before := shared.ring;
        var b := LoadByte(source + offset);
        LaterIsTransitive(old(shared.ring), before, shared.ring);
        if Current() {
          LoadsFrom(shared.ring, source, pos, offset, b);
          FaithfulExtends(before, shared.ring, bytes, b, pos, write);
        }
        bytes := bytes + [b];
      }
    }

    // ---- event_at ----

    /** libpeios' parse: a copy of the fixed header, checked against itself. It yields the
        header and the addresses of the two ranges it delimits, within the mapping. */
    method ParseAt(readPos: nat)
      returns (r: Result<(Header, nat, nat), Errno>, ghost header: seq<byte>)
      requires Valid()
      modifies this`loads, shared
      ensures Valid() && Later(old(shared.ring), shared.ring)
      ensures BytesBetween(old(loads), loads, old(shared.ring), shared.ring)
      ensures |header| == HEADER_BASE
      ensures Current() ==>
                Faithful(shared.ring.log, shared.ring.tail, header, readPos, old(shared.ring).write)
      ensures r.Err? ==> r.error == EINVAL && !InBounds(HeaderOf(header), capacity)
      ensures r.Ok? ==>
                var (h, typeAt, payloadAt) := r.value;
                h == HeaderOf(header) && InBounds(h, capacity)
                && RangeAt(typeAt, h.typeLen, readPos + HEADER_BASE)
                && RangeAt(payloadAt, h.size - h.headerSize, readPos + h.headerSize)
    {
      var start := And(readPos, capacity - 1);
      MaskIsRemainder(readPos, capacity);
      MaskThenAdvance(readPos, 0, capacity);
      var bytes := CopyEventBytes(start, HEADER_BASE, readPos);
      header := bytes;
      var h := HeaderOf(bytes);
      if !InBounds(h, capacity) {
        return Err(EINVAL), header;
      }
      MaskThenAdvance(readPos, HEADER_BASE, capacity);
      MaskThenAdvance(readPos, h.headerSize, capacity);
      return Ok((h, start + HEADER_BASE, start + h.headerSize)), header;
    }

    /** A range of addresses of the mapping that holds the positions from `pos` on. */
    ghost predicate RangeAt(address: nat, length: nat, pos: nat) {
      address + length <= 2 * capacity && address % capacity == pos % capacity
    }

    /** `Event::from_raw`: the owned copies, and the UTF-8 check over the copy. */
    method FromRaw(h: Header, typeAt: nat, payloadAt: nat, ghost readPos: nat, ghost write: nat)
      returns (r: Result<Event, Errno>)
      requires Valid() && InBounds(h, capacity)
      requires RangeAt(typeAt, h.typeLen, readPos + HEADER_BASE)
      requires RangeAt(payloadAt, h.size - h.headerSize, readPos + h.headerSize)
      requires readPos + h.size <= write
      requires Current() ==> write <= shared.ring.write
      modifies this`loads, shared
      ensures Valid() && Later(old(shared.ring), shared.ring)
      ensures BytesBetween(old(loads), loads, old(shared.ring), shared.ring)
      ensures r.Err? ==> r.error == EINVAL
      ensures Current() && shared.ring.tail <= readPos ==>
                write <= |Stream(shared.ring.log)|
                && r == FromWindow(Window(shared.ring.log, readPos, write), h)
    {
      var typeBytes := CopyEventBytes(typeAt, h.typeLen, readPos + HEADER_BASE);
      ghost var typed := shared.ring;
      if !Utf8.Valid(typeBytes) {
        if Current() && shared.ring.tail <= readPos {
          FaithfulPart(typed.log, typed.tail, typeBytes, readPos, HEADER_BASE, write,
                       old(shared.ring).write);
        }
        return Err(EINVAL);
      }
      var payload := CopyEventBytes(payloadAt, h.size - h.headerSize, readPos + h.headerSize);
      LaterIsTransitive(old(shared.ring), typed, shared.ring);
      if Current() && shared.ring.tail <= readPos {
        CopiesAreTheWindow(typed, shared.ring, h, typeBytes, payload, readPos, write, old(shared.ring).write);
      }
      return FromParts(h, typeBytes, payload);
    }

    /** The part of `event_at` between its two checks: whatever happens meanwhile, if the tail
        has still not passed `readPos` then the outcome is that of the published bytes. */
    method Snapshot(readPos: nat, write: nat) returns (event: Result<Event, Errno>, size: nat)
      requires Valid() && readPos < write
      requires Current() ==> write <= shared.ring.write && IsBoundary(shared.ring.log, write)
      modifies this`loads, shared
      ensures Valid() && Later(old(shared.ring), shared.ring)
      ensures BytesBetween(old(loads), loads, old(shared.ring), shared.ring)
      ensures event.Err? ==> event.error == EINVAL
      ensures event.Ok? ==> size >= HEADER_BASE
      ensures Current() && shared.ring.tail <= readPos ==>
                IsWindowOutcome(shared.ring, readPos, write, Sized(event, size))
    {
      ghost var first := shared.ring;
      var parsed, header := ParseAt(readPos);
      ghost var copied := shared.ring;
      if parsed.Err? {
        if Current() && copied.tail <= readPos {
          RejectedSnapshot(first, copied, header, readPos, write);
        }
        return Err(parsed.error), 0;
      }
      var (h, typeAt, payloadAt) := parsed.value;
      size := h.size;
      if size > write - readPos {
        if Current() && copied.tail <= readPos {
          RejectedSnapshot(first, copied, header, readPos, write);
        }
        return Err(EINVAL), size;
      }
      event := FromRaw(h, typeAt, payloadAt, readPos, write);
      LaterIsTransitive(first, copied, shared.ring);
      ghost var now := shared.ring;
      if Current() && now.tail <= readPos {
        AcceptedSnapshot(first, copied, now, header, readPos, write);
      }
    }

    /** The loads `event_at` begins with. */
    method FindSlot(readPos: nat) returns (generation: nat, write: nat, found: bool)
      requires Valid()
      modifies this`loads, shared
      ensures Valid() && Later(old(shared.ring), shared.ring)
      ensures old(loads) <= loads && mapped <= generation
      ensures HasAsked(loads, |old(loads)|, write, generation, shared.ring.generation)
      ensures found <==> !GivenUp(loads, |old(loads)|, readPos)
      ensures found ==> readPos < write
      ensures Current() ==> IsBoundary(shared.ring.log, write) && write <= shared.ring.write
      ensures Current() && !found ==> old(shared.ring.write) <= readPos || readPos < shared.ring.tail
    {
      ghost var start := |loads|;
      generation := Generation();
      ghost var s0 := shared.ring;
      write := WritePos();
      ghost var s1 := shared.ring;
      var tail := TailPos();
      found := !(readPos < tail || readPos >= write);
      LaterIsTransitive(old(shared.ring), s0, s1);
      LaterIsTransitive(old(shared.ring), s1, shared.ring);
      assert GivenUpBy(loads[start + 1], generation, readPos) <==> write <= readPos;
      assert GivenUpBy(loads[start + 2], generation, readPos) <==> readPos < tail;
      if Current() {
        WriteIsBoundary(s1, shared.ring);
      }
    }

    /** The loads it ends with, for a slot that nothing has given up since the load `start`. */
    method StillThere(readPos: nat, generation: nat, ghost start: nat, ghost write: nat)
      returns (there: bool)
      requires Valid() && HasAsked(loads, start, write, generation, shared.ring.generation)
      requires mapped <= generation <= shared.ring.generation && !GivenUp(loads, start, readPos)
      modifies this`loads, shared
      ensures Valid() && Later(old(shared.ring), shared.ring)
      ensures old(loads) <= loads
      ensures there <==> !GivenUp(loads, start, readPos)
      ensures there ==> IsReading(loads, start, write, shared.ring)
      ensures Current() ==> if there then old(shared.ring).tail <= readPos else readPos < shared.ring.tail
    {
      ghost var before := loads;
      var tail := TailPos();
      ghost var s4 := shared.ring;
      ghost var asked := loads;
      GivenUpAlso(before, asked, start, readPos);
      there := tail <= readPos;
      if there {
        var now := Generation();
        there := now == generation;
        LaterIsTransitive(old(shared.ring), s4, shared.ring);
        GivenUpAlso(asked, loads, start, readPos);
        if there {
          OneReading(before, loads, start, write, generation, shared.ring);
        }
      }
    }

    /** `event_at`, load by load, for any `readPos` at all. It reports EAGAIN exactly when one of
        its loads gave the slot up; its other outcomes are of loads of one ring, and as long as
        that is the ring mapped they are what the published bytes decode to, from `readPos` up
        to the write position it loaded. */
    method EventAt(readPos: nat) returns (r: Result<(Event, nat), Errno>, ghost write: nat)
      requires Valid()
      modifies this`loads, shared
      ensures Valid() && Later(old(shared.ring), shared.ring)
      ensures old(loads) <= loads && |old(loads)| < |loads|
      ensures r == Err(EAGAIN) <==> GivenUp(loads, |old(loads)|, readPos)
      ensures r != Err(EAGAIN) ==> IsReading(loads, |old(loads)|, write, shared.ring)
      ensures r.Ok? ==> r.value.1 >= HEADER_BASE
      ensures r == Err(EAGAIN) && Current() ==>
                old(shared.ring.write) <= readPos || readPos < shared.ring.tail
      ensures r != Err(EAGAIN) && Current() ==>
                && IsWindowOutcome(shared.ring, readPos, write, r)
                && IsRecordOutcome(shared.ring, readPos, r)
    {
      ghost var start := |loads|;
      var generation, writePos, found := FindSlot(readPos);
      write := writePos;
      ghost var first := shared.ring;
      ghost var asked := loads;
      if !found {
        return Err(EAGAIN), write;
      }
      var event, size := Snapshot(readPos, writePos);
      ghost var copied := shared.ring;
      LaterIsTransitive(old(shared.ring), first, copied);
      BytesGiveNothingUp(asked, loads, start, readPos, write, generation, first, copied);
      var there := StillThere(readPos, generation, start, write);
      LaterIsTransitive(old(shared.ring), copied, shared.ring);
      if !there {
        return Err(EAGAIN), write;
      }
      if Current() {
        OutcomeStays(copied, shared.ring, readPos, write, Sized(event, size));
      }
      r := if event.Err? then Err(event.error) else Ok((event.value, size));
    }
  }

  // ---- The loads of a call ----

  /** From one sequence of loads to the other, bytes were loaded and nothing else, at moments
      between the two. */
  ghost predicate BytesBetween(before: seq<Load>, after: seq<Load>, from: Ring, to: Ring) {
    && before <= after && from.generation <= to.generation
    && forall i :: |before| <= i < |after| ==>
         after[i].what.OfByte? && from.generation <= after[i].ring.generation <= to.generation
  }

  /** The load tells that the slot at `readPos` is empty or overwritten, or that the ring is no
      longer the one of `generation`. */
  ghost predicate GivenUpBy(load: Load, generation: nat, readPos: nat) {
    match load.what
    case OfGeneration => load.ring.generation != generation
    case OfWrite => load.ring.write <= readPos
    case OfTail => readPos < load.ring.tail
    case OfByte(_) => false
  }

  /** One of the loads from `start` on tells so. */
  ghost predicate GivenUp(loads: seq<Load>, start: nat, readPos: nat)
    requires start < |loads|
  {
    exists i :: start <= i < |loads| && GivenUpBy(loads[i], loads[start].ring.generation, readPos)
  }

  ghost predicate AllOf(loads: seq<Load>, start: nat, low: nat, high: nat) {
    forall i :: start <= i < |loads| ==> low <= loads[i].ring.generation <= high
  }

  /** The loads from `start` on are of the generation, of `write` and of the tail, and then of
      bytes, all of rings of these generations. */
  ghost predicate HasAsked(loads: seq<Load>, start: nat, write: nat, low: nat, high: nat) {
    && start + 3 <= |loads|
    && loads[start].what.OfGeneration? && loads[start + 1].what.OfWrite? && loads[start + 2].what.OfTail?
    && (forall i :: start + 3 <= i < |loads| ==> loads[i].what.OfByte?)
    && loads[start].ring.generation == low && loads[start + 1].ring.write == write
    && AllOf(loads, start, low, high)
  }

  /** The loads of a call that reads the slot: the generation, the write position and the tail,
      then bytes, then the tail and at the end, which is now, the generation again; all of a ring
      of one generation. */
  ghost predicate IsReading(loads: seq<Load>, start: nat, write: nat, now: Ring) {
    && start + 5 <= |loads|
    && loads[start].what.OfGeneration? && loads[start + 1].what.OfWrite? && loads[start + 2].what.OfTail?
    && write == loads[start + 1].ring.write
    && (forall i :: start + 3 <= i < |loads| - 2 ==> loads[i].what.OfByte?)
    && loads[|loads| - 2].what.OfTail? && loads[|loads| - 1] == Load(OfGeneration, now)
    && AllOf(loads, start, loads[start].ring.generation, loads[start].ring.generation)
  }

  lemma GivenUpAlso(before: seq<Load>, after: seq<Load>, start: nat, readPos: nat)
    requires start < |before| && before <= after && |after| == |before| + 1
    ensures GivenUp(after, start, readPos)
       <==> GivenUp(before, start, readPos)
            || GivenUpBy(after[|before|], before[start].ring.generation, readPos)
  {
    if GivenUp(before, start, readPos) {
      var i :| start <= i < |before| && GivenUpBy(before[i], before[start].ring.generation, readPos);
      assert GivenUpBy(after[i], after[start].ring.generation, readPos);
    }
  }

  lemma BytesGiveNothingUp(before: seq<Load>, after: seq<Load>, start: nat, readPos: nat, write: nat, low: nat,
                           from: Ring, to: Ring)
    requires HasAsked(before, start, write, low, from.generation) && BytesBetween(before, after, from, to)
    requires !GivenUp(before, start, readPos) && low <= from.generation
    ensures HasAsked(after, start, write, low, to.generation) && !GivenUp(after, start, readPos)
  {
    forall i | start <= i < |after|
      ensures low <= after[i].ring.generation <= to.generation
      ensures i >= start + 3 ==> after[i].what.OfByte?
      ensures !GivenUpBy(after[i], low, readPos)
    {
      if i < |before| {
        assert after[i] == before[i] && !GivenUpBy(before[i], low, readPos);
      }
    }
  }

  /** Loads with the generation unchanged from the first to the last are one reading. */
  lemma OneReading(read: seq<Load>, loads: seq<Load>, start: nat, write: nat, generation: nat, now: Ring)
    requires HasAsked(read, start, write, generation, generation)
    requires read <= loads && |loads| == |read| + 2
    requires loads[|read|].what.OfTail? && loads[|read| + 1] == Load(OfGeneration, now)
    requires loads[|read|].ring.generation == now.generation == generation
    ensures IsReading(loads, start, write, now)
  {
    forall i | start <= i < |loads|
      ensures loads[i].ring.generation == generation
    {
      assert i < |read| ==> loads[i] == read[i];
    }
  }

  /** A type string copied by `typed` and a payload copied after it, from `pos` on. */
  lemma CopiesAreTheWindow(typed: LiveRing, now: LiveRing, h: Header, typeBytes: seq<byte>,
                           payload: seq<byte>, pos: nat, write: nat, upTo: nat)
    requires HEADER_BASE + h.typeLen <= h.headerSize <= h.size
    requires |typeBytes| == h.typeLen && |payload| == h.size - h.headerSize
    requires Later(typed, now) && typed.generation == now.generation && now.tail <= pos
    requires pos + h.size <= write <= upTo <= typed.write
    requires Faithful(typed.log, typed.tail, typeBytes, pos + HEADER_BASE, upTo)
    requires Faithful(now.log, now.tail, payload, pos + h.headerSize, typed.write)
    ensures write <= |Stream(now.log)|
    ensures FromParts(h, typeBytes, payload) == FromWindow(Window(now.log, pos, write), h)
  {
    FaithfulStays(typed.log, typed.tail, now.log, now.tail, typeBytes, pos + HEADER_BASE, upTo);
    FaithfulPart(now.log, now.tail, typeBytes, pos, HEADER_BASE, write, upTo);
    FaithfulPart(now.log, now.tail, payload, pos, h.headerSize, write, typed.write);
  }

  /** A header rejected before the tail passed it is rejected of the published bytes. */
  lemma RejectedSnapshot(first: LiveRing, copied: LiveRing, header: seq<byte>, pos: nat, write: nat)
    requires Later(first, copied) && first.generation == copied.generation && copied.tail <= pos
    requires pos < write <= first.write && |header| == HEADER_BASE
    requires Faithful(copied.log, copied.tail, header, pos, first.write)
    requires InBounds(HeaderOf(header), copied.capacity) ==> HeaderOf(header).size > write - pos
    requires IsBoundary(first.log, write)
    ensures IsWindowOutcome(copied, pos, write, Err(EINVAL))
  {
    BoundaryStays(first.log, copied.log, write);
    if pos + HEADER_BASE <= write {
      FaithfulPart(copied.log, copied.tail, header, pos, 0, write, first.write);
    }
    WindowRejected(Window(copied.log, pos, write), header, copied.capacity);
  }

  /** A header accepted and not given up since is the published bytes' own. */
  lemma AcceptedSnapshot(first: LiveRing, copied: LiveRing, now: LiveRing, header: seq<byte>, pos: nat,
                         write: nat)
    requires Later(first, copied) && Later(copied, now)
    requires first.generation == now.generation && now.tail <= pos < write <= first.write
    requires |header| == HEADER_BASE && Faithful(copied.log, copied.tail, header, pos, first.write)
    requires InBounds(HeaderOf(header), now.capacity) && HeaderOf(header).size <= write - pos
    requires IsBoundary(first.log, write)
    ensures write <= |Stream(now.log)|
    ensures IsWindowOutcome(now, pos, write,
                            Sized(FromWindow(Window(now.log, pos, write), HeaderOf(header)), HeaderOf(header).size))
  {
    BoundaryStays(first.log, copied.log, write);
    BoundaryStays(copied.log, now.log, write);
    FaithfulStays(copied.log, copied.tail, now.log, now.tail, header, pos, first.write);
    FaithfulPart(now.log, now.tail, header, pos, 0, write, first.write);
    WindowAccepted(Window(now.log, pos, write), header, now.capacity);
  }

  ghost predicate IsBoundary(log: seq<seq<byte>>, pos: nat) {
    exists k :: 0 <= k <= |log| && pos == Offset(log, k)
  }

  lemma BoundaryStays(log: seq<seq<byte>>, longer: seq<seq<byte>>, pos: nat)
    requires log <= longer && IsBoundary(log, pos)
    ensures IsBoundary(longer, pos)
  {
    var k :| 0 <= k <= |log| && pos == Offset(log, k);
    OffsetStays(log, longer, k);
  }

  lemma WriteIsBoundary(r: LiveRing, now: LiveRing)
    requires Later(r, now) && r.generation == now.generation
    ensures IsBoundary(now.log, r.write)
  {
    assert r.log[..|r.log|] == r.log;
    assert r.write == Offset(r.log, |r.log|);
    BoundaryStays(r.log, now.log, r.write);
  }

  /** `r` is what the published bytes from `pos` to `write`, a record boundary, decode to. */
  ghost predicate IsWindowOutcome(ring: LiveRing, pos: nat, write: nat, r: Result<(Event, nat), Errno>) {
    && pos < write <= |Stream(ring.log)| && IsBoundary(ring.log, write)
    && r == DecodeAt(Window(ring.log, pos, write), ring.capacity)
  }

  lemma OutcomeStays(copied: LiveRing, now: LiveRing, pos: nat, write: nat, r: Result<(Event, nat), Errno>)
    requires Later(copied, now) && copied.generation == now.generation && IsWindowOutcome(copied, pos, write, r)
    ensures IsWindowOutcome(now, pos, write, r) && IsRecordOutcome(now, pos, r)
  {
    WindowStays(copied.log, now.log, pos, write);
    BoundaryStays(copied.log, now.log, write);
    RecordOutcome(now, pos, write, r);
  }

  /** From the start of a published record the outcome is that record: its event and its
      size, never an error and never a mixture. */
  lemma OutcomeAtBoundary(ring: LiveRing, k: nat, write: nat, r: Result<(Event, nat), Errno>)
    requires k <= |ring.log| && IsWindowOutcome(ring, Offset(ring.log, k), write, r)
    ensures k < |ring.log|
    ensures r.Ok? && r == DecodeAt(ring.log[k], ring.capacity)
    ensures Offset(ring.log, k) + r.value.1 == Offset(ring.log, k + 1)
  {
    var j :| 0 <= j <= |ring.log| && write == Offset(ring.log, j);
    NoEmptyRecord(ring);
    OffsetsDetermine(ring.log, k, j);
    WindowStartsWithRecord(ring, k, j);
  }

  /** If `pos` is a record boundary, then `r` is the record published there. */
  ghost predicate IsRecordOutcome(ring: LiveRing, pos: nat, r: Result<(Event, nat), Errno>) {
    forall k :: 0 <= k <= |ring.log| && pos == Offset(ring.log, k) ==>
      k < |ring.log| && r.Ok? && r == DecodeAt(ring.log[k], ring.capacity)
  }

  lemma RecordOutcome(ring: LiveRing, pos: nat, write: nat, r: Result<(Event, nat), Errno>)
    requires IsWindowOutcome(ring, pos, write, r)
    ensures IsRecordOutcome(ring, pos, r)
  {
    forall k | 0 <= k <= |ring.log| && pos == Offset(ring.log, k)
      ensures k < |ring.log| && r.Ok? && r == DecodeAt(ring.log[k], ring.capacity)
    {
      OutcomeAtBoundary(ring, k, write, r);
    }
  }

  lemma NoEmptyRecord(ring: LiveRing)
    ensures [] !in ring.log
  {
  }

  /** From publishing to reading: with room for it, every well-formed record can be published,
      and what `event_at` makes of its position, as long as it has not been given up, is exactly
      its event and its size. */
  lemma PublishedIsRead(ring: LiveRing, record: Record) returns (run: seq<Ring>)
    requires WellFormed(record, ring.capacity) && ring.pending == []
    requires ring.write + |Encode(record)| <= ring.tail + ring.capacity
    ensures IsRun(run) && run[0] == ring
    ensures var last := run[|run| - 1];
            && Inv(last) && last.log == ring.log + [Encode(record)]
            && forall write, outcome :: IsWindowOutcome(last, ring.write, write, outcome) ==>
                 outcome == Ok((EventOf(record), |Encode(record)|))
  {
    EncodingIsRecord(record, ring.capacity);
    run := RecordCanBePublished(ring, Encode(record));
    var end := |run| - 1;
    RunKeepsInv(run, end);
    RunMovesForward(run, 0, end);
    var last: LiveRing := run[end];
    var k := |ring.log|;
    assert last.log[..k] == ring.log && last.log[k] == Encode(record);
    forall write, outcome | IsWindowOutcome(last, ring.write, write, outcome)
      ensures outcome == Ok((EventOf(record), |Encode(record)|))
    {
      OutcomeAtBoundary(last, k, write, outcome);
    }
  }

  // ---- The documented drain ----

  datatype Polled = Delivered | Lapped | Empty | Resized | Failed(error: Errno)

  /** A consumer that owns its read position: it advances it by each event's size, jumps to the
      tail when it was lapped, and gives up the mapping when the ring was resized. */
  class Consumer {
    const ring: EventRing
    var readPos: nat
    var delivered: seq<Event>

    /** The record `readPos` stands at, and which records were delivered. */
    ghost var at: nat
    ghost var from: nat
    ghost var picked: seq<nat>

    ghost predicate Valid()
      reads this, ring.shared
    {
      && ring.Valid()
      && (ring.Current() ==> Progress(ring.shared.ring, readPos, delivered, at, from, picked))
    }

    /** Starts at the oldest record still there. */
    constructor (ring: EventRing)
      requires ring.Valid()
      modifies ring`loads, ring.shared
      ensures this.ring == ring && Valid() && delivered == []
      ensures readPos == ring.shared.ring.tail && (ring.Current() ==> from == ring.shared.ring.tailIndex)
    {
      var tail := ring.TailPos();
      this.ring := ring;
      readPos := tail;
      delivered := [];
      at := ring.shared.ring.tailIndex;
      from := ring.shared.ring.tailIndex;
      picked := [];
    }

    /** One turn of the drain. */
    method Poll() returns (outcome: Polled)
      requires Valid()
      modifies this, ring`loads, ring.shared
      ensures Valid() && Later(old(ring.shared.ring), ring.shared.ring)
      ensures from == old(from)
      ensures old(delivered) <= delivered && old(picked) <= picked
      ensures outcome.Delivered? ==> |delivered| == |old(delivered)| + 1
      ensures !outcome.Delivered? ==> delivered == old(delivered)
      // While the mapping is current: it never fails, it never stands still while there was
      // something to read, and it jumps only forward.
      ensures ring.Current() ==> !outcome.Failed? && !outcome.Resized?
      ensures ring.Current() && outcome.Empty? ==> old(ring.shared.ring.write) <= old(readPos)
      ensures outcome.Delivered? || outcome.Lapped? ==> readPos > old(readPos)
      ensures outcome.Empty? ==> readPos == old(readPos)
      // It jumps to the tail and nowhere else, and a mapping that was not current when the turn
      // began is found out unless an event was delivered.
      ensures outcome.Lapped? ==> readPos == ring.shared.ring.tail
      ensures !old(ring.Current()) && !outcome.Delivered? ==> outcome.Resized?
    {
      ghost var before := ring.shared.ring;
      var r, write := ring.EventAt(readPos);
      ghost var read := ring.shared.ring;
      if ring.Current() {
        ProgressStays(before, read, readPos, delivered, at, from, picked);
      }
      if r.Ok? {
        var (event, size) := r.value;
        Deliver(event, size, write);
        return Delivered;
      }
      if ring.Current() {
        NoErrorAtBoundary(read, readPos, delivered, at, from, picked, write, r);
      }
      outcome := AfterNothing(r.error);
      LaterIsTransitive(before, read, ring.shared.ring);
    }

    /** Takes an event and moves past it. */
    method Deliver(event: Event, size: nat, ghost write: nat)
      requires Valid()
      requires ring.Current() ==> IsWindowOutcome(ring.shared.ring, readPos, write, Ok((event, size)))
      modifies this
      ensures Valid() && from == old(from)
      ensures delivered == old(delivered) + [event] && old(picked) <= picked
      ensures readPos == old(readPos) + size
    {
      if ring.Current() {
        ProgressDelivers(ring.shared.ring, readPos, delivered, at, from, picked, write, Ok((event, size)));
      }
      delivered := delivered + [event];
      readPos := readPos + size;
      picked := picked + [at];
      at := at + 1;
    }

    /** Why nothing was read: the ring was resized, the consumer lapped, or the ring is empty. */
    method AfterNothing(error: Errno) returns (outcome: Polled)
      requires Valid() && (ring.Current() ==> error == EAGAIN)
      modifies this, ring`loads, ring.shared
      ensures Valid() && Later(old(ring.shared.ring), ring.shared.ring)
      ensures from == old(from) && delivered == old(delivered) && picked == old(picked)
      ensures ring.Current() ==> outcome.Empty? || outcome.Lapped?
      ensures !outcome.Delivered?
      ensures !old(ring.Current()) ==> outcome.Resized?
      ensures outcome.Resized? ==> !ring.Current()
      ensures outcome.Failed? ==> outcome.error == error != EAGAIN
      ensures outcome.Lapped? ==> readPos == ring.shared.ring.tail
      ensures if outcome.Lapped? then readPos > old(readPos) else readPos == old(readPos)
      ensures outcome.Empty? ==> error == EAGAIN && ring.shared.ring.tail <= readPos
    {
      ghost var before := ring.shared.ring;
      var generation := ring.Generation();
      ghost var checked := ring.shared.ring;
      if generation != ring.mapped {
        return Resized;
      }
      var tail := ring.TailPos();
      ghost var now := ring.shared.ring;
      LaterIsTransitive(before, checked, now);
      if ring.Current() {
        ProgressStays(before, now, readPos, delivered, at, from, picked);
      }
      if tail > readPos {
        if ring.Current() {
          ProgressJumps(now, readPos, delivered, at, from, picked);
        }
        readPos := tail;
        at := now.tailIndex;
        return Lapped;
      }
      return if error == EAGAIN then Empty else Failed(error);
    }
  }

  predicate IsEventOf(event: Event, record: seq<byte>, capacity: nat) {
    DecodeAt(record, capacity).Ok? && DecodeAt(record, capacity).value.0 == event
  }

  /** The position is a record boundary not past the write position; what was delivered is
      records of the log, each once and in order; every other record passed was overtaken by
      the tail. */
  ghost predicate Progress(r: LiveRing, readPos: nat, delivered: seq<Event>, at: nat, from: nat,
                           picked: seq<nat>)
  {
    && from <= at <= |r.log| && readPos == Offset(r.log, at)
    && |delivered| == |picked|
    && (forall i :: 0 <= i < |picked| ==>
          from <= picked[i] < at && IsEventOf(delivered[i], r.log[picked[i]], r.capacity))
    && (forall i, j :: 0 <= i < j < |picked| ==> picked[i] < picked[j])
    && (forall k :: from <= k < at && k !in picked ==> k < r.tailIndex)
  }

  lemma ProgressStays(r: LiveRing, r': LiveRing, readPos: nat, delivered: seq<Event>, at: nat,
                      from: nat, picked: seq<nat>)
    requires Progress(r, readPos, delivered, at, from, picked)
    requires Later(r, r') && r.generation == r'.generation
    ensures Progress(r', readPos, delivered, at, from, picked)
  {
    OffsetStays(r.log, r'.log, at);
  }

  /** Delivering the record at the position moves the position past exactly that record. */
  lemma ProgressDelivers(r: LiveRing, readPos: nat, delivered: seq<Event>, at: nat, from: nat,
                         picked: seq<nat>, write: nat, outcome: Result<(Event, nat), Errno>)
    requires Progress(r, readPos, delivered, at, from, picked)
    requires IsWindowOutcome(r, readPos, write, outcome) && outcome.Ok?
    ensures Progress(r, readPos + outcome.value.1, delivered + [outcome.value.0], at + 1, from,
                     picked + [at])
  {
    OutcomeAtBoundary(r, at, write, outcome);
    var picked' := picked + [at];
    forall k | from <= k < at + 1 && k !in picked'
      ensures k < r.tailIndex
    {
      assert at == picked'[|picked|];
      assert k !in picked;
    }
  }

  lemma NoErrorAtBoundary(r: LiveRing, readPos: nat, delivered: seq<Event>, at: nat, from: nat,
                      picked: seq<nat>, write: nat, outcome: Result<(Event, nat), Errno>)
    requires Progress(r, readPos, delivered, at, from, picked) && outcome.Err?
    requires outcome != Err(EAGAIN) ==> IsWindowOutcome(r, readPos, write, outcome)
    ensures outcome == Err(EAGAIN)
  {
    if outcome != Err(EAGAIN) {
      OutcomeAtBoundary(r, at, write, outcome);
    }
  }

  /** Jumping to the tail passes over records the tail has overtaken, and no others. */
  lemma ProgressJumps(r: LiveRing, readPos: nat, delivered: seq<Event>, at: nat, from: nat,
                      picked: seq<nat>)
    requires Progress(r, readPos, delivered, at, from, picked) && readPos < r.tail
    ensures Progress(r, r.tail, delivered, r.tailIndex, from, picked)
  {
    NoEmptyRecord(r);
    OffsetsDetermine(r.log, at, r.tailIndex);
  }
}
