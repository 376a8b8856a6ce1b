/** One per-CPU ring: the memory the kernel's producer and a mapped reader share, the producer's
    steps, and what stays true of them in every interleaving. */
module RingMemory {
  import opened Wrappers
  import opened Bytes
  import opened EventFormat

  // ---- Masked offsets ----

  /** Bitwise and. */
  function And(a: nat, b: nat): nat {
    if a == 0 || b == 0 then 0
    else (if a % 2 == 1 && b % 2 == 1 then 1 else 0) + 2 * And(a / 2, b / 2)
  }

  predicate PowerOfTwo(n: nat) {
    n == 1 || (n > 1 && n % 2 == 0 && PowerOfTwo(n / 2))
  }

  lemma MultipleBound(d: int, c: nat)
    ensures d >= 1 ==> d * c >= c
    ensures d <= -1 ==> d * c + c <= 0
  {
    if d >= 1 {
      assert (d - 1) * c >= 0;
    } else if d <= -1 {
      assert (-d - 1) * c >= 0;
    }
  }

  lemma DivisionIsUnique(x: nat, c: nat, q: nat, r: nat)
    requires r < c && x == q * c + r
    ensures x / c == q && x % c == r
  {
    assert x == (x / c) * c + x % c;
    var d := x / c - q;
    assert d * c == r - x % c;
    MultipleBound(d, c);
  }

  lemma HalfRemainder(pos: nat, half: nat)
    requires half > 0
    ensures pos % (2 * half) == 2 * (pos / 2 % half) + pos % 2
  {
    var q, r := pos / 2 / half, pos / 2 % half;
    assert pos / 2 == q * half + r;
    assert q * (2 * half) == 2 * (q * half);
    DivisionIsUnique(pos, 2 * half, q, 2 * r + pos % 2);
  }

  /** `pos & (capacity - 1)` is the remainder, the capacity being a power of two. */
  lemma {:induction false} MaskIsRemainder(pos: nat, capacity: nat)
    requires PowerOfTwo(capacity)
    ensures And(pos, capacity - 1) == pos % capacity
    decreases capacity
  {
    if capacity == 1 {
    } else {
      var half := capacity / 2;
      MaskIsRemainder(pos / 2, half);
      HalfRemainder(pos, half);
      MaskedHalves(pos, half);
    }
  }

  lemma MaskedHalves(pos: nat, half: nat)
    requires half > 0
    ensures And(pos, 2 * half - 1) == pos % 2 + 2 * And(pos / 2, half - 1)
  {
    assert (2 * half - 1) / 2 == half - 1;
  }

  /** Adding to a masked position and wrapping is adding to the position and masking. */
  lemma MaskThenAdvance(pos: nat, i: nat, capacity: nat)
    requires capacity > 0
    ensures (pos % capacity + i) % capacity == (pos + i) % capacity
  {
    var start := pos % capacity + i;
    var q, r := start / capacity, start % capacity;
    assert pos + i == pos / capacity * capacity + (q * capacity + r);
    assert pos / capacity * capacity + q * capacity == (pos / capacity + q) * capacity;
    DivisionIsUnique(pos + i, capacity, pos / capacity + q, r);
  }

  /** Two positions less than a capacity apart never share a slot. */
  lemma SlotsAreDisjoint(p: nat, q: nat, capacity: nat)
    requires p < q < p + capacity
    ensures p % capacity != q % capacity
  {
    var a, b := p / capacity, q / capacity;
    assert p == a * capacity + p % capacity;
    assert q == b * capacity + q % capacity;
    assert q - p == (b - a) * capacity + (q % capacity - p % capacity);
    MultipleBound(b - a, capacity);
  }

  // ---- The published stream ----

  /** A record the producer may publish: bytes that decode to an event, all of them its. */
  predicate IsRecord(b: seq<byte>, capacity: nat) {
    b != [] && DecodeAt(b, capacity).Ok? && DecodeAt(b, capacity).value.1 == |b|
  }

  /** Every well-formed record's encoding may be published, and decodes to its event. */
  lemma EncodingIsRecord(r: Record, capacity: nat)
    requires WellFormed(r, capacity)
    ensures IsRecord(Encode(r), capacity)
    ensures DecodeAt(Encode(r), capacity) == Ok((EventOf(r), |Encode(r)|))
  {
    PublishedDecodes(r, [], capacity);
    assert Encode(r) + [] == Encode(r);
  }

  /** The bytes of the records published so far, in order. */
  function Stream(log: seq<seq<byte>>): seq<byte> {
    if log == [] then [] else Stream(log[..|log| - 1]) + log[|log| - 1]
  }

  /** Where record `k` starts. */
  function Offset(log: seq<seq<byte>>, k: nat): nat
    requires k <= |log|
  {
    |Stream(log[..k])|
  }

  lemma {:induction false} StreamPrefix(log: seq<seq<byte>>, k: nat)
    requires k <= |log|
    ensures Stream(log[..k]) <= Stream(log)
  {
    if k == |log| {
      assert log[..k] == log;
    } else {
      var shorter := log[..|log| - 1];
      StreamPrefix(shorter, k);
      assert shorter[..k] == log[..k];
    }
  }

  lemma StreamGrows(log: seq<seq<byte>>, longer: seq<seq<byte>>)
    requires log <= longer
    ensures Stream(log) <= Stream(longer)
  {
    assert longer[..|log|] == log;
    StreamPrefix(longer, |log|);
  }

  lemma OffsetStays(log: seq<seq<byte>>, longer: seq<seq<byte>>, k: nat)
    requires log <= longer && k <= |log|
    ensures Offset(log, k) == Offset(longer, k)
  {
    assert log[..k] == longer[..k];
  }

  lemma PrefixTail(a: seq<byte>, b: seq<byte>, s: seq<byte>)
    requires a + b <= s
    ensures |a| + |b| <= |s| && b <= s[|a|..]
  {
    assert forall i :: 0 <= i < |b| ==> b[i] == (a + b)[|a| + i];
  }

  lemma RecordInStream(log: seq<seq<byte>>, k: nat)
    requires k < |log|
    ensures Offset(log, k + 1) == Offset(log, k) + |log[k]| <= |Stream(log)|
    ensures log[k] <= Stream(log)[Offset(log, k)..]
  {
    var upTo := log[..k + 1];
    assert Stream(upTo) == Stream(log[..k]) + log[k] by {
      assert upTo[..k] == log[..k];
    }
    StreamPrefix(log, k + 1);
    PrefixTail(Stream(log[..k]), log[k], Stream(log));
  }

  lemma {:induction false} OffsetsAscend(log: seq<seq<byte>>, i: nat, j: nat)
    requires i < j <= |log| && [] !in log
    ensures Offset(log, i) < Offset(log, j) <= |Stream(log)|
    decreases j
  {
    RecordInStream(log, j - 1);
    assert log[j - 1] in log;
    if i < j - 1 {
      OffsetsAscend(log, i, j - 1);
    }
  }

  /** A position is the start of at most one record. */
  lemma OffsetsDetermine(log: seq<seq<byte>>, i: nat, j: nat)
    requires [] !in log
    requires i <= |log| && j <= |log| && Offset(log, i) <= Offset(log, j)
    ensures i <= j
  {
    if j < i {
      OffsetsAscend(log, j, i);
    }
  }

  // ---- The ring and its producer ----

  /** `mem` is the data region, `tail` and `write` the published counters; `log` lists the
      records published in this generation (free-running positions count their bytes),
      `tailIndex` counts those given up, and `pending` holds what is written of the next one. */
  datatype Ring = Ring(
    generation: nat,
    capacity: Capacity,
    mem: seq<byte>,
    tail: nat,
    write: nat,
    tailIndex: nat,
    log: seq<seq<byte>>,
    pending: seq<byte>)

  /** A power of two with room for a header. */
  type Capacity = c: nat | PowerOfTwo(c) && HEADER_BASE <= c witness 128

  predicate Inv(r: Ring) {
    && r.capacity == |r.mem|
    && (forall record <- r.log :: IsRecord(record, r.capacity))
    && r.tailIndex <= |r.log|
    && r.tail == Offset(r.log, r.tailIndex)
    && r.write == |Stream(r.log)|
    && r.tail <= r.write
    && r.write + |r.pending| <= r.tail + r.capacity
    && HoldsStream(r)
  }

  /** A ring as the producer keeps it. */
  type LiveRing = r: Ring | Inv(r) witness Ring(0, 128, seq(128, i => 0), 0, 0, 0, [], [])

  /** Every byte not given up is in its slot. */
  predicate HoldsStream(r: Ring)
    requires r.capacity == |r.mem| > 0
  {
    var written := Stream(r.log) + r.pending;
    forall p :: r.tail <= p < |written| ==> r.mem[p % r.capacity] == written[p]
  }

  /** Gives up the oldest record. */
  predicate AdvanceTail(r: Ring, r': Ring) {
    && r.tailIndex < |r.log|
    && r' == r.(tailIndex := r.tailIndex + 1, tail := Offset(r.log, r.tailIndex + 1))
  }

  /** Writes one byte of the next record, into a slot the tail has passed. */
  predicate WriteByte(r: Ring, r': Ring) {
    && r.capacity == |r.mem| > 0
    && r.write + |r.pending| < r.tail + r.capacity
    && |r'.pending| == |r.pending| + 1
    && var b := r'.pending[|r.pending|];
       r' == r.(pending := r.pending + [b],
                mem := r.mem[(r.write + |r.pending|) % r.capacity := b])
  }

  /** Publishes the record just written. */
  predicate Publish(r: Ring, r': Ring) {
    && |r'.log| == |r.log| + 1
    && var record := r'.log[|r.log|];
       && IsRecord(record, r.capacity)
       && record == r.pending
       && r' == r.(log := r.log + [record], write := r.write + |r.pending|, pending := [])
  }

  /** Replaces the ring by any other one, under a new generation. */
  predicate Resize(r: Ring, r': Ring) {
    r.generation < r'.generation && Inv(r')
  }

  predicate Step(r: Ring, r': Ring) {
    AdvanceTail(r, r') || WriteByte(r, r') || Publish(r, r') || Resize(r, r')
  }

  /** `r'` can follow `r`: within a generation nothing published is withdrawn or moved. */
  predicate Later(r: Ring, r': Ring) {
    || r.generation < r'.generation
    || (&& r.generation == r'.generation
        && r.capacity == r'.capacity
        && r.tail <= r'.tail && r.tailIndex <= r'.tailIndex
        && r.write <= r'.write && r.log <= r'.log)
  }

  lemma WriteByteKeepsInv(r: Ring, r': Ring)
    requires Inv(r) && WriteByte(r, r')
    ensures Inv(r')
  {
    var next := r.write + |r.pending|;
    var written := Stream(r.log) + r.pending;
    var written' := Stream(r'.log) + r'.pending;
    assert written' == written + [r'.pending[|r.pending|]];
    forall p | r'.tail <= p < |written'|
      ensures r'.mem[p % r.capacity] == written'[p]
    {
      if p < next {
        SlotsAreDisjoint(p, next, r.capacity);
        assert written'[p] == written[p];
      }
    }
  }

  lemma PublishKeepsInv(r: Ring, r': Ring)
    requires Inv(r) && Publish(r, r')
    ensures Inv(r')
  {
    var record := r'.log[|r.log|];
    assert r'.log[..|r.log|] == r.log;
    assert Stream(r'.log) == Stream(r.log) + record;
    assert Stream(r'.log) + r'.pending == Stream(r.log) + r.pending;
    OffsetStays(r.log, r'.log, r.tailIndex);
  }

  lemma AdvanceTailKeepsInv(r: Ring, r': Ring)
    requires Inv(r) && AdvanceTail(r, r')
    ensures Inv(r') && r.tail <= r'.tail
  {
    RecordInStream(r.log, r.tailIndex);
  }

  /** Every producer step keeps the ring's invariant and moves it forward. */
  lemma StepKeepsInv(r: Ring, r': Ring)
    requires Inv(r) && Step(r, r')
    ensures Inv(r') && Later(r, r')
  {
    if AdvanceTail(r, r') {
      AdvanceTailKeepsInv(r, r');
    } else if WriteByte(r, r') {
      WriteByteKeepsInv(r, r');
    } else if Publish(r, r') {
      PublishKeepsInv(r, r');
    }
  }

  /** The ring after the producer's next move, if it is one. */
  function Advanced(r: LiveRing, next: Ring): (r': LiveRing)
    ensures Later(r, r')
  {
    if Step(r, next) then
      StepKeepsInv(r, next);
      next
    else r
  }

  // ---- What a reader may rely on ----

  /** While the tail has not passed a published position, its slot holds its byte. */
  lemma LiveByte(r: Ring, pos: nat)
    requires Inv(r) && r.tail <= pos < r.write
    ensures r.mem[pos % r.capacity] == Stream(r.log)[pos]
  {
    var written := Stream(r.log) + r.pending;
    assert written[pos] == Stream(r.log)[pos];
  }

  /** A run of the producer. */
  predicate IsRun(run: seq<Ring>) {
    && run != []
    && Inv(run[0])
    && forall i, j :: 0 <= i < |run| - 1 && j == i + 1 ==> Step(run[i], run[j])
  }

  /** The ring's invariant holds at every moment of every run. */
  lemma {:induction false} RunKeepsInv(run: seq<Ring>, j: nat)
    requires IsRun(run) && j < |run|
    ensures Inv(run[j])
  {
    if j > 0 {
      RunKeepsInv(run, j - 1);
      StepKeepsInv(run[j - 1], run[j]);
    }
  }

  lemma RunStep(run: seq<Ring>, j: nat)
    requires IsRun(run) && j + 1 < |run|
    ensures Later(run[j], run[j + 1])
  {
    RunKeepsInv(run, j);
    StepKeepsInv(run[j], run[j + 1]);
  }

  lemma LaterIsTransitive(a: Ring, b: Ring, c: Ring)
    requires Later(a, b) && Later(b, c)
    ensures Later(a, c)
  {
  }

  lemma {:induction false} RunMovesForward(run: seq<Ring>, i: nat, j: nat)
    requires IsRun(run) && i <= j < |run|
    ensures Later(run[i], run[j])
    decreases j - i
  {
    if i < j {
      RunStep(run, i);
      RunMovesForward(run, i + 1, j);
      LaterIsTransitive(run[i], run[i + 1], run[j]);
    }
  }

  /** The producer is never stuck: with room for a record, some run writes and publishes it. */
  lemma {:induction false} RecordCanBePublished(r: LiveRing, record: seq<byte>) returns (run: seq<Ring>)
    requires IsRecord(record, r.capacity) && r.pending <= record
    requires r.write + |record| <= r.tail + r.capacity
    ensures IsRun(run) && run[0] == r
    ensures var last := run[|run| - 1];
            last.generation == r.generation && last.log == r.log + [record] && last.write == r.write + |record|
    decreases |record| - |r.pending|
  {
    if r.pending == record {
      var next := r.(log := r.log + [record], write := r.write + |record|, pending := []);
      assert Publish(r, next);
      run := [r, next];
    } else {
      var b := record[|r.pending|];
      var next := r.(pending := r.pending + [b],
                     mem := r.mem[(r.write + |r.pending|) % r.capacity := b]);
      assert WriteByte(r, next);
      StepKeepsInv(r, next);
      var rest := RecordCanBePublished(next, record);
      run := [r] + rest;
      assert forall i :: 0 < i < |run| ==> run[i] == rest[i - 1];
    }
  }

  /** What a load of position `pos` gives at a moment. */
  predicate Loads(r: Ring, pos: nat, b: byte) {
    r.capacity == |r.mem| > 0 && b == r.mem[pos % r.capacity]
  }

  /** The snapshot theorem over every interleaving. Bytes gathered one load at a time, each at
      a moment of its own between `first` and `last`, of positions published by `first`, are
      the published ones, provided that at `last` the tail has not passed the first of them
      and the generation is still that of `first`. */
  lemma SnapshotIsNotTorn(run: seq<Ring>, first: nat, last: nat, loads: seq<nat>, pos: nat,
                          bytes: seq<byte>)
    requires IsRun(run) && first <= last < |run|
    requires |loads| == |bytes| && forall i :: 0 <= i < |loads| ==> first <= loads[i] <= last
    requires forall i :: 0 <= i < |loads| ==> Loads(run[loads[i]], pos + i, bytes[i])
    requires pos + |bytes| <= run[first].write
    requires run[last].tail <= pos && run[last].generation == run[first].generation
    ensures pos + |bytes| <= |Stream(run[last].log)|
    ensures bytes == Stream(run[last].log)[pos..pos + |bytes|]
  {
    assert pos + |bytes| <= |Stream(run[last].log)| by {
      RunKeepsInv(run, first);
      RunMovesForward(run, first, last);
      StreamGrows(run[first].log, run[last].log);
    }
    forall i | 0 <= i < |bytes|
      ensures bytes[i] == Stream(run[last].log)[pos + i]
    {
      LoadIsPublished(run, first, loads[i], last, pos + i);
    }
  }

  lemma LoadIsPublished(run: seq<Ring>, first: nat, now: nat, last: nat, pos: nat)
    requires IsRun(run) && first <= now <= last < |run|
    requires pos < run[first].write
    requires run[last].tail <= pos && run[last].generation == run[first].generation
    ensures pos < |Stream(run[last].log)| && Loads(run[now], pos, Stream(run[last].log)[pos])
  {
    RunKeepsInv(run, now);
    RunKeepsInv(run, last);
    RunMovesForward(run, first, now);
    RunMovesForward(run, now, last);
    LiveByte(run[now], pos);
    StreamGrows(run[now].log, run[last].log);
  }

  /** The bytes read from `pos` on are the published ones, as far as they were published
      before `write` and are not behind `tail`. */
  predicate Faithful(log: seq<seq<byte>>, tail: nat, bytes: seq<byte>, pos: nat, write: nat) {
    forall i :: 0 <= i < |bytes| && tail <= pos + i < write ==> StreamHas(log, pos + i, bytes[i])
  }

  predicate StreamHas(log: seq<seq<byte>>, pos: nat, b: byte) {
    pos < |Stream(log)| && Stream(log)[pos] == b
  }

  /** What was faithful stays so while the log grows and the tail advances. */
  lemma FaithfulStays(log: seq<seq<byte>>, tail: nat, longer: seq<seq<byte>>, tail': nat,
                      bytes: seq<byte>, pos: nat, write: nat)
    requires Faithful(log, tail, bytes, pos, write)
    requires log <= longer && tail <= tail'
    ensures Faithful(longer, tail', bytes, pos, write)
  {
    StreamGrows(log, longer);
    forall i | 0 <= i < |bytes| && tail' <= pos + i < write
      ensures StreamHas(longer, pos + i, bytes[i])
    {
      assert StreamHas(log, pos + i, bytes[i]);
    }
  }

  lemma SameSlot(source: nat, pos: nat, i: nat, capacity: nat)
    requires capacity > 0 && source % capacity == pos % capacity
    ensures (source + i) % capacity == (pos + i) % capacity
  {
    MaskThenAdvance(source, i, capacity);
    MaskThenAdvance(pos, i, capacity);
  }

  lemma LoadsFrom(r: Ring, source: nat, pos: nat, i: nat, b: byte)
    requires r.capacity > 0 && source % r.capacity == pos % r.capacity
    requires Loads(r, source + i, b)
    ensures Loads(r, pos + i, b)
  {
    SameSlot(source, pos, i, r.capacity);
  }

  /** One more byte, loaded a moment later from the slot of the next position, keeps a copy
      faithful. */
  lemma FaithfulExtends(r: LiveRing, r': LiveRing, bytes: seq<byte>, b: byte, pos: nat, write: nat)
    requires Faithful(r.log, r.tail, bytes, pos, write)
    requires Later(r, r') && r.generation == r'.generation && write <= r'.write
    requires Loads(r', pos + |bytes|, b)
    ensures Faithful(r'.log, r'.tail, bytes + [b], pos, write)
  {
    FaithfulStays(r.log, r.tail, r'.log, r'.tail, bytes, pos, write);
    if r'.tail <= pos + |bytes| < write {
      LiveByte(r', pos + |bytes|);
    }
  }

  /** Once its first byte is known not to be given up, a faithful range is the stream's. */
  lemma FaithfulRange(log: seq<seq<byte>>, tail: nat, bytes: seq<byte>, pos: nat, write: nat)
    requires Faithful(log, tail, bytes, pos, write) && tail <= pos
    requires pos + |bytes| <= write <= |Stream(log)|
    ensures bytes == Stream(log)[pos..pos + |bytes|]
  {
    assert forall i :: 0 <= i < |bytes| ==> StreamHas(log, pos + i, bytes[i]);
  }

  // ---- A snapshot of the window [pos, write) ----

  function Sized(event: Result<Event, Errno>, size: nat): Result<(Event, nat), Errno> {
    match event
    case Ok(value) => Ok((value, size))
    case Err(e) => Err(e)
  }

  /** A header that was rejected, or whose record would not fit the window, is rejected of the
      window itself. */
  lemma WindowRejected(window: seq<byte>, header: seq<byte>, capacity: nat)
    requires |header| == HEADER_BASE
    requires HEADER_BASE <= |window| ==> header == window[..HEADER_BASE]
    requires InBounds(HeaderOf(header), capacity) ==> HeaderOf(header).size > |window|
    ensures DecodeAt(window, capacity) == Err(EINVAL)
  {
  }

  /** The event a header delimits in a window. */
  function FromWindow(window: seq<byte>, h: Header): Result<Event, Errno>
    requires HEADER_BASE + h.typeLen <= h.headerSize <= h.size <= |window|
  {
    FromParts(h, window[HEADER_BASE..HEADER_BASE + h.typeLen], window[h.headerSize..h.size])
  }

  /** An accepted header that is the window's own decides what the window decodes to. */
  lemma WindowAccepted(window: seq<byte>, header: seq<byte>, capacity: nat)
    requires |header| == HEADER_BASE <= |window| && header == window[..HEADER_BASE]
    requires InBounds(HeaderOf(header), capacity) && HeaderOf(header).size <= |window|
    ensures DecodeAt(window, capacity)
         == Sized(FromWindow(window, HeaderOf(header)), HeaderOf(header).size)
  {
  }

  /** The published bytes from `pos` to `write`. */
  function Window(log: seq<seq<byte>>, pos: nat, write: nat): seq<byte>
    requires pos <= write <= |Stream(log)|
  {
    Stream(log)[pos..write]
  }

  /** A faithful copy of a part of the window is that part. */
  lemma FaithfulPart(log: seq<seq<byte>>, tail: nat, bytes: seq<byte>, pos: nat, offset: nat,
                     write: nat, upTo: nat)
    requires Faithful(log, tail, bytes, pos + offset, upTo) && tail <= pos
    requires pos + offset + |bytes| <= write <= upTo <= |Stream(log)|
    ensures Window(log, pos, write)[offset..offset + |bytes|] == bytes
  {
    FaithfulRange(log, tail, bytes, pos + offset, upTo);
  }

  /** Growing the log leaves a window as it was. */
  lemma WindowStays(log: seq<seq<byte>>, longer: seq<seq<byte>>, pos: nat, write: nat)
    requires log <= longer && pos <= write <= |Stream(log)|
    ensures write <= |Stream(longer)| && Window(log, pos, write) == Window(longer, pos, write)
  {
    StreamGrows(log, longer);
  }

  lemma RestOfWindow(s: seq<byte>, from: nat, to: nat, record: seq<byte>) returns (rest: seq<byte>)
    requires from + |record| <= to <= |s| && record <= s[from..]
    ensures s[from..to] == record + rest
  {
    rest := s[from + |record|..to];
    assert s[from..][..|record|] == record;
  }

  /** A window that starts and ends on record boundaries decodes to its first record. */
  lemma WindowStartsWithRecord(r: LiveRing, k: nat, j: nat)
    requires k < j <= |r.log|
    ensures Offset(r.log, k) + |r.log[k]| == Offset(r.log, k + 1) <= Offset(r.log, j) <= |Stream(r.log)|
    ensures DecodeAt(r.log[k], r.capacity).Ok? && DecodeAt(r.log[k], r.capacity).value.1 == |r.log[k]|
    ensures DecodeAt(Window(r.log, Offset(r.log, k), Offset(r.log, j)), r.capacity)
         == DecodeAt(r.log[k], r.capacity)
  {
    RecordInStream(r.log, k);
    assert r.log[k] in r.log;
    StreamPrefix(r.log, j);
    if k + 1 < j {
      OffsetsAscend(r.log, k + 1, j);
    }
    var rest := RestOfWindow(Stream(r.log), Offset(r.log, k), Offset(r.log, j), r.log[k]);
    DecodesAlone(r.log[k], rest, r.capacity);
  }
}
