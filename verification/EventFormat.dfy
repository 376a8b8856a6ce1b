/** The event record a ring carries (`struct kmes_event_header` of the kernel's kmes.h) and the
    owned event a reader makes of it. */
module EventFormat {
  import opened Wrappers
  import opened Bytes
  import opened Utf8

  const HEADER_BASE := 77

  datatype OriginClass = Userspace | Kmes | Kacs | Lcs | OtherClass(raw: byte)

  function OriginFromRaw(v: byte): OriginClass {
    match v
    case 0 => Userspace
    case 1 => Kmes
    case 2 => Kacs
    case 3 => Lcs
    case other => OtherClass(other)
  }

  /** The classes by their numbers, every other number being itself. */
  lemma OriginsByNumber(v: byte)
    ensures OriginFromRaw(v) == Userspace <==> v == 0
    ensures OriginFromRaw(v) == Kmes <==> v == 1
    ensures OriginFromRaw(v) == Kacs <==> v == 2
    ensures OriginFromRaw(v) == Lcs <==> v == 3
    ensures v > 3 <==> OriginFromRaw(v) == OtherClass(v)
  {
  }

  datatype Event = Event(
    timestamp: nat,
    sequence: nat,
    cpuId: nat,
    originClass: OriginClass,
    effectiveTokenGuid: seq<byte>,
    trueTokenGuid: seq<byte>,
    processGuid: seq<byte>,
    eventType: Text,
    payload: seq<byte>)

  /** The fixed 77 bytes, decoded. */
  datatype Header = Header(
    size: nat,
    headerSize: nat,
    timestamp: nat,
    sequence: nat,
    cpuId: nat,
    origin: byte,
    effective: seq<byte>,
    trueToken: seq<byte>,
    process: seq<byte>,
    typeLen: nat)

  function HeaderOf(b: seq<byte>): Header
    requires |b| == HEADER_BASE
  {
    Header(FromLe(b[0..4]), FromLe(b[4..8]), FromLe(b[8..16]), FromLe(b[16..24]), FromLe(b[24..26]),
           b[26], b[27..43], b[43..59], b[59..75], FromLe(b[75..77]))
  }

  /** The bounds check libpeios makes on its own copy of the header: the type string, then
      whatever a later revision adds, then the payload, all within the record and the ring. */
  predicate InBounds(h: Header, capacity: nat) {
    HEADER_BASE + h.typeLen <= h.headerSize <= h.size <= capacity
  }

  /** The owned event made from a header and the two copied ranges. */
  function FromParts(h: Header, eventType: seq<byte>, payload: seq<byte>): Result<Event, Errno> {
    if Valid(eventType) then
      Ok(Event(h.timestamp, h.sequence, h.cpuId, OriginFromRaw(h.origin), h.effective, h.trueToken,
               h.process, eventType, payload))
    else
      Err(EINVAL)
  }

  /** The event at the front of a stretch of stable bytes, and its size. */
  function DecodeAt(b: seq<byte>, capacity: nat): Result<(Event, nat), Errno> {
    if |b| < HEADER_BASE then Err(EINVAL)
    else
      var h := HeaderOf(b[..HEADER_BASE]);
      if !InBounds(h, capacity) || h.size > |b| then Err(EINVAL)
      else
        var event :- FromParts(h, b[HEADER_BASE..HEADER_BASE + h.typeLen], b[h.headerSize..h.size]);
        Ok((event, h.size))
  }

  /** Each field of a decoded event comes from its own place in the header, the type string from
      after the 77 bytes, and the payload from where the header size says, to the record's end. */
  lemma EventFieldsStand(b: seq<byte>, capacity: nat)
    requires DecodeAt(b, capacity).Ok?
    ensures var (event, size) := DecodeAt(b, capacity).value;
            && 77 <= size <= |b| && size <= capacity && size == FromLe(b[0..4])
            && event.timestamp == FromLe(b[8..16]) && event.sequence == FromLe(b[16..24])
            && event.cpuId == FromLe(b[24..26]) && event.originClass == OriginFromRaw(b[26])
            && event.effectiveTokenGuid == b[27..43] && event.trueTokenGuid == b[43..59]
            && event.processGuid == b[59..75]
    ensures var (event, size) := DecodeAt(b, capacity).value;
            var typeLen, headerSize := FromLe(b[75..77]), FromLe(b[4..8]);
            && 77 + typeLen <= headerSize <= size
            && event.eventType == b[77..77 + typeLen] && event.payload == b[headerSize..size]
  {
    var h := b[..77];
    assert h[0..4] == b[0..4] && h[4..8] == b[4..8] && h[8..16] == b[8..16] && h[16..24] == b[16..24];
    assert h[24..26] == b[24..26] && h[27..43] == b[27..43] && h[43..59] == b[43..59];
    assert h[59..75] == b[59..75] && h[75..77] == b[75..77];
  }

  /** Bytes that decode to an event they end with decode to it whatever follows them. */
  lemma DecodesAlone(b: seq<byte>, rest: seq<byte>, capacity: nat)
    requires DecodeAt(b, capacity).Ok?
    ensures DecodeAt(b + rest, capacity) == DecodeAt(b, capacity)
  {
    var h := HeaderOf(b[..HEADER_BASE]);
    assert (b + rest)[..HEADER_BASE] == b[..HEADER_BASE];
    assert (b + rest)[HEADER_BASE..HEADER_BASE + h.typeLen] == b[HEADER_BASE..HEADER_BASE + h.typeLen];
    assert (b + rest)[h.headerSize..h.size] == b[h.headerSize..h.size];
  }

  // ---- What the producer publishes ----

  datatype Record = Record(
    timestamp: nat,
    sequence: nat,
    cpuId: nat,
    origin: byte,
    effective: seq<byte>,
    trueToken: seq<byte>,
    process: seq<byte>,
    eventType: seq<byte>,
    extension: seq<byte>,  // header bytes of a later revision; none today
    payload: seq<byte>)

  function HeaderFor(r: Record): Header {
    var headerSize := HEADER_BASE + |r.eventType| + |r.extension|;
    Header(headerSize + |r.payload|, headerSize, r.timestamp, r.sequence, r.cpuId, r.origin,
           r.effective, r.trueToken, r.process, |r.eventType|)
  }

  function HeaderBytes(h: Header): seq<byte> {
    ToLe(h.size, 4) + (ToLe(h.headerSize, 4) + (ToLe(h.timestamp, 8) + (ToLe(h.sequence, 8)
    + (ToLe(h.cpuId, 2) + ([h.origin] + (h.effective + (h.trueToken + (h.process
    + ToLe(h.typeLen, 2)))))))))
  }

  predicate FitsFields(h: Header) {
    && h.size < 0x1_0000_0000 && h.headerSize < 0x1_0000_0000
    && h.timestamp < 0x1_0000_0000_0000_0000 && h.sequence < 0x1_0000_0000_0000_0000
    && h.cpuId < 0x1_0000 && h.typeLen < 0x1_0000
    && |h.effective| == 16 && |h.trueToken| == 16 && |h.process| == 16
  }

  function Encode(r: Record): (b: seq<byte>)
    ensures b != []
  {
    HeaderBytes(HeaderFor(r)) + (r.eventType + (r.extension + r.payload))
  }

  predicate WellFormed(r: Record, capacity: nat) {
    FitsFields(HeaderFor(r)) && HeaderFor(r).size <= capacity && Valid(r.eventType)
  }

  function EventOf(r: Record): Event
    requires Valid(r.eventType)
  {
    Event(r.timestamp, r.sequence, r.cpuId, OriginFromRaw(r.origin), r.effective, r.trueToken,
          r.process, r.eventType, r.payload)
  }

  // ---- Decoding inverts publishing ----

  lemma HeaderLayout(h: Header)
    requires FitsFields(h)
    ensures |HeaderBytes(h)| == HEADER_BASE
    ensures var b := HeaderBytes(h);
            && At(b, 0, ToLe(h.size, 4)) && At(b, 4, ToLe(h.headerSize, 4))
            && At(b, 8, ToLe(h.timestamp, 8)) && At(b, 16, ToLe(h.sequence, 8))
            && At(b, 24, ToLe(h.cpuId, 2)) && At(b, 26, [h.origin])
            && At(b, 27, h.effective) && At(b, 43, h.trueToken) && At(b, 59, h.process)
            && At(b, 75, ToLe(h.typeLen, 2))
  {
    var b := HeaderBytes(h);
    var g3 := h.process + ToLe(h.typeLen, 2);
    var g2 := h.trueToken + g3;
    var g1 := h.effective + g2;
    var o := [h.origin] + g1;
    var c := ToLe(h.cpuId, 2) + o;
    var s := ToLe(h.sequence, 8) + c;
    var t := ToLe(h.timestamp, 8) + s;
    var hs := ToLe(h.headerSize, 4) + t;
    assert At(b, 0, ToLe(h.size, 4) + hs);
    AtConcat(b, 0, ToLe(h.size, 4), hs);
    AtConcat(b, 4, ToLe(h.headerSize, 4), t);
    AtConcat(b, 8, ToLe(h.timestamp, 8), s);
    AtConcat(b, 16, ToLe(h.sequence, 8), c);
    AtConcat(b, 24, ToLe(h.cpuId, 2), o);
    AtConcat(b, 26, [h.origin], g1);
    AtConcat(b, 27, h.effective, g2);
    AtConcat(b, 43, h.trueToken, g3);
    AtConcat(b, 59, h.process, ToLe(h.typeLen, 2));
  }

  lemma HeaderNumbers(h: Header, b: seq<byte>)
    requires FitsFields(h) && |b| == HEADER_BASE
    requires At(b, 0, ToLe(h.size, 4)) && At(b, 4, ToLe(h.headerSize, 4)) && At(b, 8, ToLe(h.timestamp, 8))
    requires At(b, 16, ToLe(h.sequence, 8)) && At(b, 24, ToLe(h.cpuId, 2)) && At(b, 75, ToLe(h.typeLen, 2))
    ensures FromLe(b[0..4]) == h.size && FromLe(b[4..8]) == h.headerSize && FromLe(b[8..16]) == h.timestamp
    ensures FromLe(b[16..24]) == h.sequence && FromLe(b[24..26]) == h.cpuId && FromLe(b[75..77]) == h.typeLen
  {
    Widths();
    LeRoundTrip(h.size, 4);
    LeRoundTrip(h.headerSize, 4);
    LeRoundTrip(h.timestamp, 8);
    LeRoundTrip(h.sequence, 8);
    LeRoundTrip(h.cpuId, 2);
    LeRoundTrip(h.typeLen, 2);
  }

  lemma HeaderRoundTrip(h: Header)
    requires FitsFields(h)
    ensures |HeaderBytes(h)| == HEADER_BASE
    ensures HeaderOf(HeaderBytes(h)) == h
  {
    var b := HeaderBytes(h);
    HeaderLayout(h);
    HeaderNumbers(h, b);
    assert b[26] == b[26..27][0];
  }

  /** A published record, followed by anything, decodes to its event and its size. */
  lemma PublishedDecodes(r: Record, rest: seq<byte>, capacity: nat)
    requires WellFormed(r, capacity)
    ensures |Encode(r)| == HeaderFor(r).size
    ensures DecodeAt(Encode(r) + rest, capacity) == Ok((EventOf(r), |Encode(r)|))
  {
    var h := HeaderFor(r);
    var body := r.eventType + (r.extension + r.payload);
    var b := Encode(r) + rest;
    HeaderRoundTrip(h);
    assert b[..HEADER_BASE] == HeaderBytes(h);
    assert At(b, 0, Encode(r));
    AtConcat(b, 0, HeaderBytes(h), body);
    AtConcat(b, HEADER_BASE, r.eventType, r.extension + r.payload);
    AtConcat(b, HEADER_BASE + |r.eventType|, r.extension, r.payload);
  }
}
