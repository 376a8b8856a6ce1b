/** Registry watch records: the parser of `read_watch_events` and the record format it reads
    (`REG_WATCH_EVENT_*` of the kernel's lcs.h). */
module WatchEvents {
  import opened Wrappers
  import opened Bytes

  const MIN_SIZE := 8

  datatype EventType =
    | ValueSet
    | ValueDeleted
    | SubkeyCreated
    | SubkeyDeleted
    | SecurityDescriptorChanged
    | KeyDeleted
    | Overflow
    | Unknown(raw: nat)

  function TypeFromRaw(raw: nat): EventType {
    match raw
    case 1 => ValueSet
    case 2 => ValueDeleted
    case 3 => SubkeyCreated
    case 4 => SubkeyDeleted
    case 5 => SecurityDescriptorChanged
    case 6 => KeyDeleted
    case 7 => Overflow
    case _ => Unknown(raw)
  }

  /** The types by their numbers, every other number being itself. */
  lemma TypesByNumber(raw: nat)
    ensures TypeFromRaw(raw) == ValueSet <==> raw == 1
    ensures TypeFromRaw(raw) == ValueDeleted <==> raw == 2
    ensures TypeFromRaw(raw) == SubkeyCreated <==> raw == 3
    ensures TypeFromRaw(raw) == SubkeyDeleted <==> raw == 4
    ensures TypeFromRaw(raw) == SecurityDescriptorChanged <==> raw == 5
    ensures TypeFromRaw(raw) == KeyDeleted <==> raw == 6
    ensures TypeFromRaw(raw) == Overflow <==> raw == 7
    ensures raw == 0 || raw > 7 <==> TypeFromRaw(raw) == Unknown(raw)
  {
  }

  datatype WatchEvent = WatchEvent(eventType: EventType, name: seq<byte>, path: seq<seq<byte>>)

  // ---- The record format, as an encoder ----

  datatype Extension = Absent | Subtree(components: seq<seq<byte>>)

  datatype Record = Record(rawType: nat, name: seq<byte>, extension: Extension)

  predicate IsComponent(c: seq<byte>) {
    |c| < 0x1_0000 && 0 !in c
  }

  function EncodeComponents(path: seq<seq<byte>>): seq<byte> {
    if path == [] then [] else ToLe(|path[0]|, 2) + path[0] + EncodeComponents(path[1..])
  }

  function EncodeExtension(e: Extension): seq<byte> {
    match e
    case Absent => []
    case Subtree(path) => ToLe(|path|, 2) + EncodeComponents(path)
  }

  function TotalLen(r: Record): nat {
    MIN_SIZE + |r.name| + |EncodeExtension(r.extension)|
  }

  /** The fixed part of a record. */
  function Head(totalLen: nat, rawType: nat, nameLen: nat): (h: seq<byte>)
    ensures |h| == MIN_SIZE
  {
    ToLe(totalLen, 4) + (ToLe(rawType, 2) + ToLe(nameLen, 2))
  }

  function Encode(r: Record): seq<byte> {
    Head(TotalLen(r), r.rawType, |r.name|) + (r.name + EncodeExtension(r.extension))
  }

  function EncodeAll(rs: seq<Record>): seq<byte> {
    if rs == [] then [] else Encode(rs[0]) + EncodeAll(rs[1..])
  }

  predicate WellFormed(r: Record) {
    && r.rawType < 0x1_0000
    && IsComponent(r.name)
    && (r.extension.Subtree? ==>
          && |r.extension.components| < 0x1_0000
          && forall c <- r.extension.components :: IsComponent(c))
    && TotalLen(r) < 0x1_0000_0000
  }

  predicate AllWellFormed(rs: seq<Record>) {
    forall r <- rs :: WellFormed(r)
  }

  /** What a record reports. A record without an extension and one with an extension of
      depth 0 both mean the watched key itself. */
  function EventOf(r: Record): WatchEvent {
    WatchEvent(TypeFromRaw(r.rawType), r.name,
               match r.extension case Absent => [] case Subtree(path) => path)
  }

  function EventsOf(rs: seq<Record>): (events: seq<WatchEvent>)
    ensures |events| == |rs|
    ensures forall i :: 0 <= i < |rs| ==> events[i] == EventOf(rs[i])
  {
    if rs == [] then [] else [EventOf(rs[0])] + EventsOf(rs[1..])
  }

  /** Writes one record the way the crate's tests do: a zero length first, patched at the end. */
  method WriteRecord(r: Record) returns (bytes: seq<byte>)
    requires WellFormed(r)
    ensures bytes == Encode(r)
  {
    bytes := ToLe(0, 4) + ToLe(r.rawType, 2) + ToLe(|r.name|, 2);
    Associative(ToLe(0, 4), ToLe(r.rawType, 2), ToLe(|r.name|, 2));
    bytes := bytes + r.name;
    ghost var named := bytes;
    match r.extension {
      case Absent =>
      case Subtree(path) =>
        bytes := bytes + ToLe(|path|, 2);
        for i := 0 to |path|
          invariant bytes + EncodeComponents(path[i..])
                 == named + (ToLe(|path|, 2) + EncodeComponents(path))
        {
          assert path[i..][1..] == path[i + 1..];
          bytes := bytes + ToLe(|path[i]|, 2) + path[i];
        }
        assert bytes == bytes + EncodeComponents(path[|path|..]);
    }
    assert bytes == named + EncodeExtension(r.extension);
    Patched(r, bytes);
    bytes := ToLe(|bytes|, 4) + bytes[4..];
  }

  lemma FirstFourReplaced(four: seq<byte>, other: seq<byte>, rest: seq<byte>, body: seq<byte>)
    requires |four| == 4
    ensures other + (four + rest + body)[4..] == other + rest + body
  {
    assert (four + rest + body)[4..] == rest + body;
  }

  /** Patching the length in the first four bytes completes a record. */
  lemma Patched(r: Record, bytes: seq<byte>)
    requires bytes == Head(0, r.rawType, |r.name|) + r.name + EncodeExtension(r.extension)
    ensures ToLe(|bytes|, 4) + bytes[4..] == Encode(r)
  {
    Associative(Head(0, r.rawType, |r.name|), r.name, EncodeExtension(r.extension));
    FirstFourReplaced(ToLe(0, 4), ToLe(|bytes|, 4), ToLe(r.rawType, 2) + ToLe(|r.name|, 2),
                      r.name + EncodeExtension(r.extension));
  }

  // ---- The parser ----

  function DecodeComponent(bytes: seq<byte>): Result<seq<byte>, Errno> {
    if 0 in bytes then Err(EINVAL) else Ok(bytes)
  }

  function ParseComponents(extension: seq<byte>, depth: nat): Result<seq<seq<byte>>, Errno>
    decreases depth
  {
    if depth == 0 then
      if extension == [] then Ok([]) else Err(EINVAL)
    else if |extension| < 2 then Err(EINVAL)
    else
      var len := FromLe(extension[..2]);
      var rest := extension[2..];
      if |rest| < len then Err(EINVAL)
      else
        var component :- DecodeComponent(rest[..len]);
        var others :- ParseComponents(rest[len..], depth - 1);
        Ok([component] + others)
  }

  function ParsePath(extension: seq<byte>): Result<seq<seq<byte>>, Errno> {
    if extension == [] then Ok([])
    else if |extension| < 2 then Err(EINVAL)
    else ParseComponents(extension[2..], FromLe(extension[..2]))
  }

  /** The record at the front of a non-empty buffer, and its length. */
  function ParseRecord(buffer: seq<byte>): (r: Result<(WatchEvent, nat), Errno>)
    ensures r.Ok? ==> MIN_SIZE <= r.value.1 <= |buffer|
  {
    if |buffer| < MIN_SIZE then Err(EINVAL)
    else
      var total := FromLe(buffer[0..4]);
      var rawType := FromLe(buffer[4..6]);
      var nameEnd := MIN_SIZE + FromLe(buffer[6..8]);
      if total < MIN_SIZE || total > |buffer| then Err(EINVAL)
      else if nameEnd > total then Err(EINVAL)
      else
        var name :- DecodeComponent(buffer[MIN_SIZE..nameEnd]);
        var path :- ParsePath(buffer[nameEnd..total]);
        Ok((WatchEvent(TypeFromRaw(rawType), name, path), total))
  }

  function ParseEvents(buffer: seq<byte>): Result<seq<WatchEvent>, Errno>
    decreases |buffer|
  {
    if buffer == [] then Ok([])
    else
      var first :- ParseRecord(buffer);
      var rest :- ParseEvents(buffer[first.1..]);
      Ok([first.0] + rest)
  }

  /** Each part of an accepted record comes from its own place: the length at 0, the type at 4,
      the name's length at 6 and the name from 8; after it nothing, or the depth of the path and
      its first component, behind its own length. */
  lemma RecordFieldsStand(buffer: seq<byte>)
    requires ParseRecord(buffer).Ok?
    ensures var (event, total) := ParseRecord(buffer).value;
            var nameEnd := 8 + FromLe(buffer[6..8]);
            && total == FromLe(buffer[0..4]) && nameEnd <= total <= |buffer|
            && event.eventType == TypeFromRaw(FromLe(buffer[4..6]))
            && event.name == buffer[8..nameEnd] && 0 !in event.name
            && (if total == nameEnd then event.path == []
                else nameEnd + 2 <= total && |event.path| == FromLe(buffer[nameEnd..nameEnd + 2]))
            && (event.path != [] ==>
                  && nameEnd + 4 + |event.path[0]| <= total
                  && |event.path[0]| == FromLe(buffer[nameEnd + 2..nameEnd + 4])
                  && event.path[0] == buffer[nameEnd + 4..nameEnd + 4 + |event.path[0]|])
  {
    var (event, total) := ParseRecord(buffer).value;
    var nameEnd := 8 + FromLe(buffer[6..8]);
    var extension := buffer[nameEnd..total];
    if extension != [] {
      ComponentsInverse(extension[2..], FromLe(extension[..2]));
      assert extension[..2] == buffer[nameEnd..nameEnd + 2];
      if event.path != [] {
        assert extension[2..][..2] == buffer[nameEnd + 2..nameEnd + 4];
        var len := FromLe(buffer[nameEnd + 2..nameEnd + 4]);
        assert extension[2..][2..][..len] == buffer[nameEnd + 4..nameEnd + 4 + len];
      }
    }
  }

  method ParseWatchPath(extension: seq<byte>) returns (r: Result<seq<seq<byte>>, Errno>)
    ensures r == ParsePath(extension)
  {
    if extension == [] {
      return Ok([]);
    }
    if |extension| < 2 {
      return Err(EINVAL);
    }
    var depth := FromLe(extension[..2]);
    var rest := extension[2..];
    var path: seq<seq<byte>> := [];
    for i := 0 to depth
      invariant ParsePath(extension) == Prepended(path, ParseComponents(rest, depth - i))
    {
      if |rest| < 2 {
        return Err(EINVAL);
      }
      var len := FromLe(rest[..2]);
      rest := rest[2..];
      if |rest| < len {
        return Err(EINVAL);
      }
      var component :- DecodeComponent(rest[..len]);
      PrependedTwice(path, [component], ParseComponents(rest[len..], depth - i - 1));
      path := path + [component];
      rest := rest[len..];
    }
    if rest != [] {
      return Err(EINVAL);
    }
    return Ok(path);
  }

  method ParseWatchEvents(input: seq<byte>) returns (r: Result<seq<WatchEvent>, Errno>)
    ensures r == ParseEvents(input)
  {
    var buffer := input;
    var events: seq<WatchEvent> := [];
    while buffer != []
      invariant ParseEvents(input) == Prepended(events, ParseEvents(buffer))
      decreases |buffer|
    {
      if |buffer| < MIN_SIZE {
        return Err(EINVAL);
      }
      var total := FromLe(buffer[0..4]);
      var rawType := FromLe(buffer[4..6]);
      var nameLen := FromLe(buffer[6..8]);
      if total < MIN_SIZE || total > |buffer| {
        return Err(EINVAL);
      }
      var nameEnd := MIN_SIZE + nameLen;
      if nameEnd > total {
        return Err(EINVAL);
      }
      var record := buffer[..total];
      assert record[MIN_SIZE..nameEnd] == buffer[MIN_SIZE..nameEnd];
      assert record[nameEnd..] == buffer[nameEnd..total];
      var name :- DecodeComponent(record[MIN_SIZE..nameEnd]);
      var path := ParseWatchPath(record[nameEnd..]);
      if path.Err? {
        return Err(path.error);
      }
      var event := WatchEvent(TypeFromRaw(rawType), name, path.value);
      assert ParseRecord(buffer) == Ok((event, total));
      PrependedTwice(events, [event], ParseEvents(buffer[total..]));
      events := events + [event];
      buffer := buffer[total..];
    }
    return Ok(events);
  }

  // ---- The parser inverts the encoder ----

  lemma {:induction false} ComponentsRoundTrip(path: seq<seq<byte>>)
    requires forall c <- path :: IsComponent(c)
    ensures ParseComponents(EncodeComponents(path), |path|) == Ok(path)
  {
    if path == [] {
    } else {
      var b := EncodeComponents(path);
      assert path[0] in path;
      Widths();
      LeRoundTrip(|path[0]|, 2);
      assert b[..2] == ToLe(|path[0]|, 2);
      assert b[2..][..|path[0]|] == path[0];
      assert b[2..][|path[0]|..] == EncodeComponents(path[1..]);
      ComponentsRoundTrip(path[1..]);
      assert [path[0]] + path[1..] == path;
    }
  }

  lemma {:induction false} ComponentsInverse(extension: seq<byte>, depth: nat)
    requires ParseComponents(extension, depth).Ok?
    ensures var path := ParseComponents(extension, depth).value;
            && |path| == depth
            && EncodeComponents(path) == extension
            && forall c <- path :: IsComponent(c)
    decreases depth
  {
    if depth == 0 {
    } else {
      var len := FromLe(extension[..2]);
      var rest := extension[2..];
      ComponentsInverse(rest[len..], depth - 1);
      var path := ParseComponents(extension, depth).value;
      assert path[1..] == ParseComponents(rest[len..], depth - 1).value;
      Widths();
      LeInverse(extension[..2]);
      assert extension == extension[..2] + rest[..len] + rest[len..];
    }
  }

  lemma HeadFields(totalLen: nat, rawType: nat, nameLen: nat, rest: seq<byte>)
    ensures var b := Head(totalLen, rawType, nameLen) + rest;
            b[0..4] == ToLe(totalLen, 4) && b[4..6] == ToLe(rawType, 2) && b[6..8] == ToLe(nameLen, 2)
  {
  }

  lemma ExtensionRoundTrip(e: Extension)
    requires e.Subtree? ==> |e.components| < 0x1_0000 && forall c <- e.components :: IsComponent(c)
    ensures ParsePath(EncodeExtension(e))
         == Ok(match e case Absent => [] case Subtree(path) => path)
  {
    match e {
      case Absent =>
      case Subtree(path) =>
        Widths();
        LeRoundTrip(|path|, 2);
        var bytes := EncodeExtension(e);
        assert bytes[..2] == ToLe(|path|, 2) && bytes[2..] == EncodeComponents(path);
        ComponentsRoundTrip(path);
    }
  }

  /** Where the parts of an encoded record stand in a buffer that starts with it. */
  lemma RecordLayout(r: Record, rest: seq<byte>)
    ensures var b := Encode(r) + rest;
            && |b| >= TotalLen(r) == |Encode(r)|
            && b[0..4] == ToLe(TotalLen(r), 4) && b[4..6] == ToLe(r.rawType, 2) && b[6..8] == ToLe(|r.name|, 2)
            && b[MIN_SIZE..MIN_SIZE + |r.name|] == r.name
            && b[MIN_SIZE + |r.name|..TotalLen(r)] == EncodeExtension(r.extension)
  {
    var b := Encode(r) + rest;
    var e := EncodeExtension(r.extension);
    assert b == Head(TotalLen(r), r.rawType, |r.name|) + (r.name + e + rest);
    HeadFields(TotalLen(r), r.rawType, |r.name|, r.name + e + rest);
  }

  /** A record is read back from the front of any buffer that starts with it. */
  lemma RecordRoundTrip(r: Record, rest: seq<byte>)
    requires WellFormed(r)
    ensures ParseRecord(Encode(r) + rest) == Ok((EventOf(r), |Encode(r)|))
  {
    RecordLayout(r, rest);
    Widths();
    LeRoundTrip(TotalLen(r), 4);
    LeRoundTrip(r.rawType, 2);
    LeRoundTrip(|r.name|, 2);
    ExtensionRoundTrip(r.extension);
  }

  lemma ExtensionInverse(extension: seq<byte>) returns (e: Extension)
    requires ParsePath(extension).Ok?
    ensures EncodeExtension(e) == extension
    ensures match e
            case Absent => ParsePath(extension) == Ok([])
            case Subtree(path) =>
              && ParsePath(extension) == Ok(path)
              && |path| < 0x1_0000
              && forall c <- path :: IsComponent(c)
  {
    if extension == [] {
      e := Absent;
    } else {
      var depth := FromLe(extension[..2]);
      Widths();
      LeInverse(extension[..2]);
      ComponentsInverse(extension[2..], depth);
      e := Subtree(ParseComponents(extension[2..], depth).value);
      assert extension == extension[..2] + extension[2..];
    }
  }

  lemma HeadInverse(b: seq<byte>)
    requires |b| >= MIN_SIZE
    ensures FromLe(b[0..4]) < 0x1_0000_0000
    ensures FromLe(b[4..6]) < 0x1_0000 && FromLe(b[6..8]) < 0x1_0000
    ensures Head(FromLe(b[0..4]), FromLe(b[4..6]), FromLe(b[6..8])) == b[..MIN_SIZE]
  {
    Widths();
    LeInverse(b[0..4]);
    LeInverse(b[4..6]);
    LeInverse(b[6..8]);
    assert b[..MIN_SIZE] == b[0..4] + (b[4..6] + b[6..8]);
  }

  /** What the parser has checked of the parts of a record at the front of a buffer. */
  predicate PartsChecked(buffer: seq<byte>) {
    && |buffer| >= MIN_SIZE
    && var total, nameEnd := FromLe(buffer[0..4]), MIN_SIZE + FromLe(buffer[6..8]);
       && nameEnd <= total <= |buffer| && 0 !in buffer[MIN_SIZE..nameEnd]
       && ParsePath(buffer[nameEnd..total]).Ok?
  }

  /** The record made of those parts. */
  lemma RecordParts(buffer: seq<byte>) returns (r: Record)
    requires PartsChecked(buffer)
    ensures TotalLen(r) <= |buffer| && WellFormed(r)
    ensures buffer[..MIN_SIZE] == Head(TotalLen(r), r.rawType, |r.name|)
    ensures buffer[MIN_SIZE..MIN_SIZE + |r.name|] == r.name
    ensures buffer[MIN_SIZE + |r.name|..TotalLen(r)] == EncodeExtension(r.extension)
  {
    var total, rawType, nameLen := FromLe(buffer[0..4]), FromLe(buffer[4..6]), FromLe(buffer[6..8]);
    var name := buffer[MIN_SIZE..MIN_SIZE + nameLen];
    var e := ExtensionInverse(buffer[MIN_SIZE + nameLen..total]);
    r := Record(rawType, name, e);
    HeadInverse(buffer);
    assert EncodeExtension(e) == buffer[MIN_SIZE + nameLen..total] && TotalLen(r) == total;
  }

  /** Whatever is accepted at the front of a buffer is the encoding of one well-formed record. */
  lemma RecordInverse(buffer: seq<byte>) returns (r: Record)
    requires ParseRecord(buffer).Ok?
    ensures WellFormed(r)
    ensures ParseRecord(buffer) == Ok((EventOf(r), |Encode(r)|))
    ensures Encode(r) <= buffer
  {
    r := RecordParts(buffer);
    AssembleRecord(r, buffer);
    RecordRoundTrip(r, buffer[TotalLen(r)..]);
    assert buffer == Encode(r) + buffer[TotalLen(r)..];
  }

  lemma AssembleRecord(r: Record, buffer: seq<byte>)
    requires TotalLen(r) <= |buffer|
    requires buffer[..MIN_SIZE] == Head(TotalLen(r), r.rawType, |r.name|)
    requires buffer[MIN_SIZE..MIN_SIZE + |r.name|] == r.name
    requires buffer[MIN_SIZE + |r.name|..TotalLen(r)] == EncodeExtension(r.extension)
    ensures buffer[..TotalLen(r)] == Encode(r)
  {
    var nameEnd := MIN_SIZE + |r.name|;
    assert buffer[..TotalLen(r)]
        == buffer[..MIN_SIZE] + (buffer[MIN_SIZE..nameEnd] + buffer[nameEnd..TotalLen(r)]);
  }

  lemma RecordThen(r: Record, rest: seq<byte>)
    requires WellFormed(r)
    ensures ParseEvents(Encode(r) + rest) == Prepended([EventOf(r)], ParseEvents(rest))
  {
    RecordRoundTrip(r, rest);
    assert (Encode(r) + rest)[|Encode(r)|..] == rest;
  }

  /** Records at the front of a buffer are read, and then what follows them. */
  lemma {:induction false} RecordsThen(rs: seq<Record>, rest: seq<byte>)
    requires AllWellFormed(rs)
    ensures ParseEvents(EncodeAll(rs) + rest) == Prepended(EventsOf(rs), ParseEvents(rest))
  {
    if rs == [] {
      assert [] + rest == rest;
    } else {
      var others := EncodeAll(rs[1..]);
      Associative(Encode(rs[0]), others, rest);
      RecordThen(rs[0], others + rest);
      RecordsThen(rs[1..], rest);
      PrependedTwice([EventOf(rs[0])], EventsOf(rs[1..]), ParseEvents(rest));
    }
  }

  /** The watch round trip: the concatenated records of any list are read back as exactly
      that list's events. */
  lemma WatchRoundTrip(rs: seq<Record>)
    requires AllWellFormed(rs)
    ensures ParseEvents(EncodeAll(rs)) == Ok(EventsOf(rs))
  {
    RecordsThen(rs, []);
    assert EncodeAll(rs) + [] == EncodeAll(rs);
  }

  lemma {:induction false} WatchInverse(buffer: seq<byte>) returns (rs: seq<Record>)
    requires ParseEvents(buffer).Ok?
    ensures AllWellFormed(rs) && EncodeAll(rs) == buffer
    ensures ParseEvents(buffer) == Ok(EventsOf(rs))
    decreases |buffer|
  {
    if buffer == [] {
      rs := [];
    } else {
      var r := RecordInverse(buffer);
      var rest := buffer[|Encode(r)|..];
      assert buffer == Encode(r) + rest;
      RecordThen(r, rest);
      var others := WatchInverse(rest);
      rs := [r] + others;
      assert rs[1..] == others;
    }
  }

  /** A buffer is accepted exactly when it is a concatenation of well-formed records, and
      then their events, in order, are the result. */
  lemma AcceptsExactlyRecords(buffer: seq<byte>, events: seq<WatchEvent>)
    ensures ParseEvents(buffer) == Ok(events)
       <==> exists rs :: AllWellFormed(rs) && EncodeAll(rs) == buffer && EventsOf(rs) == events
  {
    if ParseEvents(buffer) == Ok(events) {
      var rs := WatchInverse(buffer);
    }
    forall rs | AllWellFormed(rs) && EncodeAll(rs) == buffer && EventsOf(rs) == events
      ensures ParseEvents(buffer) == Ok(events)
    {
      WatchRoundTrip(rs);
    }
  }

  lemma RecordUnambiguous(r: Record, rest: seq<byte>, other: Record, otherRest: seq<byte>)
    requires WellFormed(r) && WellFormed(other)
    requires Encode(r) + rest == Encode(other) + otherRest
    ensures r == other && rest == otherRest
  {
    var b := Encode(r) + rest;
    RecordRoundTrip(r, rest);
    RecordRoundTrip(other, otherRest);
    var n := |Encode(r)|;
    assert b[n..] == rest && b[n..] == otherRest;
    assert b[4..6] == Encode(r)[4..6] && b[4..6] == Encode(other)[4..6];
    RawTypeField(r);
    RawTypeField(other);
  }

  lemma RawTypeField(r: Record)
    requires WellFormed(r)
    ensures FromLe(Encode(r)[4..6]) == r.rawType
  {
    Widths();
    HeadFields(TotalLen(r), r.rawType, |r.name|, r.name + EncodeExtension(r.extension));
    LeRoundTrip(r.rawType, 2);
  }

  /** The framing is unambiguous: no two lists of records have the same bytes. */
  lemma {:induction false} EncodingIsUnambiguous(rs: seq<Record>, others: seq<Record>)
    requires AllWellFormed(rs) && AllWellFormed(others)
    requires EncodeAll(rs) == EncodeAll(others)
    ensures rs == others
  {
    if rs == [] || others == [] {
      assert rs == [] && others == [];
    } else {
      RecordUnambiguous(rs[0], EncodeAll(rs[1..]), others[0], EncodeAll(others[1..]));
      EncodingIsUnambiguous(rs[1..], others[1..]);
      assert rs == [rs[0]] + rs[1..] && others == [others[0]] + others[1..];
    }
  }

  /** Reading an accepted buffer followed by more is reading each in turn. */
  lemma ParseDistributes(a: seq<byte>, b: seq<byte>)
    requires ParseEvents(a).Ok?
    ensures ParseEvents(a + b) == Prepended(ParseEvents(a).value, ParseEvents(b))
  {
    var rs := WatchInverse(a);
    RecordsThen(rs, b);
  }
}
