/** The packed value records of `query_values_batch`. */
module ValueRecords {
  import opened Wrappers
  import opened Bytes

  datatype ValueRecord = ValueRecord(name: seq<byte>, ty: nat, data: seq<byte>)

  /** `[name_len u32][name][type u32][data_len u32][data]`, all little-endian. */
  function Encode(r: ValueRecord): seq<byte> {
    ToLe(|r.name|, 4) + (r.name + (ToLe(r.ty, 4) + (ToLe(|r.data|, 4) + r.data)))
  }

  function EncodeAll(rs: seq<ValueRecord>): seq<byte> {
    if rs == [] then [] else Encode(rs[0]) + EncodeAll(rs[1..])
  }

  predicate WellFormed(r: ValueRecord) {
    |r.name| < 0x1_0000_0000 && r.ty < 0x1_0000_0000 && |r.data| < 0x1_0000_0000
  }

  predicate AllWellFormed(rs: seq<ValueRecord>) {
    forall r <- rs :: WellFormed(r)
  }

  // ---- The parser ----

  function ReadU32(buf: seq<byte>, pos: nat): Result<nat, Errno> {
    if pos + 4 <= |buf| then Ok(FromLe(buf[pos..pos + 4])) else Err(EINVAL)
  }

  function ReadBytes(buf: seq<byte>, pos: nat, len: nat): Result<seq<byte>, Errno> {
    if pos + len <= |buf| then Ok(buf[pos..pos + len]) else Err(EINVAL)
  }

  /** The record at `pos`, and the position after it. */
  function ParseOne(buf: seq<byte>, pos: nat): (r: Result<(ValueRecord, nat), Errno>)
    ensures r.Ok? ==> pos < r.value.1 <= |buf|
  {
    var nameLen :- ReadU32(buf, pos);
    var name :- ReadBytes(buf, pos + 4, nameLen);
    var afterName := pos + 4 + nameLen;
    var ty :- ReadU32(buf, afterName);
    var dataLen :- ReadU32(buf, afterName + 4);
    var data :- ReadBytes(buf, afterName + 8, dataLen);
    Ok((ValueRecord(name, ty, data), afterName + 8 + dataLen))
  }

  function ParseFrom(buf: seq<byte>, pos: nat, count: nat): Result<seq<ValueRecord>, Errno>
    decreases count
  {
    if count == 0 then Ok([])
    else
      var first :- ParseOne(buf, pos);
      var rest :- ParseFrom(buf, first.1, count - 1);
      Ok([first.0] + rest)
  }

  lemma ParseStep(buf: seq<byte>, pos: nat, count: nat, out: seq<ValueRecord>)
    requires count > 0
    ensures match ParseOne(buf, pos)
            case Err(e) => ParseFrom(buf, pos, count) == Err(e)
            case Ok((record, next)) =>
              Prepended(out, ParseFrom(buf, pos, count))
              == Prepended(out + [record], ParseFrom(buf, next, count - 1))
  {
    var one := ParseOne(buf, pos);
    if one.Ok? {
      PrependedTwice(out, [one.value.0], ParseFrom(buf, one.value.1, count - 1));
    }
  }

  /** One turn of the parser's loop: the cursor `pos` moves over one record. */
  method ParseTurn(buf: seq<byte>, start: nat) returns (r: Result<(ValueRecord, nat), Errno>)
    ensures r == ParseOne(buf, start)
  {
    var pos := start;
    var nameLen :- ReadU32(buf, pos);
    pos := pos + 4;
    var name :- ReadBytes(buf, pos, nameLen);
    pos := pos + nameLen;
    var ty :- ReadU32(buf, pos);
    pos := pos + 4;
    var dataLen :- ReadU32(buf, pos);
    pos := pos + 4;
    var data :- ReadBytes(buf, pos, dataLen);
    pos := pos + dataLen;
    return Ok((ValueRecord(name, ty, data), pos));
  }

  method ParseValueRecords(buf: seq<byte>, count: nat) returns (r: Result<seq<ValueRecord>, Errno>)
    ensures r == ParseFrom(buf, 0, count)
  {
    var out: seq<ValueRecord> := [];
    var pos: nat := 0;
    for i := 0 to count
      invariant pos <= |buf|
      invariant ParseFrom(buf, 0, count) == Prepended(out, ParseFrom(buf, pos, count - i))
    {
      ParseStep(buf, pos, count - i, out);
      var turn :- ParseTurn(buf, pos);
      out := out + [turn.0];
      pos := turn.1;
    }
    return Ok(out);
  }

  // ---- The parser inverts the encoder ----

  lemma U32At(buf: seq<byte>, pos: nat, n: nat)
    ensures ReadU32(buf, pos) == Ok(n) <==> n < 0x1_0000_0000 && At(buf, pos, ToLe(n, 4))
  {
    Widths();
    LeAt(buf, pos, n, 4);
  }

  lemma AtFields(buf: seq<byte>, pos: nat, a: seq<byte>, b: seq<byte>, c: seq<byte>, d: seq<byte>,
                 e: seq<byte>)
    ensures At(buf, pos, a + (b + (c + (d + e))))
       <==> && At(buf, pos, a)
            && At(buf, pos + |a|, b)
            && At(buf, pos + |a| + |b|, c)
            && At(buf, pos + |a| + |b| + |c|, d)
            && At(buf, pos + |a| + |b| + |c| + |d|, e)
  {
    AtConcat(buf, pos, a, b + (c + (d + e)));
    AtConcat(buf, pos + |a|, b, c + (d + e));
    AtConcat(buf, pos + |a| + |b|, c, d + e);
    AtConcat(buf, pos + |a| + |b| + |c|, d, e);
  }

  /** A length and that many bytes are read from `pos`. */
  predicate Prefixed(buf: seq<byte>, pos: nat, b: seq<byte>) {
    ReadU32(buf, pos) == Ok(|b|) && ReadBytes(buf, pos + 4, |b|) == Ok(b)
  }

  lemma PrefixedExactly(buf: seq<byte>, pos: nat, b: seq<byte>)
    ensures Prefixed(buf, pos, b)
       <==> |b| < 0x1_0000_0000 && At(buf, pos, ToLe(|b|, 4)) && At(buf, pos + 4, b)
  {
    U32At(buf, pos, |b|);
  }

  lemma FieldsRead(buf: seq<byte>, pos: nat, r: ValueRecord, end: nat)
    ensures ParseOne(buf, pos) == Ok((r, end))
       <==> && Prefixed(buf, pos, r.name)
            && ReadU32(buf, pos + 4 + |r.name|) == Ok(r.ty)
            && Prefixed(buf, pos + 8 + |r.name|, r.data)
            && end == pos + 12 + |r.name| + |r.data|
  {
  }

  /** A record's five fields stand one after another. */
  predicate FieldsStand(buf: seq<byte>, pos: nat, r: ValueRecord) {
    && At(buf, pos, ToLe(|r.name|, 4))
    && At(buf, pos + 4, r.name)
    && At(buf, pos + 4 + |r.name|, ToLe(r.ty, 4))
    && At(buf, pos + 8 + |r.name|, ToLe(|r.data|, 4))
    && At(buf, pos + 12 + |r.name|, r.data)
  }

  lemma FieldsReadExactly(buf: seq<byte>, pos: nat, r: ValueRecord, end: nat)
    ensures ParseOne(buf, pos) == Ok((r, end))
       <==> WellFormed(r) && FieldsStand(buf, pos, r) && end == pos + 12 + |r.name| + |r.data|
  {
    FieldsRead(buf, pos, r, end);
    PrefixedExactly(buf, pos, r.name);
    U32At(buf, pos + 4 + |r.name|, r.ty);
    PrefixedExactly(buf, pos + 8 + |r.name|, r.data);
  }

  lemma EncodingStands(buf: seq<byte>, pos: nat, r: ValueRecord)
    ensures |Encode(r)| == 12 + |r.name| + |r.data|
    ensures FieldsStand(buf, pos, r) <==> At(buf, pos, Encode(r))
  {
    AtFields(buf, pos, ToLe(|r.name|, 4), r.name, ToLe(r.ty, 4), ToLe(|r.data|, 4), r.data);
  }

  /** One record is read at `pos` exactly when it is well-formed and its encoding stands there. */
  lemma RecordReadExactly(buf: seq<byte>, pos: nat, r: ValueRecord, end: nat)
    ensures ParseOne(buf, pos) == Ok((r, end))
       <==> WellFormed(r) && At(buf, pos, Encode(r)) && end == pos + |Encode(r)|
  {
    FieldsReadExactly(buf, pos, r, end);
    EncodingStands(buf, pos, r);
  }

  lemma FirstThenRest(buf: seq<byte>, pos: nat, count: nat, rs: seq<ValueRecord>)
    requires count > 0 && rs != []
    ensures ParseFrom(buf, pos, count) == Ok(rs)
       <==> && WellFormed(rs[0]) && At(buf, pos, Encode(rs[0]))
            && ParseFrom(buf, pos + |Encode(rs[0])|, count - 1) == Ok(rs[1..])
  {
    assert rs == [rs[0]] + rs[1..];
    RecordReadExactly(buf, pos, rs[0], pos + |Encode(rs[0])|);
    var one := ParseOne(buf, pos);
    if one.Ok? {
      RecordReadExactly(buf, pos, one.value.0, one.value.1);
    }
    if ParseFrom(buf, pos, count).Ok? {
      var rest := ParseFrom(buf, one.value.1, count - 1).value;
      assert ([one.value.0] + rest)[1..] == rest;
    }
  }

  /** `count` well-formed records stand packed at `pos`. */
  predicate Packed(buf: seq<byte>, pos: nat, count: nat, rs: seq<ValueRecord>) {
    |rs| == count && AllWellFormed(rs) && At(buf, pos, EncodeAll(rs))
  }

  lemma FirstPacked(buf: seq<byte>, pos: nat, count: nat, rs: seq<ValueRecord>)
    requires count > 0 && rs != []
    ensures Packed(buf, pos, count, rs)
       <==> && WellFormed(rs[0]) && At(buf, pos, Encode(rs[0]))
            && Packed(buf, pos + |Encode(rs[0])|, count - 1, rs[1..])
  {
    assert rs == [rs[0]] + rs[1..];
    AtConcat(buf, pos, Encode(rs[0]), EncodeAll(rs[1..]));
  }

  /** Where the records after the first start, read or packed. */
  lemma AfterFirst(buf: seq<byte>, pos: nat, count: nat, rs: seq<ValueRecord>) returns (next: nat)
    requires pos <= |buf| && count > 0
    requires Packed(buf, pos, count, rs) || ParseFrom(buf, pos, count) == Ok(rs)
    ensures rs != [] && next <= |buf|
    ensures Packed(buf, pos, count, rs) <==> Packed(buf, next, count - 1, rs[1..])
    ensures ParseFrom(buf, pos, count) == Ok(rs) <==> ParseFrom(buf, next, count - 1) == Ok(rs[1..])
  {
    next := pos + |Encode(rs[0])|;
    FirstPacked(buf, pos, count, rs);
    FirstThenRest(buf, pos, count, rs);
  }

  lemma {:induction false} PackedIsRead(buf: seq<byte>, pos: nat, count: nat, rs: seq<ValueRecord>)
    requires Packed(buf, pos, count, rs)
    ensures ParseFrom(buf, pos, count) == Ok(rs)
    decreases count
  {
    if count > 0 {
      var next := AfterFirst(buf, pos, count, rs);
      PackedIsRead(buf, next, count - 1, rs[1..]);
    }
  }

  lemma {:induction false} ReadIsPacked(buf: seq<byte>, pos: nat, count: nat, rs: seq<ValueRecord>)
    requires pos <= |buf| && ParseFrom(buf, pos, count) == Ok(rs)
    ensures Packed(buf, pos, count, rs)
    decreases count
  {
    if count > 0 {
      var next := AfterFirst(buf, pos, count, rs);
      ReadIsPacked(buf, next, count - 1, rs[1..]);
    }
  }

  /** `count` records are read from `pos` exactly when there are that many, all well-formed,
      and their packed encoding stands there, whatever follows it. */
  lemma RecordsReadExactly(buf: seq<byte>, pos: nat, count: nat, rs: seq<ValueRecord>)
    requires pos <= |buf|
    ensures ParseFrom(buf, pos, count) == Ok(rs) <==> Packed(buf, pos, count, rs)
  {
    if Packed(buf, pos, count, rs) {
      PackedIsRead(buf, pos, count, rs);
    }
    if ParseFrom(buf, pos, count) == Ok(rs) {
      ReadIsPacked(buf, pos, count, rs);
    }
  }

  /** The batch round trip, with anything after the records; and acceptance in general: the
      result is the one list of `count` well-formed records the buffer starts with. */
  lemma BatchRoundTrip(rs: seq<ValueRecord>, trailing: seq<byte>)
    requires AllWellFormed(rs)
    ensures ParseFrom(EncodeAll(rs) + trailing, 0, |rs|) == Ok(rs)
  {
    RecordsReadExactly(EncodeAll(rs) + trailing, 0, |rs|, rs);
  }

  lemma BatchAcceptsExactly(buf: seq<byte>, count: nat)
    ensures ParseFrom(buf, 0, count).Ok?
       <==> exists rs :: |rs| == count && AllWellFormed(rs) && EncodeAll(rs) <= buf
  {
    if ParseFrom(buf, 0, count).Ok? {
      var rs := ParseFrom(buf, 0, count).value;
      RecordsReadExactly(buf, 0, count, rs);
      assert EncodeAll(rs) <= buf;
    }
    forall rs | |rs| == count && AllWellFormed(rs) && EncodeAll(rs) <= buf
      ensures ParseFrom(buf, 0, count).Ok?
    {
      RecordsReadExactly(buf, 0, count, rs);
    }
  }
}
