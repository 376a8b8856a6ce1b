/** Reading all of a key's values at once: `query_values_batch`, one size probe and one fill of a
    key whose values may change before either. */
module ValuesBatch {
  import opened Wrappers
  import opened Bytes
  import opened ValueRecords

  /** One call: the capacity given, the key's values at that moment, and the outcome. */
  datatype Call = Call(cap: nat, records: seq<ValueRecord>, outcome: Result<(), Errno>)

  /** The packed values fit the buffer the call was given. */
  predicate Fits(call: Call) {
    |EncodeAll(call.records)| <= call.cap
  }

  /** Reports the bytes and the records there are, whether or not the buffer was large enough;
      given no capacity at all it may answer either 0 or ERANGE. */
  class ValuesSource {
    const mayFail: bool
    ghost var calls: seq<Call>

    constructor (mayFail: bool)
      ensures this.mayFail == mayFail && calls == []
    {
      this.mayFail := mayFail;
      this.calls := [];
    }

    method Read(buf: array<byte>) returns (r: Result<(), Errno>, len: nat, count: nat)
      modifies this, buf
      ensures |calls| == |old(calls)| + 1 && old(calls) <= calls
      ensures var call := calls[|old(calls)|];
              && call.cap == buf.Length && call.outcome == r && AllWellFormed(call.records)
              && len == |EncodeAll(call.records)| && count == |call.records|
              && match r
                 case Ok(_) =>
                   && (Fits(call) || buf.Length == 0)
                   && (Fits(call) ==> buf[..len] == EncodeAll(call.records))
                 case Err(e) => (e == ERANGE && !Fits(call)) || (e.Other? && mayFail)
    {
      var records: seq<ValueRecord> := *;
      if !AllWellFormed(records) {
        records := [];
      }
      var packed := EncodeAll(records);
      len, count := |packed|, |records|;
      var hit: bool := *;
      if mayFail && hit {
        var code: int := *;
        r := Err(Errno.Other(code));
      } else if len <= buf.Length {
        forall i | 0 <= i < len {
          buf[i] := packed[i];
        }
        assert buf[..len] == packed;
        r := Ok(());
      } else {
        r := if buf.Length == 0 && hit then Ok(()) else Err(ERANGE);
      }
      calls := calls + [Call(buf.Length, records, r)];
    }
  }

  /** A read that got as far as the fill: the values at the fill if they fit what the probe
      reported. If they outgrew it the result is ERANGE; but when the probe reported no bytes the
      fill has no capacity either, and where that is answered like a probe, the count of the new
      values without a byte of them, the result is EINVAL. */
  ghost predicate FillContract(asked: Call, filled: Call, r: Result<seq<ValueRecord>, Errno>, mayFail: bool) {
    && asked.cap == 0 && filled.cap == |EncodeAll(asked.records)|
    && (r.Ok? <==> filled.outcome.Ok? && Fits(filled))
    && (r.Ok? ==> r.value == filled.records)
    && (r == Err(ERANGE) <==> filled.outcome == Err(ERANGE))
    && (r == Err(EINVAL) <==> filled.outcome.Ok? && asked.records == [] && filled.records != [])
    && (filled.outcome == Err(ERANGE) ==> !Fits(filled))
    && (!mayFail && !Fits(filled) ==> r == Err(ERANGE) || (r == Err(EINVAL) && asked.records == []))
    && (!mayFail && Fits(filled) ==> r == Ok(filled.records))
  }

  method QueryValuesBatch(key: ValuesSource) returns (r: Result<seq<ValueRecord>, Errno>)
    modifies key
    ensures |old(key.calls)| < |key.calls| <= |old(key.calls)| + 2 && old(key.calls) <= key.calls
    ensures |key.calls| == |old(key.calls)| + 2 ==>
              FillContract(key.calls[|old(key.calls)|], key.calls[|old(key.calls)| + 1], r, key.mayFail)
    ensures |key.calls| == |old(key.calls)| + 1 ==> r.Err? && r.error.Other? && key.mayFail
  {
    var none := new byte[0];
    var probed, cap, count := key.Read(none);
    if probed.Err? && probed.error != ERANGE {
      return Err(probed.error);
    }
    ghost var asked := key.calls;
    var buf := new byte[cap];
    var filled, len, filledCount := key.Read(buf);
    NoBytesNoRecords(asked[|asked| - 1].records);
    if filled.Err? {
      return Err(filled.error);
    }
    var bytes := buf[..if len < buf.Length then len else buf.Length];
    ParseFilled(key.calls[|asked|], bytes);
    r := ParseValueRecords(bytes, filledCount);
  }

  lemma NoBytesNoRecords(records: seq<ValueRecord>)
    ensures EncodeAll(records) == [] <==> records == []
  {
  }

  /** What the parser makes of a fill that succeeded. */
  lemma ParseFilled(call: Call, bytes: seq<byte>)
    requires AllWellFormed(call.records)
    requires if Fits(call) then bytes == EncodeAll(call.records) else bytes == []
    ensures ParseFrom(bytes, 0, |call.records|) == if Fits(call) then Ok(call.records) else Err(EINVAL)
  {
    if Fits(call) {
      BatchRoundTrip(call.records, []);
      assert bytes + [] == bytes;
    } else {
      NoBytesNoRecords(call.records);
    }
  }
}
