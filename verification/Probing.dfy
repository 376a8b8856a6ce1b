/** Reading an object whose size may change before every call: `probe` and `probe_str`, and the
    descriptor loops of `get_security` and `query_value`. Each environment keeps the history of
    its calls: what the object held at that moment, and what the call said. */
module Probing {
  import opened Wrappers
  import opened Bytes
  import opened Utf8

  // ---- probe and probe_str ----

  /** One call: the capacity given, the object's contents at that moment, and the outcome. */
  datatype Call = Call(cap: nat, contents: seq<byte>, outcome: Result<nat, Errno>)

  /** A getxattr-style object. `terminator` is 1 for the string convention, whose writes need
      room for a NUL that the length leaves out, and 0 otherwise. */
  class ByteSource {
    const terminator: nat
    const mayFail: bool
    ghost var calls: seq<Call>

    constructor (terminator: nat, mayFail: bool)
      requires terminator <= 1
      ensures this.terminator == terminator && this.mayFail == mayFail && calls == []
    {
      this.terminator := terminator;
      this.mayFail := mayFail;
      this.calls := [];
    }

    /** Capacity 0 asks for the length; a fill that is too small is ERANGE and writes nothing. */
    method Read(buf: array<byte>) returns (r: Result<nat, Errno>)
      modifies this, buf
      ensures |calls| == |old(calls)| + 1 && old(calls) <= calls
      ensures var call := calls[|old(calls)|];
              && call.cap == buf.Length && call.outcome == r
              && match r
                 case Ok(n) =>
                   && n == |call.contents|
                   && (buf.Length > 0 ==> n + terminator <= buf.Length && buf[..n] == call.contents)
                 case Err(e) =>
                   || (e == ERANGE && 0 < buf.Length < |call.contents| + terminator)
                   || (e.Other? && mayFail)
    {
      var contents: seq<byte> := *;
      if mayFail {
        var hit: bool := *;
        if hit {
          var code: int := *;
          r := Err(Errno.Other(code));
          calls := calls + [Call(buf.Length, contents, r)];
          return;
        }
      }
      if buf.Length == 0 {
        r := Ok(|contents|);
      } else if |contents| + terminator > buf.Length {
        r := Err(ERANGE);
      } else {
        forall i | 0 <= i < |contents| {
          buf[i] := contents[i];
        }
        assert buf[..|contents|] == contents;
        r := Ok(|contents|);
      }
      calls := calls + [Call(buf.Length, contents, r)];
    }
  }

  /** A call with no buffer, for the size. */
  method AskSize(f: ByteSource) returns (r: Result<nat, Errno>)
    modifies f
    ensures |f.calls| == |old(f.calls)| + 1 && old(f.calls) <= f.calls
    ensures var call := f.calls[|old(f.calls)|];
            && call.cap == 0 && call.outcome == r
            && match r case Ok(n) => n == |call.contents| case Err(e) => e.Other? && f.mayFail
  {
    var empty := new byte[0];
    r := f.Read(empty);
  }

  /** In attempt `j` of a read that began after `base` calls, the object outgrew its size
      between the probe and the fill. */
  ghost predicate Outgrew(calls: seq<Call>, base: nat, j: nat, terminator: nat)
    requires base + 2 * j + 1 < |calls|
  {
    var asked, filled := calls[base + 2 * j], calls[base + 2 * j + 1];
    && asked.cap == 0 && asked.outcome == Ok(|asked.contents|)
    && filled.cap == |asked.contents| + terminator && filled.outcome == Err(ERANGE)
    && |filled.contents| > |asked.contents|
  }

  /** It did so in each of the first `attempts` attempts. */
  ghost predicate AllOutgrew(calls: seq<Call>, base: nat, attempts: nat, terminator: nat) {
    forall j :: 0 <= j < attempts ==> base + 2 * j + 1 < |calls| && Outgrew(calls, base, j, terminator)
  }

  /** Every attempt but the last is one the object outgrew; a read that ended on a fill ended
      with one made for the size just reported. */
  ghost predicate Attempts(calls: seq<Call>, base: nat, terminator: nat)
    requires base < |calls|
  {
    && AllOutgrew(calls, base, (|calls| - base - 1) / 2, terminator)
    && ((|calls| - base) % 2 == 0 ==>
          var asked, filled := calls[|calls| - 2], calls[|calls| - 1];
          && asked.cap == 0 && asked.outcome == Ok(|asked.contents|)
          && filled.cap == |asked.contents| + terminator && filled.outcome != Err(ERANGE))
  }

  lemma OutgrewAgain(calls: seq<Call>, longer: seq<Call>, base: nat, attempts: nat, terminator: nat)
    requires AllOutgrew(calls, base, attempts, terminator) && calls <= longer
    requires base + 2 * attempts + 1 < |longer| && Outgrew(longer, base, attempts, terminator)
    ensures AllOutgrew(longer, base, attempts + 1, terminator)
  {
    forall j | 0 <= j < attempts
      ensures Outgrew(longer, base, j, terminator)
    {
      assert Outgrew(calls, base, j, terminator);
    }
  }

  lemma EndsOnFill(before: seq<Call>, calls: seq<Call>, base: nat, i: nat, terminator: nat)
    requires before <= calls && |before| == base + 2 * i + 1 && |calls| == |before| + 1
    requires AllOutgrew(before, base, i, terminator)
    requires before[base + 2 * i].cap == 0
    requires before[base + 2 * i].outcome == Ok(|before[base + 2 * i].contents|)
    requires calls[|before|].cap == |before[base + 2 * i].contents| + terminator
    requires calls[|before|].outcome != Err(ERANGE)
    ensures Attempts(calls, base, terminator)
  {
    assert (|calls| - base - 1) / 2 == i;
    forall j | 0 <= j < i
      ensures Outgrew(calls, base, j, terminator)
    {
      assert Outgrew(before, base, j, terminator);
    }
  }

  lemma EndsOnProbe(calls: seq<Call>, base: nat, n: nat, terminator: nat)
    requires |calls| == base + 2 * n + 1 && AllOutgrew(calls, base, n, terminator)
    ensures Attempts(calls, base, terminator)
  {
    assert (|calls| - base - 1) / 2 == n;
  }

  /** After `i` attempts the object has outgrown, its size was asked for again and is `cap`. */
  ghost predicate Waiting(calls: seq<Call>, base: nat, i: nat, cap: nat, terminator: nat) {
    && |calls| == base + 2 * i + 1 && AllOutgrew(calls, base, i, terminator)
    && calls[base + 2 * i].cap == 0 && calls[base + 2 * i].outcome == Ok(cap)
    && |calls[base + 2 * i].contents| == cap
  }

  /** One attempt: a fill for the size asked for, and if the object outgrew it the size again.
      The bytes are as many as were read, but no more than the buffer holds. */
  method Attempt(f: ByteSource, cap: nat, ghost base: nat, ghost i: nat)
    returns (ret: Result<seq<byte>, Errno>, again: Result<nat, Errno>)
    requires Waiting(f.calls, base, i, cap, f.terminator)
    modifies f
    ensures old(f.calls) <= f.calls && Attempts(f.calls, base, f.terminator)
    ensures |old(f.calls)| < |f.calls|
    ensures ret != Err(ERANGE) ==>
              var fill := f.calls[|old(f.calls)|];
              && |f.calls| == |old(f.calls)| + 1 && fill.cap == cap + f.terminator
              && match ret
                 case Ok(bytes) => fill.outcome.Ok? && bytes == if fill.cap > 0 then fill.contents else []
                 case Err(e) => e.Other? && f.mayFail && fill.outcome == Err(e)
    ensures ret == Err(ERANGE) ==>
              && |f.calls| == |old(f.calls)| + 2
              && match again
                 case Ok(n) => Waiting(f.calls, base, i + 1, n, f.terminator)
                 case Err(e) => e.Other? && f.mayFail && f.calls[|f.calls| - 1].outcome == Err(e)
  {
    ghost var asked := f.calls;
    var buf := new byte[cap + f.terminator];
    again := Err(ERANGE);
    var n := f.Read(buf);
    if n != Err(ERANGE) {
      EndsOnFill(asked, f.calls, base, i, f.terminator);
      ret := match n
             case Ok(n) => Ok(buf[..if n < buf.Length then n else buf.Length])
             case Err(e) => Err(e);
    } else {
      ret := Err(ERANGE);
      again := AskSize(f);
      OutgrewAgain(asked, f.calls, base, i, f.terminator);
      EndsOnProbe(f.calls, base, i + 1, f.terminator);
    }
  }

  /** What a finished `probe` gives its caller, whatever the object did meanwhile. */
  ghost predicate ProbeContract(calls: seq<Call>, base: nat, r: Result<seq<byte>, Errno>, mayFail: bool)
    requires base < |calls|
  {
    var last := calls[|calls| - 1];
    match r
    case Ok(bytes) =>
      // The contents at the fill; or, for an empty buffer, at the size probe before it.
      if last.cap > 0 then bytes == last.contents
      else bytes == [] && base <= |calls| - 2 && calls[|calls| - 2].contents == []
    case Err(e) =>
      if e == ERANGE then
        |calls| == base + 9 && AllOutgrew(calls, base, 4, 0)
      else mayFail && last.outcome == Err(e)
  }

  method Probe(f: ByteSource) returns (r: Result<seq<byte>, Errno>)
    requires f.terminator == 0
    modifies f
    ensures |old(f.calls)| < |f.calls| <= |old(f.calls)| + 9
    ensures old(f.calls) <= f.calls
    ensures ProbeContract(f.calls, |old(f.calls)|, r, f.mayFail)
    ensures Attempts(f.calls, |old(f.calls)|, 0)
  {
    ghost var base := |f.calls|;
    var first := AskSize(f);
    EndsOnProbe(f.calls, base, 0, f.terminator);
    var cap :- first;
    for i := 0 to 4
      invariant old(f.calls) <= f.calls
      invariant Waiting(f.calls, base, i, cap, 0)
      invariant Attempts(f.calls, base, 0)
    {
      var ret, again := Attempt(f, cap, base, i);
      if ret.Ok? || ret.error != ERANGE {
        return ret;
      }
      cap :- again;
    }
    return Err(ERANGE);
  }

  /** What a finished `probe_str` gives its caller: its buffer is never empty, so the string is
      always the contents at the fill. */
  ghost predicate ProbeStrContract(calls: seq<Call>, base: nat, r: Result<Text, Errno>, mayFail: bool)
    requires base < |calls|
  {
    var last := calls[|calls| - 1];
    match r
    case Ok(text) => text == last.contents
    case Err(e) =>
      if e == ERANGE then |calls| == base + 9 && AllOutgrew(calls, base, 4, 1)
      else if e == EINVAL then last.outcome.Ok? && !Valid(last.contents)
      else mayFail && last.outcome == Err(e)
  }

  method ProbeStr(f: ByteSource) returns (r: Result<Text, Errno>)
    requires f.terminator == 1
    modifies f
    ensures |old(f.calls)| < |f.calls| <= |old(f.calls)| + 9
    ensures old(f.calls) <= f.calls
    ensures ProbeStrContract(f.calls, |old(f.calls)|, r, f.mayFail)
    ensures Attempts(f.calls, |old(f.calls)|, 1)
  {
    ghost var base := |f.calls|;
    var first := AskSize(f);
    EndsOnProbe(f.calls, base, 0, f.terminator);
    var cap :- first;
    for i := 0 to 4
      invariant old(f.calls) <= f.calls
      invariant Waiting(f.calls, base, i, cap, 1)
      invariant Attempts(f.calls, base, 1)
    {
      var ret, again := Attempt(f, cap, base, i);
      if ret.Ok? {
        return if Valid(ret.value) then ret else Err(EINVAL);
      }
      if ret.error != ERANGE {
        return ret;
      }
      cap :- again;
    }
    return Err(ERANGE);
  }

  /** An attempt the object did not outgrow is the last one. */
  lemma SteadyAttemptIsLast(calls: seq<Call>, base: nat, terminator: nat, j: nat)
    requires base < |calls| && Attempts(calls, base, terminator) && base + 2 * j + 1 < |calls|
    requires |calls[base + 2 * j + 1].contents| <= |calls[base + 2 * j].contents|
    ensures base + 2 * j + 2 == |calls|
  {
    assert !Outgrew(calls, base, j, terminator);
  }

  /** Reading succeeds once growth stops: if in any attempt the object is no larger at the fill
      than at the probe before it, what it holds at that fill is the result. */
  lemma SteadyObjectIsRead(calls: seq<Call>, base: nat, r: Result<seq<byte>, Errno>, j: nat)
    requires base < |calls| && ProbeContract(calls, base, r, false) && Attempts(calls, base, 0)
    requires base + 2 * j + 1 < |calls|
    requires |calls[base + 2 * j + 1].contents| <= |calls[base + 2 * j].contents|
    ensures base + 2 * j + 2 == |calls|
    ensures r == Ok(calls[base + 2 * j + 1].contents)
  {
    SteadyAttemptIsLast(calls, base, 0, j);
  }

  lemma SteadyStringIsRead(calls: seq<Call>, base: nat, r: Result<Text, Errno>, j: nat)
    requires base < |calls| && ProbeStrContract(calls, base, r, false) && Attempts(calls, base, 1)
    requires base + 2 * j + 1 < |calls|
    requires |calls[base + 2 * j + 1].contents| <= |calls[base + 2 * j].contents|
    ensures base + 2 * j + 2 == |calls|
    ensures var contents := calls[base + 2 * j + 1].contents;
            r == if Valid(contents) then Ok(contents) else Err(EINVAL)
  {
    SteadyAttemptIsLast(calls, base, 1, j);
  }

  // ---- get_security ----

  /** How a call on a descriptor may end: given no capacity at all, a larger descriptor may be
      answered with either success or ERANGE. */
  ghost predicate Reported(call: Call, mayFail: bool) {
    match call.outcome
    case Ok(n) => n == |call.contents| && (n <= call.cap || call.cap == 0)
    case Err(e) => (e == ERANGE && |call.contents| > call.cap) || (e.Other? && mayFail)
  }

  /** A call that reports the size it needs whether or not the buffer was large enough. */
  class SecuritySource {
    const mayFail: bool
    ghost var calls: seq<Call>

    constructor (mayFail: bool)
      ensures this.mayFail == mayFail && calls == []
    {
      this.mayFail := mayFail;
      this.calls := [];
    }

    method Get(buf: array<byte>) returns (r: Result<(), Errno>, len: nat)
      modifies this, buf
      ensures |calls| == |old(calls)| + 1 && old(calls) <= calls
      ensures var call := calls[|old(calls)|];
              && call.cap == buf.Length && Reported(call, mayFail)
              && match r
                 case Ok(_) =>
                   && call.outcome == Ok(len)
                   && (len <= buf.Length ==> buf[..len] == call.contents)
                 case Err(e) =>
                   && call.outcome == Err(e)
                   && (e == ERANGE ==> len == |call.contents|)
    {
      var contents: seq<byte> := *;
      len := |contents|;
      var hit: bool := *;
      if mayFail && hit {
        var code: int := *;
        r := Err(Errno.Other(code));
      } else if len <= buf.Length {
        forall i | 0 <= i < len {
          buf[i] := contents[i];
        }
        assert buf[..len] == contents;
        r := Ok(());
      } else if buf.Length == 0 && hit {
        r := Ok(());
      } else {
        r := Err(ERANGE);
      }
      calls := calls + [Call(buf.Length, contents,
                             match r case Ok(_) => Ok(len) case Err(e) => Err(e))];
    }
  }

  /** At call `i` the object did not fit the size it reported at the call before. */
  ghost predicate OutgrewReport(calls: seq<Call>, i: nat)
    requires 0 < i < |calls|
  {
    && calls[i].outcome == Err(ERANGE)
    && calls[i].cap == |calls[i - 1].contents| < |calls[i].contents|
  }

  ghost predicate AllOutgrewReport(calls: seq<Call>, first: nat, last: nat)
    requires last <= |calls|
  {
    forall i :: 0 < first <= i < last ==> OutgrewReport(calls, i)
  }

  ghost predicate SecurityContract(calls: seq<Call>, base: nat, r: Result<seq<byte>, Errno>, mayFail: bool)
    requires base < |calls|
  {
    var last := calls[|calls| - 1];
    match r
    case Ok(bytes) =>
      && base + 1 < |calls| && last.outcome == Ok(|last.contents|)
      && if |last.contents| <= last.cap then bytes == last.contents
         else bytes == [] && calls[|calls| - 2].contents == []
    case Err(e) =>
      if e == ERANGE then |calls| == base + 5 && AllOutgrewReport(calls, base + 1, base + 5)
      else mayFail && last.outcome == Err(e)
  }

  /** Every fill but the last found the descriptor grown, and every fill was made for the size
      reported just before it. */
  ghost predicate Refilled(calls: seq<Call>, base: nat)
    requires base < |calls|
  {
    && AllOutgrewReport(calls, base + 1, |calls| - 1)
    && (|calls| > base + 1 ==> calls[|calls| - 1].cap == |calls[|calls| - 2].contents|)
  }

  method GetSecurity(key: SecuritySource) returns (r: Result<seq<byte>, Errno>)
    modifies key
    ensures |old(key.calls)| < |key.calls| <= |old(key.calls)| + 5
    ensures old(key.calls) <= key.calls
    ensures SecurityContract(key.calls, |old(key.calls)|, r, key.mayFail)
    ensures Refilled(key.calls, |old(key.calls)|)
  {
    ghost var base := |key.calls|;
    var empty := new byte[0];
    var ret, cap := key.Get(empty);
    if ret.Err? && ret.error != ERANGE {
      return Err(ret.error);
    }
    for i := 0 to 4
      invariant |key.calls| == base + 1 + i && old(key.calls) <= key.calls
      invariant cap == |key.calls[base + i].contents|
      invariant AllOutgrewReport(key.calls, base + 1, base + 1 + i)
      invariant i > 0 ==> Refilled(key.calls, base)
    {
      var buf := new byte[cap];
      ghost var before := key.calls;
      var len;
      ret, len := key.Get(buf);
      EndsOnRefill(before, key.calls, base);
      if ret.Ok? {
        return Ok(buf[..if len < buf.Length then len else buf.Length]);
      }
      if ret.error != ERANGE {
        return Err(ret.error);
      }
      cap := len;
      ReportOutgrown(before, key.calls, base + 1, base + 1 + i);
    }
    return Err(ERANGE);
  }

  lemma ReportOutgrown(calls: seq<Call>, longer: seq<Call>, first: nat, last: nat)
    requires 0 < first <= last == |calls| && AllOutgrewReport(calls, first, last)
    requires calls <= longer && |longer| == last + 1 && OutgrewReport(longer, last)
    ensures AllOutgrewReport(longer, first, last + 1)
  {
    forall i | first <= i < last
      ensures OutgrewReport(longer, i)
    {
      assert OutgrewReport(calls, i);
    }
  }

  lemma EndsOnRefill(before: seq<Call>, calls: seq<Call>, base: nat)
    requires before <= calls && base < |before| && |calls| == |before| + 1
    requires AllOutgrewReport(before, base + 1, |before|)
    requires calls[|before|].cap == |before[|before| - 1].contents|
    ensures Refilled(calls, base)
  {
    forall i | base + 1 <= i < |before|
      ensures OutgrewReport(calls, i)
    {
      assert OutgrewReport(before, i);
    }
  }

  /** A descriptor no larger at a fill than at the call before it is the result. */
  lemma SteadyDescriptorIsRead(calls: seq<Call>, base: nat, r: Result<seq<byte>, Errno>, i: nat)
    requires base < |calls| && SecurityContract(calls, base, r, false) && Refilled(calls, base)
    requires base < i < |calls| && |calls[i].contents| <= |calls[i - 1].contents|
    ensures i == |calls| - 1 && r == Ok(calls[i].contents)
  {
    assert !OutgrewReport(calls, i);
  }

  /** The descriptor did not fit, and the call said so; given no capacity, it need not. */
  ghost predicate TooLarge(call: Call) {
    |call.contents| > call.cap && (call.cap > 0 || call.outcome == Err(ERANGE))
  }

  /** The size is always asked for first; up to three fills too small are each followed by
      another, and a fourth is the end. */
  lemma RefillsExactly(calls: seq<Call>, base: nat, r: Result<seq<byte>, Errno>, n: nat)
    requires base + n < |calls| <= base + 5
    requires SecurityContract(calls, base, r, false) && Refilled(calls, base)
    ensures |calls| > base + n + 1 <==> n == 0 || (n < 4 && TooLarge(calls[base + n]))
    ensures |calls| == base + n + 1 ==>
              var last := calls[base + n];
              r == if TooLarge(last) then Err(ERANGE)
                   else Ok(if |last.contents| <= last.cap then last.contents else [])
  {
    if 0 < n && |calls| > base + n + 1 {
      assert OutgrewReport(calls, base + n);
    }
    if |calls| == base + 5 && r == Err(ERANGE) {
      assert OutgrewReport(calls, base + 4);
    }
  }

  /** A descriptor that grows before its first fill and before its second takes four calls. */
  lemma DescriptorRefilledTwice(first: seq<byte>, second: seq<byte>, third: seq<byte>)
    requires |first| < |second| < |third|
    ensures var calls := [Call(0, first, Ok(|first|)), Call(|first|, second, Err(ERANGE)),
                            Call(|second|, third, Err(ERANGE)), Call(|third|, third, Ok(|third|))];
              && SecurityContract(calls, 0, Ok(third), false) && Refilled(calls, 0)
              && forall call <- calls :: Reported(call, false)
  {
  }

  // ---- query_value ----

  /** Everything one read of a value yields. */
  datatype Reading = Reading(sequence: nat, ty: nat, data: seq<byte>, layer: seq<byte>)

  /** One call: the two capacities, the effective entry at that moment if there was one, and
      how it ended. */
  datatype Query = Query(dataCap: nat, layerCap: nat, entry: Option<Reading>, outcome: Result<(), Errno>)

  predicate Fits(q: Query) {
    q.entry.Some? && |q.entry.value.data| <= q.dataCap && |q.entry.value.layer| <= q.layerCap
  }

  /** How a call may end. */
  ghost predicate Answered(q: Query, mayFail: bool) {
    match q.outcome
    case Ok(_) => Fits(q)
    case Err(e) =>
      (e == ERANGE && q.entry.Some? && !Fits(q)) || (e == ENOENT && q.entry == None) || (e.Other? && mayFail)
  }

  /** The fields of the descriptor that a call fills in. */
  datatype Filled = Filled(sequence: nat, ty: nat, dataLen: nat, layerLen: nat)

  class ValueSource {
    const mayFail: bool
    ghost var calls: seq<Query>

    constructor (mayFail: bool)
      ensures this.mayFail == mayFail && calls == []
    {
      this.mayFail := mayFail;
      this.calls := [];
    }

    /** Both windows are filled, from one entry, or neither; too small a window is ERANGE with
        the lengths needed. */
    method Read(data: array<byte>, layer: array<byte>) returns (r: Result<(), Errno>, v: Filled)
      requires data != layer
      modifies this, data, layer
      ensures |calls| == |old(calls)| + 1 && old(calls) <= calls
      ensures var q := calls[|old(calls)|];
              && q.dataCap == data.Length && q.layerCap == layer.Length && q.outcome == r
              && Answered(q, mayFail)
              && match r
                 case Ok(_) =>
                   && v == Filled(q.entry.value.sequence, q.entry.value.ty, |q.entry.value.data|,
                                  |q.entry.value.layer|)
                   && data[..v.dataLen] == q.entry.value.data
                   && layer[..v.layerLen] == q.entry.value.layer
                 case Err(e) =>
                   e == ERANGE ==>
                     v.dataLen == |q.entry.value.data| && v.layerLen == |q.entry.value.layer|
    {
      var entry: Option<Reading> := *;
      v := Filled(0, 0, 0, 0);
      var hit: bool := *;
      if mayFail && hit {
        var code: int := *;
        r := Err(Errno.Other(code));
      } else {
        match entry
        case None =>
          r := Err(ENOENT);
        case Some(e) =>
          v := Filled(0, 0, |e.data|, |e.layer|);
          if |e.data| <= data.Length && |e.layer| <= layer.Length {
            v := v.(sequence := e.sequence, ty := e.ty);
            forall i | 0 <= i < |e.data| {
              data[i] := e.data[i];
            }
            assert data[..|e.data|] == e.data;
            forall i | 0 <= i < |e.layer| {
              layer[i] := e.layer[i];
            }
            assert layer[..|e.layer|] == e.layer && data[..|e.data|] == e.data;
            r := Ok(());
          } else {
            r := Err(ERANGE);
          }
      }
      calls := calls + [Query(data.Length, layer.Length, entry, r)];
    }
  }

  /** At call `i` the entry did not fit the sizes reported at the call before. */
  ghost predicate OutgrewSizes(calls: seq<Query>, i: nat)
    requires 0 < i < |calls|
  {
    && calls[i - 1].entry.Some? && calls[i].entry.Some?
    && calls[i].dataCap == |calls[i - 1].entry.value.data|
    && calls[i].layerCap == |calls[i - 1].entry.value.layer|
    && !Fits(calls[i])
  }

  ghost predicate AllOutgrewSizes(calls: seq<Query>, first: nat, last: nat)
    requires last <= |calls|
  {
    forall i :: 0 < first <= i < last ==> OutgrewSizes(calls, i)
  }

  ghost predicate QueryContract(calls: seq<Query>, base: nat, r: Result<Reading, Errno>, mayFail: bool)
    requires base < |calls|
  {
    var last := calls[|calls| - 1];
    match r
    case Ok(value) => Fits(last) && last.entry == Some(value)
    case Err(e) =>
      if e == ERANGE then |calls| == base + 4 && AllOutgrewSizes(calls, base + 1, base + 4)
      else if e == ENOENT then last.entry == None
      else mayFail && last.outcome == Err(e)
  }

  /** Every call but the last found an entry that did not fit, and the next one was made for its
      sizes. */
  ghost predicate Requeried(calls: seq<Query>, base: nat) {
    && (forall k :: base <= k < |calls| - 1 ==> !Fits(calls[k]))
    && (forall k, next :: base <= k < |calls| - 1 && next == k + 1 ==>
          RequeryFor(calls[k], calls[next].dataCap, calls[next].layerCap))
  }

  /** The next call is made for the sizes of an entry that does not fit. */
  predicate RequeryFor(last: Query, dataCap: nat, layerCap: nat) {
    && last.entry.Some? && !Fits(last)
    && dataCap == |last.entry.value.data| && layerCap == |last.entry.value.layer|
  }

  lemma RequeriedOnce(before: seq<Query>, calls: seq<Query>, base: nat)
    requires before <= calls && base <= |before| && |calls| == |before| + 1 && Requeried(before, base)
    requires |before| > base ==> RequeryFor(before[|before| - 1], calls[|before|].dataCap, calls[|before|].layerCap)
    ensures Requeried(calls, base)
  {
  }

  method QueryValue(key: ValueSource) returns (r: Result<Reading, Errno>)
    modifies key
    ensures |old(key.calls)| < |key.calls| <= |old(key.calls)| + 4
    ensures old(key.calls) <= key.calls
    ensures QueryContract(key.calls, |old(key.calls)|, r, key.mayFail)
    ensures Requeried(key.calls, |old(key.calls)|)
  {
    ghost var base := |key.calls|;
    var data, layer := new byte[0], new byte[0];
    for i := 0 to 4
      invariant fresh(data) && fresh(layer) && data != layer
      invariant |key.calls| == base + i && old(key.calls) <= key.calls
      invariant i > 0 ==> RequeryFor(key.calls[base + i - 1], data.Length, layer.Length)
      invariant AllOutgrewSizes(key.calls, base + 1, base + i)
      invariant Requeried(key.calls, base)
    {
      ghost var before := key.calls;
      var ret, v := key.Read(data, layer);
      RequeriedOnce(before, key.calls, base);
      if ret.Ok? {
        return Ok(Reading(v.sequence, v.ty, data[..v.dataLen], layer[..v.layerLen]));
      }
      if ret.error != ERANGE {
        return Err(ret.error);
      }
      if i > 0 {
        SizesOutgrown(before, key.calls, base + 1, base + i);
      }
      data := new byte[v.dataLen];
      layer := new byte[v.layerLen];
    }
    return Err(ERANGE);
  }

  lemma SizesOutgrown(calls: seq<Query>, longer: seq<Query>, first: nat, last: nat)
    requires 0 < first <= last == |calls| && AllOutgrewSizes(calls, first, last)
    requires calls <= longer && |longer| == last + 1 && OutgrewSizes(longer, last)
    ensures AllOutgrewSizes(longer, first, last + 1)
  {
    forall i | first <= i < last
      ensures OutgrewSizes(longer, i)
    {
      assert OutgrewSizes(calls, i);
    }
  }

  /** Another call follows exactly one that found an entry that did not fit, up to the fourth. */
  lemma RetriesExactly(calls: seq<Query>, base: nat, r: Result<Reading, Errno>, n: nat)
    requires base + n < |calls| <= base + 4
    requires QueryContract(calls, base, r, false) && Requeried(calls, base)
    ensures |calls| > base + n + 1 <==> n < 3 && calls[base + n].entry.Some? && !Fits(calls[base + n])
    ensures |calls| == base + n + 1 ==>
              r == match calls[base + n].entry
                   case None => Err(ENOENT)
                   case Some(value) => if Fits(calls[base + n]) then Ok(value) else Err(ERANGE)
  {
    if |calls| > base + n + 1 {
      assert RequeryFor(calls[base + n], calls[base + n + 1].dataCap, calls[base + n + 1].layerCap);
    } else if r == Err(ERANGE) {
      assert OutgrewSizes(calls, base + 3);
    }
  }

  /** A value that grows before it is first read and again before the retry takes four calls. */
  lemma ValueRetriedTwice(first: Reading, second: Reading, third: Reading)
    requires 0 < |first.data| < |second.data| < |third.data|
    ensures var calls := [Query(0, 0, Some(first), Err(ERANGE)),
                            Query(|first.data|, |first.layer|, Some(second), Err(ERANGE)),
                            Query(|second.data|, |second.layer|, Some(third), Err(ERANGE)),
                            Query(|third.data|, |third.layer|, Some(third), Ok(()))];
              && QueryContract(calls, 0, Ok(third), false) && Requeried(calls, 0)
              && forall q <- calls :: Answered(q, false)
  {
  }

  /** An entry that fits at some call is the result, and that call the last. */
  lemma SteadyValueIsRead(calls: seq<Query>, base: nat, r: Result<Reading, Errno>, i: nat)
    requires base < |calls| && QueryContract(calls, base, r, false) && Requeried(calls, base)
    requires base <= i < |calls| && Fits(calls[i])
    ensures i == |calls| - 1 && r == Ok(calls[i].entry.value)
  {
    assert i > 0 ==> !OutgrewSizes(calls, i);
  }

  /** Reading succeeds once growth stops: an entry no larger in data and layer than at the call
      before is the result. */
  lemma SettledValueIsRead(calls: seq<Query>, base: nat, r: Result<Reading, Errno>, i: nat)
    requires base < |calls| && QueryContract(calls, base, r, false) && Requeried(calls, base)
    requires base < i < |calls| && calls[i].entry.Some? && calls[i - 1].entry.Some?
    requires |calls[i].entry.value.data| <= |calls[i - 1].entry.value.data|
    requires |calls[i].entry.value.layer| <= |calls[i - 1].entry.value.layer|
    ensures i == |calls| - 1 && r == Ok(calls[i].entry.value)
  {
    assert RequeryFor(calls[i - 1], calls[i].dataCap, calls[i].layerCap);
    SteadyValueIsRead(calls, base, r, i);
  }
}
