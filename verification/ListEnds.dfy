/** Where a `REG_MULTI_SZ` list ends: at two NULs in a row, by the source's documentation; at the
    end of the data, by its code. */
module ListEnds {
  import opened Bytes
  import opened Utf8
  import opened Wrappers
  import opened ValueData

  /** The pieces up to the first empty one: the list as documented. */
  function UpToEnd(ps: seq<seq<byte>>): seq<seq<byte>> {
    if ps == [] || ps[0] == [] then [] else [ps[0]] + UpToEnd(ps[1..])
  }

  predicate AllEmpty(ps: seq<seq<byte>>) {
    forall i :: 0 <= i < |ps| ==> ps[i] == []
  }

  /** No string follows an empty piece. */
  predicate EmptiesTrail(ps: seq<seq<byte>>) {
    forall i, j :: 0 <= i < j < |ps| && ps[i] == [] ==> ps[j] == []
  }

  predicate AllNul(b: seq<byte>) {
    forall i :: 0 <= i < |b| ==> b[i] == 0
  }

  /** A NUL that is the first byte or comes after another NUL. */
  predicate IsEnd(b: seq<byte>, i: nat)
    requires i < |b|
  {
    b[i] == 0 && (i == 0 || b[i - 1] == 0)
  }

  /** Nothing but NULs follows such a NUL. */
  predicate NothingAfterEnd(b: seq<byte>) {
    forall i, j :: 0 <= i < j < |b| && IsEnd(b, i) ==> b[j] == 0
  }

  lemma AllEmptyFrom(first: seq<byte>, rest: seq<seq<byte>>)
    ensures AllEmpty([first] + rest) <==> first == [] && AllEmpty(rest)
  {
    var ps := [first] + rest;
    assert forall i :: 0 <= i < |rest| ==> ps[i + 1] == rest[i];
    assert ps[0] == first;
  }

  lemma EmptiesTrailFrom(first: seq<byte>, rest: seq<seq<byte>>)
    ensures EmptiesTrail([first] + rest) <==> EmptiesTrail(rest) && (first == [] ==> AllEmpty(rest))
  {
    var ps := [first] + rest;
    assert ps[0] == first && forall i :: 0 <= i < |rest| ==> ps[i + 1] == rest[i];
    if EmptiesTrail(ps) {
      forall i | 0 <= i < |rest| && first == []
        ensures rest[i] == []
      {
        assert ps[i + 1] == [];
      }
      forall i, j | 0 <= i < j < |rest| && rest[i] == []
        ensures rest[j] == []
      {
        assert ps[i + 1] == [] && ps[j + 1] == [];
      }
    }
  }

  lemma {:induction false} NoneKept(ps: seq<seq<byte>>)
    ensures NonEmpty(ps) == [] <==> AllEmpty(ps)
  {
    if ps != [] {
      NoneKept(ps[1..]);
      AllEmptyFrom(ps[0], ps[1..]);
      assert ps == [ps[0]] + ps[1..];
    }
  }

  /** Skipping the empty pieces is stopping at the first of them exactly when they trail. */
  lemma {:induction false} SkippedExactly(ps: seq<seq<byte>>)
    ensures NonEmpty(ps) == UpToEnd(ps) <==> EmptiesTrail(ps)
  {
    if ps != [] {
      assert ps == [ps[0]] + ps[1..];
      EmptiesTrailFrom(ps[0], ps[1..]);
      if ps[0] == [] {
        NoneKept(ps[1..]);
        SkippedExactly(ps[1..]);
        AllTrail(ps[1..]);
      } else {
        SkippedExactly(ps[1..]);
        assert ([ps[0]] + NonEmpty(ps[1..]))[1..] == NonEmpty(ps[1..]);
        assert ([ps[0]] + UpToEnd(ps[1..]))[1..] == UpToEnd(ps[1..]);
      }
    }
  }

  lemma AllTrail(ps: seq<seq<byte>>)
    ensures AllEmpty(ps) ==> EmptiesTrail(ps)
  {
  }

  lemma {:induction false} PiecesAreEmpty(b: seq<byte>)
    ensures AllEmpty(Pieces(b)) <==> AllNul(b)
    decreases |b|
  {
    var i := FirstNul(b);
    if i == |b| {
      AllEmptyFrom(b, []);
      assert Pieces(b) == [b] + [];
    } else {
      var rest := b[i + 1..];
      PiecesAreEmpty(rest);
      AllEmptyFrom(b[..i], Pieces(rest));
      assert forall j :: 0 <= j < |rest| ==> rest[j] == b[i + 1 + j];
      assert forall j :: i < j < |b| ==> b[j] == rest[j - i - 1];
    }
  }

  /** After a string and its NUL, a list ends where it would if it started there. */
  lemma EndAfterString(b: seq<byte>, i: nat)
    requires 0 < i < |b| && b[i] == 0 && forall j :: 0 <= j < i ==> b[j] != 0
    ensures NothingAfterEnd(b) <==> NothingAfterEnd(b[i + 1..])
  {
    var rest := b[i + 1..];
    assert forall j :: 0 <= j < |rest| ==> rest[j] == b[i + 1 + j];
    if NothingAfterEnd(b) {
      forall k, j | 0 <= k < j < |rest| && IsEnd(rest, k)
        ensures rest[j] == 0
      {
        assert IsEnd(b, i + 1 + k) && b[i + 1 + j] == 0;
      }
    }
    if NothingAfterEnd(rest) {
      forall k, j | 0 <= k < j < |b| && IsEnd(b, k)
        ensures b[j] == 0
      {
        assert IsEnd(rest, k - i - 1) && rest[j - i - 1] == b[j];
      }
    }
  }

  lemma EndAtStart(b: seq<byte>)
    requires b != [] && b[0] == 0
    ensures NothingAfterEnd(b) <==> AllNul(b[1..])
  {
    assert forall j :: 0 <= j < |b| - 1 ==> b[1..][j] == b[j + 1];
    if NothingAfterEnd(b) {
      assert IsEnd(b, 0);
    }
    if AllNul(b[1..]) {
      assert forall j :: 0 < j < |b| ==> b[j] == b[1..][j - 1];
    }
  }

  lemma {:induction false} EmptiesTrailExactly(b: seq<byte>)
    ensures EmptiesTrail(Pieces(b)) <==> NothingAfterEnd(b)
    decreases |b|
  {
    var i := FirstNul(b);
    if i < |b| {
      var rest := b[i + 1..];
      EmptiesTrailFrom(b[..i], Pieces(rest));
      EmptiesTrailExactly(rest);
      if i == 0 {
        PiecesAreEmpty(rest);
        AllTrail(Pieces(rest));
        EndAtStart(b);
      } else {
        EndAfterString(b, i);
      }
    }
  }

  /** The code's list is the documented one exactly when nothing but NULs follows its documented
      end. */
  lemma ListEndsAsDocumentedExactly(b: seq<byte>)
    requires Valid(b)
    ensures Decode(REG_MULTI_SZ, b).MultiSz?
    ensures Decode(REG_MULTI_SZ, b).list == UpToEnd(Pieces(b)) <==> NothingAfterEnd(b)
  {
    ListAcceptsExactly(b);
    SkippedExactly(Pieces(b));
    EmptiesTrailExactly(b);
  }

  lemma TwoItemsApart(first: seq<byte>, second: seq<byte>)
    requires 0 !in first && 0 !in second && first != [] && second != []
    ensures var b := first + [0] + ([] + [0] + second);
            && Pieces(b) == [first] + ([[]] + [second])
            && UpToEnd(Pieces(b)) == [first]
            && NonEmpty(Pieces(b)) == [first, second]
  {
    PiecesOf(first, [] + [0] + second);
    PiecesOf([], second);
    assert forall j :: 0 <= j < |second| ==> second[j] in second;
    assert Pieces(second) == [second];
    var ps := [first] + ([[]] + [second]);
    assert ps[1..] == [[]] + [second] && ps[1..][1..] == [second] && [second][1..] == [];
    assert NonEmpty([second]) == [second];
    assert NonEmpty(ps[1..]) == [second];
    assert [first] + [second] == [first, second];
  }

  lemma TwoLettersApart()
    ensures Valid([97, 0, 0, 98]) && Valid([97]) && Valid([98])
  {
    assert [97][1..] == [] && [98][1..] == [];
    assert [97, 0, 0, 98][1..] == [0, 0, 98] && [0, 0, 98][1..] == [0, 98] && [0, 98][1..] == [98];
    assert Valid([98]);
    assert Valid([0, 98]);
    assert Valid([0, 0, 98]);
  }

  /** A list that is read on after its documented end. */
  lemma ListGoesOnAfterTwoNuls()
    ensures Valid([97, 0, 0, 98]) && UpToEnd(Pieces([97, 0, 0, 98])) == [[97]]
    ensures Decode(REG_MULTI_SZ, [97, 0, 0, 98]) == MultiSz([[97], [98]])
  {
    var b: seq<byte> := [97, 0, 0, 98];
    TwoItemsApart([97], [98]);
    assert [97] + [0] + ([] + [0] + [98]) == b;
    TwoLettersApart();
  }

  /** A string may end in any number of NULs, none included. */
  lemma {:induction false} TerminatorsAreForgiven(text: Text, nuls: seq<byte>)
    requires 0 !in text && AllNul(nuls)
    ensures TextOf(text + nuls) == Some(text)
  {
    if nuls == [] {
      assert text + nuls == text;
      assert text != [] ==> text[|text| - 1] in text;
    } else {
      var fewer := nuls[..|nuls| - 1];
      TerminatorsAreForgiven(text, fewer);
      assert (text + nuls)[..|text + nuls| - 1] == text + fewer;
    }
  }

  lemma TextReadExactly(b: seq<byte>, text: Text)
    ensures TextOf(b) == Some(text) <==> 0 !in text && text <= b && AllNul(b[|text|..])
  {
    if 0 !in text && text <= b && AllNul(b[|text|..]) {
      assert b == text + b[|text|..];
      TerminatorsAreForgiven(text, b[|text|..]);
    }
  }

  /** A string is read exactly from its text followed by NULs and nothing else. */
  lemma StringReadExactly(b: seq<byte>, text: Text)
    ensures Decode(REG_SZ, b) == Sz(text)
       <==> 0 !in text && text <= b && AllNul(b[|text|..])
    ensures Decode(REG_EXPAND_SZ, b) == ExpandSz(text)
       <==> 0 !in text && text <= b && AllNul(b[|text|..])
  {
    TextReadExactly(b, text);
  }

  /** The pieces are what stands between the NULs: terminated again, they are the data and one
      NUL more. */
  lemma {:induction false} PiecesRejoin(b: seq<byte>)
    ensures Terminated(Pieces(b)) == b + [0]
    decreases |b|
  {
    var i := FirstNul(b);
    if i == |b| {
      assert Terminated([]) == [];
      assert Terminated([b]) == b + [0] + [];
    } else {
      var rest := b[i + 1..];
      PiecesRejoin(rest);
      assert ([b[..i]] + Pieces(rest))[1..] == Pieces(rest);
      assert b == b[..i] + [0] + rest;
    }
  }

  // ---- What is stored ----

  /** The stored list ends where the documentation says, with its last byte and no earlier. */
  predicate EndsAtLast(b: seq<byte>) {
    b != [] && forall i :: 0 <= i < |b| ==> (IsEnd(b, i) <==> i == |b| - 1)
  }

  /** After a string and its NUL, a list ends at its last byte if it does from there on. */
  lemma EndsAfterString(b: seq<byte>, i: nat)
    requires 0 < i < |b| && b[i] == 0 && forall j :: 0 <= j < i ==> b[j] != 0
    ensures EndsAtLast(b) <==> EndsAtLast(b[i + 1..])
  {
    var rest := b[i + 1..];
    forall k | 0 <= k < |rest|
      ensures IsEnd(rest, k) <==> IsEnd(b, i + 1 + k)
    {
      assert rest[k] == b[i + 1 + k] && (k > 0 ==> rest[k - 1] == b[i + k]);
    }
    assert forall k :: i < k < |b| ==> (IsEnd(b, k) <==> IsEnd(rest, k - i - 1));
    assert !IsEnd(b, i);
  }

  /** The one way to store a list so that it ends as documented, and at its last byte. */
  lemma {:induction false} StoredListExactly(list: seq<seq<byte>>, b: seq<byte>)
    requires AreListItems(list)
    ensures EndsAtLast(b) && UpToEnd(Pieces(b)) == list <==> b == Terminated(list) + [0]
    decreases |b|
  {
    var i := FirstNul(b);
    if b == [] || i == |b| {
      assert b != [] ==> !IsEnd(b, |b| - 1);
    } else if i == 0 {
      StoredEmptyList(list, b);
    } else {
      var rest := b[i + 1..];
      EndsAfterString(b, i);
      assert UpToEnd(Pieces(b)) == [b[..i]] + UpToEnd(Pieces(rest)) by {
        assert ([b[..i]] + Pieces(rest))[1..] == Pieces(rest);
      }
      if list != [] {
        assert forall s <- list[1..] :: s in list;
        StoredListExactly(list[1..], rest);
        StoredListNext(list, b, i);
      }
    }
  }

  lemma StoredEmptyList(list: seq<seq<byte>>, b: seq<byte>)
    requires AreListItems(list) && b != [] && b[0] == 0
    ensures EndsAtLast(b) && UpToEnd(Pieces(b)) == list <==> b == Terminated(list) + [0]
  {
    assert IsEnd(b, 0);
    if list != [] {
      assert list[0] in list;
      assert (Terminated(list) + [0])[0] == list[0][0];
    }
    if |b| == 1 {
      assert b == [0];
    }
  }

  /** The bytes up to the first NUL are the first string's, and the rest those of the others. */
  lemma StoredListNext(list: seq<seq<byte>>, b: seq<byte>, i: nat)
    requires list != [] && AreListItems(list)
    requires i < |b| && b[i] == 0 && forall j :: 0 <= j < i ==> b[j] != 0
    ensures b == Terminated(list) + [0] <==> list[0] == b[..i] && b[i + 1..] == Terminated(list[1..]) + [0]
  {
    var first, rest := list[0], Terminated(list[1..]) + [0];
    assert Terminated(list) + [0] == first + [0] + rest;
    assert first in list;
    if b == Terminated(list) + [0] {
      FirstNulOf(first, rest);
      assert b[|first|] == 0 && forall j :: 0 <= j < |first| ==> b[j] == first[j] && first[j] in first;
      assert i == |first|;
      assert b[..i] == first && b[i + 1..] == rest;
    }
    if first == b[..i] && b[i + 1..] == rest {
      assert b == b[..i] + [b[i]] + b[i + 1..];
    }
  }

  /** The documented form of stored data: a string ends in its only NUL; a list ends, as
      documented, at its last byte; a number has its bytes in their order. */
  predicate AsDocumented(d: Data, b: seq<byte>) {
    match d
    case Nothing => |b| == 0
    case Sz(text) => EndsInOnlyNul(b) && b[..|b| - 1] == text
    case ExpandSz(text) => EndsInOnlyNul(b) && b[..|b| - 1] == text
    case Link(target) => 0 !in b && b == target
    case MultiSz(list) => EndsAtLast(b) && UpToEnd(Pieces(b)) == list
    case Dword(n) => |b| == 4 && n == Weighed(b[3], b[2], b[1], b[0])
    case DwordBigEndian(n) => |b| == 4 && n == Weighed(b[0], b[1], b[2], b[3])
    case Qword(q) =>
      && |b| == 8
      && q == Weighed(b[3], b[2], b[1], b[0]) + 0x1_0000_0000 * Weighed(b[7], b[6], b[5], b[4])
    case Binary(bytes) => b == bytes
    case Raw(_, bytes) => b == bytes
  }

  predicate EndsInOnlyNul(b: seq<byte>) {
    b != [] && forall i :: 0 <= i < |b| ==> (b[i] == 0 <==> i == |b| - 1)
  }

  lemma StoredTextExactly(text: Text, b: seq<byte>)
    requires 0 !in text
    ensures EndsInOnlyNul(b) && b[..|b| - 1] == text <==> b == text + [0]
  {
    if b == text + [0] {
      assert forall i :: 0 <= i < |text| ==> b[i] == text[i] && text[i] in text;
      assert b[..|b| - 1] == text;
    }
    if EndsInOnlyNul(b) {
      assert b == b[..|b| - 1] + [b[|b| - 1]];
    }
  }

  lemma StoredDwordExactly(b: seq<byte>, n: u32)
    ensures AsDocumented(Dword(n), b) <==> b == ToLe(n, 4)
    ensures AsDocumented(DwordBigEndian(n), b) <==> b == ToBe(n, 4)
  {
    Widths();
    LeExactly(b, n, 4);
    BeExactly(b, n, 4);
    if |b| == 4 {
      LittleEndian(b);
      BigEndian(b);
    }
  }

  lemma StoredQwordExactly(b: seq<byte>, q: u64)
    ensures AsDocumented(Qword(q), b) <==> b == ToLe(q, 8)
  {
    Widths();
    LeExactly(b, q, 8);
    if |b| == 8 {
      LittleEndian(b);
      LittleEndian(b[4..]);
    }
  }

  /** A number is read exactly from its bytes. */
  lemma NumberReadExactly(b: seq<byte>, n: u32, q: u64)
    ensures Decode(REG_DWORD, b) == Dword(n) <==> AsDocumented(Dword(n), b)
    ensures Decode(REG_DWORD_BIG_ENDIAN, b) == DwordBigEndian(n) <==> AsDocumented(DwordBigEndian(n), b)
    ensures Decode(REG_QWORD, b) == Qword(q) <==> AsDocumented(Qword(q), b)
  {
    StoredDwordExactly(b, n);
    StoredQwordExactly(b, q);
    Widths();
    LeExactly(b, n, 4);
    BeExactly(b, n, 4);
    LeExactly(b, q, 8);
  }

  /** Canonical data is stored in its documented form, which is the only one. */
  lemma StoredAsDocumentedExactly(d: Data, b: seq<byte>)
    requires Canonical(d)
    ensures AsDocumented(d, b) <==> b == Encoded(d)
  {
    match d {
      case Sz(text) => StoredTextExactly(text, b);
      case ExpandSz(text) => StoredTextExactly(text, b);
      case MultiSz(list) => StoredListExactly(list, b);
      case Dword(n) => StoredDwordExactly(b, n);
      case DwordBigEndian(n) => StoredDwordExactly(b, n);
      case Qword(q) => StoredQwordExactly(b, q);
      case _ =>
    }
  }
}
