/** Registry value data: decoding bytes by their type tag, leniently, and encoding them back,
    canonically. A Rust `String` is modelled by its UTF-8 bytes (`Text`). */
module ValueData {
  import opened Wrappers
  import opened Bytes
  import opened Utf8

  type u32 = n: nat | n < 0x1_0000_0000
  type u64 = n: nat | n < 0x1_0000_0000_0000_0000

  // The type tags, as the kernel's lcs.h numbers them.
  const REG_NONE: u32 := 0
  const REG_SZ: u32 := 1
  const REG_EXPAND_SZ: u32 := 2
  const REG_BINARY: u32 := 3
  const REG_DWORD: u32 := 4
  const REG_DWORD_BIG_ENDIAN: u32 := 5
  const REG_LINK: u32 := 6
  const REG_MULTI_SZ: u32 := 7
  const REG_QWORD: u32 := 11

  datatype Data =
    | Nothing
    | Sz(text: Text)
    | ExpandSz(text: Text)
    | Link(target: Text)
    | MultiSz(list: seq<Text>)
    | Dword(n: u32)
    | DwordBigEndian(n: u32)
    | Qword(q: u64)
    | Binary(bytes: seq<byte>)
    | Raw(ty: u32, bytes: seq<byte>)

  function Ty(d: Data): u32 {
    match d
    case Nothing => REG_NONE
    case Sz(_) => REG_SZ
    case ExpandSz(_) => REG_EXPAND_SZ
    case Link(_) => REG_LINK
    case MultiSz(_) => REG_MULTI_SZ
    case Dword(_) => REG_DWORD
    case DwordBigEndian(_) => REG_DWORD_BIG_ENDIAN
    case Qword(_) => REG_QWORD
    case Binary(_) => REG_BINARY
    case Raw(ty, _) => ty
  }

  // ---- Strings ----

  /** `b` without its trailing NULs. */
  function Stripped(b: seq<byte>): (s: seq<byte>)
    ensures s <= b
    ensures s == [] || s[|s| - 1] != 0
    ensures forall i :: |s| <= i < |b| ==> b[i] == 0
  {
    if b == [] then []
    else if b[|b| - 1] != 0 then b
    else Stripped(b[..|b| - 1])
  }

  /** A string's bytes without their terminating NULs, if UTF-8 with no NUL inside. */
  function TextOf(b: seq<byte>): Option<Text> {
    var text := Stripped(b);
    if Valid(text) && 0 !in text then Some(text) else None
  }

  function FirstNul(b: seq<byte>): (i: nat)
    ensures i <= |b|
    ensures forall j :: 0 <= j < i ==> b[j] != 0
    ensures i < |b| ==> b[i] == 0
  {
    if b == [] || b[0] == 0 then 0 else 1 + FirstNul(b[1..])
  }

  /** The pieces between NULs. */
  function Pieces(b: seq<byte>): (ps: seq<seq<byte>>)
    decreases |b|
  {
    var i := FirstNul(b);
    if i == |b| then [b] else [b[..i]] + Pieces(b[i + 1..])
  }

  function NonEmpty(ps: seq<seq<byte>>): (kept: seq<seq<byte>>)
    ensures forall p :: p in kept <==> p in ps && p != []
  {
    if ps == [] then []
    else if ps[0] == [] then NonEmpty(ps[1..])
    else [ps[0]] + NonEmpty(ps[1..])
  }

  /** A list's strings, if every one is UTF-8. */
  function TextsOf(b: seq<byte>): Option<seq<Text>> {
    var kept := NonEmpty(Pieces(b));
    if forall p <- kept :: Valid(p) then Some(kept) else None
  }

  // ---- The codec ----

  function Decode(ty: u32, b: seq<byte>): Data {
    if ty == REG_NONE && b == [] then Nothing
    else if ty == REG_SZ then
      match TextOf(b) case Some(text) => Sz(text) case None => Raw(ty, b)
    else if ty == REG_EXPAND_SZ then
      match TextOf(b) case Some(text) => ExpandSz(text) case None => Raw(ty, b)
    else if ty == REG_LINK then
      if Valid(b) && 0 !in b then Link(b) else Raw(ty, b)
    else if ty == REG_MULTI_SZ then
      match TextsOf(b) case Some(list) => MultiSz(list) case None => Raw(ty, b)
    else if ty == REG_DWORD then
      if |b| == 4 then LeInverse(b); Widths(); Dword(FromLe(b)) else Raw(ty, b)
    else if ty == REG_DWORD_BIG_ENDIAN then
      if |b| == 4 then BeInverse(b); Widths(); DwordBigEndian(FromBe(b)) else Raw(ty, b)
    else if ty == REG_QWORD then
      if |b| == 8 then LeInverse(b); Widths(); Qword(FromLe(b)) else Raw(ty, b)
    else if ty == REG_BINARY then Binary(b)
    else Raw(ty, b)
  }

  function Terminated(list: seq<seq<byte>>): seq<byte> {
    if list == [] then [] else list[0] + [0] + Terminated(list[1..])
  }

  /** The bytes to store, as the table in the source's documentation gives them. */
  function Encoded(d: Data): seq<byte> {
    match d
    case Nothing => []
    case Sz(text) => text + [0]
    case ExpandSz(text) => text + [0]
    case Link(target) => target
    case MultiSz(list) => Terminated(list) + [0]
    case Dword(n) => ToLe(n, 4)
    case DwordBigEndian(n) => ToBe(n, 4)
    case Qword(q) => ToLe(q, 8)
    case Binary(bytes) => bytes
    case Raw(_, bytes) => bytes
  }

  method Encode(d: Data) returns (bytes: seq<byte>)
    ensures bytes == Encoded(d)
  {
    match d {
      case Nothing => bytes := [];
      case Sz(text) =>
        bytes := text;
        bytes := bytes + [0];
      case ExpandSz(text) =>
        bytes := text;
        bytes := bytes + [0];
      case Link(target) => bytes := target;
      case MultiSz(list) =>
        bytes := [];
        for i := 0 to |list|
          invariant bytes + Terminated(list[i..]) == Terminated(list)
        {
          assert list[i..][1..] == list[i + 1..];
          bytes := bytes + list[i];
          bytes := bytes + [0];
        }
        assert bytes == bytes + Terminated(list[|list|..]);
        bytes := bytes + [0];
      case Dword(n) => bytes := ToLe(n, 4);
      case DwordBigEndian(n) => bytes := ToBe(n, 4);
      case Qword(q) => bytes := ToLe(q, 8);
      case Binary(b) => bytes := b;
      case Raw(_, b) => bytes := b;
    }
  }

  // ---- Checking the pieces is checking the whole ----

  /** The only NULs are those at the end. */
  predicate NulsTrail(b: seq<byte>) {
    forall i, j :: 0 <= i < j < |b| && b[i] == 0 ==> b[j] == 0
  }

  lemma {:induction false} ValidWithTrailingNul(b: seq<byte>)
    ensures Valid(b + [0]) <==> Valid(b)
  {
    ValidAroundAscii(b, 0, []);
    assert b + [0] + [] == b + [0];
  }

  lemma {:induction false} StrippedKeepsValidity(b: seq<byte>)
    ensures Valid(Stripped(b)) <==> Valid(b)
  {
    if b != [] && b[|b| - 1] == 0 {
      var shorter := b[..|b| - 1];
      StrippedKeepsValidity(shorter);
      ValidWithTrailingNul(shorter);
      assert shorter + [0] == b;
    }
  }

  /** A string is accepted exactly when the whole buffer is UTF-8 whose only NULs trail. */
  lemma StringAcceptsExactly(b: seq<byte>)
    ensures TextOf(b).Some? <==> Valid(b) && NulsTrail(b)
  {
    StrippedKeepsValidity(b);
    var s := Stripped(b);
    if NulsTrail(b) && s != [] {
      assert b[|s| - 1] != 0;
      assert forall k :: 0 <= k < |s| ==> s[k] == b[k] && b[k] != 0;
    }
    if 0 !in s {
      assert forall i :: 0 <= i < |s| ==> b[i] == s[i] && s[i] in s;
    }
  }

  lemma {:induction false} PiecesAreValid(b: seq<byte>)
    ensures Valid(b) <==> forall p <- Pieces(b) :: Valid(p)
    decreases |b|
  {
    var i := FirstNul(b);
    if i < |b| {
      PiecesAreValid(b[i + 1..]);
      assert b == b[..i] + [0] + b[i + 1..];
      ValidAroundAscii(b[..i], 0, b[i + 1..]);
    }
  }

  /** A list is accepted exactly when the whole buffer is UTF-8. */
  lemma ListAcceptsExactly(b: seq<byte>)
    ensures TextsOf(b).Some? <==> Valid(b)
  {
    PiecesAreValid(b);
  }

  // ---- Normal forms ----

  lemma {:induction false} StrippedTerminated(text: seq<byte>)
    requires 0 !in text
    ensures Stripped(text + [0]) == text
  {
    assert (text + [0])[..|text|] == text;
    if text != [] {
      assert text[|text| - 1] in text;
    }
  }

  lemma FirstNulOf(s: seq<byte>, rest: seq<byte>)
    requires 0 !in s
    ensures FirstNul(s + [0] + rest) == |s|
  {
    var b := s + [0] + rest;
    assert b[|s|] == 0;
    assert forall j :: 0 <= j < |s| ==> b[j] == s[j] && s[j] in s;
  }

  predicate AreListItems(list: seq<seq<byte>>) {
    forall s <- list :: s != [] && 0 !in s
  }

  lemma NoPieces()
    ensures NonEmpty(Pieces([0])) == []
  {
    assert [0][1..] == [];
    assert Pieces([]) == [[]];
    assert Pieces([0]) == [[0][..0]] + [[]];
    assert Pieces([0])[1..] == [[]];
  }

  lemma PiecesOf(s: seq<byte>, rest: seq<byte>)
    requires 0 !in s
    ensures Pieces(s + [0] + rest) == [s] + Pieces(rest)
  {
    var b := s + [0] + rest;
    FirstNulOf(s, rest);
    assert b[..|s|] == s && b[|s| + 1..] == rest;
  }

  lemma {:induction false} ListRoundTrip(list: seq<seq<byte>>)
    requires AreListItems(list)
    ensures NonEmpty(Pieces(Terminated(list) + [0])) == list
  {
    if list == [] {
      assert Terminated(list) + [0] == [0];
      NoPieces();
    } else {
      var rest := Terminated(list[1..]) + [0];
      assert list[0] in list && forall s <- list[1..] :: s in list;
      assert Terminated(list) + [0] == list[0] + [0] + rest;
      PiecesOf(list[0], rest);
      ListRoundTrip(list[1..]);
      assert ([list[0]] + Pieces(rest))[1..] == Pieces(rest);
    }
  }

  lemma {:induction false} PiecesHaveNoNul(b: seq<byte>)
    ensures forall p <- Pieces(b) :: 0 !in p
    decreases |b|
  {
    var i := FirstNul(b);
    if i < |b| {
      PiecesHaveNoNul(b[i + 1..]);
    } else {
      assert b[..i] == b;
    }
  }

  /** The data that decoding can produce: what a caller must keep to for its data to survive. */
  predicate Canonical(d: Data) {
    match d
    case Nothing => true
    case Sz(text) => 0 !in text
    case ExpandSz(text) => 0 !in text
    case Link(target) => 0 !in target
    case MultiSz(list) => AreListItems(list)
    case Dword(_) => true
    case DwordBigEndian(_) => true
    case Qword(_) => true
    case Binary(_) => true
    case Raw(ty, b) => !Decodable(ty, b)
  }

  /** Whether `b` is stored data of type `ty` that has a decoding. */
  predicate Decodable(ty: u32, b: seq<byte>) {
    || (ty == REG_NONE && b == [])
    || (ty == REG_SZ && Valid(b) && NulsTrail(b))
    || (ty == REG_EXPAND_SZ && Valid(b) && NulsTrail(b))
    || (ty == REG_LINK && Valid(b) && 0 !in b)
    || (ty == REG_MULTI_SZ && Valid(b))
    || (ty == REG_DWORD && |b| == 4)
    || (ty == REG_DWORD_BIG_ENDIAN && |b| == 4)
    || (ty == REG_QWORD && |b| == 8)
    || ty == REG_BINARY
  }

  /** Decoding always yields canonical data of the type asked for, and keeps the bytes as
      they are exactly when they do not decode. */
  lemma DecodeIsCanonical(ty: u32, b: seq<byte>)
    ensures Ty(Decode(ty, b)) == ty
    ensures Canonical(Decode(ty, b))
    ensures Decode(ty, b) == Raw(ty, b) <==> !Decodable(ty, b)
  {
    if ty == REG_SZ || ty == REG_EXPAND_SZ {
      StringAcceptsExactly(b);
    } else if ty == REG_MULTI_SZ {
      ListAcceptsExactly(b);
      ListItems(b);
    }
  }

  lemma ListItems(b: seq<byte>)
    ensures AreListItems(NonEmpty(Pieces(b)))
  {
    PiecesHaveNoNul(b);
  }

  lemma StoredTextDecodes(text: Text)
    requires 0 !in text
    ensures TextOf(text + [0]) == Some(text)
  {
    StrippedTerminated(text);
  }

  lemma StoredListDecodes(list: seq<Text>)
    requires AreListItems(list)
    ensures TextsOf(Terminated(list) + [0]) == Some(list)
  {
    ListRoundTrip(list);
  }

  lemma NumbersRoundTrip(n: u32, q: u64)
    ensures Decode(REG_DWORD, ToLe(n, 4)) == Dword(n)
    ensures Decode(REG_DWORD_BIG_ENDIAN, ToBe(n, 4)) == DwordBigEndian(n)
    ensures Decode(REG_QWORD, ToLe(q, 8)) == Qword(q)
  {
    Widths();
    LeRoundTrip(n, 4);
    BeRoundTrip(n, 4);
    LeRoundTrip(q, 8);
  }

  lemma StringsRoundTrip(d: Data)
    requires Canonical(d) && (d.Sz? || d.ExpandSz? || d.Link? || d.MultiSz?)
    ensures Decode(Ty(d), Encoded(d)) == d
  {
    match d {
      case Sz(text) => StoredTextDecodes(text);
      case ExpandSz(text) => StoredTextDecodes(text);
      case Link(_) =>
      case MultiSz(list) => StoredListDecodes(list);
    }
  }

  lemma CanonicalRoundTrip(d: Data)
    requires Canonical(d)
    ensures Decode(Ty(d), Encoded(d)) == d
  {
    match d {
      case Nothing =>
      case Dword(n) => NumbersRoundTrip(n, 0);
      case DwordBigEndian(n) => NumbersRoundTrip(n, 0);
      case Qword(q) => NumbersRoundTrip(0, q);
      case Binary(_) =>
      case Raw(ty, b) => DecodeIsCanonical(ty, b);
      case _ => StringsRoundTrip(d);
    }
  }

  /** Data survives being stored exactly when it is canonical: no NUL inside a string, no
      empty item in a list, no raw bytes that would decode. */
  lemma DataRoundTrip(d: Data)
    ensures Decode(Ty(d), Encoded(d)) == d <==> Canonical(d)
  {
    if Canonical(d) {
      CanonicalRoundTrip(d);
    } else {
      DecodeIsCanonical(Ty(d), Encoded(d));
    }
  }

  /** A string with a NUL inside is a `Data` that does not survive. */
  lemma NulInsideIsLost()
    ensures Valid([97, 0, 98])
    ensures Decode(REG_SZ, Encoded(Sz([97, 0, 98]))) == Raw(REG_SZ, [97, 0, 98, 0])
  {
    assert Valid([98]) by { assert [98][1..] == []; }
    assert Valid([0, 98]) by { assert [0, 98][1..] == [98]; }
    assert Valid([97, 0, 98]) by { assert [97, 0, 98][1..] == [0, 98]; }
    DataRoundTrip(Sz([97, 0, 98]));
    assert Encoded(Sz([97, 0, 98])) == [97, 0, 98, 0];
    assert Encoded(Sz([97, 0, 98]))[1] == 0 && Encoded(Sz([97, 0, 98]))[2] == 98;
    StringAcceptsExactly([97, 0, 98, 0]);
  }

  /** Encoding writes the normal form: storing decoded data and decoding again is the identity. */
  lemma NormalForm(ty: u32, b: seq<byte>)
    ensures Decode(ty, Encoded(Decode(ty, b))) == Decode(ty, b)
  {
    DecodeIsCanonical(ty, b);
    CanonicalRoundTrip(Decode(ty, b));
  }

  /** Two buffers decode to the same string exactly when both are strings and differ only in
      trailing NULs. */
  lemma SameString(a: seq<byte>, b: seq<byte>)
    ensures Decode(REG_SZ, a) == Decode(REG_SZ, b) && Decode(REG_SZ, a).Sz?
       <==> && Valid(a) && NulsTrail(a) && Valid(b) && NulsTrail(b)
            && Stripped(a) == Stripped(b)
  {
    StringAcceptsExactly(a);
    StringAcceptsExactly(b);
  }

  /** Two buffers decode to the same list exactly when both are UTF-8 and their non-empty
      pieces agree. */
  lemma SameList(a: seq<byte>, b: seq<byte>)
    ensures Decode(REG_MULTI_SZ, a) == Decode(REG_MULTI_SZ, b) && Decode(REG_MULTI_SZ, a).MultiSz?
       <==> Valid(a) && Valid(b) && NonEmpty(Pieces(a)) == NonEmpty(Pieces(b))
  {
    ListAcceptsExactly(a);
    ListAcceptsExactly(b);
  }
}
