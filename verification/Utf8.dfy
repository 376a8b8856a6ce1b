/** The UTF-8 grammar of RFC 3629, section 4, over bytes. */
module Utf8 {
  import opened Bytes

  predicate Tail(b: byte) {
    0x80 <= b <= 0xBF
  }

  predicate Two(a: byte, b: byte) {
    0xC2 <= a <= 0xDF && Tail(b)
  }

  predicate Three(a: byte, b: byte, c: byte) {
    && (|| (a == 0xE0 && 0xA0 <= b <= 0xBF)
        || (0xE1 <= a <= 0xEC && Tail(b))
        || (a == 0xED && 0x80 <= b <= 0x9F)
        || (0xEE <= a <= 0xEF && Tail(b)))
    && Tail(c)
  }

  predicate Four(a: byte, b: byte, c: byte, d: byte) {
    && (|| (a == 0xF0 && 0x90 <= b <= 0xBF)
        || (0xF1 <= a <= 0xF3 && Tail(b))
        || (a == 0xF4 && 0x80 <= b <= 0x8F))
    && Tail(c) && Tail(d)
  }

  /** The length of the character `s` starts with, or 0 when it starts with none. */
  function CharLen(s: seq<byte>): (n: nat)
    ensures n <= |s| && n <= 4
  {
    if |s| >= 1 && s[0] <= 0x7F then 1
    else if |s| >= 2 && Two(s[0], s[1]) then 2
    else if |s| >= 3 && Three(s[0], s[1], s[2]) then 3
    else if |s| >= 4 && Four(s[0], s[1], s[2], s[3]) then 4
    else 0
  }

  predicate Valid(s: seq<byte>) {
    s == [] || (CharLen(s) > 0 && Valid(s[CharLen(s)..]))
  }

  /** Text held in a Rust `String`: valid UTF-8, kept as its bytes. */
  type Text = s: seq<byte> | Valid(s) witness []

  /** No character straddles an ASCII byte, so checking the two sides of one is
      checking the whole. */
  lemma {:induction false} ValidAroundAscii(a: seq<byte>, z: byte, c: seq<byte>)
    requires z < 0x80
    ensures Valid(a + [z] + c) <==> Valid(a) && Valid(c)
    decreases |a|
  {
    var s := a + [z] + c;
    if a == [] {
      assert CharLen(s) == 1 && s[1..] == c;
    } else {
      assert s[|a|] == z && forall i :: 0 <= i < |a| ==> s[i] == a[i];
      var n := CharLen(s);
      assert n == CharLen(a);
      if n > 0 {
        assert s[n..] == a[n..] + [z] + c;
        ValidAroundAscii(a[n..], z, c);
      }
    }
  }

  // ---- The characters ----

  /** Unicode's scalar values: what a character's number may be. */
  predicate IsScalar(c: nat) {
    c < 0xD800 || 0xE000 <= c < 0x11_0000
  }

  /** A character's number in its bytes, six bits to each after the first. */
  function EncodeChar(c: nat): (b: seq<byte>)
    requires IsScalar(c)
    ensures b != []
  {
    if c < 0x80 then [c]
    else if c < 0x800 then [0xC0 + c / 0x40, 0x80 + c % 0x40]
    else if c < 0x1_0000 then [0xE0 + c / 0x1000, 0x80 + c / 0x40 % 0x40, 0x80 + c % 0x40]
    else [0xF0 + c / 0x4_0000, 0x80 + c / 0x1000 % 0x40, 0x80 + c / 0x40 % 0x40, 0x80 + c % 0x40]
  }

  function EncodeText(cs: seq<nat>): seq<byte>
    requires forall c <- cs :: IsScalar(c)
  {
    if cs == [] then [] else EncodeChar(cs[0]) + EncodeText(cs[1..])
  }

  lemma ThreeDigits(a: nat, b: nat, c: nat)
    requires b < 0x40 && c < 0x40
    ensures var n := 0x1000 * a + 0x40 * b + c;
            n / 0x1000 == a && n / 0x40 == 0x40 * a + b && n / 0x40 % 0x40 == b && n % 0x40 == c
  {
  }

  lemma FourDigits(a: nat, b: nat, c: nat, d: nat)
    requires b < 0x40 && c < 0x40 && d < 0x40
    ensures var n := 0x4_0000 * a + 0x1000 * b + 0x40 * c + d;
            n / 0x4_0000 == a && n / 0x1000 % 0x40 == b && n / 0x40 % 0x40 == c && n % 0x40 == d
  {
    ThreeDigits(0x40 * a + b, c, d);
  }

  lemma TwoIsScalar(a: byte, b: byte) returns (c: nat)
    requires Two(a, b)
    ensures IsScalar(c) && [a, b] == EncodeChar(c)
  {
    c := 0x40 * (a as int - 0xC0) + (b - 0x80);
    ThreeDigits(0, a - 0xC0, b - 0x80);
  }

  lemma ThreeIsScalar(a: byte, b: byte, c: byte) returns (n: nat)
    requires Three(a, b, c)
    ensures IsScalar(n) && [a, b, c] == EncodeChar(n)
  {
    n := 0x1000 * (a as int - 0xE0) + 0x40 * (b as int - 0x80) + (c - 0x80);
    ThreeDigits(a - 0xE0, b - 0x80, c - 0x80);
  }

  lemma FourIsScalar(a: byte, b: byte, c: byte, d: byte) returns (n: nat)
    requires Four(a, b, c, d)
    ensures IsScalar(n) && [a, b, c, d] == EncodeChar(n)
  {
    n := 0x4_0000 * (a as int - 0xF0) + 0x1000 * (b as int - 0x80) + 0x40 * (c as int - 0x80) + (d - 0x80);
    FourDigits(a - 0xF0, b - 0x80, c - 0x80, d - 0x80);
  }

  /** The number of the character a text starts with. */
  lemma CharIsScalar(s: seq<byte>) returns (c: nat)
    requires CharLen(s) > 0
    ensures IsScalar(c) && s[..CharLen(s)] == EncodeChar(c)
  {
    var n := CharLen(s);
    if n == 1 {
      c := s[0];
    } else if n == 2 {
      c := TwoIsScalar(s[0], s[1]);
      assert s[..2] == [s[0], s[1]];
    } else if n == 3 {
      c := ThreeIsScalar(s[0], s[1], s[2]);
      assert s[..3] == [s[0], s[1], s[2]];
    } else {
      c := FourIsScalar(s[0], s[1], s[2], s[3]);
      assert s[..4] == [s[0], s[1], s[2], s[3]];
    }
  }

  lemma ScalarIsTwo(c: nat)
    requires 0x80 <= c < 0x800
    ensures Two(EncodeChar(c)[0], EncodeChar(c)[1])
  {
  }

  lemma ScalarIsThree(c: nat)
    requires IsScalar(c) && 0x800 <= c < 0x1_0000
    ensures Three(EncodeChar(c)[0], EncodeChar(c)[1], EncodeChar(c)[2])
  {
  }

  lemma ScalarIsFour(c: nat)
    requires IsScalar(c) && 0x1_0000 <= c
    ensures Four(EncodeChar(c)[0], EncodeChar(c)[1], EncodeChar(c)[2], EncodeChar(c)[3])
  {
  }

  lemma ScalarIsChar(c: nat, rest: seq<byte>)
    requires IsScalar(c)
    ensures CharLen(EncodeChar(c) + rest) == |EncodeChar(c)|
  {
    var s := EncodeChar(c) + rest;
    assert forall i :: 0 <= i < |EncodeChar(c)| ==> s[i] == EncodeChar(c)[i];
    if c >= 0x1_0000 {
      ScalarIsFour(c);
    } else if c >= 0x800 {
      ScalarIsThree(c);
    } else if c >= 0x80 {
      ScalarIsTwo(c);
    }
  }

  lemma {:induction false} EncodedIsValid(cs: seq<nat>)
    requires forall c <- cs :: IsScalar(c)
    ensures Valid(EncodeText(cs))
  {
    if cs != [] {
      EncodedIsValid(cs[1..]);
      ScalarIsChar(cs[0], EncodeText(cs[1..]));
      assert EncodeText(cs)[|EncodeChar(cs[0])|..] == EncodeText(cs[1..]);
    }
  }

  lemma {:induction false} ValidIsEncoded(s: seq<byte>) returns (cs: seq<nat>)
    requires Valid(s)
    ensures (forall c <- cs :: IsScalar(c)) && s == EncodeText(cs)
    decreases |s|
  {
    if s == [] {
      cs := [];
    } else {
      var c := CharIsScalar(s);
      var more := ValidIsEncoded(s[CharLen(s)..]);
      cs := [c] + more;
      assert cs[1..] == more && s == s[..CharLen(s)] + s[CharLen(s)..];
    }
  }

  /** The grammar is UTF-8: the valid texts are the encodings of characters, no surrogates and
      nothing over-long among them. */
  lemma ValidExactly(s: seq<byte>)
    ensures Valid(s) <==> exists cs: seq<nat> :: (forall c <- cs :: IsScalar(c)) && s == EncodeText(cs)
  {
    if Valid(s) {
      var cs := ValidIsEncoded(s);
    }
    forall cs: seq<nat> | (forall c <- cs :: IsScalar(c)) && s == EncodeText(cs)
      ensures Valid(s)
    {
      EncodedIsValid(cs);
    }
  }
}
