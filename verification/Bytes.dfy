/** Bytes and fixed-width integers as they cross the kernel interface. */
module Bytes {

  type byte = b: int | 0 <= b < 256

  function Pow256(width: nat): (p: nat)
    ensures p > 0
  {
    if width == 0 then 1 else 256 * Pow256(width - 1)
  }

  /** The unsigned integer stored little-endian in `b`. */
  function FromLe(b: seq<byte>): nat {
    if b == [] then 0 else b[0] + 256 * FromLe(b[1..])
  }

  /** `n` truncated to `width` bytes, little-endian. */
  function ToLe(n: nat, width: nat): (b: seq<byte>)
    ensures |b| == width
  {
    if width == 0 then [] else [n % 256] + ToLe(n / 256, width - 1)
  }

  /** The same bytes, last first. */
  function Reversed(b: seq<byte>): (r: seq<byte>)
    ensures |r| == |b|
    ensures forall i :: 0 <= i < |b| ==> r[i] == b[|b| - 1 - i]
  {
    if b == [] then [] else Reversed(b[1..]) + [b[0]]
  }

  lemma ReversedTwice(b: seq<byte>)
    ensures Reversed(Reversed(b)) == b
  {
    assert forall i :: 0 <= i < |b| ==> Reversed(Reversed(b))[i] == b[i];
  }

  function FromBe(b: seq<byte>): nat {
    FromLe(Reversed(b))
  }

  function ToBe(n: nat, width: nat): (b: seq<byte>)
    ensures |b| == width
  {
    Reversed(ToLe(n, width))
  }

  /** An integer that fits its field is read back unchanged. */
  lemma {:induction false} LeRoundTrip(n: nat, width: nat)
    requires n < Pow256(width)
    ensures FromLe(ToLe(n, width)) == n
  {
    if width == 0 {
    } else {
      LeRoundTrip(n / 256, width - 1);
      assert ToLe(n, width)[1..] == ToLe(n / 256, width - 1);
    }
  }

  /** A field determines its integer's bytes: writing back what was read changes nothing. */
  lemma {:induction false} LeInverse(b: seq<byte>)
    ensures FromLe(b) < Pow256(|b|)
    ensures ToLe(FromLe(b), |b|) == b
  {
    if b == [] {
    } else {
      LeInverse(b[1..]);
      var n := FromLe(b);
      assert n % 256 == b[0] && n / 256 == FromLe(b[1..]);
      assert ToLe(n, |b|) == [b[0]] + b[1..];
    }
  }

  /** A field is an integer's bytes exactly when it has the width and reads as the integer. */
  lemma LeExactly(b: seq<byte>, n: nat, width: nat)
    requires n < Pow256(width)
    ensures b == ToLe(n, width) <==> |b| == width && FromLe(b) == n
  {
    LeRoundTrip(n, width);
    LeInverse(b);
  }

  lemma BeExactly(b: seq<byte>, n: nat, width: nat)
    requires n < Pow256(width)
    ensures b == ToBe(n, width) <==> |b| == width && FromBe(b) == n
  {
    BeRoundTrip(n, width);
    BeInverse(b);
  }

  lemma BeRoundTrip(n: nat, width: nat)
    requires n < Pow256(width)
    ensures FromBe(ToBe(n, width)) == n
  {
    LeRoundTrip(n, width);
    ReversedTwice(ToLe(n, width));
  }

  lemma BeInverse(b: seq<byte>)
    ensures FromBe(b) < Pow256(|b|)
    ensures ToBe(FromBe(b), |b|) == b
  {
    var r := Reversed(b);
    LeInverse(r);
    ReversedTwice(b);
  }

  /** The number whose digits to the base 256 are `a` to `d`, the highest first. */
  function Weighed(a: int, b: int, c: int, d: int): int {
    0x100_0000 * a + 0x1_0000 * b + 0x100 * c + d
  }

  /** The first byte of a field weighs least. */
  lemma LittleEndian(b: seq<byte>)
    ensures |b| == 2 ==> FromLe(b) == Weighed(0, 0, b[1], b[0])
    ensures |b| >= 4 ==> FromLe(b) == Weighed(b[3], b[2], b[1], b[0]) + 0x1_0000_0000 * FromLe(b[4..])
    ensures |b| == 4 ==> FromLe(b) == Weighed(b[3], b[2], b[1], b[0])
  {
    if |b| >= 2 {
      FromLeNext(b, 0);
      FromLeNext(b, 1);
      assert b[0..] == b;
    }
    if |b| >= 4 {
      FromLeNext(b, 2);
      FromLeNext(b, 3);
    }
  }

  lemma FromLeNext(b: seq<byte>, i: nat)
    requires i < |b|
    ensures FromLe(b[i..]) == b[i] as int + 256 * FromLe(b[i + 1..])
  {
    assert b[i..][1..] == b[i + 1..];
  }

  /** The first byte of a big-endian field weighs most. */
  lemma BigEndian(b: seq<byte>)
    requires |b| == 4
    ensures FromBe(b) == Weighed(b[0], b[1], b[2], b[3])
  {
    LittleEndian(Reversed(b));
  }

  /** The field widths the formats use, as plain bounds. */
  lemma Widths()
    ensures Pow256(1) == 0x100
    ensures Pow256(2) == 0x1_0000
    ensures Pow256(4) == 0x1_0000_0000
    ensures Pow256(8) == 0x1_0000_0000_0000_0000
  {
    assert Pow256(3) == 0x100_0000;
    assert Pow256(5) == 0x100_0000_0000;
    assert Pow256(6) == 0x1_0000_0000_0000;
    assert Pow256(7) == 0x100_0000_0000_0000;
  }

  /** `b` stands in `buf` at `pos`. */
  predicate At(buf: seq<byte>, pos: nat, b: seq<byte>) {
    pos + |b| <= |buf| && buf[pos..pos + |b|] == b
  }

  lemma AtConcat(buf: seq<byte>, pos: nat, a: seq<byte>, b: seq<byte>)
    ensures At(buf, pos, a + b) <==> At(buf, pos, a) && At(buf, pos + |a|, b)
  {
    if pos + |a| + |b| <= |buf| {
      var both := buf[pos..pos + |a + b|];
      assert both[..|a|] == buf[pos..pos + |a|];
      assert both[|a|..] == buf[pos + |a|..pos + |a| + |b|];
      assert both == both[..|a|] + both[|a|..];
    }
  }

  /** An integer is read from a field exactly when its bytes stand there. */
  lemma LeAt(buf: seq<byte>, pos: nat, n: nat, width: nat)
    ensures pos + width <= |buf| && FromLe(buf[pos..pos + width]) == n
       <==> n < Pow256(width) && At(buf, pos, ToLe(n, width))
  {
    if pos + width <= |buf| {
      LeInverse(buf[pos..pos + width]);
    }
    if n < Pow256(width) {
      LeRoundTrip(n, width);
    }
  }
}
