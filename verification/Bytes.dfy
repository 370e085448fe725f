/** Bytes, and unsigned numbers written in them with the most significant byte first. */
module Bytes {
  import opened Arith

  type byte = b: int | 0 <= b < 256

  const TWO_32: nat := 0x1_0000_0000

  type uint32 = n: nat | n < TWO_32

  /** One more than the largest number of `width` bytes. */
  function Span(width: nat): (n: nat)
    ensures n > 0
  {
    if width == 0 then 1 else 256 * Span(width - 1)
  }

  lemma Spans()
    ensures Span(2) == 0x1_0000 && Span(3) == 0x100_0000 && Span(4) == TWO_32
    ensures Span(8) == 0x1_0000_0000_0000_0000
  {
    assert Span(1) == 256;
    assert Span(3) == 256 * Span(2);
    assert Span(5) == 256 * Span(4);
    assert Span(7) == 256 * Span(6);
  }

  /** The low `width` bytes of a number. */
  function PutUint(x: nat, width: nat): (s: seq<byte>)
    ensures |s| == width
  {
    if width == 0 then [] else PutUint(x / 256, width - 1) + [x % 256]
  }

  function Uint(s: seq<byte>): nat {
    if s == [] then 0 else Uint(s[..|s| - 1]) * 256 + s[|s| - 1]
  }

  lemma ModSplit(x: nat, n: nat)
    requires n > 0
    ensures x % (256 * n) == x / 256 % n * 256 + x % 256
  {
    var q, r := x / 256, x % 256;
    var k, m := q / n, q % n;
    assert x == k * (256 * n) + (m * 256 + r) by {
      assert q == k * n + m;
      assert k * (256 * n) == 256 * (k * n);
    }
    DivMod(k, m * 256 + r, 256 * n);
  }

  /** Reading back what was written gives the number, cut to the width. */
  lemma {:induction false} PutGet(x: nat, width: nat)
    ensures Uint(PutUint(x, width)) == x % Span(width)
  {
    if width > 0 {
      PutGet(x / 256, width - 1);
      ModSplit(x, Span(width - 1));
      assert PutUint(x, width)[..width - 1] == PutUint(x / 256, width - 1);
    }
  }

  /** Every string of bytes is the writing of the number it spells. */
  lemma {:induction false} GetPut(s: seq<byte>)
    ensures PutUint(Uint(s), |s|) == s && Uint(s) < Span(|s|)
  {
    if s != [] {
      GetPut(s[..|s| - 1]);
      assert Uint(s) / 256 == Uint(s[..|s| - 1]) && Uint(s) % 256 == s[|s| - 1];
    }
  }

  lemma PutGetFits(x: nat, width: nat)
    requires x < Span(width)
    ensures Uint(PutUint(x, width)) == x
  {
    PutGet(x, width);
  }

  /** The most significant byte comes first. */
  lemma {:induction false} MostSignificantFirst(x: nat, width: nat, i: nat)
    requires i < width
    ensures PutUint(x, width)[i] == x / Span(width - 1 - i) % 256
  {
    if i < width - 1 {
      MostSignificantFirst(x / 256, width - 1, i);
      DivTwice(x, Span(width - 2 - i));
      assert PutUint(x, width)[i] == PutUint(x / 256, width - 1)[i];
    }
  }

  lemma DivTwice(x: nat, n: nat)
    requires n > 0
    ensures x / 256 / n == x / (256 * n)
  {
    var q := x / 256 / n;
    var r := x - q * (256 * n);
    assert x / 256 == q * n + x / 256 % n;
    assert q * (256 * n) == 256 * (q * n);
    assert 0 <= r < 256 * n;
    DivMod(q, r, 256 * n);
  }
}
