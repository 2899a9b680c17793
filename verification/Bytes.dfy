/** Bytes, options and little-endian words (deps/snappy/snappy-stubs-internal.h). */
module Bytes {

  type byte = b: int | 0 <= b < 256

  const TWO32: nat := 0x1_0000_0000
  const TWO40: nat := 0x100_0000_0000

  datatype Option<+T> = None | Some(value: T)

  /** The number whose little-endian bytes are `s`. */
  function LE(s: seq<byte>): nat {
    if s == [] then 0 else s[0] + 256 * LE(s[1..])
  }

  function Load32(s: seq<byte>, i: nat): nat
    requires i + 4 <= |s|
  {
    LE(s[i..i + 4])
  }

  function Load64(s: seq<byte>, i: nat): nat
    requires i + 8 <= |s|
  {
    LE(s[i..i + 8])
  }

  lemma Slice(s: seq<byte>, a: nat, b: nat, c: nat, d: nat)
    requires a <= b <= |s| && c <= d <= b - a
    ensures s[a..b][c..d] == s[a + c..a + d]
  {
    var t, u := s[a..b][c..d], s[a + c..a + d];
    forall i | 0 <= i < d - c
      ensures t[i] == u[i]
    {
      assert t[i] == s[a..b][c + i] == s[a + (c + i)];
    }
  }

  /** 256 to the power `k`. */
  function Pow256(k: nat): (r: nat)
    ensures r > 0
  {
    if k == 0 then 1 else 256 * Pow256(k - 1)
  }

  function Pow2(k: nat): (r: nat)
    ensures r > 0
  {
    if k == 0 then 1 else 2 * Pow2(k - 1)
  }

  lemma Pow256Values()
    ensures Pow256(0) == 1 && Pow256(1) == 256 && Pow256(2) == 65536 && Pow256(3) == 16777216
    ensures Pow256(4) == TWO32 && Pow256(5) == TWO40
  {
    assert Pow256(3) == 256 * Pow256(2);
    assert Pow256(5) == 256 * Pow256(4);
  }

  /** Dropping the low byte is a right shift by eight. */
  lemma LEShift(s: seq<byte>)
    requires s != []
    ensures LE(s) / 256 == LE(s[1..]) && LE(s) % 256 == s[0]
  {
  }

  /** Keeping the low `k` bytes is the remainder modulo 256^k. */
  lemma {:induction false} LELow(s: seq<byte>, k: nat)
    requires k <= |s|
    ensures LE(s) % Pow256(k) == LE(s[..k])
    ensures LE(s[..k]) < Pow256(k)
  {
    if k > 0 {
      LELow(s[1..], k - 1);
      assert s[..k][1..] == s[1..][..k - 1];
      ModPeel(LE(s[1..]), s[0], Pow256(k - 1));
    }
  }

  lemma ModPeel(x: nat, c: byte, p: nat)
    requires p > 0
    ensures (c + 256 * x) % (256 * p) == c + 256 * (x % p)
  {
    var q, r := x / p, x % p;
    assert x == q * p + r;
    assert c + 256 * x == q * (256 * p) + (c + 256 * r);
    assert c + 256 * r < 256 * p;
    ModUnique(c + 256 * x, 256 * p, q, c + 256 * r);
  }

  lemma ModUnique(a: nat, m: nat, q: nat, r: nat)
    requires m > 0 && r < m && a == q * m + r
    ensures a % m == r && a / m == q
  {
    var d := q - a / m;
    assert d * m == q * m - a / m * m;
    assert a % m == a - a / m * m;
    SmallMultiple(d, m);
  }

  lemma SmallMultiple(d: int, m: int)
    requires -m < d * m < m
    ensures d == 0
  {
  }

  /** Division by 128, then by p, is division by 128 p. */
  lemma DivideTwice(a: nat, p: nat)
    requires p > 0
    ensures a / 128 / p == a / (128 * p)
  {
    var x, r := a / 128, a % 128;
    var q, y := x / p, x % p;
    assert x == q * p + y;
    assert a == 128 * x + r == q * (128 * p) + (128 * y + r);
    assert 128 * y + r < 128 * p;
    ModUnique(a, 128 * p, q, 128 * y + r);
  }

  lemma LELow32(s: seq<byte>)
    requires |s| >= 4
    ensures LE(s) % TWO32 == LE(s[..4]) < TWO32
  {
    Pow256Values();
    LELow(s, 4);
  }

  lemma LELow40(s: seq<byte>)
    requires |s| >= 5
    ensures LE(s) % TWO40 == LE(s[..5]) < TWO40
  {
    Pow256Values();
    LELow(s, 5);
  }

  /** Equal words of equal width have equal bytes. */
  lemma {:induction false} LEInjective(a: seq<byte>, b: seq<byte>)
    requires |a| == |b|
    requires LE(a) == LE(b)
    ensures a == b
  {
    if a != [] {
      LEShift(a);
      LEShift(b);
      LEInjective(a[1..], b[1..]);
      assert a == [a[0]] + a[1..] && b == [b[0]] + b[1..];
    }
  }

  /** The four bytes LittleEndian::Store32 writes. */
  function Store32(v: nat): (s: seq<byte>)
    ensures |s| == 4
  {
    [v % 256, v / 256 % 256, v / 65536 % 256, v / 16777216 % 256]
  }

  /** Unrolled value of a short word. */
  lemma LEValues(s: seq<byte>)
    ensures |s| == 1 ==> LE(s) == s[0]
    ensures |s| == 2 ==> LE(s) == s[0] as int + 256 * s[1] as int
    ensures |s| == 3 ==> LE(s) == s[0] as int + 256 * s[1] as int + 65536 * s[2] as int
    ensures |s| == 4 ==> LE(s) == s[0] as int + 256 * s[1] as int + 65536 * s[2] as int + 16777216 * s[3] as int
  {
    if 1 < |s| <= 4 {
      LEValues(s[1..]);
    }
  }
}
