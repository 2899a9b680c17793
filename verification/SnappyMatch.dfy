/** Match lengths, eight bytes at a time (deps/snappy/snappy-internal.h). */
module SnappyMatch {
  import opened Bytes

  /** n bytes at s1 equal n bytes at s2, all within the input. */
  ghost predicate IsMatch(input: seq<byte>, s1: nat, s2: nat, n: nat) {
    s1 < s2 && s2 + n <= |input| && input[s1..s1 + n] == input[s2..s2 + n]
  }

  /** The match cannot be longer. */
  ghost predicate IsLongest(input: seq<byte>, s1: nat, s2: nat, n: nat) {
    IsMatch(input, s1, s2, n) && (s2 + n == |input| || input[s1 + n] != input[s2 + n])
  }

  lemma MatchAt(input: seq<byte>, s1: nat, s2: nat, n: nat, k: nat)
    requires IsMatch(input, s1, s2, n) && k < n
    ensures input[s1 + k] == input[s2 + k]
  {
    assert input[s1..s1 + n][k] == input[s2..s2 + n][k];
  }

  /** No match is longer than a longest one. */
  lemma LongestBounds(input: seq<byte>, s1: nat, s2: nat, a: nat, b: nat)
    requires IsLongest(input, s1, s2, a) && IsMatch(input, s1, s2, b)
    ensures b <= a
  {
    if a < b {
      MatchAt(input, s1, s2, b, a);
    }
  }

  /** No match of the two places is longer than `len`. */
  ghost predicate NoneLonger(input: seq<byte>, s1: nat, s2: nat, len: nat) {
    forall n: nat :: IsMatch(input, s1, s2, n) ==> n <= len
  }

  lemma LongestNoneLonger(input: seq<byte>, s1: nat, s2: nat, a: nat, len: nat)
    requires IsLongest(input, s1, s2, a) && a <= len
    ensures NoneLonger(input, s1, s2, len)
  {
    forall n: nat | IsMatch(input, s1, s2, n)
      ensures n <= len
    {
      LongestBounds(input, s1, s2, a, n);
    }
  }

  /** FindLSBSetNonZero64(a ^ b): the lowest bit in which two words differ. */
  function LowestDifferingBit(a: nat, b: nat): nat
    requires a != b
    decreases a + b
  {
    if a % 2 != b % 2 then 0 else 1 + LowestDifferingBit(a / 2, b / 2)
  }

  lemma Halve(c: nat, k: nat, x: nat)
    requires k > 0
    ensures (c + Pow2(k) * x) / 2 == c / 2 + Pow2(k - 1) * x
    ensures (c + Pow2(k) * x) % 2 == c % 2
  {
    assert Pow2(k) * x == 2 * (Pow2(k - 1) * x);
  }

  lemma {:induction false} AgreeingLowBits(c: nat, k: nat, x: nat, y: nat)
    requires c < Pow2(k) && x != y
    requires c + Pow2(k) * x != c + Pow2(k) * y
    ensures LowestDifferingBit(c + Pow2(k) * x, c + Pow2(k) * y) == k + LowestDifferingBit(x, y)
    decreases k
  {
    if k > 0 {
      Halve(c, k, x);
      Halve(c, k, y);
      AgreeingLowBits(c / 2, k - 1, x, y);
    }
  }

  lemma {:induction false} DifferingLowBits(c: nat, d: nat, k: nat, x: nat, y: nat)
    requires c < Pow2(k) && d < Pow2(k) && c != d
    requires c + Pow2(k) * x != d + Pow2(k) * y
    ensures LowestDifferingBit(c + Pow2(k) * x, d + Pow2(k) * y) < k
    decreases k
  {
    if k > 0 {
      Halve(c, k, x);
      Halve(d, k, y);
      if c % 2 == d % 2 {
        DifferingLowBits(c / 2, d / 2, k - 1, x, y);
      }
    }
  }

  lemma Pow2At8()
    ensures Pow2(8) == 256
  {
    assert Pow2(4) == 16 by { assert Pow2(2) == 4; }
    assert Pow2(6) == 64;
  }

  /** The lowest differing bit lies in the first differing byte. */
  lemma {:induction false} FirstDifferingByte(a: seq<byte>, b: seq<byte>)
    requires |a| == |b| && LE(a) != LE(b)
    ensures var k := LowestDifferingBit(LE(a), LE(b)) / 8;
            k < |a| && a[..k] == b[..k] && a[k] != b[k]
  {
    Pow2At8();
    var x, y := LE(a[1..]), LE(b[1..]);
    assert LE(a) == a[0] + 256 * x && LE(b) == b[0] + 256 * y;
    hide LE, LowestDifferingBit, Pow2;
    if a[0] == b[0] {
      AgreeingLowBits(a[0], 8, x, y);
      FirstDifferingByte(a[1..], b[1..]);
      var k := LowestDifferingBit(x, y) / 8;
      assert a[..k + 1] == [a[0]] + a[1..][..k] && b[..k + 1] == [b[0]] + b[1..][..k];
    } else {
      DifferingLowBits(a[0], b[0], 8, x, y);
    }
  }

  lemma {:induction false} LEDrop(s: seq<byte>, k: nat)
    requires k <= |s|
    ensures LE(s) / Pow256(k) == LE(s[k..])
  {
    if k > 0 {
      LEDrop(s[1..], k - 1);
      assert s[1..][k - 1..] == s[k..];
      DivPeel(LE(s[1..]), s[0], Pow256(k - 1));
    } else {
      assert s[0..] == s;
    }
  }

  lemma DivPeel(x: nat, c: byte, p: nat)
    requires p > 0
    ensures (c + 256 * x) / (256 * p) == x / p
  {
    ModPeel(x, c, p);
    var v, q := c + 256 * x, (c + 256 * x) / (256 * p);
    assert v == q * (256 * p) + v % (256 * p);
    assert 256 * x == q * (256 * p) + 256 * (x % p);
    assert x == q * p + x % p;
    assert x == x / p * p + x % p;
    assert (q - x / p) * p == 0;
  }

  lemma MatchExtend(input: seq<byte>, s1: nat, s2: nat, n: nat, k: nat)
    requires IsMatch(input, s1, s2, n) && s2 + n + k <= |input|
    requires input[s1 + n..s1 + n + k] == input[s2 + n..s2 + n + k]
    ensures IsMatch(input, s1, s2, n + k)
  {
    assert input[s1..s1 + (n + k)] == input[s1..s1 + n] + input[s1 + n..s1 + n + k];
    assert input[s2..s2 + (n + k)] == input[s2..s2 + n] + input[s2 + n..s2 + n + k];
  }

  lemma MatchExtendByte(input: seq<byte>, s1: nat, s2: nat, n: nat)
    requires IsMatch(input, s1, s2, n) && s2 + n < |input| && input[s1 + n] == input[s2 + n]
    ensures IsMatch(input, s1, s2, n + 1)
  {
    assert input[s1 + n..s1 + n + 1] == [input[s1 + n]] && input[s2 + n..s2 + n + 1] == [input[s2 + n]];
    MatchExtend(input, s1, s2, n, 1);
  }

  lemma MatchExtendBack(input: seq<byte>, s1: nat, s2: nat, n: nat)
    requires IsMatch(input, s1, s2, n) && 0 < s1 && input[s1 - 1] == input[s2 - 1]
    ensures IsMatch(input, s1 - 1, s2 - 1, n + 1)
  {
    assert input[s1 - 1..s1 - 1 + (n + 1)] == [input[s1 - 1]] + input[s1..s1 + n];
    assert input[s2 - 1..s2 - 1 + (n + 1)] == [input[s2 - 1]] + input[s2..s2 + n];
  }

  /** v >> 8k. */
  function Shr8(v: nat, k: nat): nat
    requires k < 4
  {
    match k
    case 0 => v
    case 1 => v / 256
    case 2 => v / 65536
    case _ => v / 16777216
  }

  /** The five bytes after the match, assembled without loading from the match end. */
  lemma CarriedBytes(input: seq<byte>, s: nat, k: nat, at: nat)
    requires k < 8 && s + 12 <= |input| && at == if k >= 4 then s + 4 else s
    ensures Shr8(Load64(input, at), k % 4) % TWO40 == LE(input[s + k..s + k + 5])
  {
    hide LE;
    var w := input[at..at + 8];
    LEDrop(w, k % 4);
    Pow256Values();
    LELow40(w[k % 4..]);
    assert at + k % 4 == s + k;
    Window(input, at, k % 4);
  }

  lemma Window(input: seq<byte>, at: nat, d: nat)
    requires d < 4 && at + 8 <= |input|
    ensures input[at..at + 8][d..][..5] == input[at + d..at + d + 5]
  {
  }

  lemma LowHalfAgrees(a: seq<byte>, b: seq<byte>, k: nat)
    requires |a| == |b| == 8 && k < 8 && a[..k] == b[..k] && a[k] != b[k]
    ensures LE(a) % TWO32 == LE(b) % TWO32 <==> k >= 4
  {
    LELow32(a);
    LELow32(b);
    if k >= 4 {
      assert a[..4] == a[..k][..4] && b[..4] == b[..k][..4];
    } else {
      assert a[..4][k] != b[..4][k];
      if LE(a[..4]) == LE(b[..4]) {
        LEInjective(a[..4], b[..4]);
      }
    }
  }

  lemma MismatchBytes(input: seq<byte>, s1: nat, s2: nat)
    requires s1 < s2 && s2 + 8 <= |input| && Load64(input, s1) != Load64(input, s2)
    ensures var a1, a2 := Load64(input, s1), Load64(input, s2);
            var k := LowestDifferingBit(a1, a2) / 8;
            && k < 8 && input[s1..s1 + k] == input[s2..s2 + k] && input[s1 + k] != input[s2 + k]
            && (a1 % TWO32 == a2 % TWO32 <==> k >= 4)
  {
    var w1, w2 := input[s1..s1 + 8], input[s2..s2 + 8];
    FirstDifferingByte(w1, w2);
    var k := LowestDifferingBit(LE(w1), LE(w2)) / 8;
    Slice(input, s1, s1 + 8, 0, k);
    Slice(input, s2, s2 + 8, 0, k);
    LowHalfAgrees(w1, w2, k);
  }

  /** Two unequal words: how many bytes agree, and the next five bytes of the input. */
  method Mismatch8(input: seq<byte>, s1: nat, s2: nat) returns (bytes: nat, data: nat)
    requires s1 < s2 && s2 + 16 <= |input| && Load64(input, s1) != Load64(input, s2)
    ensures bytes < 8 && input[s1..s1 + bytes] == input[s2..s2 + bytes] && input[s1 + bytes] != input[s2 + bytes]
    ensures data % TWO40 == LE(input[s2 + bytes..s2 + bytes + 5])
  {
    var a1, a2 := Load64(input, s1), Load64(input, s2);
    var shift := LowestDifferingBit(a1, a2);
    bytes := shift / 8;
    MismatchBytes(input, s1, s2);
    CarriedBytes(input, s2, bytes, if bytes >= 4 then s2 + 4 else s2);
    var a3 := Load64(input, s2 + 4);
    if a1 % TWO32 == a2 % TWO32 {
      a2 := a3;
    }
    data := Shr8(a2, shift / 8 % 4);
  }

  lemma LoadsAgree(input: seq<byte>, s1: nat, s2: nat)
    requires s1 < s2 && s2 + 8 <= |input| && Load64(input, s1) == Load64(input, s2)
    ensures input[s1..s1 + 8] == input[s2..s2 + 8]
  {
    LEInjective(input[s1..s1 + 8], input[s2..s2 + 8]);
  }

  /** FindMatchLength: the longest match, whether it is below eight bytes and, when eight bytes follow the
      match, a word whose low five bytes are the next five of the input. */
  method FindMatchLength(input: seq<byte>, s1: nat, s20: nat, data0: nat) returns (matched: nat, below8: bool, data: nat)
    requires s1 < s20 <= |input|
    ensures IsLongest(input, s1, s20, matched)
    ensures below8 <==> matched < 8
    ensures s20 + matched + 8 <= |input| ==> data % TWO40 == LE(input[s20 + matched..s20 + matched + 5])
  {
    var limit, s2 := |input|, s20;
    matched, data := 0, data0;
    if s2 + 16 <= limit {
      if Load64(input, s1) != Load64(input, s2) {
        matched, data := Mismatch8(input, s1, s2);
        MatchExtend(input, s1, s20, 0, matched);
        return matched, true, data;
      }
      LoadsAgree(input, s1, s2);
      MatchExtend(input, s1, s20, 0, 8);
      matched, s2 := 8, s2 + 8;
    }
    matched, below8, data := FindLongMatch(input, s1, s20, matched, data);
  }

  /** The 64-bit loop of FindMatchLength. */
  method FindLongMatch(input: seq<byte>, s1: nat, s20: nat, matched0: nat, data0: nat)
    returns (matched: nat, below8: bool, data: nat)
    requires IsMatch(input, s1, s20, matched0)
    requires s20 + matched0 + 16 <= |input| ==> matched0 >= 8
    ensures IsLongest(input, s1, s20, matched)
    ensures below8 <==> matched < 8
    ensures s20 + matched + 8 <= |input| ==> data % TWO40 == LE(input[s20 + matched..s20 + matched + 5])
  {
    hide LE;
    var limit, s2 := |input|, s20 + matched0;
    matched, data := matched0, data0;
    while s2 + 16 <= limit
      invariant s2 == s20 + matched && IsMatch(input, s1, s20, matched)
      invariant s2 + 16 <= limit ==> matched >= 8
      decreases limit - s2
    {
      if Load64(input, s1 + matched) == Load64(input, s2) {
        LoadsAgree(input, s1 + matched, s2);
        MatchExtend(input, s1, s20, matched, 8);
        s2, matched := s2 + 8, matched + 8;
      } else {
        var bytes;
        bytes, data := Mismatch8(input, s1 + matched, s2);
        MatchExtend(input, s1, s20, matched, bytes);
        matched := matched + bytes;
        return matched, false, data;
      }
    }
    matched, data := ScanBytes(input, s1, s20, matched, data);
    below8 := matched < 8;
  }

  /** The byte loop that finishes FindMatchLength within 16 bytes of the end. */
  method ScanBytes(input: seq<byte>, s1: nat, s20: nat, matched0: nat, data0: nat) returns (matched: nat, data: nat)
    requires IsMatch(input, s1, s20, matched0)
    ensures IsLongest(input, s1, s20, matched)
    ensures s20 + matched + 8 <= |input| ==> data % TWO40 == LE(input[s20 + matched..s20 + matched + 5])
  {
    var s2 := s20 + matched0;
    matched, data := matched0, data0;
    while s2 < |input|
      invariant s2 == s20 + matched && IsMatch(input, s1, s20, matched)
      decreases |input| - s2
    {
      if input[s1 + matched] == input[s2] {
        MatchExtendByte(input, s1, s20, matched);
        s2, matched := s2 + 1, matched + 1;
      } else {
        if s2 + 8 <= |input| {
          data := Load64(input, s2);
          LELow40(input[s2..s2 + 8]);
          assert input[s2..s2 + 8][..5] == input[s2..s2 + 5];
        }
        return;
      }
    }
  }

  /** The 64-bit loop of FindMatchLengthPlain. */
  method MatchWords(input: seq<byte>, s1: nat, s20: nat) returns (matched: nat)
    requires s1 < s20 <= |input|
    ensures IsMatch(input, s1, s20, matched)
    ensures s20 + matched + 8 <= |input| ==> Load64(input, s1 + matched) != Load64(input, s20 + matched)
  {
    var s2 := s20;
    matched := 0;
    while s2 + 8 <= |input| && Load64(input, s2) == Load64(input, s1 + matched)
      invariant s2 == s20 + matched && IsMatch(input, s1, s20, matched)
      decreases |input| - s2
    {
      LoadsAgree(input, s1 + matched, s2);
      MatchExtend(input, s1, s20, matched, 8);
      s2, matched := s2 + 8, matched + 8;
    }
  }

  /** FindMatchLengthPlain. */
  method FindMatchLengthPlain(input: seq<byte>, s1: nat, s20: nat) returns (matched: nat)
    requires s1 < s20 <= |input|
    ensures IsLongest(input, s1, s20, matched)
  {
    matched := MatchWords(input, s1, s20);
    var s2 := s20 + matched;
    if s2 + 8 <= |input| {
      var bits := LowestDifferingBit(Load64(input, s1 + matched), Load64(input, s2));
      PlainMismatch(input, s1, s20, matched);
      matched := matched + bits / 8;
    } else {
      while s2 < |input| && input[s1 + matched] == input[s2]
        invariant s2 == s20 + matched && IsMatch(input, s1, s20, matched)
        decreases |input| - s2
      {
        MatchExtendByte(input, s1, s20, matched);
        s2, matched := s2 + 1, matched + 1;
      }
    }
  }

  lemma PlainMismatch(input: seq<byte>, s1: nat, s2: nat, n: nat)
    requires IsMatch(input, s1, s2, n) && s2 + n + 8 <= |input|
    requires Load64(input, s1 + n) != Load64(input, s2 + n)
    ensures IsLongest(input, s1, s2, n + LowestDifferingBit(Load64(input, s1 + n), Load64(input, s2 + n)) / 8)
  {
    MismatchBytes(input, s1 + n, s2 + n);
    MatchExtend(input, s1, s2, n, LowestDifferingBit(Load64(input, s1 + n), Load64(input, s2 + n)) / 8);
  }
}
