/**
 The stream preamble: a 32-bit little-endian varint (format_description.txt, section 1), its encoder and
 both readers of it, and the source of compressed bytes.
 */
module SnappyVarint {
  import opened Bytes

  datatype Parsed = Bad | Good(value: nat, used: nat)

  /** The varint for `v`, low seven bits first. */
  function Varint(v: nat): (s: seq<byte>)
    ensures |s| >= 1
  {
    if v < 128 then [v] else [v % 128 + 128] + Varint(v / 128)
  }

  /** Reads a varint of which `k` bytes are already consumed; the fifth byte may only hold four bits. */
  function Parse(s: seq<byte>, k: nat): (r: Parsed)
    requires k <= 5
    ensures r.Good? ==> 0 < r.used <= |s|
    decreases 5 - k
  {
    if s == [] || k == 5 then Bad
    else if s[0] < 128 then
      if k == 4 && s[0] >= 16 then Bad else Good(s[0], 1)
    else
      var r := Parse(s[1..], k + 1);
      if r.Bad? then Bad else Good(s[0] - 128 + 128 * r.value, 1 + r.used)
  }

  function Limit(k: nat): nat
    requires k <= 5
  {
    match k
    case 0 => TWO32
    case 1 => 0x200_0000
    case 2 => 0x4_0000
    case 3 => 0x800
    case 4 => 16
    case _ => 0
  }

  /** Round trip of the preamble, whatever follows it. */
  lemma {:induction false} ParseVarint(v: nat, t: seq<byte>, k: nat)
    requires k <= 4 && v < Limit(k)
    ensures Parse(Varint(v) + t, k) == Good(v, |Varint(v)|)
    ensures |Varint(v)| <= 5 - k
    decreases 5 - k
  {
    if v >= 128 {
      ParseVarint(v / 128, t, k + 1);
      assert (Varint(v) + t)[1..] == Varint(v / 128) + t;
    }
  }

  function Pow128(i: nat): (r: nat)
    ensures r > 0
  {
    if i == 0 then 1 else Pow128(i - 1) * 128
  }

  lemma DivideOnce(v: nat, i: nat)
    requires i > 0
    ensures v / 128 / Pow128(i - 1) == v / Pow128(i)
  {
    DivideTwice(v, Pow128(i - 1));
    assert 128 * Pow128(i - 1) == Pow128(i);
  }

  /** The bytes of a length: groups of seven bits, low group first, marked in all bytes but the last. */
  lemma {:induction false} VarintBytes(v: nat, i: nat)
    requires i < |Varint(v)|
    ensures Varint(v)[i] % 128 == v / Pow128(i) % 128
    ensures Varint(v)[i] >= 128 <==> i + 1 < |Varint(v)|
  {
    if i > 0 {
      VarintBytes(v / 128, i - 1);
      DivideOnce(v, i);
    }
  }

  /** No byte is wasted. */
  lemma {:induction false} VarintSize(v: nat)
    ensures v < Pow128(|Varint(v)|)
    ensures |Varint(v)| > 1 ==> v >= Pow128(|Varint(v)| - 1)
  {
    if v >= 128 {
      var w, n := v / 128, |Varint(v / 128)|;
      VarintSize(w);
      assert Varint(v) == [v % 128 + 128] + Varint(w);
      assert Pow128(n + 1) == Pow128(n) * 128;
      if n > 1 {
        assert Pow128(n) == Pow128(n - 1) * 128;
      } else {
        assert Pow128(1) == Pow128(0) * 128;
      }
    } else {
      assert Pow128(1) == Pow128(0) * 128;
    }
  }

  /** The two lengths the format description writes out. */
  lemma VarintExamples()
    ensures Varint(64) == [0x40]
    ensures Varint(2097150) == [0xFE, 0xFF, 0x7F]
  {
    assert Varint(16383) == [0xFF] + Varint(127);
  }

  /** The number in the low seven bits of the first `n` bytes. */
  function Value(s: seq<byte>, n: nat): nat
    requires n <= |s|
  {
    if n == 0 then 0 else Value(s, n - 1) + s[n - 1] % 128 * Pow128(n - 1)
  }

  /** The first `n` bytes of a stream are a length: all but the last are marked, and the fifth holds four bits. */
  predicate LengthAt(s: seq<byte>, n: nat) {
    && 1 <= n <= 5 && n <= |s| && s[n - 1] < 128 && (n == 5 ==> s[4] < 16)
    && forall i :: 0 <= i < n - 1 ==> s[i] >= 128
  }

  lemma {:induction false} ValueTail(s: seq<byte>, n: nat)
    requires 1 <= n <= |s|
    ensures Value(s, n) == s[0] % 128 + 128 * Value(s[1..], n - 1)
  {
    if n == 1 {
      assert Value(s, 0) == 0 && Pow128(0) == 1;
      assert Value(s, 1) == Value(s, 0) + s[0] % 128 * Pow128(0);
    } else {
      ValueTail(s, n - 1);
      assert s[1..][n - 2] == s[n - 1];
      var d, p := s[n - 1] % 128, Pow128(n - 2);
      assert Pow128(n - 1) == p * 128;
      assert d * (p * 128) == 128 * (d * p);
    }
  }

  /** What the readers accept, and the number they make of it. */
  lemma ParseExact(s: seq<byte>, n: nat)
    ensures LengthAt(s, n) ==> Parse(s, 0) == Good(Value(s, n), n)
    ensures Parse(s, 0).Good? ==> LengthAt(s, Parse(s, 0).used)
  {
    if LengthAt(s, n) {
      ParseFrom(s, 0, n);
    }
    if Parse(s, 0).Good? {
      ParseUses(s, 0);
    }
  }

  lemma {:induction false} ParseFrom(s: seq<byte>, k: nat, n: nat)
    requires 1 <= n && k + n <= 5 && n <= |s| && s[n - 1] < 128 && (k + n == 5 ==> s[n - 1] < 16)
    requires forall i :: 0 <= i < n - 1 ==> s[i] >= 128
    ensures Parse(s, k) == Good(Value(s, n), n)
    decreases n
  {
    ValueTail(s, n);
    if n > 1 {
      assert s[1..][n - 2] == s[n - 1];
      ParseFrom(s[1..], k + 1, n - 1);
    }
  }

  lemma {:induction false} ParseUses(s: seq<byte>, k: nat)
    requires k <= 5 && Parse(s, k).Good?
    ensures var n := Parse(s, k).used;
            && 1 <= n && k + n <= 5 && n <= |s| && s[n - 1] < 128 && (k + n == 5 ==> s[n - 1] < 16)
            && forall i :: 0 <= i < n - 1 ==> s[i] >= 128
    decreases 5 - k
  {
    if s[0] >= 128 {
      ParseUses(s[1..], k + 1);
      var n := Parse(s, k).used;
      assert forall i :: 1 <= i < n ==> s[i] == s[1..][i - 1];
    }
  }

  /** A parsed length fits 32 bits. */
  lemma {:induction false} ParseBound(s: seq<byte>, k: nat)
    requires k <= 5 && Parse(s, k).Good?
    ensures Parse(s, k).value < Limit(k)
    decreases 5 - k
  {
    if s[0] >= 128 {
      ParseBound(s[1..], k + 1);
    }
  }

  /** Varint::Encode32: five unrolled cases. */
  method Encode32(v: nat) returns (s: seq<byte>)
    requires v < TWO32
    ensures s == Varint(v)
    ensures |s| <= 5
  {
    var v1, v2, v3, v4 := v / 0x80, v / 0x4000, v / 0x20_0000, v / 0x1000_0000;
    assert v2 == v1 / 128 && v3 == v2 / 128 && v4 == v3 / 128;
    if v < 0x80 {
      s := [v];
    } else if v < 0x4000 {
      s := [v % 128 + 128, v1];
    } else if v < 0x20_0000 {
      s := [v % 128 + 128, v1 % 128 + 128, v2];
      VarintTail(v1, v2);
    } else if v < 0x1000_0000 {
      s := [v % 128 + 128, v1 % 128 + 128, v2 % 128 + 128, v3];
      VarintTail(v1, v2);
      VarintTail(v2, v3);
    } else {
      s := [v % 128 + 128, v1 % 128 + 128, v2 % 128 + 128, v3 % 128 + 128, v4];
      VarintTail(v1, v2);
      VarintTail(v2, v3);
      VarintTail(v3, v4);
    }
  }

  lemma VarintTail(v: nat, v': nat)
    requires v >= 128 && v' == v / 128
    ensures Varint(v) == [v % 128 + 128] + Varint(v')
  {
  }

  /** v << 7k, for the shifts the readers use. */
  function Shl7(v: nat, k: nat): nat
    requires k <= 5
  {
    match k
    case 0 => v
    case 1 => v * 0x80
    case 2 => v * 0x4000
    case 3 => v * 0x20_0000
    case 4 => v * 0x1000_0000
    case _ => v * 0x8_0000_0000
  }

  /** What a reader that has accumulated `low` from `k` bytes makes of the rest. */
  ghost function Lift(r: Parsed, low: nat, k: nat): Parsed
    requires k <= 5
  {
    if r.Bad? then Bad else Good(low + Shl7(r.value, k), k + r.used)
  }

  /** Byte `k` turns the accumulated `low` into `result`. */
  ghost predicate Reads(s: seq<byte>, k: nat, low: nat, result: nat)
    requires k < |s| && k < 5
  {
    Lift(Parse(s[k..], k), low, k) ==
    if s[k] >= 128 then Lift(Parse(s[k + 1..], k + 1), result, k + 1)
    else if k == 4 && s[k] >= 16 then Bad
    else Good(result, k + 1)
  }

  /** One byte of either reader. */
  lemma ReadsAt(s: seq<byte>, k: nat, low: nat)
    requires k < |s| && k < 5
    ensures Reads(s, k, low, low + Shl7(s[k] % 128, k))
  {
    assert s[k..][1..] == s[k + 1..];
  }

  /** Varint::Parse32WithLimit: the straight-line reader over a flat buffer. */
  method Parse32WithLimit(s: seq<byte>) returns (r: Parsed)
    ensures r == Parse(s, 0)
  {
    assert s[0..] == s;
    if |s| < 1 { return Bad; }
    var b, result: nat := s[0], s[0] % 128;
    ReadsAt(s, 0, 0);
    if b < 128 { return Good(result, 1); }
    if |s| < 2 { return Bad; }
    b := s[1];
    ReadsAt(s, 1, result);
    result := result + b as int % 128 * 0x80;
    if b < 128 { return Good(result, 2); }
    if |s| < 3 { return Bad; }
    b := s[2];
    ReadsAt(s, 2, result);
    result := result + b as int % 128 * 0x4000;
    if b < 128 { return Good(result, 3); }
    if |s| < 4 { return Bad; }
    b := s[3];
    ReadsAt(s, 3, result);
    result := result + b as int % 128 * 0x20_0000;
    if b < 128 { return Good(result, 4); }
    if |s| < 5 { return Bad; }
    b := s[4];
    ReadsAt(s, 4, result);
    result := result + b as int % 128 * 0x1000_0000;
    if b < 16 { return Good(result, 5); }
    return Bad;
  }

  /** A Source: the bytes not yet skipped.  Either it is one flat piece (ByteArraySource), or Peek may return any
      non-empty prefix below 2^32 bytes, so a proof about this class covers every such fragmentation. */
  class Source {
    const whole: bool
    var contents: seq<byte>

    constructor (bytes: seq<byte>, whole: bool)
      ensures contents == bytes && this.whole == whole
    {
      contents, this.whole := bytes, whole;
    }

    method Peek() returns (fragment: seq<byte>)
      ensures |fragment| <= |contents| && fragment == contents[..|fragment|]
      ensures fragment == [] <==> contents == []
      ensures if whole then fragment == contents else |fragment| < TWO32
    {
      if contents == [] || whole { return contents; }
      var n: nat :| 0 < n <= |contents| && n < TWO32;
      fragment := contents[..n];
    }

    method Skip(n: nat)
      requires n <= |contents|
      modifies this
      ensures contents == old(contents)[n..]
    {
      contents := contents[n..];
    }
  }

  /** Whether shifting an eight-bit value left by `shift` loses bits of a 32-bit word. */
  predicate LeftShiftOverflows(value: byte, shift: nat)
    requires shift < 32
  {
    shift > 24 && value / Pow2(32 - shift) != 0
  }

  /** SnappyDecompressor::ReadUncompressedLength: the byte-by-byte reader over a fragmented source.
      It agrees with the flat reader and consumes exactly the preamble. */
  method ReadUncompressedLength(reader: Source) returns (r: Parsed)
    modifies reader
    ensures r.Good? <==> Parse(old(reader.contents), 0).Good?
    ensures r.Good? ==> r == Parse(old(reader.contents), 0) && reader.contents == old(reader.contents)[r.used..]
  {
    ghost var s := reader.contents;
    var result: nat, shift: nat, k: nat := 0, 0, 0;
    assert s[0..] == s;
    while true
      invariant 0 <= k <= 5 && shift == 7 * k && k <= |s|
      invariant reader.contents == s[k..]
      invariant Parse(s, 0) == Lift(Parse(s[k..], k), result, k)
      decreases 5 - k
    {
      if shift >= 32 { return Bad; }
      var fragment := reader.Peek();
      if |fragment| == 0 { return Bad; }
      var c := fragment[0];
      assert c == s[k];
      ReadsAt(s, k, result);
      reader.Skip(1);
      assert reader.contents == s[k + 1..];
      var val := c % 128;
      if LeftShiftOverflows(val, shift) {
        OverflowOnlyInLastByte(val, shift);
        return Bad;
      }
      OverflowOnlyInLastByte(val, shift);
      result := result + Shl7(val, shift / 7);
      if c < 128 {
        return Good(result, k + 1);
      }
      shift, k := shift + 7, k + 1;
    }
  }

  lemma OverflowOnlyInLastByte(val: byte, shift: nat)
    requires shift < 32 && shift % 7 == 0 && val < 128
    ensures LeftShiftOverflows(val, shift) <==> shift == 28 && val >= 16
  {
    assert Pow2(4) == 2 * Pow2(3);
  }
}
