/**
 The Snappy element format and its byte-at-a-time meaning (format_description.txt, sections 2.1 and 2.2).
 Every fast path of the codec is proved against `Decode`.
 */
module SnappyFormat {
  import opened Bytes

  datatype Tag =
    | LiteralTag(size: nat, len: nat)
    | CopyTag(size: nat, offset: nat, len: nat)

  /** Bytes a tag occupies, its trailing length or offset bytes included. */
  function TagSize(c: byte): (n: nat)
    ensures 1 <= n <= 5
  {
    match c % 4
    case 0 => if c / 4 < 60 then 1 else c / 4 - 58
    case 1 => 2
    case 2 => 3
    case _ => 5
  }

  /** The tag at the front of `s`.  The decoder adds one to a four-byte literal length in 32-bit arithmetic,
      so the length field 0xFFFFFFFF denotes an empty literal. */
  function ReadTag(s: seq<byte>): (t: Tag)
    requires s != [] && TagSize(s[0]) <= |s|
    ensures t.size == TagSize(s[0])
    ensures t.CopyTag? ==> 1 <= t.len <= 64 && t.offset < TWO32
    ensures t.LiteralTag? ==> t.len < TWO32
  {
    var c := s[0];
    var n := TagSize(c);
    match c % 4
    case 0 => LiteralTag(n, if n == 1 then c / 4 + 1 else (LE(s[1..n]) + 1) % TWO32)
    case 1 => CopyTag(n, c / 32 * 256 + s[1], c / 4 % 8 + 4)
    case 2 => LEBound(s[1..n]); CopyTag(n, LE(s[1..n]), c / 4 + 1)
    case _ => LEBound(s[1..n]); CopyTag(n, LE(s[1..n]), c / 4 + 1)
  }

  /** A literal has the length its tag announces, except for the one announcement of 2^32 bytes, which decodes as an
      empty literal. */
  lemma LiteralLengthWraps(s: seq<byte>)
    requires s != [] && TagSize(s[0]) <= |s| && s[0] % 4 == 0 && s[0] / 4 >= 60
    ensures var n := TagSize(s[0]);
            && ReadTag(s).LiteralTag?
            && (ReadTag(s).len == LE(s[1..n]) + 1 <==> LE(s[1..n]) != 0xFFFF_FFFF)
            && (LE(s[1..n]) == 0xFFFF_FFFF ==> ReadTag(s).len == 0)
  {
    LEBound(s[1..TagSize(s[0])]);
  }

  /** A literal of up to 60 bytes: its length less one in the upper six bits. */
  lemma ShortLiteralLayout(len: nat, t: seq<byte>)
    requires 1 <= len <= 60
    ensures var s: seq<byte> := [(len - 1) * 4] + t;
            TagSize(s[0]) == 1 && ReadTag(s) == LiteralTag(1, len)
  {
  }

  /** A longer literal: 60 to 63 in the upper six bits, and its length less one in one to four bytes. */
  lemma LongLiteralLayout(b: seq<byte>, t: seq<byte>)
    requires 1 <= |b| <= 4 && LE(b) < 0xFFFF_FFFF
    ensures var s: seq<byte> := [(59 + |b|) * 4] + b + t;
            TagSize(s[0]) == 1 + |b| && ReadTag(s) == LiteralTag(1 + |b|, LE(b) + 1)
  {
    hide LE;
    var c: byte := (59 + |b|) * 4;
    assert c % 4 == 0 && c / 4 == 59 + |b|;
    var s: seq<byte> := [c] + b + t;
    assert s[0] == c && s[1..1 + |b|] == b;
  }

  /** A copy with a one-byte offset: the upper three bits of the offset in bits 5 to 7, the length less four in bits 2 to 4. */
  lemma Copy1Layout(offset: nat, len: nat, t: seq<byte>)
    requires 4 <= len <= 11 && offset < 2048
    ensures var s: seq<byte> := [offset / 256 * 32 + (len - 4) * 4 + 1, offset % 256] + t;
            TagSize(s[0]) == 2 && ReadTag(s) == CopyTag(2, offset, len)
  {
    var high, low := offset / 256, len - 4;
    var c := high * 32 + low * 4 + 1;
    assert c / 4 == high * 8 + low && c / 32 == high;
  }

  /** A copy with a two-byte offset: the length less one in the upper six bits, the offset little-endian. */
  lemma Copy2Layout(offset: nat, len: nat, t: seq<byte>)
    requires 1 <= len <= 64 && offset < 65536
    ensures var s: seq<byte> := [(len - 1) * 4 + 2, offset % 256, offset / 256] + t;
            TagSize(s[0]) == 3 && ReadTag(s) == CopyTag(3, offset, len)
  {
    var s: seq<byte> := [(len - 1) * 4 + 2, offset % 256, offset / 256] + t;
    assert s[1..3] == [offset % 256, offset / 256];
    LEValues(s[1..3]);
  }

  /** A copy with a four-byte offset. */
  lemma Copy4Layout(b: seq<byte>, len: nat, t: seq<byte>)
    requires 1 <= len <= 64 && |b| == 4
    ensures var s: seq<byte> := [(len - 1) * 4 + 3] + b + t;
            var offset := b[0] as int + 256 * b[1] as int + 65536 * b[2] as int + 16777216 * b[3] as int;
            TagSize(s[0]) == 5 && ReadTag(s) == CopyTag(5, offset, len)
  {
    var s: seq<byte> := [(len - 1) * 4 + 3] + b + t;
    assert s[1..5] == b;
    LEValues(b);
  }

  lemma LEBound(s: seq<byte>)
    requires |s| <= 4
    ensures LE(s) < TWO32
  {
    LEValues(s);
  }

  /** Append `len` bytes, each the one `offset` places back, one byte at a time. */
  function Overlap(out: seq<byte>, offset: nat, len: nat): (r: seq<byte>)
    requires 0 < offset <= |out|
    ensures |r| == |out| + len
    decreases len
  {
    if len == 0 then out else Overlap(out + [out[|out| - offset]], offset, len - 1)
  }

  datatype Progress = Stuck | Next(used: nat, out: seq<byte>)

  /** The first element of `s` appended to `out`; Stuck if it is cut short or is an illegal copy. */
  function Step(s: seq<byte>, out: seq<byte>): (r: Progress)
    requires s != []
    ensures r.Next? ==> 0 < r.used <= |s|
  {
    if |s| < TagSize(s[0]) then Stuck
    else
      match ReadTag(s)
      case LiteralTag(n, len) =>
        if |s| < n + len then Stuck else Next(n + len, out + s[n..n + len])
      case CopyTag(n, offset, len) =>
        if 0 < offset <= |out| then Next(n, Overlap(out, offset, len)) else Stuck
  }

  /** Decode all of `s` onto `out`, element by element. */
  function Decode(s: seq<byte>, out: seq<byte>): Option<seq<byte>>
    decreases |s|
  {
    if s == [] then Some(out)
    else
      match Step(s, out)
      case Stuck => None
      case Next(used, out') => Decode(s[used..], out')
  }

  /** A tag is self-delimiting: what follows does not change it. */
  lemma ReadTagAppend(s: seq<byte>, t: seq<byte>)
    requires s != [] && TagSize(s[0]) <= |s|
    ensures ReadTag(s + t) == ReadTag(s)
  {
    assert (s + t)[1..TagSize(s[0])] == s[1..TagSize(s[0])];
  }

  lemma StepAppend(s: seq<byte>, t: seq<byte>, out: seq<byte>)
    requires s != [] && Step(s, out).Next?
    ensures Step(s + t, out) == Step(s, out)
  {
    ReadTagAppend(s, t);
    var tag := ReadTag(s);
    if tag.LiteralTag? {
      assert (s + t)[tag.size..tag.size + tag.len] == s[tag.size..tag.size + tag.len];
    }
  }

  lemma DecodeStep(s: seq<byte>, out: seq<byte>)
    requires s != [] && Step(s, out).Next?
    ensures Decode(s, out) == Decode(s[Step(s, out).used..], Step(s, out).out)
  {
  }

  lemma NoStep(out: seq<byte>)
    ensures Decode([], out) == Some(out)
  {
  }

  lemma FirstStep(s: seq<byte>, out: seq<byte>)
    requires s != [] && Decode(s, out).Some?
    ensures Step(s, out).Next? && Decode(s, out) == Decode(s[Step(s, out).used..], Step(s, out).out)
  {
  }

  /** Decoding is compositional over concatenated streams. */
  lemma {:induction false} DecodeAppend(s: seq<byte>, t: seq<byte>, out: seq<byte>)
    requires Decode(s, out).Some?
    ensures Decode(s + t, out) == Decode(t, Decode(s, out).value)
    decreases |s|
  {
    hide Step, Decode;
    if s == [] {
      assert s + t == t;
      NoStep(out);
    } else {
      FirstStep(s, out);
      var r := Step(s, out);
      calc {
        Decode(s + t, out);
        { StepAppend(s, t, out); DecodeStep(s + t, out); assert (s + t)[r.used..] == s[r.used..] + t; }
        Decode(s[r.used..] + t, r.out);
        { DecodeAppend(s[r.used..], t, r.out); }
        Decode(t, Decode(s[r.used..], r.out).value);
      }
    }
  }

  /** A copy reads only the bytes behind it, so a longer history does not change it. */
  lemma {:induction false} OverlapPrefix(p: seq<byte>, out: seq<byte>, offset: nat, len: nat)
    requires 0 < offset <= |out|
    ensures Overlap(p + out, offset, len) == p + Overlap(out, offset, len)
    decreases len
  {
    if len > 0 {
      var c := out[|out| - offset];
      OverlapPrefix(p, out + [c], offset, len - 1);
      assert p + out + [c] == p + (out + [c]);
    }
  }

  lemma StepPrefix(s: seq<byte>, p: seq<byte>, out: seq<byte>)
    requires s != [] && Step(s, out).Next?
    ensures Step(s, p + out) == Next(Step(s, out).used, p + Step(s, out).out)
  {
    match ReadTag(s) {
      case LiteralTag(n, len) =>
        assert p + out + s[n..n + len] == p + (out + s[n..n + len]);
      case CopyTag(n, offset, len) =>
        OverlapPrefix(p, out, offset, len);
    }
  }

  /** A block decoded after `p` yields the same bytes as one decoded alone. */
  lemma {:induction false} DecodePrefix(s: seq<byte>, p: seq<byte>, out: seq<byte>)
    requires Decode(s, out).Some?
    ensures Decode(s, p + out) == Some(p + Decode(s, out).value)
    decreases |s|
  {
    if s != [] {
      var Next(k, out') := Step(s, out);
      StepPrefix(s, p, out);
      DecodePrefix(s[k..], p, out');
    }
  }

  lemma {:induction false} OverlapExtends(out: seq<byte>, offset: nat, len: nat)
    requires 0 < offset <= |out|
    ensures out <= Overlap(out, offset, len)
    decreases len
  {
    if len > 0 {
      OverlapExtends(out + [out[|out| - offset]], offset, len - 1);
    }
  }

  /** Output is only ever appended to. */
  lemma {:induction false} DecodeExtends(s: seq<byte>, out: seq<byte>)
    requires Decode(s, out).Some?
    ensures out <= Decode(s, out).value
    decreases |s|
  {
    if s != [] {
      var Next(k, out') := Step(s, out);
      DecodeExtends(s[k..], out');
      assert out <= out' by {
        var tag := ReadTag(s);
        if tag.CopyTag? {
          OverlapExtends(out, tag.offset, tag.len);
        }
      }
    }
  }

  /** Two copies at the same offset make one longer copy. */
  lemma {:induction false} OverlapSplit(out: seq<byte>, offset: nat, a: nat, b: nat)
    requires 0 < offset <= |out|
    ensures Overlap(Overlap(out, offset, a), offset, b) == Overlap(out, offset, a + b)
    decreases a
  {
    if a > 0 {
      OverlapSplit(out + [out[|out| - offset]], offset, a - 1, b);
    }
  }

  /** A copy is characterised by its period: it is the only extension of `out` in which each
      new byte equals the one `offset` places back. */
  lemma {:induction false} OverlapIsPeriodic(out: seq<byte>, offset: nat, len: nat, r: seq<byte>)
    requires 0 < offset <= |out| && |r| == |out| + len
    requires out <= r
    requires forall i :: |out| <= i < |r| ==> r[i] == r[i - offset]
    ensures r == Overlap(out, offset, len)
    decreases len
  {
    if len > 0 {
      OverlapIsPeriodic(out + [out[|out| - offset]], offset, len - 1, r);
    }
  }

  /** Outcome of decoding `s` onto `out` when `expected` bytes were announced. */
  function Outcome(s: seq<byte>, out: seq<byte>, expected: nat): Option<seq<byte>> {
    var r := Decode(s, out);
    if r.Some? && |r.value| == expected then r else None
  }

  /** Output past the announced length can never be taken back. */
  lemma OutcomeOverflow(s: seq<byte>, out: seq<byte>, expected: nat)
    requires |out| > expected
    ensures Outcome(s, out, expected).None?
  {
    if Decode(s, out).Some? {
      DecodeExtends(s, out);
    }
  }

  /** The example of the format description: a literal "xab" and a copy of four bytes from two back make "xababab". */
  lemma DecodeExample()
    ensures Decode([8, 120, 97, 98, 1, 2], []) == Some([120, 97, 98, 97, 98, 97, 98])
  {
    hide Decode, Step, ReadTag, TagSize, LE;
    var s: seq<byte>, xab: seq<byte>, c: seq<byte> := [8, 120, 97, 98, 1, 2], [120, 97, 98], [1, 2];
    assert s == [8] + s[1..] && s[1..4] == xab && s[4..] == c == [1, 2] + [] && [] + xab == xab && c[2..] == [];
    ShortLiteralLayout(3, s[1..]);
    Copy1Layout(2, 4, []);
    StepOfTag(s, []);
    StepOfTag(c, xab);
    CopyExample(xab);
    DecodeStep(s, []);
    DecodeStep(c, xab);
    NoStep(xab + [97, 98, 97, 98]);
    assert xab + [97, 98, 97, 98] == [120, 97, 98, 97, 98, 97, 98];
  }

  /** What an element of a given tag does. */
  lemma StepOfTag(s: seq<byte>, out: seq<byte>)
    requires s != [] && TagSize(s[0]) <= |s|
    ensures ReadTag(s).LiteralTag? && ReadTag(s).size + ReadTag(s).len <= |s| ==>
              var n, len := ReadTag(s).size, ReadTag(s).len; Step(s, out) == Next(n + len, out + s[n..n + len])
    ensures ReadTag(s).CopyTag? && 0 < ReadTag(s).offset <= |out| ==>
              Step(s, out) == Next(ReadTag(s).size, Overlap(out, ReadTag(s).offset, ReadTag(s).len))
  {
    hide ReadTag, TagSize;
  }

  lemma CopyExample(xab: seq<byte>)
    requires xab == [120, 97, 98]
    ensures Overlap(xab, 2, 4) == xab + [97, 98, 97, 98]
  {
    OverlapIsPeriodic(xab, 2, 4, xab + [97, 98, 97, 98]);
  }
}
