/**
 Encoding of one element: EmitLiteral, EmitCopyAtMost64 and EmitCopy (deps/snappy/snappy.cc).  The emitters
 store whole words and 16-byte blocks; the stores past the new cursor are scratch.
 */
module SnappyEmit {
  import opened Bytes
  import opened SnappyFormat

  /** floor(log2(n)). */
  function Log2Floor(n: nat): nat
    requires n > 0
  {
    if n == 1 then 0 else 1 + Log2Floor(n / 2)
  }

  /** Number of bytes EmitLiteral spends on a length of `n + 1`. */
  function LengthBytes(n: nat): nat
    requires n > 0
  {
    Log2Floor(n) / 8 + 1
  }

  lemma Log2Shift(n: nat)
    requires n >= 16
    ensures Log2Floor(n) == 4 + Log2Floor(n / 16)
  {
    assert n / 2 / 2 == n / 4 && n / 4 / 2 == n / 8 && n / 8 / 2 == n / 16;
    assert Log2Floor(n / 4) == 2 + Log2Floor(n / 16);
    assert Log2Floor(n) == 2 + Log2Floor(n / 4);
  }

  lemma Log2Small(n: nat)
    requires 0 < n < 16
    ensures Log2Floor(n) < 4
  {
    assert n >= 4 ==> Log2Floor(n / 4) < 2;
    assert n >= 4 ==> n / 2 / 2 == n / 4;
  }

  /** The byte count is the least one that holds `n`. */
  lemma LengthBytesFit(n: nat)
    requires 0 < n < TWO32
    ensures LengthBytes(n) == if n < 256 then 1 else if n < 65536 then 2 else if n < 16777216 then 3 else 4
    decreases n
  {
    if n < 16 {
      Log2Small(n);
    } else if n < 256 {
      Log2Shift(n);
      Log2Small(n / 16);
    } else {
      Log2Shift(n);
      Log2Shift(n / 16);
      LengthBytesFit(n / 256);
    }
  }

  /** Tag and length bytes of a literal of `len` bytes. */
  function LiteralHeader(len: nat): (h: seq<byte>)
    requires 1 <= len < TWO32
  {
    if len <= 60 then [(len - 1) * 4]
    else
      LengthBytesFit(len - 1);
      [(59 + LengthBytes(len - 1)) * 4] + Store32(len - 1)[..LengthBytes(len - 1)]
  }

  lemma LiteralHeaderSize(len: nat)
    requires 1 <= len < TWO32
    ensures |LiteralHeader(len)| == if len <= 60 then 1 else if len <= 256 then 2 else if len <= 65536 then 3
                                    else if len <= 16777216 then 4 else 5
  {
    if len > 60 {
      LengthBytesFit(len - 1);
    }
  }

  /** The bytes of a literal's header. */
  lemma LiteralHeaderBytes(len: nat)
    requires 1 <= len < TWO32
    ensures len <= 60 ==> LiteralHeader(len) == [(len - 1) * 4]
    ensures 60 < len <= 256 ==> LiteralHeader(len) == [240, len - 1]
    ensures 256 < len <= 65536 ==> LiteralHeader(len) == [244, (len - 1) % 256, (len - 1) / 256]
    ensures 65536 < len <= 16777216 ==>
              LiteralHeader(len) == [248, (len - 1) % 256, (len - 1) / 256 % 256, (len - 1) / 65536]
    ensures 16777216 < len ==>
              LiteralHeader(len) == [252, (len - 1) % 256, (len - 1) / 256 % 256, (len - 1) / 65536 % 256, (len - 1) / 16777216]
  {
    if len > 60 {
      hide LengthBytes;
      var n := len - 1;
      LengthBytesFit(n);
      assert n / 65536 == n / 256 / 256 && n / 16777216 == n / 65536 / 256;
    }
  }

  lemma Store32Low(v: nat, k: nat)
    requires 1 <= k <= 4 && v < Pow256(k) && k <= 4
    ensures LE(Store32(v)[..k]) == v
  {
    Pow256Values();
    var s := Store32(v)[..k];
    LEValues(s);
    hide LE, Pow256;
    var a, b, c := v / 256, v / 65536, v / 16777216;
    assert b == a / 256 && c == b / 256;
    assert v == v % 256 + 256 * (a % 256) + 65536 * (b % 256) + 16777216 * c;
  }

  lemma ReadLiteralHeader(len: nat, t: seq<byte>)
    requires 1 <= len < TWO32
    ensures var s := LiteralHeader(len) + t;
            TagSize(s[0]) == |LiteralHeader(len)| && ReadTag(s) == LiteralTag(|LiteralHeader(len)|, len)
  {
    var h := LiteralHeader(len);
    LiteralHeaderSize(len);
    if len > 60 {
      ReadLongHeader(len, t);
    }
  }

  lemma ReadLongHeader(len: nat, t: seq<byte>)
    requires 60 < len < TWO32
    ensures var h := LiteralHeader(len);
            TagSize((h + t)[0]) == |h| && ReadTag(h + t) == LiteralTag(|h|, len)
  {
    hide LE, LengthBytes, Store32;
    var h, n := LiteralHeader(len), len - 1;
    var k := LengthBytes(n);
    LengthBytesFit(n);
    Pow256Values();
    Store32Low(n, k);
    assert h == [(59 + k) * 4] + Store32(n)[..k];
    assert (h + t)[1..k + 1] == Store32(n)[..k];
  }

  /** A literal decodes to its bytes. */
  lemma DecodeLiteral(lit: seq<byte>, out: seq<byte>)
    requires 1 <= |lit| < TWO32
    ensures Decode(LiteralHeader(|lit|) + lit, out) == Some(out + lit)
  {
    hide LiteralHeader, ReadTag, TagSize, LE, Decode;
    var h := LiteralHeader(|lit|);
    var s := h + lit;
    LiteralHeaderSize(|lit|);
    ReadLiteralHeader(|lit|, lit);
    NoStep(out + lit);
    assert s[|h|..|h| + |lit|] == lit;
    assert Step(s, out) == Next(|s|, out + lit);
    assert s[|s|..] == [];
    DecodeStep(s, out);
  }

  /** Word assembled by EmitCopyAtMost64. */
  function CopyWord(offset: nat, len: nat): nat
    requires 4 <= len <= 64
  {
    if len >= 12 then 2 + (len - 1) * 4 + offset * 256
    else if offset < 2048 then len * 4 + offset * 256 + (1 - 16 + offset / 256 % 8 * 32)
    else len * 4 + offset * 256 + (2 - 4)
  }

  function CopySize(offset: nat, len: nat): nat {
    if len < 12 && offset < 2048 then 2 else 3
  }

  /** The two or three bytes of one copy element. */
  function CopyCode(offset: nat, len: nat): (s: seq<byte>)
    requires 4 <= len <= 64
    ensures |s| == CopySize(offset, len)
  {
    Store32(CopyWord(offset, len))[..CopySize(offset, len)]
  }

  lemma ShortCopyTag(low: nat, high: nat)
    requires low < 8 && high < 8
    ensures var c := low * 4 + 1 + high * 32;
            c < 256 && c % 4 == 1 && c / 32 == high && c / 4 % 8 == low
  {
    assert (low * 4 + 1 + high * 32) / 4 == low + high * 8;
  }

  lemma WordFields(c: byte, offset: nat)
    ensures var u := c as int + 256 * offset;
            u % 256 == c && u / 256 == offset && u / 65536 == offset / 256
  {
  }

  lemma ReadShortCopy(offset: nat, len: nat)
    requires 4 <= len < 12 && offset < 2048
    ensures var s := CopyCode(offset, len);
            TagSize(s[0]) == 2 && ReadTag(s) == CopyTag(2, offset, len)
  {
    var high := offset / 256;
    var c: byte := (len - 4) * 4 + 1 + high * 32;
    ShortCopyTag(len - 4, high);
    var u := CopyWord(offset, len);
    assert u == c as int + 256 * offset;
    WordFields(c, offset);
    assert CopyCode(offset, len) == [c, offset % 256];
  }

  lemma ReadLongCopy(offset: nat, len: nat)
    requires 4 <= len <= 64 && offset < 65536 && CopySize(offset, len) == 3
    ensures var s := CopyCode(offset, len);
            TagSize(s[0]) == 3 && ReadTag(s) == CopyTag(3, offset, len)
  {
    var c: byte := (len - 1) * 4 + 2;
    var s := CopyCode(offset, len);
    var u := CopyWord(offset, len);
    assert u == c as int + 256 * offset;
    WordFields(c, offset);
    assert s == [c, offset % 256, offset / 256];
    LEValues(s[1..3]);
  }

  lemma ReadCopyCode(offset: nat, len: nat)
    requires 4 <= len <= 64 && offset < 65536
    ensures var s := CopyCode(offset, len);
            TagSize(s[0]) == |s| && ReadTag(s) == CopyTag(|s|, offset, len)
  {
    if CopySize(offset, len) == 2 {
      ReadShortCopy(offset, len);
    } else {
      ReadLongCopy(offset, len);
    }
  }

  /** The bytes of a copy: two for a short match close by, otherwise three. */
  lemma CopyCodeBytes(offset: nat, len: nat)
    requires 4 <= len <= 64 && offset < 65536
    ensures CopyCode(offset, len) ==
            if len < 12 && offset < 2048 then [offset / 256 * 32 + (len - 4) * 4 + 1, offset % 256]
            else [(len - 1) * 4 + 2, offset % 256, offset / 256]
  {
    var u := CopyWord(offset, len);
    if CopySize(offset, len) == 2 {
      var c: byte := offset / 256 * 32 + (len - 4) * 4 + 1;
      assert u == c as int + 256 * offset;
      WordFields(c, offset);
    } else {
      var c: byte := (len - 1) * 4 + 2;
      assert u == c as int + 256 * offset;
      WordFields(c, offset);
    }
  }

  /** One copy element decodes to the overlapping copy. */
  lemma DecodeCopy(offset: nat, len: nat, out: seq<byte>)
    requires 4 <= len <= 64 && 0 < offset < 65536 && offset <= |out|
    ensures Decode(CopyCode(offset, len), out) == Some(Overlap(out, offset, len))
  {
    var s := CopyCode(offset, len);
    ReadCopyCode(offset, len);
    DecodeStep(s, out);
    assert s[|s|..] == [];
  }

  /** The elements EmitCopy splits a long match into. */
  function CopyCodes(offset: nat, len: nat): (s: seq<byte>)
    requires 4 <= len
    decreases len
  {
    if len >= 68 then CopyCode(offset, 64) + CopyCodes(offset, len - 64)
    else if len > 64 then CopyCode(offset, 60) + CopyCode(offset, len - 60)
    else CopyCode(offset, len)
  }

  lemma CopyCodesUnfold(offset: nat, len: nat, k: nat)
    requires len > 64 && k == if len >= 68 then 64 else 60
    ensures CopyCodes(offset, len) == CopyCode(offset, k) + CopyCodes(offset, len - k)
  {
  }

  /** Splitting a match does not change its meaning. */
  lemma {:induction false} DecodeCopies(offset: nat, len: nat, out: seq<byte>)
    requires 4 <= len && 0 < offset < 65536 && offset <= |out|
    ensures Decode(CopyCodes(offset, len), out) == Some(Overlap(out, offset, len))
    decreases len
  {
    hide CopyCode, Decode, Overlap;
    if len > 64 {
      var k := if len >= 68 then 64 else 60;
      var head, tail := CopyCode(offset, k), CopyCodes(offset, len - k);
      calc {
        Decode(CopyCodes(offset, len), out);
        { CopyCodesUnfold(offset, len, k); }
        Decode(head + tail, out);
        { DecodeCopy(offset, k, out); DecodeAppend(head, tail, out); }
        Decode(tail, Overlap(out, offset, k));
        { DecodeCopies(offset, len - k, Overlap(out, offset, k)); }
        Some(Overlap(Overlap(out, offset, k), offset, len - k));
        { OverlapSplit(out, offset, k, len - k); }
        Some(Overlap(out, offset, len));
      }
    } else {
      DecodeCopy(offset, len, out);
    }
  }

  /** The number of bytes for a match: 64 at a time, except that at least four are left for the last copy. */
  lemma {:induction false} CopyCodesExact(offset: nat, len: nat)
    requires 4 <= len
    ensures len <= 64 ==> |CopyCodes(offset, len)| == if len < 12 && offset < 2048 then 2 else 3
    ensures 64 < len < 68 ==> |CopyCodes(offset, len)| == 3 + if offset < 2048 then 2 else 3
    ensures len >= 68 ==> |CopyCodes(offset, len)| == 3 * ((len - 4) / 64) + |CopyCodes(offset, 4 + (len - 4) % 64)|
    decreases len
  {
    if len >= 68 {
      var rest := len - 64;
      CopyCodesUnfold(offset, len, 64);
      assert (len - 4) / 64 == (rest - 4) / 64 + 1 && (len - 4) % 64 == (rest - 4) % 64;
      if rest >= 68 {
        CopyCodesExact(offset, rest);
      } else {
        assert (rest - 4) / 64 == 0 && 4 + (rest - 4) % 64 == rest;
      }
    }
  }

  /** A copy never costs more than its match, with ten sixths of a byte to spare. */
  lemma {:induction false} CopyCodesSize(offset: nat, len: nat)
    requires 4 <= len
    ensures 6 * |CopyCodes(offset, len)| + 10 <= 7 * len
    decreases len
  {
    if len >= 68 {
      CopyCodesSize(offset, len - 64);
    }
  }

  /** memcpy from the input into the output buffer. */
  method CopyIn(dest: array<byte>, at: nat, input: seq<byte>, from: nat, n: nat)
    requires at + n <= dest.Length && from + n <= |input|
    modifies dest
    ensures dest[..at] == old(dest[..at])
    ensures dest[at..at + n] == input[from..from + n]
    ensures dest[at + n..] == old(dest[at + n..])
  {
    forall i | 0 <= i < n {
      dest[at + i] := input[from + i];
    }
  }

  method StoreWord(dest: array<byte>, at: nat, v: nat)
    requires at + 4 <= dest.Length
    modifies dest
    ensures dest[..at] == old(dest[..at])
    ensures dest[at..at + 4] == Store32(v)
  {
    dest[at], dest[at + 1], dest[at + 2], dest[at + 3] := v % 256, v / 256 % 256, v / 65536 % 256, v / 16777216 % 256;
  }

  /** The 16-byte block loop of EmitLiteral. */
  method CopyInBlocks(dest: array<byte>, at: nat, input: seq<byte>, from: nat, len: nat)
    requires len > 0 && at + len + 15 <= dest.Length && from + len + 15 <= |input|
    modifies dest
    ensures dest[..at] == old(dest[..at])
    ensures dest[at..at + len] == input[from..from + len]
  {
    var done := 0;
    while done < len
      invariant 0 <= done <= len + 15
      invariant dest[..at] == old(dest[..at])
      invariant dest[at..at + done] == input[from..from + done]
    {
      ghost var was := dest[..at + done];
      CopyIn(dest, at + done, input, from + done, 16);
      assert dest[..at] == was[..at] && dest[at..at + done] == was[at..];
      assert dest[at..at + (done + 16)] == dest[at..at + done] + dest[at + done..at + done + 16];
      assert input[from..from + (done + 16)] == input[from..from + done] + input[from + done..from + done + 16];
      done := done + 16;
    }
    assert dest[at..at + len] == dest[at..at + done][..len];
  }

  method EmitHeader(dest: array<byte>, op: nat, len: nat) returns (op': nat)
    requires 1 <= len < TWO32
    requires if len <= 60 then op < dest.Length else op + 5 <= dest.Length
    modifies dest
    ensures op' == op + |LiteralHeader(len)|
    ensures op' <= dest.Length && dest[..op'] == old(dest[..op]) + LiteralHeader(len)
  {
    var n := len - 1;
    ghost var was := dest[..op];
    if n < 60 {
      dest[op] := n * 4;
      op' := op + 1;
      assert dest[..op'] == was + [n * 4];
    } else {
      LengthBytesFit(n);
      var count := LengthBytes(n);
      StoreWord(dest, op + 1, n);
      dest[op] := (59 + count) * 4;
      op' := op + 1 + count;
      assert dest[op + 1..op + 5] == Store32(n);
      assert dest[op + 1..op'] == Store32(n)[..count];
      assert dest[..op'] == dest[..op] + [dest[op]] + dest[op + 1..op'];
    }
  }

  /** EmitLiteral: the fast path may store up to 15 bytes too many, and may read as many. */
  method EmitLiteral(dest: array<byte>, op: nat, input: seq<byte>, from: nat, len: nat, allowFastPath: bool)
    returns (op': nat)
    requires 1 <= len < TWO32 && from + len <= |input|
    requires op + |LiteralHeader(len)| + len <= dest.Length && (len > 60 ==> op + 5 <= dest.Length)
    requires allowFastPath ==> from + len + 15 <= |input| && op + |LiteralHeader(len)| + len + 15 <= dest.Length
    modifies dest
    ensures op' == op + |LiteralHeader(len)| + len <= dest.Length
    ensures dest[..op'] == old(dest[..op]) + (LiteralHeader(len) + input[from..from + len])
  {
    hide LiteralHeader;
    ghost var before, lit := dest[..op], input[from..from + len];
    var at := EmitHeader(dest, op, len);
    ghost var was := dest[..at];
    if allowFastPath && len <= 16 {
      CopyIn(dest, at, input, from, 16);
      assert dest[at..at + len] == dest[at..at + 16][..len];
      assert lit == input[from..from + 16][..len];
    } else if allowFastPath {
      CopyInBlocks(dest, at, input, from, len);
    } else {
      CopyIn(dest, at, input, from, len);
    }
    op' := at + len;
    assert dest[..op'] == was + lit == before + LiteralHeader(len) + lit;
  }

  /** EmitCopyAtMost64: stores four bytes, keeps two or three. */
  method EmitCopyAtMost64(dest: array<byte>, op: nat, offset: nat, len: nat) returns (op': nat)
    requires 4 <= len <= 64 && op + 4 <= dest.Length
    modifies dest
    ensures op' == op + CopySize(offset, len)
    ensures dest[..op'] == old(dest[..op]) + CopyCode(offset, len)
  {
    ghost var was := dest[..op];
    var u := CopyWord(offset, len);
    StoreWord(dest, op, u);
    op' := op + CopySize(offset, len);
    assert dest[op..op'] == Store32(u)[..CopySize(offset, len)];
    assert dest[..op'] == was + dest[op..op'];
  }

  /** EmitCopy: 64-byte copies while at least four bytes remain for the last one. */
  method EmitCopy(dest: array<byte>, op: nat, offset: nat, len: nat, below12: bool) returns (op': nat)
    requires (below12 <==> len < 12)
    requires 4 <= len && op + |CopyCodes(offset, len)| + 2 <= dest.Length
    modifies dest
    ensures op' == op + |CopyCodes(offset, len)|
    ensures dest[..op'] == old(dest[..op]) + CopyCodes(offset, len)
  {
    if below12 {
      op' := EmitCopyAtMost64(dest, op, offset, len);
      return;
    }
    op' := op;
    var rest := len;
    while rest >= 68
      invariant 4 <= rest && op' + |CopyCodes(offset, rest)| == op + |CopyCodes(offset, len)|
      invariant dest[..op'] + CopyCodes(offset, rest) == old(dest[..op]) + CopyCodes(offset, len)
    {
      ghost var was := dest[..op'];
      op' := EmitCopyAtMost64(dest, op', offset, 64);
      assert was + (CopyCode(offset, 64) + CopyCodes(offset, rest - 64)) == dest[..op'] + CopyCodes(offset, rest - 64);
      rest := rest - 64;
    }
    ghost var codes := CopyCodes(offset, rest);
    if rest > 64 {
      ghost var was := dest[..op'];
      op' := EmitCopyAtMost64(dest, op', offset, 60);
      assert was + (CopyCode(offset, 60) + CopyCode(offset, rest - 60)) == dest[..op'] + CopyCode(offset, rest - 60);
      rest := rest - 60;
    }
    op' := EmitCopyAtMost64(dest, op', offset, rest);
  }
}
