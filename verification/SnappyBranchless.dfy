/**
 DecompressBranchless, the fast decode loop (deps/snappy/snappy.cc): tags decoded through a table with a
 folded length/offset comparison, copies deferred by one tag, and stores of whole 32- or 64-byte blocks.
 The instantiation over a buffer and the one over a bare size (a null `buf` here, with the cursor one below the
 output size) share one body, as they share one template.
 */
module SnappyBranchless {
  import opened Bytes
  import opened SnappyFormat
  import opened SnappyCopy
  import opened SnappyEmit

  const SLOP_BYTES: nat := 64

  function MakeEntry(len: int, offset: int): int {
    len - offset * 256
  }

  /** The table entry of a tag; literals carry a spurious offset of 256, long tags a length of 0xFF. */
  function LengthMinusOffset(tag: byte): int {
    var data, kind := tag / 4, tag % 4;
    if kind == 3 then 0xFF
    else if kind == 2 then MakeEntry(data + 1, 0)
    else if kind == 1 then MakeEntry(data % 8 + 4, data / 8)
    else if data < 60 then MakeEntry(data + 1, 1)
    else 0xFF
  }

  function ExtractOffset(val: nat, kind: nat): nat {
    if kind == 1 then val % 256 else if kind == 2 then val % 65536 else 0
  }

  lemma Entry1(tag: byte)
    requires tag % 4 == 1
    ensures LengthMinusOffset(tag) % 256 == tag / 4 % 8 + 4
    ensures LengthMinusOffset(tag) % 256 - LengthMinusOffset(tag) == tag / 32 * 256
  {
    assert tag / 4 / 8 == tag / 32;
  }

  lemma Entry2(tag: byte)
    requires tag % 4 == 2
    ensures LengthMinusOffset(tag) == tag / 4 + 1 == LengthMinusOffset(tag) % 256
  {
  }

  /** Offset a tag at p carries in its trailing bytes. */
  lemma TrailingOffset(mem: seq<byte>, p: nat)
    requires p + 5 <= |mem|
    ensures ExtractOffset(Load32(mem, p + 1), 1) == mem[p + 1]
    ensures ExtractOffset(Load32(mem, p + 1), 2) == LE(mem[p + 1..p + 3])
  {
    hide LE;
    var w := mem[p + 1..p + 5];
    Pow256Values();
    LELow(w, 1);
    LELow(w, 2);
    LEValues(w[..1]);
    Slice(mem, p + 1, p + 5, 0, 2);
  }

  /** What the folded subtraction computes for a copy tag at position p. */
  lemma CopyFields(mem: seq<byte>, p: nat)
    requires p + 5 <= |mem| && (mem[p] % 4 == 1 || mem[p] % 4 == 2)
    ensures var c := mem[p];
            var kind := c % 4;
            var entry := LengthMinusOffset(c);
            var len := entry % 256;
            var offset := ExtractOffset(Load32(mem, p + 1), kind) - entry + len;
            && 1 <= len <= 64 && 0 <= offset
            && TagSize(c) == 1 + kind && ReadTag(mem[p..p + 1 + kind]) == CopyTag(1 + kind, offset, len)
  {
    hide LE, LengthMinusOffset, ExtractOffset;
    var c, s := mem[p], mem[p..p + 1 + mem[p] % 4];
    TrailingOffset(mem, p);
    if c % 4 == 1 {
      Entry1(c);
      assert ReadTag(s) == CopyTag(2, c as int / 32 * 256 + mem[p + 1], c / 4 % 8 + 4);
    } else {
      Entry2(c);
      assert s[1..3] == mem[p + 1..p + 3];
      assert ReadTag(s) == CopyTag(3, LE(mem[p + 1..p + 3]), c / 4 + 1);
    }
  }

  /** A short copy appended to the decoded output. */
  lemma CopyStep(mem: seq<byte>, p: nat, offset: nat, len: nat, out: seq<byte>)
    requires p + 5 <= |mem| && (mem[p] % 4 == 1 || mem[p] % 4 == 2)
    requires TagSize(mem[p]) == 1 + mem[p] % 4
    requires ReadTag(mem[p..p + 1 + mem[p] % 4]) == CopyTag(1 + mem[p] % 4, offset, len)
    requires 0 < offset <= |out|
    ensures Decode(mem[p..p + 1 + mem[p] % 4], out) == Some(Overlap(out, offset, len))
  {
    hide ReadTag, Overlap;
    var s := mem[p..p + 1 + mem[p] % 4];
    DecodeStep(s, out);
    assert s[|s|..] == [];
  }

  /** A short literal appended to the decoded output. */
  lemma LiteralStep(mem: seq<byte>, p: nat, out: seq<byte>)
    requires p < |mem| && mem[p] % 4 == 0 && mem[p] / 4 < 60 && p + 2 + mem[p] / 4 <= |mem|
    ensures Decode(mem[p..p + 2 + mem[p] / 4], out) == Some(out + mem[p + 1..p + 2 + mem[p] / 4])
  {
    var s := mem[p..p + 2 + mem[p] / 4];
    assert s[1..|s|] == mem[p + 1..p + 2 + mem[p] / 4];
    assert Step(s, out) == Next(|s|, out + s[1..|s|]);
    DecodeStep(s, out);
    assert s[|s|..] == [];
  }

  lemma DecodeJoin(mem: seq<byte>, a: nat, b: nat, c: nat, x: seq<byte>, y: seq<byte>)
    requires a <= b <= c <= |mem| && Decode(mem[a..b], x) == Some(y)
    ensures Decode(mem[a..c], x) == Decode(mem[b..c], y)
  {
    assert mem[a..c] == mem[a..b] + mem[b..c];
    DecodeAppend(mem[a..b], mem[b..c], x);
  }

  /** A copy not yet performed: from the compressed bytes or from the output. */
  datatype Deferred = NoCopy | FromInput(src: nat, size: nat) | FromOutput(src: nat, size: nat) {
    function Len(): nat {
      if NoCopy? then 0 else size
    }
  }

  /** Cursor `op` and deferral `d` stand for the output `out`. */
  ghost predicate Staged(mem: seq<byte>, buf: array?<byte>, op: int, d: Deferred, out: seq<byte>)
    reads buf
  {
    && d.Len() <= SLOP_BYTES && d.Len() <= |out|
    && (buf == null ==> |out| == op + d.Len() + 1)
    && (buf != null ==> |out| == op + d.Len() && 0 <= op <= buf.Length && buf[..op] == out[..op])
    && (d.FromInput? ==> d.src + SLOP_BYTES <= |mem| && mem[d.src..d.src + d.size] == out[|out| - d.size..])
    && (d.FromOutput? && buf != null ==> d.src + d.size <= op && out[d.src..d.src + d.size] == out[op..])
  }

  /** MemCopy64 within the output: 32 or 64 bytes, of which the first `size` matter. */
  method MemCopyOutput(buf: array<byte>, dst: nat, src: nat, size: nat)
    requires size <= SLOP_BYTES && src + size <= dst && dst + SLOP_BYTES <= buf.Length
    modifies buf
    ensures buf[..dst] == old(buf[..dst]) && buf[dst + SLOP_BYTES..] == old(buf[dst + SLOP_BYTES..])
    ensures buf[dst..dst + size] == old(buf[src..src + size])
  {
    ghost var was := buf[..];
    Move(buf, dst, src, 32);
    if size > 32 {
      Move(buf, dst + 32, src + 32, 32);
    }
    ghost var now, want := buf[dst..dst + size], was[src..src + size];
    assert forall i :: 0 <= i < size ==> now[i] == want[i];
  }

  /** MemCopy64 from the compressed bytes. */
  method MemCopyInput(buf: array<byte>, dst: nat, mem: seq<byte>, src: nat, size: nat)
    requires size <= SLOP_BYTES && src + SLOP_BYTES <= |mem| && dst + SLOP_BYTES <= buf.Length
    modifies buf
    ensures buf[..dst] == old(buf[..dst]) && buf[dst + SLOP_BYTES..] == old(buf[dst + SLOP_BYTES..])
    ensures buf[dst..dst + size] == mem[src..src + size]
  {
    var n := if size > 32 then 64 else 32;
    ghost var tail := buf[dst + n..];
    CopyIn(buf, dst, mem, src, n);
    assert buf[dst..dst + size] == buf[dst..dst + n][..size];
    assert mem[src..src + size] == mem[src..src + n][..size];
    assert buf[dst + SLOP_BYTES..] == tail[SLOP_BYTES - n..];
  }

  /** The deferred bytes as the copy finds them in memory. */
  lemma DeferredBytes(mem: seq<byte>, now: seq<byte>, op: nat, d: Deferred, out: seq<byte>)
    requires op + d.Len() == |out| && op <= |now| && now[..op] == out[..op]
    requires d.FromOutput? ==> d.src + d.size <= op && out[d.src..d.src + d.size] == out[op..]
    ensures d.FromOutput? ==> now[d.src..d.src + d.size] == out[op..]
    ensures d.NoCopy? ==> out[op..] == []
  {
    if d.FromOutput? {
      assert now[d.src..d.src + d.size] == now[..op][d.src..d.src + d.size];
      assert out[d.src..d.src + d.size] == out[..op][d.src..d.src + d.size];
    }
  }

  /** Perform the deferred copy.  With nothing deferred, 32 bytes of `safe` are stored past the cursor. */
  method Flush(mem: seq<byte>, buf: array?<byte>, op: int, d: Deferred, safe: seq<byte>, ghost limit: nat, ghost out: seq<byte>)
    returns (op': int)
    requires Staged(mem, buf, op, d, out) && |safe| == SLOP_BYTES
    requires buf != null ==> op + SLOP_BYTES <= limit <= buf.Length
    modifies buf
    ensures op' == op + d.Len() && Staged(mem, buf, op', NoCopy, out)
    ensures buf != null ==> buf[limit..] == old(buf[limit..])
  {
    op' := op + d.Len();
    if buf != null {
      ghost var was := buf[..];
      assert was[..op] == buf[..op];
      DeferredBytes(mem, was, op, d, out);
      match d {
        case NoCopy => MemCopyInput(buf, op, safe, 0, 0);
        case FromInput(src, size) => MemCopyInput(buf, op, mem, src, size);
        case FromOutput(src, size) =>
          assert buf[src..src + size] == was[src..src + size];
          MemCopyOutput(buf, op, src, size);
      }
      assert buf[op..op'] == out[op..];
      TailKept(was, buf[..], op + SLOP_BYTES, limit);
      Joined(buf[..], out, op);
    }
  }

  lemma TailKept(was: seq<byte>, now: seq<byte>, from: nat, limit: nat)
    requires from <= limit <= |was| && |was| == |now| && was[from..] == now[from..]
    ensures was[limit..] == now[limit..]
  {
    assert was[limit..] == was[from..][limit - from..];
    assert now[limit..] == now[from..][limit - from..];
  }

  lemma Joined(now: seq<byte>, out: seq<byte>, op: nat)
    requires op <= |out| <= |now| && now[..op] == out[..op] && now[op..|out|] == out[op..]
    ensures now[..|out|] == out
  {
    assert now[..|out|] == now[..op] + now[op..|out|];
    assert out == out[..op] + out[op..];
  }

  /** AdvanceToNextTag: the tag after a short literal or a copy. */
  method Advance(mem: seq<byte>, ip: nat, tag: byte) returns (ip': nat, tag': byte)
    requires ip + 65 <= |mem|
    ensures ip' == if tag % 4 == 0 then ip + 2 + tag / 4 else ip + 1 + tag % 4
    ensures ip < ip' <= ip + 65 && tag' == mem[ip' - 1]
  {
    var literalLen, kind := tag / 4, tag % 4;
    if kind == 0 {
      ip', tag' := ip + 2 + literalLen, mem[ip + 1 + literalLen];
    } else {
      ip', tag' := ip + 1 + kind, mem[ip + kind];
    }
  }

  lemma FilledOutput(before: seq<byte>, after: seq<byte>, op: nat, offset: nat, len: nat)
    requires 0 < offset <= op && op + 64 <= |before| && len <= 64
    requires Filled(before, after, op, op + 64, offset, op + 64)
    ensures |after| == |before| && after[..op + len] == Overlap(before[..op], offset, len)
    ensures after[op + 64..] == before[op + 64..]
  {
    FilledShorter(before, after, op, op + 64, op + len, offset, op + 64);
    FilledIsOverlap(before, after, op, op + len, offset, op + 64);
  }

  /** The branch for offsets below the length: flush, then extend the pattern in place. */
  method PatternCopy(mem: seq<byte>, buf: array?<byte>, op: int, d: Deferred, safe: seq<byte>, offset: nat, len: nat,
                     ghost limit: nat, ghost out: seq<byte>)
    returns (ok: bool, op': int, ghost out': seq<byte>)
    requires Staged(mem, buf, op, d, out) && |safe| == SLOP_BYTES && len <= SLOP_BYTES
    requires buf != null ==> op + d.Len() + SLOP_BYTES <= limit <= buf.Length
    modifies buf
    ensures ok <==> 0 < offset <= op + d.Len()
    ensures ok ==> 0 < offset <= |out| && out' == Overlap(out, offset, len)
    ensures !ok ==> out' == out
    ensures Staged(mem, buf, op', NoCopy, out') && Fits(buf, op', NoCopy, limit)
    ensures buf != null ==> buf[limit..] == old(buf[limit..])
  {
    hide Overlap;
    var delta := op + d.Len() - offset;
    op' := Flush(mem, buf, op, d, safe, limit, out);
    ok, out' := false, out;
    if delta >= 0 {
      if buf == null {
        ok := offset != 0;
      } else {
        ghost var before := buf[..];
        assert before[..op'] == out[..op'] == out;
        ok := Copy64BytesWithPatternExtension(buf, op', offset);
        if ok {
          FilledOutput(before, buf[..], op', offset, len);
          assert buf[..op' + len] == buf[..][..op' + len];
          TailKept(before, buf[..], op' + SLOP_BYTES, limit);
        }
        assert !ok ==> buf[..op'] == buf[..][..op'];
      }
      if ok {
        out' := Overlap(out, offset, len);
        op' := op' + len;
        assert buf != null ==> out'[..op'] == out';
      }
    }
  }

  /** Stage the next copy after performing the last one. */
  method Defer(mem: seq<byte>, buf: array?<byte>, op: int, d: Deferred, safe: seq<byte>, d': Deferred,
               ghost limit: nat, ghost out: seq<byte>, ghost out': seq<byte>)
    returns (op': int)
    requires Staged(mem, buf, op, d, out) && |safe| == SLOP_BYTES
    requires buf != null ==> op + SLOP_BYTES <= limit <= buf.Length
    requires out <= out' && |out'| == |out| + d'.Len() && d'.Len() <= SLOP_BYTES
    requires d'.FromInput? ==> d'.src + SLOP_BYTES <= |mem| && mem[d'.src..d'.src + d'.size] == out'[|out|..]
    requires d'.FromOutput? && buf != null ==> d'.src + d'.size <= |out| && out'[d'.src..d'.src + d'.size] == out'[|out|..]
    modifies buf
    ensures op' == op + d.Len() && Staged(mem, buf, op', d', out')
    ensures buf != null ==> buf[limit..] == old(buf[limit..])
  {
    op' := Flush(mem, buf, op, d, safe, limit, out);
    assert buf != null ==> out'[..op'] == out;
  }

  /** A copy whose offset is at least its length reads only bytes already produced. */
  lemma {:induction false} OverlapDisjoint(out: seq<byte>, offset: nat, len: nat)
    requires 0 < offset <= |out| && len <= offset
    ensures Overlap(out, offset, len) == out + out[|out| - offset..|out| - offset + len]
  {
    var r := out + out[|out| - offset..|out| - offset + len];
    OverlapIsPeriodic(out, offset, len, r);
  }

  /** The slop arithmetic: a tag decoded from a cursor with 64 bytes of room leaves room for the next flush. */
  ghost predicate Fits(buf: array?<byte>, op: int, d: Deferred, limit: nat) {
    buf != null ==> op + d.Len() <= limit <= buf.Length && (d.Len() > 0 ==> op + SLOP_BYTES <= limit)
  }

  /** A copy tag whose offset is at least its length, in range: deferred. */
  method DeferCopy(mem: seq<byte>, buf: array?<byte>, op: int, d: Deferred, safe: seq<byte>, offset: nat, len: nat,
                   ghost limit: nat, ghost out: seq<byte>)
    returns (op': int, d': Deferred, ghost out': seq<byte>)
    requires Staged(mem, buf, op, d, out) && |safe| == SLOP_BYTES
    requires buf != null ==> op + d.Len() + SLOP_BYTES <= limit <= buf.Length
    requires 0 < len <= offset <= op + d.Len() && len <= SLOP_BYTES
    modifies buf
    ensures offset <= |out| && out' == Overlap(out, offset, len)
    ensures Staged(mem, buf, op', d', out') && Fits(buf, op', d', limit)
    ensures buf != null ==> buf[limit..] == old(buf[limit..])
  {
    hide Overlap;
    var delta := op + d.Len() - offset;
    OverlapDisjoint(out, offset, len);
    out' := Overlap(out, offset, len);
    d' := FromOutput(delta, len);
    assert buf != null ==> out'[delta..delta + len] == out[delta..delta + len];
    op' := Defer(mem, buf, op, d, safe, d', limit, out, out');
  }

  /** A short literal: deferred. */
  method DeferLiteral(mem: seq<byte>, ip: nat, buf: array?<byte>, op: int, d: Deferred, safe: seq<byte>, len: nat,
                      ghost limit: nat, ghost out: seq<byte>)
    returns (op': int, d': Deferred, ghost out': seq<byte>)
    requires Staged(mem, buf, op, d, out) && |safe| == SLOP_BYTES
    requires buf != null ==> op + d.Len() + SLOP_BYTES <= limit <= buf.Length
    requires len <= SLOP_BYTES && ip + SLOP_BYTES <= |mem|
    modifies buf
    ensures out' == out + mem[ip..ip + len]
    ensures Staged(mem, buf, op', d', out') && Fits(buf, op', d', limit)
    ensures buf != null ==> buf[limit..] == old(buf[limit..])
  {
    out' := out + mem[ip..ip + len];
    d' := FromInput(ip, len);
    op' := Defer(mem, buf, op, d, safe, d', limit, out, out');
  }

  predicate LongTag(c: byte) {
    c % 4 == 3 || (c % 4 == 0 && c / 4 >= 60)
  }

  lemma EntryOther(tag: byte, val: nat)
    requires tag % 4 == 0 || tag % 4 == 3
    ensures ExtractOffset(val, tag % 4) == 0
    ensures LengthMinusOffset(tag) == if LongTag(tag) then 0xFF else tag / 4 + 1 - 256
    ensures !LongTag(tag) ==> LengthMinusOffset(tag) % 256 == tag / 4 + 1
  {
  }

  /** Which way a tag at p goes: the one comparison sends exactly the long tags and the copies that overlap themselves
      to the first branch, where the top bit of the length tells them apart; short literals never get there, thanks to
      their spurious offset. */
  lemma BranchTaken(mem: seq<byte>, p: nat)
    requires p + 5 <= |mem|
    ensures var c := mem[p];
            var entry, extracted := LengthMinusOffset(c), ExtractOffset(Load32(mem, p + 1), c % 4);
            var tag := ReadTag(mem[p..p + TagSize(c)]);
            && (entry > extracted <==> LongTag(c) || (tag.CopyTag? && tag.offset < tag.len))
            && (entry % 256 >= 0x80 <==> LongTag(c))
            && (!LongTag(c) ==> tag.len == entry % 256 && (tag.CopyTag? <==> c % 4 != 0))
            && (!LongTag(c) && c % 4 == 0 ==> tag.len == c / 4 + 1)
  {
    hide LE, LengthMinusOffset, ExtractOffset;
    var c := mem[p];
    if c % 4 == 1 || c % 4 == 2 {
      CopyFields(mem, p);
    } else {
      EntryOther(c, Load32(mem, p + 1));
    }
  }

  /** The tags the fast loop leaves to the slow one: long ones, and copies from before the start of the output.  Over a bare
      size the cursor is one too low, so a copy from the very start is left too. */
  ghost predicate Refused(mem: seq<byte>, p: nat, overBuffer: bool, size: nat) {
    p + 5 <= |mem| &&
    (LongTag(mem[p]) ||
     var tag := ReadTag(mem[p..p + TagSize(mem[p])]);
     tag.CopyTag? && !(0 < tag.offset && tag.offset + (if overBuffer then 0 else 1) <= size))
  }

  /** One turn of the inner loop. */
  method FastTag(mem: seq<byte>, ip: nat, tag: byte, buf: array?<byte>, op: int, d: Deferred, safe: seq<byte>,
                 ghost limit: nat, ghost out: seq<byte>)
    returns (go: bool, ip': nat, tag': byte, op': int, d': Deferred, ghost out': seq<byte>)
    requires 0 < ip && ip + 65 <= |mem| && tag == mem[ip - 1]
    requires Staged(mem, buf, op, d, out) && |safe| == SLOP_BYTES
    requires buf != null ==> op + d.Len() + SLOP_BYTES <= limit <= buf.Length
    modifies buf
    ensures Staged(mem, buf, op', d', out') && Fits(buf, op', d', limit)
    ensures go ==> ip < ip' <= ip + 65 && tag' == mem[ip' - 1] && |out'| <= |out| + SLOP_BYTES
    ensures go ==> Decode(mem[ip - 1..ip' - 1], out) == Some(out')
    ensures !go ==> ip' == ip && out' == out && Refused(mem, ip - 1, buf != null, |out|)
    ensures buf != null ==> buf[limit..] == old(buf[limit..])
  {
    hide Decode, Overlap, LE, ReadTag, TagSize, LengthMinusOffset, ExtractOffset, Staged, Refused;
    var entry := LengthMinusOffset(tag);
    var kind := tag % 4;
    ip', tag' := Advance(mem, ip, tag);
    var extracted := ExtractOffset(Load32(mem, ip), kind);
    var len, lenMinOffset := entry % 256, entry - extracted;
    op', d', out' := op, d, out;
    BranchTaken(mem, ip - 1);
    if kind == 1 || kind == 2 {
      CopyFields(mem, ip - 1);
    }
    if entry > extracted {
      if len >= 0x80 {
        RefusedLong(mem, ip - 1, buf != null, |out|);
        return false, ip, tag, op', d', out';
      }
      go, op', out' := NearCopy(mem, ip, buf, op, d, safe, len - lenMinOffset, len, limit, out);
      d' := NoCopy;
    } else if kind == 0 {
      op', d', out' := DeferLiteral(mem, ip, buf, op, d, safe, len, limit, out);
      LiteralStep(mem, ip - 1, out);
      go := true;
    } else {
      go, op', d', out' := FarCopy(mem, ip, buf, op, d, safe, len - lenMinOffset, len, limit, out);
    }
    if !go {
      ip', tag' := ip, tag;
    }
  }

  /** A copy tag before ip, with the fields the folded subtraction gives. */
  ghost predicate CopyAt(mem: seq<byte>, ip: nat, offset: nat, len: nat) {
    && 0 < ip && ip + 65 <= |mem| && (mem[ip - 1] % 4 == 1 || mem[ip - 1] % 4 == 2) && 1 <= len <= SLOP_BYTES
    && TagSize(mem[ip - 1]) == 1 + mem[ip - 1] % 4
    && ReadTag(mem[ip - 1..ip + mem[ip - 1] % 4]) == CopyTag(1 + mem[ip - 1] % 4, offset, len)
  }

  lemma CopyAtStep(mem: seq<byte>, ip: nat, offset: nat, len: nat, out: seq<byte>)
    requires CopyAt(mem, ip, offset, len) && 0 < offset <= |out|
    ensures Decode(mem[ip - 1..ip + mem[ip - 1] % 4], out) == Some(Overlap(out, offset, len))
  {
    hide Decode, Overlap, ReadTag, TagSize;
    CopyStep(mem, ip - 1, offset, len, out);
  }

  lemma CopyAtRefused(mem: seq<byte>, ip: nat, offset: nat, len: nat, overBuffer: bool, size: nat)
    requires CopyAt(mem, ip, offset, len) && (offset == 0 || offset + (if overBuffer then 0 else 1) > size)
    ensures Refused(mem, ip - 1, overBuffer, size)
  {
    hide ReadTag, TagSize;
    RefusedCopy(mem, ip - 1, offset, len, overBuffer, size);
  }

  /** A copy with an offset below its length. */
  method NearCopy(mem: seq<byte>, ip: nat, buf: array?<byte>, op: int, d: Deferred, safe: seq<byte>, offset: nat, len: nat,
                  ghost limit: nat, ghost out: seq<byte>)
    returns (go: bool, op': int, ghost out': seq<byte>)
    requires CopyAt(mem, ip, offset, len)
    requires Staged(mem, buf, op, d, out) && |safe| == SLOP_BYTES
    requires buf != null ==> op + d.Len() + SLOP_BYTES <= limit <= buf.Length
    modifies buf
    ensures Staged(mem, buf, op', NoCopy, out') && Fits(buf, op', NoCopy, limit)
    ensures go ==> |out'| <= |out| + SLOP_BYTES && Decode(mem[ip - 1..ip + mem[ip - 1] % 4], out) == Some(out')
    ensures !go ==> out' == out && Refused(mem, ip - 1, buf != null, |out|)
    ensures buf != null ==> buf[limit..] == old(buf[limit..])
  {
    OutputSize(mem, buf, op, d, out);
    assert len <= SLOP_BYTES;
    hide Decode, Overlap, Staged, Refused, CopyAt;
    go, op', out' := PatternCopy(mem, buf, op, d, safe, offset, len, limit, out);
    if go {
      CopyAtStep(mem, ip, offset, len, out);
    } else {
      CopyAtRefused(mem, ip, offset, len, buf != null, |out|);
    }
  }

  /** A copy with an offset from its length on: deferred, unless it starts before the output. */
  method FarCopy(mem: seq<byte>, ip: nat, buf: array?<byte>, op: int, d: Deferred, safe: seq<byte>, offset: nat, len: nat,
                 ghost limit: nat, ghost out: seq<byte>)
    returns (go: bool, op': int, d': Deferred, ghost out': seq<byte>)
    requires CopyAt(mem, ip, offset, len) && len <= offset
    requires Staged(mem, buf, op, d, out) && |safe| == SLOP_BYTES
    requires buf != null ==> op + d.Len() + SLOP_BYTES <= limit <= buf.Length
    modifies buf
    ensures Staged(mem, buf, op', d', out') && Fits(buf, op', d', limit)
    ensures go ==> |out'| <= |out| + SLOP_BYTES && Decode(mem[ip - 1..ip + mem[ip - 1] % 4], out) == Some(out')
    ensures !go ==> out' == out && Refused(mem, ip - 1, buf != null, |out|)
    ensures buf != null ==> buf[limit..] == old(buf[limit..])
  {
    OutputSize(mem, buf, op, d, out);
    assert 1 <= len <= SLOP_BYTES;
    op', d', out' := op, d, out;
    hide Decode, Overlap, Staged, Refused, CopyAt;
    var delta := op + d.Len() - offset;
    go := delta >= 0;
    if go {
      op', d', out' := DeferCopy(mem, buf, op, d, safe, offset, len, limit, out);
      CopyAtStep(mem, ip, offset, len, out);
    } else {
      CopyAtRefused(mem, ip, offset, len, buf != null, |out|);
    }
  }

  lemma RefusedLong(mem: seq<byte>, p: nat, overBuffer: bool, size: nat)
    requires p + 5 <= |mem| && LongTag(mem[p])
    ensures Refused(mem, p, overBuffer, size)
  {
  }

  lemma RefusedCopy(mem: seq<byte>, p: nat, offset: nat, len: nat, overBuffer: bool, size: nat)
    requires p + 5 <= |mem| && TagSize(mem[p]) == 1 + mem[p] % 4
    requires ReadTag(mem[p..p + 1 + mem[p] % 4]) == CopyTag(1 + mem[p] % 4, offset, len)
    ensures offset == 0 || offset + (if overBuffer then 0 else 1) > size ==> Refused(mem, p, overBuffer, size)
  {
    hide ReadTag, TagSize;
  }

  lemma OutputSize(mem: seq<byte>, buf: array?<byte>, op: int, d: Deferred, out: seq<byte>)
    requires Staged(mem, buf, op, d, out)
    ensures |out| == op + d.Len() + if buf == null then 1 else 0
  {
  }

  /** The loop body: two tags without a limit check between them. */
  method TwoTags(mem: seq<byte>, ip: nat, tag: byte, buf: array?<byte>, op: int, d: Deferred, safe: seq<byte>,
                 ghost limit: nat, ghost out: seq<byte>)
    returns (go: bool, ip': nat, tag': byte, op': int, d': Deferred, ghost out': seq<byte>)
    requires 0 < ip && ip + 130 <= |mem| && tag == mem[ip - 1]
    requires Staged(mem, buf, op, d, out) && |safe| == SLOP_BYTES
    requires buf != null ==> op + d.Len() + 2 * SLOP_BYTES <= limit <= buf.Length
    modifies buf
    ensures Staged(mem, buf, op', d', out') && Fits(buf, op', d', limit)
    ensures ip <= ip' <= ip + 130 && Decode(mem[ip - 1..ip' - 1], out) == Some(out')
    ensures go ==> ip < ip' && tag' == mem[ip' - 1]
    ensures !go ==> Refused(mem, ip' - 1, buf != null, |out'|)
    ensures buf != null ==> buf[limit..] == old(buf[limit..])
  {
    hide Decode, Refused;
    go, ip', tag', op', d', out' := FastTag(mem, ip, tag, buf, op, d, safe, limit, out);
    if go {
      ghost var ip1, out1 := ip', out';
      go, ip', tag', op', d', out' := FastTag(mem, ip', tag', buf, op', d', safe, limit, out');
      if go {
        DecodeJoin(mem, ip - 1, ip1 - 1, ip' - 1, out, out1);
      }
    } else {
      DecodeNothing(mem, ip - 1, out);
    }
  }

  lemma DecodeNothing(mem: seq<byte>, p: nat, out: seq<byte>)
    requires p <= |mem|
    ensures Decode(mem[p..p], out) == Some(out)
  {
    assert mem[p..p] == [];
  }

  /** DecompressBranchless: stops on a tag boundary with exactly the output a tag-by-tag decode of the consumed
      bytes gives, near the end of its input or output or at a tag it must leave, and stores nothing at or past `limit`. */
  method DecompressBranchless(mem: seq<byte>, ip0: nat, ipLimit: nat, buf: array?<byte>, op0: int, opLimitMinSlop0: int,
                              safe: seq<byte>, ghost limit: nat, ghost out0: seq<byte>)
    returns (ip: nat, op: int, ghost out: seq<byte>)
    requires ip0 <= ipLimit <= |mem| && |safe| == SLOP_BYTES && Staged(mem, buf, op0, NoCopy, out0)
    requires buf != null ==> op0 <= limit <= buf.Length && (opLimitMinSlop0 > 0 ==> opLimitMinSlop0 + SLOP_BYTES - 1 <= limit)
    modifies buf
    ensures ip0 <= ip <= ipLimit && Decode(mem[ip0..ip], out0) == Some(out)
    ensures Staged(mem, buf, op, NoCopy, out) && (buf != null ==> op <= limit)
    ensures ipLimit - ip <= 2 * SLOP_BYTES + 2 || op >= opLimitMinSlop0 - SLOP_BYTES || Refused(mem, ip, buf != null, |out|)
    ensures buf != null ==> buf[limit..] == old(buf[limit..])
  {
    hide Decode, Refused;
    ip, op, out := ip0, op0, out0;
    var d := NoCopy;
    DecodeNothing(mem, ip0, out0);
    var opLimitMinSlop := opLimitMinSlop0 - SLOP_BYTES;
    if 2 * (SLOP_BYTES + 1) < ipLimit - ip0 && op0 < opLimitMinSlop {
      var ipLimitMinSlop := ipLimit - 2 * SLOP_BYTES - 1;
      ip := ip0 + 1;
      var tag := mem[ip - 1];
      while ip < ipLimitMinSlop && op + d.Len() < opLimitMinSlop
        invariant ip0 < ip <= ipLimit && tag == mem[ip - 1]
        invariant Staged(mem, buf, op, d, out) && Fits(buf, op, d, limit)
        invariant Decode(mem[ip0..ip - 1], out0) == Some(out)
        invariant buf != null ==> buf[limit..] == old(buf[limit..])
        decreases ipLimit - ip
      {
        ghost var ip1, out1 := ip, out;
        var go;
        go, ip, tag, op, d, out := TwoTags(mem, ip, tag, buf, op, d, safe, limit, out);
        DecodeJoin(mem, ip0, ip1 - 1, ip - 1, out0, out1);
        if !go { break; }
      }
      ip := ip - 1;
    }
    if d.Len() != 0 {
      op := Flush(mem, buf, op, d, safe, limit, out);
    }
  }
}
