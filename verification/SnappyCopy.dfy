/**
 Overlapping copies done in blocks (deps/snappy/snappy.cc, portable branches), proved against the
 byte-at-a-time `Overlap`.
 */
module SnappyCopy {
  import opened Bytes
  import opened SnappyFormat

  /** Each byte of s[lo..hi] equals the one `p` places back. */
  ghost predicate Periodic(s: seq<byte>, lo: nat, hi: nat, p: nat) {
    p <= lo && hi <= |s| && forall i :: lo <= i < hi ==> s[i] == s[i - p]
  }

  /** `after` is `before` with s[lo..hi] filled by a copy of period `p`; only bytes below `limit` may differ. */
  ghost predicate Filled(before: seq<byte>, after: seq<byte>, lo: nat, hi: nat, p: nat, limit: nat) {
    && |before| == |after| && lo <= limit <= |before|
    && (forall i :: 0 <= i < lo ==> after[i] == before[i])
    && (forall i :: limit <= i < |before| ==> after[i] == before[i])
    && Periodic(after, lo, hi, p)
  }

  /** A filled region is what the byte-at-a-time copy produces. */
  lemma FilledIsOverlap(before: seq<byte>, after: seq<byte>, lo: nat, hi: nat, p: nat, limit: nat)
    requires lo <= hi && 0 < p
    requires Filled(before, after, lo, hi, p, limit)
    ensures after[..hi] == Overlap(before[..lo], p, hi - lo)
  {
    assert before[..lo] == after[..hi][..lo];
    OverlapIsPeriodic(before[..lo], p, hi - lo, after[..hi]);
  }

  lemma {:induction false} PeriodicMultiple(s: seq<byte>, lo: nat, hi: nat, p: nat, m: nat, q: nat, i: nat)
    requires Periodic(s, lo, hi, p) && 0 < p
    requires q == m * p && lo - p + q <= i < hi
    ensures s[i] == s[i - q]
    decreases m
  {
    if m > 0 {
      assert (m - 1) * p == q - p;
      PeriodicMultiple(s, lo, hi, p, m - 1, q - p, i - p);
    }
  }

  /** Copying `n` bytes from a whole number of periods back keeps the period. */
  lemma ExtendFilled(before: seq<byte>, s: seq<byte>, s': seq<byte>, lo: nat, x: nat, n: nat, p: nat, m: nat, q: nat, limit: nat)
    requires 0 < p && 0 < m && q == m * p && n <= q
    requires lo <= x && x + n <= |s| && lo - p <= x - q
    requires Filled(before, s, lo, x, p, limit)
    requires |s'| == |s|
    requires forall i :: 0 <= i < x ==> s'[i] == s[i]
    requires forall i :: limit <= i < |s| ==> s'[i] == s[i]
    requires forall i :: x <= i < x + n ==> s'[i] == s[i - q]
    ensures Filled(before, s', lo, x + n, p, limit)
  {
    assert (m - 1) * p == q - p;
    forall i | x <= i < x + n
      ensures s'[i] == s'[i - p]
    {
      assert s'[i] == s[i - q];
      if i - p < x {
        PeriodicMultiple(s, lo, x, p, m - 1, q - p, i - p);
      }
    }
  }

  /** memmove, and UnalignedCopy64/128, which load the whole block before storing it. */
  method Move(buf: array<byte>, dst: nat, src: nat, n: nat)
    requires src + n <= buf.Length && dst + n <= buf.Length
    modifies buf
    ensures forall i :: 0 <= i < buf.Length ==>
              buf[i] == old(if dst <= i < dst + n then buf[src + (i - dst)] else buf[i])
  {
    forall i | 0 <= i < n {
      buf[dst + i] := buf[src + i];
    }
  }

  /** A block move from `q` back, as a step of a copy of period `p`. */
  method MoveBlock(buf: array<byte>, op: nat, src: nat, n: nat, ghost valid: nat,
                   ghost before: seq<byte>, ghost lo: nat, ghost p: nat, ghost m: nat, ghost limit: nat)
    requires 0 < p && 0 < m && src + m * p == op && valid <= n && valid <= m * p
    requires op + n <= limit && lo <= op && lo - p <= src
    requires Filled(before, buf[..], lo, op, p, limit)
    modifies buf
    ensures Filled(before, buf[..], lo, op + valid, p, limit)
  {
    ghost var s := buf[..];
    Move(buf, op, src, n);
    ExtendFilled(before, s, buf[..], lo, op, valid, p, m, m * p, limit);
  }

  /** IncrementalCopySlow. */
  method IncrementalCopySlow(buf: array<byte>, src0: nat, op0: nat, opLimit: nat,
                             ghost before: seq<byte>, ghost lo: nat, ghost p: nat, ghost m: nat, ghost limit: nat)
    requires 0 < p && 0 < m && src0 + m * p == op0 <= opLimit <= limit
    requires lo <= op0 && lo - p <= src0
    requires Filled(before, buf[..], lo, op0, p, limit)
    modifies buf
    ensures Filled(before, buf[..], lo, opLimit, p, limit)
  {
    var src, op := src0, op0;
    while op < opLimit
      invariant op0 <= op <= opLimit && src + m * p == op && lo - p <= src
      invariant Filled(before, buf[..], lo, op, p, limit)
    {
      assert m * p >= 1;
      MoveBlock(buf, op, src, 1, 1, before, lo, p, m, limit);
      op, src := op + 1, src + 1;
    }
  }

  /** Copy64BytesWithPatternExtension, portable branch: 64 bytes from `offset` back. */
  method Copy64BytesWithPatternExtension(buf: array<byte>, dst: nat, offset: nat) returns (ok: bool)
    requires offset <= dst && dst + 64 <= buf.Length
    modifies buf
    ensures ok <==> offset != 0
    ensures ok ==> Filled(old(buf[..]), buf[..], dst, dst + 64, offset, dst + 64)
    ensures !ok ==> buf[..] == old(buf[..])
  {
    ghost var before := buf[..];
    var n, q, m := 0, offset, 1;
    if offset < 16 {
      if offset == 0 { return false; }
      IncrementalCopySlow(buf, dst - offset, dst, dst + 16, before, dst, offset, 1, dst + 64);
      n, m := 1, 16 / offset + 1;
      q := m * offset;
      PatternSize(offset);
    }
    for i := n to 4
      invariant Filled(before, buf[..], dst, dst + 16 * i, offset, dst + 64)
    {
      MoveBlock(buf, dst + i * 16, dst + i * 16 - q, 16, 16, before, dst, offset, m, dst + 64);
    }
    ok := true;
  }

  /** The table of pattern multiples: the least multiple of the offset above 16 bytes. */
  lemma PatternSize(offset: nat)
    requires 0 < offset < 16
    ensures 16 <= (16 / offset + 1) * offset <= 16 + offset
  {
  }

  /** The pattern-doubling loop of IncrementalCopy: afterwards `src` lies q >= 8 bytes, a whole number of
      periods, behind the new cursor.  Eleven bytes of room are enough. */
  method ExpandPattern(buf: array<byte>, src: nat, op0: nat, limit: nat, ghost before: seq<byte>)
    returns (op: nat, ghost m: nat)
    requires src < op0 < src + 8 && op0 + 11 <= limit
    requires Filled(before, buf[..], op0, op0, op0 - src, limit)
    modifies buf
    ensures 0 < m && op == src + m * (op0 - src) && op >= op0 && op - src >= 8
    ensures Filled(before, buf[..], op0, op, op0 - src, limit)
  {
    var size, pattern := op0 - src, op0 - src;
    op, m := op0, 1;
    while size < 8
      invariant 0 < m && size == m * pattern && op == src + size && op >= op0
      invariant m == 1 || m == 2 || m == 4 || m == 8
      invariant Filled(before, buf[..], op0, op, pattern, limit)
      decreases 8 - size
    {
      MoveBlock(buf, op, src, 8, size, before, op0, pattern, m, limit);
      op, size, m := op + size, size * 2, 2 * m;
    }
  }

  /** ConditionalUnalignedCopy128 without 16-byte chunks: two eight-byte moves. */
  method CopyTwice8(buf: array<byte>, src: nat, op: nat,
                    ghost before: seq<byte>, ghost lo: nat, ghost p: nat, ghost m: nat, ghost limit: nat)
    requires 0 < p && 0 < m && src + m * p == op && m * p >= 8
    requires op + 16 <= limit && lo <= op && lo - p <= src
    requires Filled(before, buf[..], lo, op, p, limit)
    modifies buf
    ensures Filled(before, buf[..], lo, op + 16, p, limit)
  {
    MoveBlock(buf, op, src, 8, 8, before, lo, p, m, limit);
    MoveBlock(buf, op + 8, src + 8, 8, 8, before, lo, p, m, limit);
  }

  lemma FilledShorter(before: seq<byte>, after: seq<byte>, lo: nat, hi: nat, hi': nat, p: nat, limit: nat)
    requires Filled(before, after, lo, hi, p, limit) && hi' <= hi
    ensures Filled(before, after, lo, hi', p, limit)
  {
  }

  /** The one to four 16-byte blocks copied when there is slop for them. */
  method CopyBlocks(buf: array<byte>, src: nat, op: nat, opLimit: nat, limit: nat,
                    ghost before: seq<byte>, ghost lo: nat, ghost p: nat, ghost m: nat)
    requires 0 < p && 0 < m && src + m * p == op && m * p >= 8
    requires lo <= op < opLimit <= op + 64 && opLimit + 15 <= limit && lo - p <= src
    requires Filled(before, buf[..], lo, op, p, limit)
    modifies buf
    ensures Filled(before, buf[..], lo, opLimit, p, limit)
  {
    CopyTwice8(buf, src, op, before, lo, p, m, limit);
    ghost var done := op + 16;
    if op + 16 < opLimit {
      CopyTwice8(buf, src + 16, op + 16, before, lo, p, m, limit);
      done := op + 32;
    }
    if op + 32 < opLimit {
      CopyTwice8(buf, src + 32, op + 32, before, lo, p, m, limit);
      done := op + 48;
    }
    if op + 48 < opLimit {
      CopyTwice8(buf, src + 48, op + 48, before, lo, p, m, limit);
      done := op + 64;
    }
    FilledShorter(before, buf[..], lo, done, opLimit, p, limit);
  }

  /** The cold tail of IncrementalCopy: as many blocks as the slop allows, then bytes. */
  method CopyTail(buf: array<byte>, src0: nat, op0: nat, opLimit: nat, limit: nat,
                  ghost before: seq<byte>, ghost lo: nat, ghost p: nat, ghost m: nat)
    requires 0 < p && 0 < m && src0 + m * p == op0 && m * p >= 8
    requires lo <= op0 < opLimit <= limit && lo - p <= src0
    requires Filled(before, buf[..], lo, op0, p, limit)
    modifies buf
    ensures Filled(before, buf[..], lo, opLimit, p, limit)
  {
    var src, op := src0, op0;
    while op < limit - 16
      invariant op0 <= op && src + m * p == op && src0 <= src && (op == op0 || op < limit)
      invariant Filled(before, buf[..], lo, op, p, limit)
      decreases limit - op
    {
      CopyTwice8(buf, src, op, before, lo, p, m, limit);
      op, src := op + 16, src + 16;
    }
    if op >= opLimit {
      FilledShorter(before, buf[..], lo, op, opLimit, p, limit);
      return;
    }
    if op + 8 <= limit {
      MoveBlock(buf, op, src, 8, 8, before, lo, p, m, limit);
      src, op := src + 8, op + 8;
    }
    if op < opLimit {
      IncrementalCopySlow(buf, src, op, opLimit, before, lo, p, m, limit);
    } else {
      FilledShorter(before, buf[..], lo, op, opLimit, p, limit);
    }
  }

  /** IncrementalCopy: the bytes of the overlapping copy, and no store at or past `limit`. */
  method IncrementalCopy(buf: array<byte>, src: nat, op0: nat, opLimit: nat, limit: nat)
    requires src < op0 < opLimit <= limit <= buf.Length && opLimit - op0 <= 64
    modifies buf
    ensures buf[..opLimit] == Overlap(old(buf[..op0]), op0 - src, opLimit - op0)
    ensures buf[limit..] == old(buf[limit..])
  {
    ghost var before, p := buf[..], op0 - src;
    assert before[..op0] == buf[..op0];
    var op, size := op0, op0 - src;
    ghost var m := 1;
    if size < 8 {
      if op + 11 <= limit {
        op, m := ExpandPattern(buf, src, op0, limit, before);
        if op >= opLimit {
          FilledShorter(before, buf[..], op0, op, opLimit, p, limit);
          FilledResult(before, buf[..], op0, opLimit, p, limit);
          return;
        }
      } else {
        IncrementalCopySlow(buf, src, op0, opLimit, before, op0, p, 1, limit);
        FilledResult(before, buf[..], op0, opLimit, p, limit);
        return;
      }
    }
    if opLimit + 15 <= limit {
      CopyBlocks(buf, src, op, opLimit, limit, before, op0, p, m);
    } else {
      CopyTail(buf, src, op, opLimit, limit, before, op0, p, m);
    }
    FilledResult(before, buf[..], op0, opLimit, p, limit);
  }

  lemma FilledResult(before: seq<byte>, after: seq<byte>, lo: nat, hi: nat, p: nat, limit: nat)
    requires lo <= hi && 0 < p
    requires Filled(before, after, lo, hi, p, limit)
    ensures after[..hi] == Overlap(before[..lo], p, hi - lo)
    ensures after[limit..] == before[limit..]
  {
    FilledIsOverlap(before, after, lo, hi, p, limit);
  }
}
