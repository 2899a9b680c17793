/**
 The three output sinks of the decompressor (deps/snappy/snappy.cc): flat array, scattered blocks and the
 validator.  All meet one contract: an append succeeds exactly when the output stays within the announced
 length (and, for copies, when the offset is legal), and then extends the output by the bytes the format means.
 */
module SnappyWriters {
  import opened Bytes
  import opened SnappyFormat
  import opened SnappyCopy
  import opened SnappyBranchless

  function Min(a: nat, b: nat): nat {
    if a < b then a else b
  }

  /** Position up to which 64 bytes can be stored unconditionally. */
  function MinSlop(limit: nat): nat {
    limit - Min(SLOP_BYTES - 1, limit)
  }

  /** Stores `n` bytes at the cursor, of which the first `len` matter. */
  method StoreBytes(buf: array<byte>, op: nat, mem: seq<byte>, ip: nat, n: nat, ghost len: nat, ghost limit: nat)
    requires len <= n && op + n <= limit <= buf.Length && ip + n <= |mem|
    modifies buf
    ensures buf[..op + len] == old(buf[..op]) + mem[ip..ip + len]
    ensures buf[limit..] == old(buf[limit..])
  {
    forall i | 0 <= i < n {
      buf[op + i] := mem[ip + i];
    }
  }

  /** memmove of 64 bytes: a copy whose offset is at least its length. */
  method MoveSlop(buf: array<byte>, op: nat, offset: nat, ghost len: nat)
    requires len <= offset <= op && len <= SLOP_BYTES && op + SLOP_BYTES <= buf.Length && 0 < offset
    modifies buf
    ensures buf[..op + len] == Overlap(old(buf[..op]), offset, len)
    ensures buf[op + SLOP_BYTES..] == old(buf[op + SLOP_BYTES..])
  {
    hide Overlap;
    ghost var was := buf[..];
    Move(buf, op, op - offset, SLOP_BYTES);
    OverlapDisjoint(was[..op], offset, len);
    assert was[..op] == old(buf[..op]);
    assert buf[..op + len] == was[..op] + was[op - offset..op - offset + len];
    assert was[op - offset..op - offset + len] == was[..op][op - offset..op - offset + len];
  }

  class ArrayWriter {
    const buf: array<byte>
    var op: nat
    var opLimit: nat
    var opLimitMinSlop: nat

    ghost predicate Valid()
      reads this
    {
      op <= opLimit <= buf.Length && opLimitMinSlop == MinSlop(opLimit)
    }

    ghost function Out(): seq<byte>
      requires Valid()
      reads this, buf
    {
      buf[..op]
    }

    constructor (dst: array<byte>)
      ensures Valid() && buf == dst && op == 0
    {
      buf, op, opLimit, opLimitMinSlop := dst, 0, 0, 0;
    }

    method SetExpectedLength(len: nat)
      requires Valid() && op == 0 && len <= buf.Length
      modifies this
      ensures Valid() && Out() == [] && opLimit == len
    {
      opLimit := op + len;
      opLimitMinSlop := opLimit - Min(SLOP_BYTES - 1, len);
    }

    method Append(bytes: seq<byte>) returns (ok: bool)
      requires Valid()
      modifies this`op, buf
      ensures Valid()
      ensures ok <==> |old(Out())| + |bytes| <= opLimit
      ensures ok ==> Out() == old(Out()) + bytes
      ensures buf[opLimit..] == old(buf[opLimit..])
    {
      if opLimit - op < |bytes| { return false; }
      assert bytes[0..|bytes|] == bytes;
      StoreBytes(buf, op, bytes, 0, |bytes|, |bytes|, opLimit);
      op := op + |bytes|;
      ok := true;
    }

    /** Sixteen bytes stored for a literal of at most sixteen; declines otherwise. */
    method TryFastAppend(mem: seq<byte>, ip: nat, ipLimit: nat, len: nat) returns (ok: bool)
      requires Valid() && ip <= ipLimit <= |mem|
      modifies this`op, buf
      ensures Valid()
      ensures ok <==> len <= 16 && ip + 21 <= ipLimit && old(op) + 16 <= opLimit
      ensures ok ==> len <= 16 && ip + len + 5 <= ipLimit && |old(Out())| + len <= opLimit
      ensures ok ==> Out() == old(Out()) + mem[ip..ip + len]
      ensures !ok ==> Out() == old(Out())
      ensures buf[opLimit..] == old(buf[opLimit..])
    {
      if len <= 16 && ipLimit - ip >= 21 && opLimit - op >= 16 {
        StoreBytes(buf, op, mem, ip, 16, len, opLimit);
        op := op + len;
        return true;
      }
      ok := false;
    }

    method AppendFromSelf(offset: nat, len: nat) returns (ok: bool)
      requires Valid() && 0 < len <= SLOP_BYTES
      modifies this`op, buf
      ensures Valid()
      ensures ok <==> 0 < offset <= |old(Out())| && |old(Out())| + len <= opLimit
      ensures ok ==> Out() == Overlap(old(Out()), offset, len)
      ensures buf[opLimit..] == old(buf[opLimit..])
    {
      hide Overlap;
      if op < offset { return false; }
      if op >= opLimitMinSlop || offset < len {
        if op + len > opLimit || offset == 0 { return false; }
        IncrementalCopy(buf, op - offset, op, op + len, opLimit);
        op := op + len;
        return true;
      }
      ghost var was := buf[..];
      MoveSlop(buf, op, offset, len);
      TailKept(was, buf[..], op + SLOP_BYTES, opLimit);
      op := op + len;
      ok := true;
    }

    /** The fast loop over the whole buffer. */
    method RunBranchless(mem: seq<byte>, ip: nat, ipLimit: nat, safe: seq<byte>) returns (ip': nat)
      requires Valid() && ip <= ipLimit <= |mem| && |safe| == SLOP_BYTES
      modifies this`op, buf
      ensures Valid() && ip <= ip' <= ipLimit
      ensures Decode(mem[ip..ip'], old(Out())) == Some(Out())
      ensures buf[opLimit..] == old(buf[opLimit..])
    {
      hide Decode;
      ghost var out := Out();
      assert out == buf[..op][..op];
      var op';
      ip', op', out := DecompressBranchless(mem, ip, ipLimit, buf, op, opLimitMinSlop, safe, opLimit, Out());
      op := op';
      assert out[..op] == out;
    }
  }

  class Validator {
    var expected: nat
    var produced: nat
    ghost var out: seq<byte>

    ghost predicate Valid()
      reads this
    {
      produced == |out|
    }

    constructor ()
      ensures Valid() && out == []
    {
      expected, produced, out := 0, 0, [];
    }

    method SetExpectedLength(len: nat)
      requires Valid()
      modifies this`expected
      ensures Valid() && expected == len
    {
      expected := len;
    }

    method Append(ghost bytes: seq<byte>, len: nat) returns (ok: bool)
      requires Valid() && len == |bytes|
      modifies this`produced, this`out
      ensures Valid()
      ensures ok <==> |old(out)| + |bytes| <= expected
      ensures out == old(out) + bytes
    {
      produced, out := produced + len, out + bytes;
      ok := produced <= expected;
    }

    method AppendFromSelf(offset: nat, len: nat) returns (ok: bool)
      requires Valid() && 0 < len
      modifies this`produced, this`out
      ensures Valid()
      ensures ok <==> 0 < offset <= |old(out)| && |old(out)| + len <= expected
      ensures ok ==> out == Overlap(old(out), offset, len)
    {
      hide Overlap;
      // offset - 1 in unsigned arithmetic: a zero offset is larger than any size
      if offset == 0 || produced <= offset - 1 { return false; }
      produced, out := produced + len, Overlap(out, offset, len);
      ok := produced <= expected;
    }

    /** The fast loop over a bare size, with the cursor shifted by one and no length limit. */
    method RunBranchless(mem: seq<byte>, ip: nat, ipLimit: nat, safe: seq<byte>) returns (ip': nat)
      requires Valid() && ip <= ipLimit <= |mem| && |safe| == SLOP_BYTES
      modifies this`produced, this`out
      ensures Valid() && ip <= ip' <= ipLimit
      ensures Decode(mem[ip..ip'], old(out)) == Some(out)
    {
      hide Decode;
      var op;
      ip', op, out := DecompressBranchless(mem, ip, ipLimit, null, produced - 1, 0x7FFF_FFFF_FFFF_FFFF - SLOP_BYTES + 1, safe, 0, out);
      produced := op + 1;
    }
  }
}
