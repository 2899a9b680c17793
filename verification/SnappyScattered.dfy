/**
 SnappyScatteredWriter (deps/snappy/snappy.cc): output in blocks of 65536 bytes.  A filled block is never
 written again, so `full` holds the filled blocks by value and `block` is the one being written.
 */
module SnappyScattered {
  import opened Bytes
  import opened SnappyFormat
  import opened SnappyCopy
  import opened SnappyTable
  import opened SnappyBranchless
  import opened SnappyWriters

  /** The filled blocks, each of 65536 bytes, are the front of the output. */
  ghost predicate Blocks(full: seq<seq<byte>>, out: seq<byte>) {
    BLOCK_SIZE * |full| <= |out| &&
    forall i :: 0 <= i < |full| ==> full[i] == out[BLOCK_SIZE * i..BLOCK_SIZE * i + BLOCK_SIZE]
  }

  lemma BlocksExtend(full: seq<seq<byte>>, out: seq<byte>, out': seq<byte>)
    requires Blocks(full, out) && out <= out'
    ensures Blocks(full, out')
  {
    forall i | 0 <= i < |full|
      ensures full[i] == out'[BLOCK_SIZE * i..BLOCK_SIZE * i + BLOCK_SIZE]
    {
      assert out'[BLOCK_SIZE * i..BLOCK_SIZE * i + BLOCK_SIZE] == out[BLOCK_SIZE * i..BLOCK_SIZE * i + BLOCK_SIZE];
    }
  }

  class ScatteredWriter {
    var full: seq<seq<byte>>
    var block: array?<byte>
    var expected: nat
    var fullSize: nat
    var op: nat
    var opLimit: nat
    var opLimitMinSlop: nat
    ghost var out: seq<byte>

    ghost predicate Valid()
      reads this, block
    {
      && Blocks(full, out) && op <= opLimit && |out| == fullSize + op && |out| <= expected
      && fullSize == BLOCK_SIZE * |full|
      && (block == null ==> full == [] && opLimit == 0 && opLimitMinSlop == 0)
      && (block != null ==>
            && block.Length == opLimit == Min(BLOCK_SIZE, expected - fullSize)
            && opLimitMinSlop == MinSlop(opLimit) && block[..op] == out[fullSize..])
    }

    constructor ()
      ensures Valid() && out == [] && block == null && expected == 0
    {
      full, block, expected, fullSize, op, opLimit, opLimitMinSlop, out := [], null, 0, 0, 0, 0, 0, [];
    }

    method SetExpectedLength(len: nat)
      requires Valid() && block == null
      modifies this`expected
      ensures Valid() && expected == len
    {
      expected := len;
    }

    /** Write `bytes` at the cursor of the current block, which has room for them. */
    method Fill(bytes: seq<byte>)
      requires Valid() && |bytes| <= opLimit - op
      modifies this`op, this`out, block
      ensures Valid() && out == old(out) + bytes && op == old(op) + |bytes|
    {
      if block != null {
        assert bytes[0..|bytes|] == bytes;
        StoreBytes(block, op, bytes, 0, |bytes|, |bytes|, opLimit);
        Grow(out + bytes, block[..op + |bytes|]);
      }
      BlocksExtend(full, out, out + bytes);
      op, out := op + |bytes|, out + bytes;
    }

    lemma Grow(out': seq<byte>, now: seq<byte>)
      requires Valid() && out <= out' && block != null && now == out[fullSize..] + out'[|out|..]
      ensures now == out'[fullSize..]
    {
    }

    /** A full block is retired and the next one allocated. */
    method NewBlock(len: nat)
      requires Valid() && op == opLimit && 0 < len && |out| + len <= expected
      modifies this`full, this`block, this`fullSize, this`op, this`opLimit, this`opLimitMinSlop
      ensures Valid() && fresh(block) && block != null && op == 0 && opLimit > 0 && fullSize == |out|
    {
      if block != null {
        assert opLimit == BLOCK_SIZE;
        full := full + [block[..]];
        assert block[..] == out[fullSize..fullSize + BLOCK_SIZE];
      }
      fullSize := fullSize + op;
      var size := Min(BLOCK_SIZE, expected - fullSize);
      block := new byte[size];
      op, opLimit, opLimitMinSlop := 0, size, size - Min(SLOP_BYTES - 1, size);
    }

    function Size(): nat
      reads this
    {
      fullSize + op
    }

    /** SlowAppend: fills block after block.  When it fails it has already added the current block to the full
        size without leaving that block, so the size it reports counts the block twice: it is right exactly if the
        bytes fit or there was no block yet. */
    method SlowAppend(bytes: seq<byte>) returns (ok: bool)
      requires Valid() && |bytes| > opLimit - op
      modifies this, block
      ensures expected == old(expected) && (block == old(block) || fresh(block))
      ensures ok <==> |old(out)| + |bytes| <= expected
      ensures ok ==> Valid() && out == old(out) + bytes
      ensures !ok ==> Size() == |out| + old(opLimit) && out == (old(out) + bytes)[..|old(out)| + old(opLimit - op)]
      ensures Size() == |out| <==> |old(out)| + |bytes| <= expected || old(opLimit) == 0
    {
      var rest := bytes;
      while |rest| > opLimit - op
        invariant Valid() && expected == old(expected) && (block == old(block) || fresh(block))
        invariant old(out) + bytes == out + rest
        invariant (opLimit == old(opLimit) && op == old(op) && rest == bytes) || |old(out)| + |bytes| <= expected
        decreases |rest|, opLimit == op
      {
        var avail := opLimit - op;
        assert out + rest == out + rest[..avail] + rest[avail..];
        Fill(rest[..avail]);
        rest := rest[avail..];
        if fullSize + op + |rest| > expected {
          fullSize := fullSize + op;
          return false;
        }
        NewBlock(|rest|);
      }
      assert out + rest == old(out) + bytes;
      Fill(rest);
      ok := true;
    }

    method Append(bytes: seq<byte>) returns (ok: bool)
      requires Valid()
      modifies this, block
      ensures expected == old(expected) && (block == old(block) || fresh(block))
      ensures ok <==> |old(out)| + |bytes| <= expected
      ensures ok ==> Valid() && out == old(out) + bytes
      ensures !ok ==> Size() == |out| + old(opLimit) && |out| == |old(out)| + old(opLimit - op)
      ensures Size() == |out| <==> |old(out)| + |bytes| <= expected || old(opLimit) == 0
    {
      if |bytes| <= opLimit - op {
        Fill(bytes);
        ok := true;
      } else {
        ok := SlowAppend(bytes);
      }
    }
  
    method TryFastAppend(mem: seq<byte>, ip: nat, ipLimit: nat, len: nat) returns (ok: bool)
      requires Valid() && ip <= ipLimit <= |mem|
      modifies this`op, this`out, block
      ensures Valid()
      ensures ok <==> len <= 16 && ip + 21 <= ipLimit && old(op) + 16 <= opLimit
      ensures ok ==> len <= 16 && ip + len + 5 <= ipLimit && |old(out)| + len <= expected
      ensures ok ==> out == old(out) + mem[ip..ip + len]
      ensures !ok ==> out == old(out)
    {
      if len <= 16 && ipLimit - ip >= 21 && opLimit - op >= 16 {
        ghost var bytes := mem[ip..ip + len];
        StoreBytes(block, op, mem, ip, 16, len, opLimit);
        Advanced(out + bytes, len);
        op, out := op + len, out + bytes;
        return true;
      }
      ok := false;
    }

    /** The invariant after the current block has been extended by `len` bytes of out'. */
    lemma Advanced(out': seq<byte>, len: nat)
      requires Blocks(full, out) && fullSize == BLOCK_SIZE * |full| && |out| == fullSize + op
      requires block != null && op + len <= opLimit == block.Length
      requires out <= out' && |out'| == |out| + len && block[..op + len] == out[fullSize..] + out'[|out|..]
      ensures Blocks(full, out') && block[..op + len] == out'[fullSize..]
    {
      BlocksExtend(full, out, out');
    }

    /** A copy made inside the block is the copy on the whole output. */
    lemma CopyInBlock(offset: nat, len: nat, now: seq<byte>)
      requires fullSize <= |out| && 0 < offset <= |out| - fullSize
      requires now == Overlap(out[fullSize..], offset, len)
      ensures now == out[fullSize..] + Overlap(out, offset, len)[|out|..]
      ensures out <= Overlap(out, offset, len)
    {
      hide Overlap;
      var p, q := out[..fullSize], out[fullSize..];
      assert p + q == out;
      OverlapPrefix(p, q, offset, len);
      OverlapExtends(q, offset, len);
      OverlapExtends(out, offset, len);
      assert now == (p + now)[fullSize..];
    }

    method AppendInBlock(offset: nat, len: nat)
      requires Valid() && block != null && 0 < len <= SLOP_BYTES && 0 < offset <= op && op + len <= opLimit
      modifies this`op, this`out, block
      ensures Valid() && out == Overlap(old(out), offset, len)
    {
      hide Overlap, Blocks;
      ghost var out' := Overlap(out, offset, len);
      if op >= opLimitMinSlop || offset < len {
        IncrementalCopy(block, op - offset, op, op + len, opLimit);
      } else {
        MoveSlop(block, op, offset, len);
      }
      CopyInBlock(offset, len, block[..op + len]);
      Advanced(out', len);
      op, out := op + len, out';
    }

    /** The shift and mask lookup of one earlier byte. */
    method At(src: nat) returns (c: byte)
      requires Valid() && src < |out|
      ensures c == out[src]
    {
      var i, j := src / BLOCK_SIZE, src % BLOCK_SIZE;
      if i < |full| {
        c := full[i][j];
      } else {
        assert i == |full| && out[fullSize..][j] == out[src] && block[..op][j] == block[j];
        c := block[j];
      }
    }

    /** SlowAppendFromSelf: copies that cross blocks, byte by byte. */
    method SlowAppendFromSelf(offset: nat, len: nat) returns (ok: bool)
      requires Valid()
      modifies this, block
      ensures expected == old(expected) && (block == old(block) || fresh(block))
      ensures ok <==> 0 < offset <= |old(out)| && |old(out)| + len <= expected
      ensures ok ==> Valid() && out == Overlap(old(out), offset, len)
    {
      hide Overlap, Blocks;
      var cur := Size();
      if offset == 0 || offset - 1 >= cur { return false; }
      if expected - cur < len { return false; }
      ghost var out0 := out;
      var src := cur - offset;
      OverlapZero(out0, offset);
      for k := 0 to len
        invariant Valid() && expected == old(expected) && (block == old(block) || fresh(block))
        invariant src == |out| - offset && |out| == cur + k && out == Overlap(out0, offset, k)
      {
        var c := At(src);
        ghost var before := out;
        ok := Append([c]);
        OverlapOne(out0, offset, k, before);
        src := src + 1;
      }
      ok := true;
    }

    method AppendFromSelf(offset: nat, len: nat) returns (ok: bool)
      requires Valid() && 0 < len <= SLOP_BYTES
      modifies this, block
      ensures expected == old(expected) && (block == old(block) || fresh(block))
      ensures ok <==> 0 < offset <= |old(out)| && |old(out)| + len <= expected
      ensures ok ==> Valid() && out == Overlap(old(out), offset, len)
    {
      hide Overlap, Blocks;
      if op < offset || op >= opLimitMinSlop || offset < len {
        if offset == 0 { return false; }
        if op < offset || op + len > opLimit {
          ok := SlowAppendFromSelf(offset, len);
          return;
        }
      }
      AppendInBlock(offset, len);
      ok := true;
    }

    /** The fast loop inside the current block. */
    method RunBranchless(mem: seq<byte>, ip: nat, ipLimit: nat, safe: seq<byte>) returns (ip': nat)
      requires Valid() && block != null && ip <= ipLimit <= |mem| && |safe| == SLOP_BYTES
      modifies this`op, this`out, block
      ensures Valid() && ip <= ip' <= ipLimit
      ensures Decode(mem[ip..ip'], old(out)) == Some(out)
    {
      hide Decode, Blocks;
      ghost var part, part0 := [], block[..op];
      assert part0[..op] == part0;
      var op';
      ip', op', part := DecompressBranchless(mem, ip, ipLimit, block, op, opLimitMinSlop, safe, opLimit, part0);
      assert part[..op'] == part == block[..op'];
      ghost var p := out[..fullSize];
      assert p + part0 == out;
      DecodePrefix(mem[ip..ip'], p, part0);
      DecodeExtends(mem[ip..ip'], part0);
      ghost var out' := p + part;
      assert part == out[fullSize..] + out'[|out|..];
      Advanced(out', op' - op);
      op, out := op', out';
    }

    /** Flush: the blocks handed to the sink, in order, cut at the produced size. */
    method Flush() returns (sink: seq<byte>)
      requires Valid()
      ensures sink == out
    {
      sink := [];
      var size := Size();
      for i := 0 to |full|
        invariant sink == out[..BLOCK_SIZE * i]
      {
        var n := Min(|full[i]|, size - |sink|);
        assert full[i][..n] == full[i];
        assert out[..BLOCK_SIZE * (i + 1)] == out[..BLOCK_SIZE * i] + full[i];
        sink := sink + full[i][..n];
      }
      if block != null {
        sink := sink + block[..Min(opLimit, size - |sink|)];
      }
      assert out == out[..fullSize] + out[fullSize..];
    }
  }

  /** An announcement of two bytes, of which one is there, and two more to append: the size reported is four. */
  method OvercountAfterFailure() returns (size: nat)
    ensures size == 4
  {
    var w := new ScatteredWriter();
    w.SetExpectedLength(2);
    var ok := w.Append([1]);
    ok := w.Append([2, 3]);
    size := w.Size();
  }

  lemma OverlapZero(out: seq<byte>, offset: nat)
    requires 0 < offset <= |out|
    ensures Overlap(out, offset, 0) == out
  {
  }

  lemma OverlapOne(out0: seq<byte>, offset: nat, k: nat, out: seq<byte>)
    requires 0 < offset <= |out0| && out == Overlap(out0, offset, k)
    ensures Overlap(out0, offset, k + 1) == out + [out[|out| - offset]]
  {
    OverlapSplit(out0, offset, k, 1);
    assert Overlap(out, offset, 1) == Overlap(out + [out[|out| - offset]], offset, 0);
  }
}
