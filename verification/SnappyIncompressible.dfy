/** An input without repetitions, long enough for its compressed form to reach 2^32 bytes. */
module SnappyIncompressible {
  import opened Bytes
  import opened SnappyEmit
  import opened SnappyTable
  import opened SnappyBranchless
  import opened SnappyStream
  import opened SnappyFlat
  import opened SnappyCodec

  /** Groups of four bytes: a marked high part and a low part of the number of the group, and two zeros. */
  function Part(g: nat, x: nat): byte
    requires g < 16384
  {
    if x == 0 then 128 + g / 128 else if x == 1 then g % 128 else 0
  }

  function PatternByte(i: nat): byte {
    Part(i / 4 % 16384, i % 4)
  }

  function Pattern(n: nat): (s: seq<byte>)
    ensures |s| == n
  {
    seq(n, i requires 0 <= i < n => PatternByte(i))
  }

  lemma SameRemainder(q: nat, b: nat)
    ensures (16384 * q + b) % 16384 == b % 16384
  {
  }

  /** The pattern starts again with each block. */
  lemma PatternRepeats(from: nat, i: nat)
    requires from % BLOCK_SIZE == 0
    ensures PatternByte(from + i) == PatternByte(i)
  {
    var q := from / BLOCK_SIZE;
    var a := 16384 * q;
    assert from == 4 * a;
    assert (4 * a + i) / 4 == a + i / 4 && (4 * a + i) % 4 == i % 4;
    SameRemainder(q, i / 4);
  }

  function From(i: nat, k: nat): byte {
    PatternByte(i + k)
  }

  predicate SameQuad(i: nat, j: nat) {
    forall k: nat :: k < 4 ==> From(i, k) == From(j, k)
  }

  lemma Place(i: nat, k: nat)
    requires i + 4 <= BLOCK_SIZE && k < 4
    ensures From(i, k) == if i % 4 + k < 4 then Part(i / 4, i % 4 + k) else Part(i / 4 + 1, i % 4 + k - 4)
  {
  }

  lemma SameNumber(a: nat, b: nat)
    requires a / 128 == b / 128 && a % 128 == b % 128
    ensures a == b
  {
  }

  lemma SameNext(a: nat, b: nat)
    requires (a + 1) / 128 == (b + 1) / 128 && a % 128 == b % 128
    ensures a == b
  {
  }

  /** The marked bytes are at the same place. */
  lemma SameAlignment(i: nat, j: nat)
    requires i + 4 <= BLOCK_SIZE && j + 4 <= BLOCK_SIZE && SameQuad(i, j)
    ensures i % 4 == j % 4
  {
    hide From;
    var k := (4 - i % 4) % 4;
    Place(i, k);
    Place(j, k);
    assert From(i, k) == From(j, k);
  }

  /** Four bytes determine their position in the block. */
  lemma QuadsDiffer(i: nat, j: nat)
    requires i + 4 <= BLOCK_SIZE && j + 4 <= BLOCK_SIZE && SameQuad(i, j)
    ensures i == j
  {
    hide From;
    SameAlignment(i, j);
    var x, a, b := i % 4, i / 4, j / 4;
    var k := (4 - x) % 4;
    assert From(i, k) == From(j, k);
    Place(i, k);
    Place(j, k);
    if x == 1 {
      assert From(i, 0) == From(j, 0);
      Place(i, 0);
      Place(j, 0);
      SameNext(a, b);
    } else {
      assert From(i, k + 1) == From(j, k + 1);
      Place(i, k + 1);
      Place(j, k + 1);
      if x == 0 { SameNumber(a, b); } else { SameNumber(a + 1, b + 1); }
    }
  }

  lemma PatternIncompressible(n: nat)
    ensures Incompressible(Pattern(n))
  {
    hide NoRepeats;
    var input := Pattern(n);
    forall from: nat, m: nat | from % BLOCK_SIZE == 0 && m <= BLOCK_SIZE && from + m <= |input|
      ensures NoRepeats(Piece(input, from, m))
    {
      PieceNoRepeats(input, from, m);
    }
  }

  lemma PieceNoRepeats(input: seq<byte>, from: nat, m: nat)
    requires from % BLOCK_SIZE == 0 && m <= BLOCK_SIZE && from + m <= |input| && input == Pattern(|input|)
    ensures NoRepeats(Piece(input, from, m))
  {
    var s := Piece(input, from, m);
    forall i | 0 <= i < m
      ensures s[i] == PatternByte(i)
    {
      PatternRepeats(from, i);
    }
    forall i: nat, j: nat | i < j && j + 4 <= |s|
      ensures Quad(s, i) != Quad(s, j)
    {
      if Quad(s, i) == Quad(s, j) {
        QuadsEqual(s, i, j);
        QuadsDiffer(i, j);
      }
    }
  }

  lemma QuadsEqual(s: seq<byte>, i: nat, j: nat)
    requires i < j && j + 4 <= |s| && Quad(s, i) == Quad(s, j)
    requires forall k :: 0 <= k < |s| ==> s[k] == PatternByte(k)
    ensures SameQuad(i, j)
  {
    hide PatternByte;
    forall k: nat | k < 4
      ensures From(i, k) == From(j, k)
    {
      assert Quad(s, i)[k] == Quad(s, j)[k];
    }
  }

  /** The round trip of an incompressible input is decided by its size alone. */
  method IncompressibleRoundTrip(n: nat, level: nat, hash: nat -> nat, hash8: nat -> nat, safe: seq<byte>) returns (flat: Verdict)
    requires n < TWO32 && (level == 1 || level == 2) && |safe| == SLOP_BYTES
    ensures flat == if LiteralsSize(n) < TWO32 then Yes else Never
  {
    hide Incompressible, LiteralsSize, Body;
    PatternIncompressible(n);
    var compressed, f, output, sink, sinkOutput, valid := RoundTrip(Pattern(n), level, hash, hash8, true, 0, safe);
    flat := f;
  }

  /** 2^32 - 1 bytes that compress, at either level and with any hash functions, to a string that is longer than its
      input and on which the flat decoder never returns, with any writer. */
  method LongestRoundTripHangs(level: nat, hash: nat -> nat, hash8: nat -> nat, lent: nat, safe: seq<byte>)
    returns (input: seq<byte>, compressed: seq<byte>, flat: Verdict, sink: Verdict, valid: Verdict)
    requires (level == 1 || level == 2) && |safe| == SLOP_BYTES
    ensures |input| == TWO32 - 1 && |Body(compressed)| == TWO32 + 196607
    ensures flat == sink == valid == Never
  {
    hide Incompressible, LiteralsSize, Body;
    input := Pattern(TWO32 - 1);
    PatternIncompressible(TWO32 - 1);
    LongestSize();
    var output, sinkOutput;
    compressed, flat, output, sink, sinkOutput, valid := RoundTrip(input, level, hash, hash8, true, lent, safe);
  }

  /** The size of the longest such body, and the first input size at which it reaches 2^32 bytes. */
  lemma LongestSize()
    ensures LiteralsSize(TWO32 - 1) == TWO32 + 196607
    ensures LiteralsSize(TWO32 - 196600) == TWO32 && LiteralsSize(TWO32 - 196601) == TWO32 - 1
  {
    hide LiteralHeader;
    LiteralsOf(65535, 65535);
    LiteralsOf(65533, 8);
    LiteralsOf(65533, 7);
  }

  lemma LiteralsOf(q: nat, r: nat)
    requires 0 < r < BLOCK_SIZE
    ensures LiteralsSize(q * BLOCK_SIZE + r) == q * (BLOCK_SIZE + 3) + r + if r <= 60 then 1 else if r <= 256 then 2 else 3
  {
    hide LiteralHeader;
    LiteralHeaderSize(r);
    var n := q * BLOCK_SIZE + r;
    assert n / BLOCK_SIZE == q && n % BLOCK_SIZE == r;
  }
}
