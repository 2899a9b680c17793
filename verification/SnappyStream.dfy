/** The whole stream: what a decoder must make of it, and Compress (deps/snappy/snappy.cc). */
module SnappyStream {
  import opened Bytes
  import opened SnappyFormat
  import opened SnappyVarint
  import opened SnappyEmit
  import opened SnappyTable
  import opened SnappyCompress1
  import opened SnappyCompress2

  /** The meaning of a compressed stream: a preamble, then elements that yield exactly the announced length. */
  function Uncompressed(stream: seq<byte>): Option<seq<byte>> {
    match Parse(stream, 0)
    case Bad => None
    case Good(n, used) => Outcome(stream[used..], [], n)
  }

  /** The body of a stream: all of it behind the preamble. */
  function Body(stream: seq<byte>): seq<byte> {
    match Parse(stream, 0)
    case Bad => []
    case Good(_, used) => stream[used..]
  }

  lemma BodySize(stream: seq<byte>, n: nat)
    requires n < TWO32 && Varint(n) <= stream
    ensures |Body(stream)| == |stream| - |Varint(n)|
  {
    hide Varint, Parse;
    var rest := stream[|Varint(n)|..];
    ParseVarint(n, rest, 0);
    assert stream == Varint(n) + rest;
  }

  lemma StreamOf(data: seq<byte>, body: seq<byte>)
    requires |data| < TWO32 && Decode(body, []) == Some(data)
    ensures Uncompressed(Varint(|data|) + body) == Some(data)
  {
    hide Decode, Varint, Parse;
    var header := Varint(|data|);
    ParseVarint(|data|, body, 0);
    assert (header + body)[|header|..] == body;
  }

  /** A block compressed on its own may follow any other output. */
  lemma AppendBlock(body: seq<byte>, code: seq<byte>, input: seq<byte>, done: nat, block: seq<byte>)
    requires Encodes(body, input, done) && Decode(code, []) == Some(block)
    requires done + |block| <= |input| && block == input[done..done + |block|]
    ensures Encodes(body + code, input, done + |block|)
  {
    hide Decode;
    DecodePrefix(code, input[..done], []);
    assert input[..done] + [] == input[..done];
    assert input[..done] + block == input[..done + |block|];
    AppendCode(body, code, input, done, done + |block|);
  }

  /** Small streams: a literal of one byte; one byte too few; the example of the format description. */
  lemma UncompressedExamples()
    ensures Uncompressed([1, 0, 97]) == Some([97])
    ensures Uncompressed([2, 0, 97]) == None
    ensures Uncompressed([7, 8, 120, 97, 98, 1, 2]) == Some([120, 97, 98, 97, 98, 97, 98])
  {
    hide Decode, Parse;
    OneByteStream(1);
    OneByteStream(2);
    var s: seq<byte> := [7, 8, 120, 97, 98, 1, 2];
    HeaderByte(s);
    assert s[1..] == [8, 120, 97, 98, 1, 2];
    DecodeExample();
  }

  lemma HeaderByte(s: seq<byte>)
    requires s != [] && s[0] < 128
    ensures Parse(s, 0) == Good(s[0], 1)
  {
    ParseExact(s, 1);
    ValueTail(s, 1);
    assert Value(s[1..], 0) == 0;
  }

  lemma OneByteStream(n: byte)
    requires n < 128
    ensures Uncompressed([n, 0, 97]) == if n == 1 then Some([97]) else None
  {
    hide Decode, Parse, Step, ReadTag, TagSize;
    var s: seq<byte>, a: seq<byte> := [n, 0, 97], [97];
    HeaderByte(s);
    var body := s[1..];
    assert body == [0] + a && body[1..2] == a && body[2..] == [];
    ShortLiteralLayout(1, a);
    StepOfTag(body, []);
    DecodeStep(body, []);
    assert [] + a == a;
    NoStep(a);
  }

  /** Table size for a fragment: the least power of two from 2^8 on that is no smaller than it, but at most 2^15. */
  function CalculateTableSize(n: nat): (size: nat)
    ensures 256 <= size <= 32768 && exists k: nat :: size == Pow2(k)
    ensures n <= size || size == 32768
    ensures size == 256 || size < 2 * n
  {
    TableSizeFits(n);
    if n > 32768 then 32768 else if n < 256 then 256 else 2 * Pow2(Log2Floor(n - 1))
  }

  lemma {:induction false} FloorFits(n: nat)
    requires n > 0
    ensures Pow2(Log2Floor(n)) <= n < 2 * Pow2(Log2Floor(n))
  {
    if n > 1 {
      FloorFits(n / 2);
    }
  }

  lemma TableSizeFits(n: nat)
    ensures 256 == Pow2(8) && 32768 == Pow2(15)
    ensures 256 <= n <= 32768 ==> var k := Log2Floor(n - 1) + 1; 2 * Pow2(Log2Floor(n - 1)) == Pow2(k) && 256 <= Pow2(k) <= 32768
    ensures 1 < n ==> n <= 2 * Pow2(Log2Floor(n - 1)) < 2 * n
  {
    PowersOfTwo();
    if 1 < n {
      FloorFits(n - 1);
      var k := Log2Floor(n - 1);
      if 256 <= n <= 32768 {
        if k < 7 { Pow2Mono(k, 6); }
        if k > 14 { Pow2Mono(15, k); }
        Pow2Mono(7, 7 + (if k < 7 then 0 else k - 7));
        Pow2Mono(if k < 14 then k else 14, 14);
      }
    }
  }

  lemma PowersOfTwo()
    ensures Pow2(6) == 64 && Pow2(7) == 128 && Pow2(8) == 256 && Pow2(14) == 16384 && Pow2(15) == 32768
  {
    assert Pow2(4) == 16 by { assert Pow2(2) == 4; }
    assert Pow2(6) == 64;
    assert Pow2(8) == 256;
    assert Pow2(10) == 1024;
    assert Pow2(12) == 4096;
    assert Pow2(14) == 16384;
  }

  lemma {:induction false} Pow2Mono(a: nat, b: nat)
    requires a <= b
    ensures Pow2(a) <= Pow2(b)
  {
    if a < b {
      Pow2Mono(a, b - 1);
    }
  }

  /** The next `want` bytes, gathered across fragments if the first is too short; `pending` of them are still to
      be skipped. */
  method NextBlock(reader: Source, want: nat) returns (block: seq<byte>, pending: nat)
    requires 0 < want <= |reader.contents|
    modifies reader
    ensures block == old(reader.contents)[..want]
    ensures pending <= |reader.contents| && reader.contents[pending..] == old(reader.contents)[want..]
  {
    ghost var s := reader.contents;
    var fragment := reader.Peek();
    if |fragment| >= want {
      return fragment[..want], want;
    }
    block := fragment;
    reader.Skip(|fragment|);
    while |block| < want
      invariant |block| <= want && block == s[..|block|] && reader.contents == s[|block|..]
      decreases want - |block|
    {
      fragment := reader.Peek();
      var n := if |fragment| < want - |block| then |fragment| else want - |block|;
      ghost var k := |block|;
      Slice(s, k, |s|, 0, |fragment|);
      Slice(s, k, k + |fragment|, 0, n);
      assert s[..k + n] == s[..k] + s[k..k + n];
      block := block + fragment[..n];
      reader.Skip(n);
    }
    pending := 0;
  }

  /** One block at either level, with a fresh table and any hash functions, written at `at`. */
  method CompressBlock(block: seq<byte>, level: nat, hash: nat -> nat, hash8: nat -> nat, dest: array<byte>, at: nat) returns (end: nat)
    requires |block| <= BLOCK_SIZE && (level == 1 || level == 2) && at <= dest.Length && Roomy(dest.Length - at, |block|)
    modifies dest
    ensures at <= end <= dest.Length && Decode(dest[at..end], []) == Some(block) && Within(end - at, |block|)
    ensures NoRepeats(block) ==> end == at + LiteralBytes(|block|)
    ensures Uniform(block) && |block| >= 17 ==> end == at + UniformSize(|block|)
    ensures dest[..at] == old(dest[..at])
  {
    hide Decode, NoRepeats, Uniform, UniformSize;
    var size := CalculateTableSize(|block|);
    if level == 1 {
      var table := new uint16[size](_ => 0);
      end := CompressFragment(block, dest, at, table, hash);
    } else {
      var table := new uint16[size / 2](_ => 0);
      var table2 := new uint16[size / 2](_ => 0);
      end := CompressFragmentDoubleHash(block, dest, at, table, table2, hash, hash8);
    }
  }

  /** One block for a sink: straight into the buffer it lends, with all the speculative stores, or through a scratch
      buffer. */
  method EmitBlock(block: seq<byte>, level: nat, hash: nat -> nat, hash8: nat -> nat, dest: array<byte>, at: nat, lends: bool)
    returns (end: nat)
    requires |block| <= BLOCK_SIZE && (level == 1 || level == 2) && at <= dest.Length && Roomy(dest.Length - at, |block|)
    modifies dest
    ensures at <= end <= dest.Length && Decode(dest[at..end], []) == Some(block) && Within(end - at, |block|)
    ensures NoRepeats(block) ==> end == at + LiteralBytes(|block|)
    ensures Uniform(block) && |block| >= 17 ==> end == at + UniformSize(|block|)
    ensures dest[..at] == old(dest[..at])
  {
    hide Decode, NoRepeats, Uniform, UniformSize;
    if lends {
      end := CompressBlock(block, level, hash, hash8, dest, at);
    } else {
      var scratch := new byte[MaxCompressedLength(|block|)];
      MaxCompressedLengthIsRoomy(|block|);
      var n := CompressBlock(block, level, hash, hash8, scratch, 0);
      end := at + n;
      CopyIn(dest, at, scratch[0..n], 0, n);
      assert dest[at..end] == scratch[0..n];
    }
  }

  function Piece(input: seq<byte>, from: nat, n: nat): seq<byte>
    requires from + n <= |input|
  {
    input[from..from + n]
  }

  /** No four bytes occur twice in any block of the input. */
  ghost predicate Incompressible(input: seq<byte>) {
    forall from: nat, n: nat :: from % BLOCK_SIZE == 0 && n <= BLOCK_SIZE && from + n <= |input| ==>
                                  NoRepeats(Piece(input, from, n))
  }

  /** Size of the body if each block is one literal. */
  function LiteralsSize(n: nat): nat {
    n / BLOCK_SIZE * (BLOCK_SIZE + 3) + LiteralBytes(n % BLOCK_SIZE)
  }

  lemma NextLiteral(done: nat, n: nat, size: nat)
    requires done % BLOCK_SIZE == 0 && size == LiteralsSize(done) && 0 < n <= BLOCK_SIZE
    ensures LiteralsSize(done + n) == size + LiteralBytes(n)
  {
    LiteralHeaderSize(n);
    if n < BLOCK_SIZE {
      assert (done + n) / BLOCK_SIZE == done / BLOCK_SIZE && (done + n) % BLOCK_SIZE == n;
    } else {
      assert (done + n) / BLOCK_SIZE == done / BLOCK_SIZE + 1 && (done + n) % BLOCK_SIZE == 0;
    }
  }

  /** Room for the next block in a buffer of MaxCompressedLength bytes. */
  lemma RoomLeft(capacity: nat, n: nat, written: nat, done: nat, block: nat)
    requires capacity >= MaxCompressedLength(n) && 6 * written <= 30 + 7 * done && done + block <= n
    ensures written <= capacity && Roomy(capacity - written, block)
  {
  }

  /** Where the output of a run of Compress stands: header and body so far. */
  ghost predicate Written(out: seq<byte>, header: seq<byte>, input: seq<byte>, done: nat) {
    header <= out && Encodes(out[|header|..], input, done)
  }

  lemma WriteBlock(before: seq<byte>, after: seq<byte>, header: seq<byte>, input: seq<byte>, done: nat, block: seq<byte>)
    requires Written(before, header, input, done) && before <= after && Decode(after[|before|..], []) == Some(block)
    requires done + |block| <= |input| && block == input[done..done + |block|]
    ensures Written(after, header, input, done + |block|)
  {
    hide Decode, Encodes;
    var code := after[|before|..];
    AppendBlock(before[|header|..], code, input, done, block);
    assert after == before + code;
    assert after[|header|..] == before[|header|..] + code;
  }

  /** The arithmetic of a run of Compress, with `n` bytes to go. */
  predicate InBudget(written: nat, done: nat, n: nat) {
    (n > 0 ==> done % BLOCK_SIZE == 0) && 6 * written <= 30 + 7 * done + if n == 0 then 5 else 0
  }

  lemma BudgetNext(written: nat, end: nat, done: nat, n: nat, want: nat)
    requires InBudget(written, done, n) && 0 < want == (if n < BLOCK_SIZE then n else BLOCK_SIZE)
    requires written <= end && Within(end - written, want)
    ensures InBudget(end, done + want, n - want)
  {
  }

  /** The size so far, if the input is incompressible. */
  ghost predicate LiteralsSoFar(input: seq<byte>, size: nat, done: nat) {
    Incompressible(input) ==> size == LiteralsSize(done)
  }

  lemma LiteralsNext(input: seq<byte>, done: nat, want: nat, size: nat, size': nat)
    requires LiteralsSoFar(input, size, done) && done % BLOCK_SIZE == 0 && 0 < want <= BLOCK_SIZE && done + want <= |input|
    requires NoRepeats(input[done..done + want]) ==> size' == size + LiteralBytes(want)
    ensures LiteralsSoFar(input, size', done + want)
  {
    hide Incompressible, NoRepeats, LiteralsSize, LiteralBytes;
    if Incompressible(input) {
      BlockIncompressible(input, done, want);
      NextLiteral(done, want, size);
    }
  }

  /** One turn of Compress. */
  method CompressNext(reader: Source, n: nat, level: nat, hash: nat -> nat, hash8: nat -> nat, dest: array<byte>, written: nat,
                      lends: bool, ghost header: seq<byte>, ghost input: seq<byte>, ghost done: nat)
    returns (want: nat, end: nat)
    requires n > 0 && done + n == |input| && reader.contents == input[done..] && (level == 1 || level == 2)
    requires dest.Length >= MaxCompressedLength(|input|) && InBudget(written, done, n) && |header| <= written <= dest.Length
    requires Written(dest[..written], header, input, done) && LiteralsSoFar(input, written - |header|, done)
    modifies reader, dest
    ensures 0 < want <= n && written <= end <= dest.Length && reader.contents == input[done + want..]
    ensures InBudget(end, done + want, n - want)
    ensures Written(dest[..end], header, input, done + want) && LiteralsSoFar(input, end - |header|, done + want)
  {
    hide Decode, NoRepeats, Written, LiteralBytes, LiteralsSoFar;
    want := if n < BLOCK_SIZE then n else BLOCK_SIZE;
    var block, pending := NextBlock(reader, want);
    assert block == input[done..done + want] && |block| == want;
    RoomLeft(dest.Length, |input|, written, done, want);
    ghost var before := dest[..written];
    end := EmitBlock(block, level, hash, hash8, dest, written, lends);
    Parts(dest, written, end);
    WriteBlock(before, dest[..end], header, input, done, block);
    BudgetNext(written, end, done, n, want);
    LiteralsNext(input, done, want, written - |header|, end - |header|);
    reader.Skip(pending);
  }

  /** Compress: whatever the level, the hash functions, the fragmentation of the source and the kind of sink, the stream
      means the input and is no longer than MaxCompressedLength; no store leaves a buffer of that size. */
  method Compress(reader: Source, level: nat, hash: nat -> nat, hash8: nat -> nat, dest: array<byte>, lends: bool) returns (written: nat)
    requires |reader.contents| < TWO32 && (level == 1 || level == 2) && dest.Length >= MaxCompressedLength(|reader.contents|)
    modifies reader, dest
    ensures written <= MaxCompressedLength(|old(reader.contents)|) && 6 * written <= 7 * |old(reader.contents)| + 35
    ensures Uncompressed(dest[..written]) == Some(old(reader.contents))
    ensures Varint(|old(reader.contents)|) <= dest[..written]
    ensures reader.contents == []
    ensures Incompressible(old(reader.contents)) ==>
              written == |Varint(|old(reader.contents)|)| + LiteralsSize(|old(reader.contents)|)
  {
    hide Varint, Uncompressed, Incompressible, LiteralsSize, Written;
    ghost var input := reader.contents;
    var n: nat := |reader.contents|;
    var header := Encode32(n);
    CopyIn(dest, 0, header, 0, |header|);
    written := |header|;
    ghost var done: nat := 0;
    WriteHeader(dest[..written], header, input);
    while n > 0
      invariant done + n == |input| && reader.contents == input[done..] && InBudget(written, done, n)
      invariant |header| <= written <= dest.Length && Written(dest[..written], header, input, done)
      invariant LiteralsSoFar(input, written - |header|, done)
    {
      var want, end := CompressNext(reader, n, level, hash, hash8, dest, written, lends, header, input, done);
      written, n, done := end, n - want, done + want;
    }
    WriteEnd(dest[..written], header, input);
  }

  lemma BlockIncompressible(input: seq<byte>, from: nat, n: nat)
    requires Incompressible(input) && from % BLOCK_SIZE == 0 && n <= BLOCK_SIZE && from + n <= |input|
    ensures NoRepeats(input[from..from + n])
  {
    hide NoRepeats;
    assert NoRepeats(Piece(input, from, n));
  }

  lemma WriteHeader(out: seq<byte>, header: seq<byte>, input: seq<byte>)
    requires out == header
    ensures Written(out, header, input, 0) && LiteralsSize(0) == 0
  {
    EncodesNothing(input);
    assert out[|header|..] == [];
  }

  lemma WriteEnd(out: seq<byte>, header: seq<byte>, input: seq<byte>)
    requires |input| < TWO32 && header == Varint(|input|) && Written(out, header, input, |input|)
    ensures Uncompressed(out) == Some(input) && header <= out
  {
    hide Decode, Varint, Uncompressed;
    assert input[..|input|] == input;
    StreamOf(input, out[|header|..]);
    assert out == header + out[|header|..];
  }
}
