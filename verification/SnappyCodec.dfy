/** The public entry points of the codec (deps/snappy/snappy.cc) and its law: when uncompressing a compressed string
    gives the string back. */
module SnappyCodec {
  import opened Bytes
  import opened SnappyVarint
  import opened SnappyTable
  import opened SnappyBranchless
  import opened SnappyWriters
  import opened SnappyScattered
  import opened SnappyStream
  import opened SnappyFlat
  import opened SnappyDecompress

  /** Compress a string, at level 1 or 2, straight into a buffer of MaxCompressedLength bytes. */
  method CompressString(input: seq<byte>, level: nat, hash: nat -> nat, hash8: nat -> nat) returns (compressed: seq<byte>)
    requires |input| < TWO32 && (level == 1 || level == 2)
    ensures Uncompressed(compressed) == Some(input) && Varint(|input|) <= compressed
    ensures |compressed| <= MaxCompressedLength(|input|) && 6 * |compressed| <= 7 * |input| + 35
    ensures Incompressible(input) ==> |compressed| == |Varint(|input|)| + LiteralsSize(|input|)
  {
    hide Uncompressed, Incompressible, LiteralsSize, Varint;
    var reader := new Source(input, true);
    var buf := new byte[MaxCompressedLength(|input|)];
    var n := Compress(reader, level, hash, hash8, buf, true);
    compressed := buf[..n];
  }

  /** A right answer about a stream: yes, with its meaning, exactly if it is readable and means something; if it is not
      readable no success, and no answer at all if it means something. */
  ghost predicate Answers(v: Verdict, output: seq<byte>, stream: seq<byte>, whole: bool) {
    && (v.Yes? <==> Readable(stream, whole) && Uncompressed(stream).Some?)
    && (v.Yes? ==> Uncompressed(stream) == Some(output))
    && (v.Never? ==> !Readable(stream, whole))
    && (!Readable(stream, whole) && Uncompressed(stream).Some? ==> v.Never?)
  }

  lemma Answered(v: Verdict, output: seq<byte>, stream: seq<byte>, whole: bool)
    requires Received(stream, whole).Allows(v) && (v.Yes? ==> Received(stream, whole) == Accepted(output))
    ensures Answers(v, output, stream, whole)
  {
    hide Received, Uncompressed, Readable;
    ReceivedExact(stream, whole);
  }

  /** Uncompress into a string of the announced length; `safe` is the fast loop's uninitialised scratch. */
  method Uncompress(compressed: seq<byte>, safe: seq<byte>) returns (v: Verdict, output: seq<byte>)
    requires |safe| == SLOP_BYTES
    ensures Answers(v, output, compressed, true)
  {
    hide Parse, Received, Answers;
    ReceivedBody(compressed, true);
    var header := Parse32WithLimit(compressed);
    v, output := No, [];
    if header.Good? {
      var buf := new byte[header.value];
      var flat := new ArrayWriter(buf);
      var reader := new Source(compressed, true);
      v := InternalUncompress(reader, Flat(flat), safe);
      if v.Yes? {
        output := buf[..flat.op];
      }
    }
    Answered(v, output, compressed, true);
  }

  /** Uncompress from any source to a sink: into a flat buffer if the `lent` bytes the sink offers are enough, otherwise
      block by block. */
  method UncompressToSink(compressed: seq<byte>, whole: bool, lent: nat, safe: seq<byte>) returns (v: Verdict, output: seq<byte>)
    requires |safe| == SLOP_BYTES
    ensures Answers(v, output, compressed, whole)
  {
    hide Parse, Future, Answers, Received;
    ReceivedBody(compressed, whole);
    var reader := new Source(compressed, whole);
    var header := ReadUncompressedLength(reader);
    v, output := No, [];
    if header.Good? {
      var decompressor := new SnappyDecompressor(reader);
      if lent >= header.value {
        v, output := UncompressFlat(decompressor, header.value, lent, safe);
      } else {
        v, output := UncompressBlocks(decompressor, header.value, safe);
      }
    }
    Answered(v, output, compressed, whole);
  }

  method UncompressFlat(decompressor: SnappyDecompressor, len: nat, lent: nat, safe: seq<byte>)
    returns (v: Verdict, output: seq<byte>)
    requires decompressor.Valid() && !decompressor.eof && !decompressor.hung && len <= lent && |safe| == SLOP_BYTES
    modifies decompressor, decompressor.reader
    ensures old(decompressor.Coming([], len)).Allows(v)
    ensures v.Yes? ==> old(decompressor.Coming([], len)) == Accepted(output)
  {
    hide Future;
    var buf := new byte[lent];
    var flat := new ArrayWriter(buf);
    v := InternalUncompressAllTags(decompressor, Flat(flat), len, safe);
    output := if v.Yes? then buf[..flat.op] else [];
  }

  method UncompressBlocks(decompressor: SnappyDecompressor, len: nat, safe: seq<byte>) returns (v: Verdict, output: seq<byte>)
    requires decompressor.Valid() && !decompressor.eof && !decompressor.hung && |safe| == SLOP_BYTES
    modifies decompressor, decompressor.reader
    ensures old(decompressor.Coming([], len)).Allows(v)
    ensures v.Yes? ==> old(decompressor.Coming([], len)) == Accepted(output)
  {
    hide Future;
    var scattered := new ScatteredWriter();
    v := InternalUncompressAllTags(decompressor, Scattered(scattered), len, safe);
    output := [];
    if v.Yes? {
      output := scattered.Flush();
    }
  }

  /** IsValidCompressed, and IsValidCompressedBuffer for a flat source: accepts exactly the strings that are uncompressed,
      whatever their size. */
  method IsValidCompressed(compressed: seq<byte>, whole: bool, safe: seq<byte>) returns (v: Verdict)
    requires |safe| == SLOP_BYTES
    ensures v.Yes? <==> Readable(compressed, whole) && Uncompressed(compressed).Some?
    ensures v.Never? ==> !Readable(compressed, whole)
    ensures !Readable(compressed, whole) && Uncompressed(compressed).Some? ==> v.Never?
  {
    hide Parse, Received, Uncompressed, Readable;
    ReceivedExact(compressed, whole);
    var validator := new Validator();
    var reader := new Source(compressed, whole);
    v := InternalUncompress(reader, Validating(validator), safe);
  }

  /** The round trip, for every input below 2^32 bytes, both levels, any hash functions and all three writers.  From
      fragments it always succeeds.  From one flat piece it succeeds exactly if the compressed body is below 2^32 bytes,
      certainly if no compressed string of this input could reach that size, and never returns otherwise. */
  method RoundTrip(input: seq<byte>, level: nat, hash: nat -> nat, hash8: nat -> nat, whole: bool, lent: nat, safe: seq<byte>)
    returns (compressed: seq<byte>, flat: Verdict, output: seq<byte>, sink: Verdict, sinkOutput: seq<byte>, valid: Verdict)
    requires |input| < TWO32 && (level == 1 || level == 2) && |safe| == SLOP_BYTES
    ensures flat == if |Body(compressed)| < TWO32 then Yes else Never
    ensures flat.Yes? ==> output == input
    ensures sink == (if whole then flat else Yes) && valid == sink
    ensures sink.Yes? ==> sinkOutput == input
    ensures MaxCompressedLength(|input|) < TWO32 || 7 * |input| + 35 < 6 * TWO32 ==> flat.Yes?
    ensures Incompressible(input) ==> |Body(compressed)| == LiteralsSize(|input|)
  {
    hide Uncompressed, Incompressible, LiteralsSize, Body, Varint;
    compressed := CompressString(input, level, hash, hash8);
    BodySize(compressed, |input|);
    flat, output := Uncompress(compressed, safe);
    sink, sinkOutput := UncompressToSink(compressed, whole, lent, safe);
    valid := IsValidCompressed(compressed, whole, safe);
  }
}
