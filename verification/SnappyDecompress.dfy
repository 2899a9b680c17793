/**
 SnappyDecompressor (deps/snappy/snappy.cc): tags are read from whatever fragments the source yields, stitched
 together in a five-byte scratch buffer where a fragment ends inside a tag.  Fragments are counted in 32 bits.  For each
 writer, answer and output are those of the whole compressed string if it comes in fragments below 2^32 bytes, and those of
 `SnappyFlat.Code` if it is one flat piece.
 */
module SnappyDecompress {
  import opened Bytes
  import opened SnappyFormat
  import opened SnappyVarint
  import opened SnappyMatch
  import opened SnappyBranchless
  import opened SnappyWriters
  import opened SnappyScattered
  import opened SnappyStream
  import opened SnappyFlat
  import opened SnappySound

  datatype Writer = Flat(flat: ArrayWriter) | Scattered(scattered: ScatteredWriter) | Validating(validator: Validator) {

    ghost function Core(): set<object> {
      match this
      case Flat(w) => {w}
      case Scattered(w) => {w}
      case Validating(w) => {w}
    }

    ghost function Repr(): set<object>
      reads Core()
      ensures Core() <= Repr()
    {
      match this
      case Flat(w) => {w, w.buf}
      case Scattered(w) => {w} + (if w.block == null then {} else {w.block})
      case Validating(w) => {w}
    }

    ghost predicate Valid()
      reads Core(), Repr()
    {
      match this
      case Flat(w) => w.Valid()
      case Scattered(w) => w.Valid()
      case Validating(w) => w.Valid()
    }

    /** The output so far. */
    ghost function Out(): seq<byte>
      reads Core(), Repr()
      requires Valid()
    {
      match this
      case Flat(w) => w.Out()
      case Scattered(w) => w.out
      case Validating(w) => w.out
    }

    ghost function Expected(): nat
      reads Core(), Repr()
    {
      match this
      case Flat(w) => w.opLimit
      case Scattered(w) => w.expected
      case Validating(w) => w.expected
    }

    /** The caller's memory behind the announced length of a flat buffer. */
    ghost function Beyond(): seq<byte>
      reads Core(), Repr()
    {
      if Flat? && flat.opLimit <= flat.buf.Length then flat.buf[flat.opLimit..] else []
    }

    /** Only new blocks join the writer's state; the announced length and the memory behind it stay. */
    twostate predicate Kept()
      reads Core(), Repr()
    {
      (forall o <- Repr() :: o in old(Repr()) || fresh(o)) && Expected() == old(Expected()) && Beyond() == old(Beyond())
    }

    twostate lemma Unaffected()
      requires forall o <- old(Repr()) :: unchanged(o)
      ensures Repr() == old(Repr()) && Expected() == old(Expected()) && Beyond() == old(Beyond())
      ensures old(Valid()) ==> Valid() && Out() == old(Out())
    {
    }

    method Append(bytes: seq<byte>) returns (ok: bool)
      requires Valid()
      modifies Repr()
      ensures Kept()
      ensures ok <==> |old(Out())| + |bytes| <= Expected()
      ensures ok ==> Valid() && Out() == old(Out()) + bytes
    {
      match this {
        case Flat(w) => ok := w.Append(bytes);
        case Scattered(w) => ok := w.Append(bytes);
        case Validating(w) => ok := w.Append(bytes, |bytes|);
      }
    }
  
    method TryFastAppend(mem: seq<byte>, ip: nat, ipLimit: nat, len: nat) returns (ok: bool)
      requires Valid() && ip <= ipLimit <= |mem|
      modifies Repr()
      ensures Valid() && Kept()
      ensures ok ==> len <= 16 && ip + len + MAXIMUM_TAG_LENGTH <= ipLimit && Out() == old(Out()) + mem[ip..ip + len]
      ensures !ok ==> Out() == old(Out())
    {
      match this {
        case Flat(w) => ok := w.TryFastAppend(mem, ip, ipLimit, len);
        case Scattered(w) => ok := w.TryFastAppend(mem, ip, ipLimit, len);
        case Validating(w) => ok := false;
      }
    }

    method AppendFromSelf(offset: nat, len: nat) returns (ok: bool)
      requires Valid() && 0 < len <= SLOP_BYTES
      modifies Repr()
      ensures Kept()
      ensures ok <==> 0 < offset <= |old(Out())| && |old(Out())| + len <= Expected()
      ensures ok ==> Valid() && Out() == Overlap(old(Out()), offset, len)
    {
      hide Overlap;
      match this {
        case Flat(w) => ok := w.AppendFromSelf(offset, len);
        case Scattered(w) => ok := w.AppendFromSelf(offset, len);
        case Validating(w) => ok := w.AppendFromSelf(offset, len);
      }
    }

    /** The fast loop, if the writer has a base to run it on. */
    method RunBranchless(mem: seq<byte>, ip: nat, ipLimit: nat, safe: seq<byte>) returns (ran: bool, ip': nat)
      requires Valid() && ip <= ipLimit <= |mem| && |safe| == SLOP_BYTES
      modifies Repr()
      ensures Valid() && Kept()
      ensures ip <= ip' <= ipLimit && Decode(mem[ip..ip'], old(Out())) == Some(Out())
      ensures !ran ==> ip' == ip && Out() == old(Out())
    {
      hide Decode;
      ran, ip' := true, ip;
      match this {
        case Flat(w) => ip' := w.RunBranchless(mem, ip, ipLimit, safe);
        case Scattered(w) =>
          if w.block == null {
            ran := false;
            DecodeNothing(mem, ip, Out());
          } else {
            ip' := w.RunBranchless(mem, ip, ipLimit, safe);
          }
        case Validating(w) => ip' := w.RunBranchless(mem, ip, ipLimit, safe);
      }
    }

    method CheckLength() returns (ok: bool)
      requires Valid()
      ensures ok <==> |Out()| == Expected()
    {
      match this {
        case Flat(w) => ok := w.op == w.opLimit;
        case Scattered(w) => ok := w.Size() == w.expected;
        case Validating(w) => ok := w.expected == w.produced;
      }
    }

    /** A writer about to receive its announced length. */
    ghost predicate Empty(len: nat)
      reads Core(), Repr()
    {
      && Valid() && Out() == []
      && match this
         case Flat(w) => len <= w.buf.Length
         case Scattered(w) => w.block == null
         case Validating(w) => true
    }

    twostate lemma StillEmpty(len: nat)
      requires forall o <- old(Repr()) :: unchanged(o)
      requires old(Empty(len))
      ensures Empty(len) && Repr() == old(Repr())
    {
      Unaffected();
      assert Scattered? ==> scattered in old(Repr());
    }

    lemma EmptyRoom(len: nat)
      requires Empty(len)
      ensures Flat? ==> len <= flat.buf.Length
    {
    }

    method SetExpectedLength(len: nat)
      requires Empty(len)
      modifies Core()
      ensures Valid() && Repr() == old(Repr()) && Out() == [] && Expected() == len
    {
      match this {
        case Flat(w) => w.SetExpectedLength(len);
        case Scattered(w) => w.SetExpectedLength(len);
        case Validating(w) => w.SetExpectedLength(len);
      }
    }
  }

  /** CalculateNeeded, as the packed table computes it. */
  function CalculateNeeded(tag: byte): nat {
    if tag % 4 == 0 && tag >= 240 then tag / 4 - 58 else 0x05030201 / Pow256(tag * 8 % 32 / 8) % 256
  }

  lemma NeededIsTagSize(tag: byte)
    ensures CalculateNeeded(tag) == TagSize(tag)
  {
    Pow256Values();
    assert tag * 8 % 32 / 8 == tag % 4;
  }

  /** The low n bytes of a loaded word; bytes past them may be anything. */
  function ExtractLowBytes(v: nat, n: nat): nat
    requires n <= 4
  {
    v % Pow256(n)
  }

  /** A tag buffered whole does not depend on what follows it in the buffer. */
  lemma TagAt(mem: seq<byte>, ip: nat, ipLimit: nat)
    requires ip < ipLimit <= |mem| && TagSize(mem[ip]) <= ipLimit - ip
    ensures var u := mem[ip..ipLimit];
            u[0] == mem[ip] && TagSize(u[0]) <= |u| && ReadTag(u) == ReadTag(mem[ip..ip + TagSize(mem[ip])])
  {
    var n := TagSize(mem[ip]);
    assert mem[ip..ipLimit] == mem[ip..ip + n] + mem[ip + n..ipLimit];
    ReadTagAppend(mem[ip..ip + n], mem[ip + n..ipLimit]);
  }

  /** Fields of a literal tag, loaded as a word of which the low bytes count. */
  lemma LiteralFields(mem: seq<byte>, ip: nat)
    requires ip + 5 <= |mem| && mem[ip] % 4 == 0
    ensures var c := mem[ip];
            ReadTag(mem[ip..ip + TagSize(c)]) ==
            LiteralTag(TagSize(c), if c / 4 < 60 then c / 4 + 1 else
                                   (ExtractLowBytes(Load32(mem, ip + 1), c / 4 - 59) + 1) % TWO32)
  {
    hide LE;
    var c := mem[ip];
    if c / 4 >= 60 {
      var w, k := mem[ip + 1..ip + 5], c / 4 - 59;
      LELow(w, k);
      var n := TagSize(c);
      assert n == k + 1;
      assert mem[ip..ip + n][1..n] == mem[ip + 1..ip + n] == w[..k];
    }
  }

  lemma LongCopyFields(mem: seq<byte>, ip: nat)
    requires ip + 5 <= |mem| && mem[ip] % 4 == 3
    ensures TagSize(mem[ip]) == 5 && ReadTag(mem[ip..ip + 5]) == CopyTag(5, Load32(mem, ip + 1), mem[ip] / 4 + 1)
  {
    hide LE;
    assert mem[ip..ip + 5][1..5] == mem[ip + 1..ip + 1 + 4];
  }

  lemma LowBytesAreOffset(val: nat, kind: nat)
    requires kind == 1 || kind == 2
    ensures ExtractLowBytes(val, kind) == ExtractOffset(val, kind)
  {
    Pow256Values();
  }

  /** The word loaded behind a tag, shifted past its offset bytes, starts with the next tag. */
  lemma PreloadShift(mem: seq<byte>, at: nat, kind: nat)
    requires at + 4 <= |mem| && (kind == 1 || kind == 2)
    ensures Shr8(Load32(mem, at), kind) % 256 == mem[at + kind]
  {
    var w, v := mem[at..at + 4], Load32(mem, at);
    LEShift(w);
    LEShift(w[1..]);
    LEShift(w[1..][1..]);
    assert v / 65536 == v / 256 / 256;
  }

  /** The second pair of sizes comes no later than the first. */
  predicate NotLater(unread': nat, buffered': nat, unread: nat, buffered: nat) {
    unread' < unread || (unread' == unread && buffered' <= buffered)
  }

  /** Room in the output, bytes to fetch and bytes at hand, in lexicographic order. */
  datatype Rank3 = Rank3(room: nat, unread: nat, buffered: nat) {
    predicate AtMost(r: Rank3) {
      room < r.room || (room == r.room && NotLater(unread, buffered, r.unread, r.buffered))
    }

    predicate Below(r: Rank3) {
      AtMost(r) && this != r
    }
  }

  class SnappyDecompressor {
    const reader: Source
    var mem: seq<byte>
    var ip: nat
    var ipLimit: nat
    var ipLimitMinMaxtaglen: nat
    var peeked: nat
    var eof: bool
    var hung: bool
    var scratch: seq<byte>

    ghost predicate Valid()
      reads this, reader
    {
      && ip <= ipLimit <= |mem| && peeked <= |reader.contents| && |scratch| == MAXIMUM_TAG_LENGTH
      && (ipLimitMinMaxtaglen <= ip || ipLimitMinMaxtaglen + MAXIMUM_TAG_LENGTH - 1 <= ipLimit)
      && ipLimit < ipLimitMinMaxtaglen + MAXIMUM_TAG_LENGTH
    }

    /** The compressed bytes at hand. */
    ghost function Buffered(): seq<byte>
      requires Valid()
      reads this, reader
    {
      mem[ip..ipLimit]
    }

    /** The compressed bytes the source will yield after the peeked ones are skipped. */
    ghost function Unread(): seq<byte>
      requires Valid()
      reads this, reader
    {
      reader.contents[peeked..]
    }

    /** What will come of the output so far. */
    ghost function Coming(out: seq<byte>, expected: nat): Fate
      requires Valid()
      reads this, reader
    {
      Future(reader.whole, Buffered(), Unread(), out, expected)
    }

    /** The next tag is buffered whole, and five bytes can be loaded from it. */
    ghost predicate Ready()
      reads this, reader
    {
      Valid() && ip < ipLimit && TagSize(mem[ip]) <= ipLimit - ip && ip + MAXIMUM_TAG_LENGTH <= |mem|
    }

    constructor (source: Source)
      ensures Valid() && reader == source && !eof && !hung && Buffered() == [] && Unread() == source.contents
    {
      reader, mem, ip, ipLimit, ipLimitMinMaxtaglen, peeked, eof := source, [], 0, 0, 0, 0, false;
      hung := false;
      scratch := [0, 0, 0, 0, 0];
    }

    method ResetLimit()
      requires Valid()
      modifies this`ipLimitMinMaxtaglen
      ensures Valid()
    {
      ipLimitMinMaxtaglen := ipLimit - Min(ipLimit - ip, MAXIMUM_TAG_LENGTH - 1);
    }

    /** A new buffer, with its limit. */
    method SetBuffer(buffer: seq<byte>, limit: nat)
      requires limit <= |buffer| && peeked <= |reader.contents| && |scratch| == MAXIMUM_TAG_LENGTH
      modifies this`mem, this`ip, this`ipLimit, this`ipLimitMinMaxtaglen
      ensures Valid() && mem == buffer && ip == 0 && ipLimit == limit
    {
      mem, ip, ipLimit, ipLimitMinMaxtaglen := buffer, 0, limit, limit - Min(limit, MAXIMUM_TAG_LENGTH - 1);
    }

    /** Skips the peeked bytes and fetches the next fragment, whose size is kept in 32 bits. */
    method NextFragment() returns (ok: bool)
      requires Valid()
      modifies this, reader
      ensures Valid() && eof == old(eof) && hung == old(hung)
      ensures ok ==> Fetch(reader.whole, old(Unread()), Buffered(), Unread())
      ensures !ok ==> old(Unread()) == []
    {
      reader.Skip(peeked);
      var fragment := reader.Peek();
      peeked := |fragment| % TWO32;
      SetBuffer(fragment, |fragment|);
      ok := |fragment| != 0;
    }

    /** Collects the missing bytes of a tag from as many fragments as it takes.  The size of a fragment counts in 32 bits
        here too.  A turn that adds nothing to an unfinished tag leaves everything as it was, so the loop never ends;
        the model says so and stops. */
    method Stitch(nbuf0: nat, needed: nat) returns (r: Stitching)
      requires nbuf0 < needed <= MAXIMUM_TAG_LENGTH == |scratch|
      modifies this`scratch, reader
      ensures |scratch| == MAXIMUM_TAG_LENGTH
      ensures r == Stitched(reader.whole, old(reader.contents), needed - nbuf0)
      ensures r.Joined? ==> var j := needed - nbuf0;
                            && |old(reader.contents)| >= j && reader.contents == old(reader.contents)[j..]
                            && scratch[..needed] == old(scratch[..nbuf0]) + old(reader.contents)[..j]
      ensures r.Endless? ==> reader.whole && reader.contents != [] && |reader.contents| % TWO32 == 0
    {
      ghost var head, t, d := scratch[..nbuf0], reader.contents, 0;
      var nbuf := nbuf0;
      assert t[0..] == t && head + t[..0] == head;
      assert Collected(scratch, nbuf, head, t, d);
      hide Stitched, Collected, Overwritten, ToAdd;
      while nbuf < needed
        invariant nbuf == nbuf0 + d <= needed && |scratch| == MAXIMUM_TAG_LENGTH && 0 <= d <= |t|
        invariant reader.contents == t[d..] && Collected(scratch, nbuf, head, t, d)
        invariant Stitched(reader.whole, t[d..], needed - nbuf) == Stitched(reader.whole, t, needed - nbuf0)
        decreases needed - nbuf
      {
        var src := reader.Peek();
        StitchStops(reader.whole, t[d..], needed - nbuf);
        if |src| == 0 { return Ended; }
        var add := ToAdd(needed - nbuf, |src|);
        if add == 0 { return Endless; }
        StitchMore(reader.whole, t[d..], needed - nbuf, add);
        CollectMore(scratch, nbuf, head, t, d, add, src);
        scratch := Overwritten(scratch, nbuf, src[..add]);
        reader.Skip(add);
        nbuf, d := nbuf + add, d + add;
      }
      StitchStops(reader.whole, t[d..], 0);
      CollectedIs(scratch, nbuf, head, t, d);
      r := Joined;
    }

    /** to_add: a minimum in 32 bits. */
    static function ToAdd(missing: nat, length: nat): (n: nat)
      ensures n <= missing && n <= length
      ensures n == 0 <==> missing == 0 || length % TWO32 == 0
    {
      Min(missing, length % TWO32)
    }

    static lemma StitchStops(whole: bool, t: seq<byte>, j: nat)
      ensures j == 0 ==> Stitched(whole, t, j) == Joined
      ensures j > 0 && t == [] ==> Stitched(whole, t, j) == Ended
      ensures j > 0 && whole && t != [] && |t| % TWO32 == 0 ==> Stitched(whole, t, j) == Endless
    {
    }

    /** Part of a tag does not change how its collection ends. */
    static lemma StitchMore(whole: bool, t: seq<byte>, j: nat, add: nat)
      requires 0 < add <= j && add <= |t| && (whole ==> add == ToAdd(j, |t|))
      ensures Stitched(whole, t[add..], j - add) == Stitched(whole, t, j)
    {
    }

    static function Overwritten(scratch: seq<byte>, at: nat, bytes: seq<byte>): (r: seq<byte>)
      requires at + |bytes| <= |scratch|
      ensures |r| == |scratch| && r[..at + |bytes|] == scratch[..at] + bytes
    {
      scratch[..at] + bytes + scratch[at + |bytes|..]
    }

    /** The scratch buffer starts with `head` and `d` bytes of t. */
    static ghost predicate Collected(scratch: seq<byte>, nbuf: nat, head: seq<byte>, t: seq<byte>, d: nat) {
      nbuf <= |scratch| && d <= |t| && scratch[..nbuf] == head + t[..d]
    }

    static lemma CollectedIs(scratch: seq<byte>, nbuf: nat, head: seq<byte>, t: seq<byte>, d: nat)
      requires Collected(scratch, nbuf, head, t, d)
      ensures nbuf <= |scratch| && d <= |t| && scratch[..nbuf] == head + t[..d]
    {
    }

    static lemma CollectMore(scratch: seq<byte>, nbuf: nat, head: seq<byte>, t: seq<byte>, d: nat, add: nat, src: seq<byte>)
      requires Collected(scratch, nbuf, head, t, d) && nbuf + add <= |scratch|
      requires d <= |t| && add <= |src| <= |t| - d && src == t[d..][..|src|]
      ensures Collected(Overwritten(scratch, nbuf, src[..add]), nbuf + add, head, t, d + add) && t[d..][add..] == t[d + add..]
    {
      Slice(t, d, |t|, 0, |src|);
      Slice(t, d, d + |src|, 0, add);
      assert t[..d + add] == t[..d] + src[..add];
      assert head + t[..d] + src[..add] == head + t[..d + add];
    }

    /** RefillTag: afterwards the next tag lies in one piece and nothing has changed about what is to come. */
    method RefillTag(ghost out: seq<byte>, ghost expected: nat) returns (ok: bool)
      requires Valid() && !eof && !hung && ipLimit - ip < MAXIMUM_TAG_LENGTH
      modifies this, reader
      ensures ok ==> Ready() && !eof && !hung && Coming(out, expected) == old(Coming(out, expected))
      ensures ok ==> NotLater(|Unread()|, |Buffered()|, old(|Unread()|), old(|Buffered()|))
      ensures !ok ==> (eof <==> old(Buffered() == [] && Unread() == [])) && !(eof && hung)
      ensures !ok && !eof ==> old(Coming(out, expected)).Allows(if hung then Never else No)
    {
      hide Future, TagSize;
      ghost var u0, t0 := Buffered(), Unread();
      if ip == ipLimit {
        ok := NextFragment();
        eof := !ok;
        if eof { return; }
      }
      ok := Secure(u0, t0, out, expected);
    }

    /** The second half of RefillTag: moves a tag that may be cut, or lies close to the end, to the scratch buffer. */
    method Secure(ghost u0: seq<byte>, ghost t0: seq<byte>, ghost out: seq<byte>, ghost expected: nat) returns (ok: bool)
      requires Valid() && !eof && !hung && ip < ipLimit && Supply(reader.whole, u0, t0, Buffered(), Unread())
      modifies this, reader
      ensures !eof
      ensures ok ==> Ready() && !hung && Coming(out, expected) == Future(reader.whole, u0, t0, out, expected)
      ensures ok ==> NotLater(|Unread()|, |Buffered()|, |t0|, |u0|)
      ensures !ok ==> Future(reader.whole, u0, t0, out, expected).Allows(if hung then Never else No)
    {
      hide Future, TagSize, CalculateNeeded, Stitched;
      ghost var u, t := Buffered(), Unread();
      NeededIsTagSize(mem[ip]);
      ShortTag(mem[ip]);
      var needed := CalculateNeeded(mem[ip]);
      var nbuf := (ipLimit - ip) % TWO32;
      RefillExact(reader.whole, u0, t0, u, t, nbuf, out, expected);
      if nbuf < needed {
        scratch := mem[ip..ip + nbuf] + scratch[nbuf..];
        assert scratch[..nbuf] == u[..nbuf];
        reader.Skip(peeked);
        peeked := 0;
        var r := Stitch(nbuf, needed);
        hung := r.Endless?;
        if !r.Joined? { return false; }
        SetBuffer(scratch, needed);
      } else if nbuf < MAXIMUM_TAG_LENGTH {
        scratch := mem[ip..ip + nbuf] + scratch[nbuf..];
        assert scratch[..nbuf] == u[..nbuf];
        reader.Skip(peeked);
        peeked := 0;
        SetBuffer(scratch, nbuf);
      }
      ok := true;
    }

    /** MAYBE_REFILL. */
    method MaybeRefill(ghost out: seq<byte>, ghost expected: nat) returns (ok: bool, preload: nat)
      requires Valid() && !eof && !hung
      modifies this, reader
      ensures ok ==> Ready() && !eof && !hung && preload % 256 == mem[ip] && Coming(out, expected) == old(Coming(out, expected))
      ensures ok ==> NotLater(|Unread()|, |Buffered()|, old(|Unread()|), old(|Buffered()|))
      ensures !ok ==> (eof <==> old(Buffered() == [] && Unread() == [])) && !(eof && hung)
      ensures !ok && !eof ==> old(Coming(out, expected)).Allows(if hung then Never else No)
    {
      hide Future;
      preload := 0;
      if ip >= ipLimitMinMaxtaglen {
        ok := RefillTag(out, expected);
        if !ok { return; }
        ResetLimit();
      }
      ok, preload := true, mem[ip];
    }

    /** The writer shares no state with the reader. */
    ghost predicate Apart(w: Writer)
      reads this, reader, w.Core(), w.Repr()
    {
      Valid() && w.Valid() && this !in w.Repr() && reader !in w.Repr()
    }

    /** What the remaining input will make of the output so far. */
    ghost function Goal(w: Writer): Fate
      requires Apart(w)
      reads this, reader, w.Core(), w.Repr()
    {
      Coming(w.Out(), w.Expected())
    }

    /** The same with `len` bytes of a literal due first. */
    ghost function LiteralGoal(w: Writer, len: nat): Fate
      requires Apart(w)
      reads this, reader, w.Core(), w.Repr()
    {
      LiteralFuture(reader.whole, Buffered(), Unread(), len, w.Out(), w.Expected())
    }

    /** The rest of the current fragment goes to the writer, and the next one is fetched. */
    method AppendFragment(w: Writer) returns (ok: bool)
      requires Apart(w) && !eof && !hung
      modifies this, reader, w.Repr()
      ensures w.Kept() && !eof && !hung
      ensures ok ==> Apart(w) && Fetch(reader.whole, old(Unread()), Buffered(), Unread())
      ensures ok ==> w.Out() == old(w.Out()) + old(Buffered())
      ensures !ok ==> |old(w.Out())| + |old(Buffered())| > w.Expected() || old(Unread()) == []
    {
      hide Writer.Valid, Writer.Out, Writer.Expected, Writer.Beyond, Fetch;
      ok := w.Append(mem[ip..ipLimit]);
      if !ok { return; }
      assert this !in w.Repr() && reader !in w.Repr();
      label before:
      ok := NextFragment();
      w.Unaffected@before();
    }

    /** `len` bytes of the current fragment go to the writer. */
    method AppendBuffered(w: Writer, len: nat) returns (ok: bool)
      requires Apart(w) && len <= ipLimit - ip
      modifies this`ip, w.Repr()
      ensures w.Kept()
      ensures ok ==> Apart(w) && Buffered() == old(Buffered())[len..] && Unread() == old(Unread())
      ensures ok ==> w.Out() == old(w.Out()) + old(Buffered())[..len]
      ensures ok <==> |old(w.Out())| + len <= w.Expected()
    {
      hide Writer.Valid, Writer.Out, Writer.Expected, Writer.Beyond;
      Slice(mem, ip, ipLimit, 0, len);
      Slice(mem, ip, ipLimit, len, ipLimit - ip);
      ok := w.Append(mem[ip..ip + len]);
      if ok {
        assert this !in w.Repr() && reader !in w.Repr();
        label before:
        ip := ip + len;
        w.Unaffected@before();
      }
    }

    /** Whole fragments of a literal go to the writer until the `left` bytes still due are buffered. */
    method AppendFragments(w: Writer, len: nat) returns (ok: bool, left: nat)
      requires Apart(w) && !eof && !hung && len < TWO32
      modifies this, reader, w.Repr()
      ensures w.Kept() && !eof && !hung
      ensures ok ==> Apart(w) && left <= ipLimit - ip && |w.Out()| + left == |old(w.Out())| + len
      ensures ok ==> LiteralGoal(w, left) == old(LiteralGoal(w, len))
      ensures ok && len == 0 ==> left == 0 && Buffered() == old(Buffered()) && Unread() == old(Unread()) && w.Out() == old(w.Out())
      ensures !ok ==> old(LiteralGoal(w, len)).Allows(No)
    {
      hide Writer.Valid, Writer.Out, Writer.Expected, Writer.Beyond, LiteralFuture, Fetch;
      ghost var goal, size := LiteralGoal(w, len), |w.Out()| + len;
      left := len;
      while ipLimit - ip < left
        invariant Apart(w) && !eof && !hung && left <= len && |w.Out()| + left == size
        invariant w.Kept() && LiteralGoal(w, left) == goal
        invariant len == 0 ==> left == 0 && Buffered() == old(Buffered()) && Unread() == old(Unread()) && w.Out() == old(w.Out())
        decreases left, ip == ipLimit
      {
        ghost var u, t, out := Buffered(), Unread(), w.Out();
        var avail := ipLimit - ip;
        ok := AppendFragment(w);
        if !ok {
          LiteralStops(u, t, left, out, w.Expected());
          return;
        }
        LiteralFetch(reader.whole, u, t, Buffered(), Unread(), left, out, w.Expected());
        FetchSome(reader.whole, t, Buffered(), Unread());
        left := left - avail;
      }
      ok := true;
    }

    /** Neither room for the buffered part of a literal nor a missing fragment leads to success. */
    lemma LiteralStops(u: seq<byte>, t: seq<byte>, len: nat, out: seq<byte>, expected: nat)
      requires |u| < len < TWO32 && (|out| + |u| > expected || t == [])
      ensures LiteralFuture(reader.whole, u, t, len, out, expected).Allows(No)
    {
      hide LiteralFuture;
      if t == [] {
        LiteralFetch(reader.whole, u, t, u, t, len, out, expected);
      } else {
        LiteralOverflow(reader.whole, u, t, len, out, expected);
      }
    }

    static lemma FetchSome(whole: bool, t: seq<byte>, u: seq<byte>, t': seq<byte>)
      requires Fetch(whole, t, u, t')
      ensures u != []
    {
    }

    /** Literal bytes, taken from as many fragments as they span. */
    method AppendLiteral(w: Writer, len: nat) returns (ok: bool)
      requires Apart(w) && !eof && !hung && len < TWO32
      modifies this, reader, w.Repr()
      ensures w.Kept() && !eof && !hung
      ensures ok ==> Apart(w) && Goal(w) == old(LiteralGoal(w, len)) && |w.Out()| == |old(w.Out())| + len <= w.Expected()
      ensures ok && len == 0 ==> Buffered() == old(Buffered()) && Unread() == old(Unread())
      ensures !ok ==> old(LiteralGoal(w, len)).Allows(No)
    {
      hide Writer.Valid, Writer.Out, Writer.Expected, Writer.Beyond, Future, LiteralFuture;
      var left;
      ok, left := AppendFragments(w, len);
      if !ok { return; }
      ghost var u, t, out := Buffered(), Unread(), w.Out();
      ok := AppendBuffered(w, left);
      if ok {
        LiteralBuffered(reader.whole, u, t, left, out, w.Expected());
      } else {
        LiteralOverflow(reader.whole, u, t, left, out, w.Expected());
      }
    }

    /** What the caller will report once the input is used up. */
    ghost function Checked(w: Writer): Fate
      requires w.Valid()
      reads w.Core(), w.Repr()
    {
      if |w.Out()| == w.Expected() then Accepted(w.Out()) else Rejected
    }

    /** The loop may go on at the next tag. */
    ghost predicate Going(w: Writer, preload: nat, goal: Fate)
      reads this, reader, w.Core(), w.Repr()
    {
      Ready() && Apart(w) && !eof && !hung && preload % 256 == mem[ip] && Goal(w) == goal
    }

    /** The loop has stopped with the right answer, or been found endless: only a clean end of input can succeed. */
    ghost predicate Stopped(w: Writer, goal: Fate)
      reads this, w.Core(), w.Repr()
    {
      if hung then goal.Allows(Never) else if eof then w.Valid() && Checked(w) == goal else goal.Allows(No)
    }

    /** Progress of the loop: room in the output, bytes to fetch, bytes at hand. */
    ghost function Rank(w: Writer): Rank3
      requires Apart(w)
      reads this, reader, w.Core(), w.Repr()
    {
      Rank3(Slack(w.Out(), w.Expected()), |Unread()|, |Buffered()|)
    }

    /** MAYBE_REFILL between two tags. */
    method Resume(w: Writer, ghost goal: Fate) returns (ok: bool, preload: nat)
      requires Apart(w) && !eof && !hung && Goal(w) == goal
      modifies this, reader
      ensures w.Kept()
      ensures ok ==> Going(w, preload, goal) && Rank(w).AtMost(old(Rank(w)))
      ensures !ok ==> Stopped(w, goal)
    {
      hide Writer.Valid, Writer.Out, Writer.Expected, Writer.Beyond, Future, TagSize, Slack;
      FutureEnd(reader.whole, w.Out(), w.Expected());
      label before:
      ok, preload := MaybeRefill(w.Out(), w.Expected());
      w.Unaffected@before();
    }

    /** A copy on the writer, after which the cursor moves past the tag. */
    method CopySelf(w: Writer, offset: nat, len: nat, size: nat, ghost goal: Fate) returns (ok: bool)
      requires Apart(w) && !eof && !hung && Goal(w) == goal && 0 < len <= SLOP_BYTES && size <= ipLimit - ip
      requires Buffered() != [] && TagSize(Buffered()[0]) <= |Buffered()| && ReadTag(Buffered()) == CopyTag(size, offset, len)
      modifies this`ip, w.Repr()
      ensures w.Kept() && !eof && !hung
      ensures ok ==> Apart(w) && Goal(w) == goal && ip == old(ip) + size && Rank(w).Below(old(Rank(w)))
      ensures !ok ==> goal.Allows(No)
    {
      hide Writer.Valid, Writer.Out, Writer.Expected, Writer.Beyond, Future, TagSize, ReadTag, Overlap;
      ghost var u := Buffered();
      FutureCopy(reader.whole, u, Unread(), size, offset, len, w.Out(), w.Expected());
      ok := w.AppendFromSelf(offset, len);
      if ok {
        assert this !in w.Repr() && reader !in w.Repr();
        label before:
        ip := ip + size;
        w.Unaffected@before();
        assert Buffered() == u[size..];
      }
    }

    /** A copy tag; after a short one the next tag may come out of the word already loaded. */
    method ProcessCopy(w: Writer, c: byte, ghost goal: Fate) returns (ok: bool, preload: nat)
      requires Ready() && Apart(w) && !eof && !hung && Goal(w) == goal && c == mem[ip] && c % 4 != 0
      modifies this, reader, w.Repr()
      ensures w.Kept()
      ensures ok ==> Going(w, preload, goal) && Rank(w).Below(old(Rank(w)))
      ensures !ok ==> Stopped(w, goal)
    {
      hide Writer.Valid, Writer.Out, Writer.Expected, Writer.Beyond, Future, TagSize, ReadTag, LE, Slack;
      hide LengthMinusOffset, ExtractOffset, ExtractLowBytes, Shr8;
      var kind := c % 4;
      preload := Load32(mem, ip + 1);
      TagAt(mem, ip, ipLimit);
      if kind == 3 {
        LongCopyFields(mem, ip);
        ok := CopySelf(w, preload, c / 4 + 1, 5, goal);
        if !ok { return; }
      } else {
        var entry := LengthMinusOffset(c);
        var trailer := ExtractLowBytes(preload, kind);
        var len := entry % 256;
        CopyFields(mem, ip);
        LowBytesAreOffset(preload, kind);
        PreloadShift(mem, ip + 1, kind);
        ok := CopySelf(w, trailer - entry + len, len, 1 + kind, goal);
        if !ok { return; }
        preload := Shr8(preload, kind);
        if ip < ipLimitMinMaxtaglen {
          ShortTag(mem[ip]);
          return;
        }
      }
      label before:
      ok, preload := Resume(w, goal);
    }

    /** The fast path for a literal of at most sixteen bytes. */
    method TryFast(w: Writer, c: byte, ghost goal: Fate) returns (ok: bool, preload: nat)
      requires Ready() && Apart(w) && !eof && !hung && Goal(w) == goal && c == mem[ip] && c % 4 == 0
      modifies this`ip, w.Repr()
      ensures w.Kept()
      ensures ok ==> Going(w, preload, goal) && Rank(w).Below(old(Rank(w)))
      ensures !ok ==> Ready() && Apart(w) && Goal(w) == goal && ip == old(ip) && Rank(w) == old(Rank(w))
    {
      hide Writer.Valid, Writer.Out, Writer.Expected, Writer.Beyond, Future, LiteralFuture, ReadTag, LE, ExtractLowBytes;
      ghost var u, t, out := Buffered(), Unread(), w.Out();
      TagAt(mem, ip, ipLimit);
      LiteralFields(mem, ip);
      var at, len := ip + 1, c / 4 + 1;
      preload := 0;
      ok := w.TryFastAppend(mem, at, ipLimit, len);
      assert this !in w.Repr() && reader !in w.Repr();
      if ok {
        FutureLiteral(reader.whole, u, t, 1, len, out, w.Expected());
        LiteralBuffered(reader.whole, u[1..], t, len, out, w.Expected());
        Cut(mem, ip, ipLimit, len);
        label before:
        ip := at + len;
        w.Unaffected@before();
        preload := mem[ip];
      }
    }

    static lemma Cut(mem: seq<byte>, ip: nat, ipLimit: nat, len: nat)
      requires ip + 1 + len <= ipLimit <= |mem|
      ensures var u := mem[ip..ipLimit];
              u[1..][len..] == mem[ip + 1 + len..ipLimit] && u[1..][..len] == mem[ip + 1..ip + 1 + len]
    {
      Slice(mem, ip, ipLimit, 1, ipLimit - ip);
      Slice(mem, ip + 1, ipLimit, len, ipLimit - ip - 1);
      Slice(mem, ip + 1, ipLimit, 0, len);
    }

    /** A literal of any length, whose length may be held in up to four more bytes. */
    method SlowLiteral(w: Writer, c: byte, ghost goal: Fate) returns (ok: bool)
      requires Ready() && Apart(w) && !eof && !hung && Goal(w) == goal && c == mem[ip] && c % 4 == 0
      modifies this, reader, w.Repr()
      ensures w.Kept() && !eof && !hung
      ensures ok ==> Apart(w) && Goal(w) == goal && Rank(w).Below(old(Rank(w)))
      ensures !ok ==> goal.Allows(No)
    {
      hide Writer.Valid, Writer.Out, Writer.Expected, Writer.Beyond, Future, LiteralFuture, ReadTag, LE, ExtractLowBytes;
      ghost var u := Buffered();
      TagAt(mem, ip, ipLimit);
      LiteralFields(mem, ip);
      var at, len := ip + 1, c / 4 + 1;
      if len >= 61 {
        var n := len - 60;
        len := (ExtractLowBytes(Load32(mem, at), n) + 1) % TWO32;
        at := at + n;
      }
      ghost var size := at - ip;
      FutureLiteral(reader.whole, u, Unread(), size, len, w.Out(), w.Expected());
      label before:
      ip := at;
      w.Unaffected@before();
      assert Buffered() == u[size..];
      ok := AppendLiteral(w, len);
    }

    method ProcessLiteral(w: Writer, c: byte, ghost goal: Fate) returns (ok: bool, preload: nat)
      requires Ready() && Apart(w) && !eof && !hung && Goal(w) == goal && c == mem[ip] && c % 4 == 0
      modifies this, reader, w.Repr()
      ensures w.Kept()
      ensures ok ==> Going(w, preload, goal) && Rank(w).Below(old(Rank(w)))
      ensures !ok ==> Stopped(w, goal)
    {
      hide Writer.Valid, Writer.Out, Writer.Expected, Writer.Beyond, Future, TagSize, Slack;
      ok, preload := TryFast(w, c, goal);
      if ok { return; }
      ok := SlowLiteral(w, c, goal);
      if !ok { return; }
      ok, preload := Resume(w, goal);
    }

    /** The fast loop, then a refill if it moved the cursor. */
    method RunFast(w: Writer, preload0: nat, safe: seq<byte>, ghost goal: Fate) returns (ok: bool, preload: nat)
      requires Going(w, preload0, goal) && |safe| == SLOP_BYTES
      modifies this, reader, w.Repr()
      ensures w.Kept()
      ensures ok ==> Going(w, preload, goal) && Rank(w).AtMost(old(Rank(w)))
      ensures !ok ==> Stopped(w, goal)
    {
      hide Writer.Valid, Writer.Out, Writer.Expected, Writer.Beyond, Decode, TagSize, Future;
      ghost var u, t, out := Buffered(), Unread(), w.Out();
      var ran, ip';
      ran, ip' := w.RunBranchless(mem, ip, ipLimit, safe);
      assert this !in w.Repr() && reader !in w.Repr();
      if !ran { return true, preload0; }
      assert u == mem[ip..ip'] + mem[ip'..ipLimit];
      FutureDecode(reader.whole, mem[ip..ip'], mem[ip'..ipLimit], t, out, w.Expected());
      DecodeExtends(mem[ip..ip'], out);
      label before:
      ip := ip';
      w.Unaffected@before();
      ok, preload := Resume(w, goal);
    }

    /** DecompressAllTags: afterwards the writer holds the outcome of the whole remaining input. */
    method DecompressAllTags(w: Writer, safe: seq<byte>)
      requires Apart(w) && !eof && !hung && |safe| == SLOP_BYTES
      modifies this, reader, w.Repr()
      ensures w.Kept()
      ensures Stopped(w, old(Goal(w)))
    {
      hide Writer.Valid, Writer.Out, Writer.Expected, Writer.Beyond, Future, TagSize, Slack;
      ghost var goal := Goal(w);
      label start:
      ResetLimit();
      w.Unaffected@start();
      var ok, preload := Resume(w, goal);
      while ok
        invariant w.Kept()
        invariant ok ==> Going(w, preload, goal)
        invariant !ok ==> Stopped(w, goal)
        decreases ok, if ok then Rank(w).room else 0, if ok then Rank(w).unread else 0, if ok then Rank(w).buffered else 0
      {
        ok, preload := RunFast(w, preload, safe, goal);
        if ok {
          var c: byte := preload % 256;
          if c % 4 == 0 {
            ok, preload := ProcessLiteral(w, c, goal);
          } else {
            ok, preload := ProcessCopy(w, c, goal);
          }
        }
      }
    }
  }

  /** InternalUncompressAllTags: everything after the preamble. */
  method InternalUncompressAllTags(decompressor: SnappyDecompressor, w: Writer, len: nat, safe: seq<byte>) returns (v: Verdict)
    requires decompressor.Valid() && !decompressor.eof && !decompressor.hung && w.Empty(len) && |safe| == SLOP_BYTES
    requires decompressor !in w.Repr() && decompressor.reader !in w.Repr()
    modifies decompressor, decompressor.reader, w.Repr()
    ensures old(decompressor.Coming([], len)).Allows(v)
    ensures v.Yes? ==> w.Valid() && Accepted(w.Out()) == old(decompressor.Coming([], len))
    ensures w.Flat? ==> len <= w.flat.buf.Length && w.flat.buf[len..] == old(w.flat.buf[len..])
  {
    hide Writer.Valid, Writer.Out, Future;
    w.EmptyRoom(len);
    w.SetExpectedLength(len);
    decompressor.DecompressAllTags(w, safe);
    if decompressor.hung { return Never; }
    v := No;
    if decompressor.eof {
      var ok := w.CheckLength();
      if ok { v := Yes; }
    }
  }

  /** What is received of a stream: its preamble, then what comes of its body from a flat or a fragmented source. */
  ghost function Received(stream: seq<byte>, whole: bool): Fate {
    match Parse(stream, 0)
    case Bad => Rejected
    case Good(n, used) => Future(whole, [], stream[used..], [], n)
  }

  lemma ReceivedBody(stream: seq<byte>, whole: bool)
    ensures Parse(stream, 0).Bad? ==> Received(stream, whole) == Rejected
    ensures Parse(stream, 0).Good? ==>
              Received(stream, whole) == Future(whole, [], stream[Parse(stream, 0).used..], [], Parse(stream, 0).value)
  {
    hide Parse, Future;
  }

  /** Whether a source can be read: fragments below 2^32 bytes always, one flat piece if the body is below that. */
  predicate Readable(stream: seq<byte>, whole: bool) {
    !whole || |Body(stream)| < TWO32
  }

  /** A readable stream is received as it is meant.  Any other is never accepted, and one that means something makes the
      decompressor hang. */
  lemma ReceivedExact(stream: seq<byte>, whole: bool)
    ensures Readable(stream, whole) ==> Received(stream, whole) == FateOf(Uncompressed(stream))
    ensures !Readable(stream, whole) ==> !Received(stream, whole).Accepted?
    ensures !Readable(stream, whole) && Uncompressed(stream).Some? ==> Received(stream, whole) == Hangs
  {
    hide Parse, Code, Outcome;
    match Parse(stream, 0) {
      case Bad =>
      case Good(n, used) =>
        FlatExact(stream[used..], [], n);
        assert [] + stream[used..] == stream[used..];
    }
  }

  /** InternalUncompress: for either kind of source and each of the three writers, success and output are those
      received; a flat buffer is not touched past the announced length. */
  method InternalUncompress(reader: Source, w: Writer, safe: seq<byte>) returns (v: Verdict)
    requires reader !in w.Repr() && |safe| == SLOP_BYTES
    requires Parse(reader.contents, 0).Good? ==> w.Empty(Parse(reader.contents, 0).value)
    modifies reader, w.Repr()
    ensures Received(old(reader.contents), reader.whole).Allows(v)
    ensures v.Yes? ==> w.Valid() && Accepted(w.Out()) == Received(old(reader.contents), reader.whole)
    ensures w.Flat? && Parse(old(reader.contents), 0).Good? ==>
              var len := Parse(old(reader.contents), 0).value;
              len <= w.flat.buf.Length && w.flat.buf[len..] == old(w.flat.buf[len..])
  {
    hide Writer.Valid, Writer.Out, Future, Parse, Writer.Empty, Received;
    ReceivedBody(reader.contents, reader.whole);
    label start:
    var r := ReadUncompressedLength(reader);
    if r.Bad? { return No; }
    w.StillEmpty@start(r.value);
    v := UncompressBody(reader, w, r.value, safe);
  }

  method UncompressBody(reader: Source, w: Writer, len: nat, safe: seq<byte>) returns (v: Verdict)
    requires reader !in w.Repr() && |safe| == SLOP_BYTES && w.Empty(len)
    modifies reader, w.Repr()
    ensures Future(reader.whole, [], old(reader.contents), [], len).Allows(v)
    ensures v.Yes? ==> w.Valid() && Accepted(w.Out()) == Future(reader.whole, [], old(reader.contents), [], len)
    ensures w.Flat? ==> len <= w.flat.buf.Length && w.flat.buf[len..] == old(w.flat.buf[len..])
  {
    hide Writer.Valid, Writer.Out, Future, Writer.Empty;
    label start:
    var decompressor := new SnappyDecompressor(reader);
    w.StillEmpty@start(len);
    assert decompressor !in w.Repr();
    assert decompressor.Coming([], len) == Future(reader.whole, [], old(reader.contents), [], len);
    v := InternalUncompressAllTags(decompressor, w, len, safe);
  }
}
