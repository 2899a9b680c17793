/**
 What the decompressor makes of its input (deps/snappy/snappy.cc).  It counts the bytes of a fragment in 32 bits: a source
 that yields 2^32 bytes or more at once is skipped by too little afterwards, and a fragment of a multiple of 2^32 bytes adds
 nothing to a tag that is being stitched, for ever.  `Code` is what comes of that for a source that is one flat piece.
 */
module SnappyFlat {
  import opened Bytes
  import opened SnappyFormat

  const MAXIMUM_TAG_LENGTH: nat := 5

  /** What a call answers, if it does. */
  datatype Verdict = Yes | No | Never

  /** What is in store for a call: success with its output, failure, an endless loop, or one of the last two, depending on
      whether the writer notices at once that there is too much output. */
  datatype Fate = Accepted(out: seq<byte>) | Rejected | Hangs | Lost {

    predicate Allows(v: Verdict) {
      match this
      case Accepted(_) => v.Yes?
      case Rejected => v.No?
      case Hangs => v.Never?
      case Lost => !v.Yes?
    }
  }

  function FateOf(meaning: Option<seq<byte>>): Fate {
    if meaning.Some? then Accepted(meaning.value) else Rejected
  }

  /** Room left in the output, one more than the bytes that still fit. */
  function Slack(out: seq<byte>, expected: nat): nat {
    if |out| <= expected then expected + 1 - |out| else 0
  }

  /** What a 32-bit count of a fragment leaves unread, if the fragment is all of `t`. */
  function Unskipped(t: seq<byte>): seq<byte> {
    t[|t| % TWO32..]
  }

  /** Whether RefillTag decodes a new fragment in place; otherwise its 32-bit count of the fragment is too small. */
  predicate InPlace(t: seq<byte>) {
    |t| < TWO32 || |t| % TWO32 >= MAXIMUM_TAG_LENGTH
  }

  datatype Stitching = Joined | Ended | Endless

  /** How the collection of `j` more bytes of a tag ends. */
  function Stitched(whole: bool, t: seq<byte>, j: nat): Stitching {
    if j <= if whole then |t| % TWO32 else |t| then Joined
    else if whole && |t| >= TWO32 then Endless
    else Ended
  }

  /** Too much output never leads to success. */
  function Overflow(t: seq<byte>): Fate {
    if |t| < TWO32 then Rejected else Lost
  }

  /** The fate with `u` buffered, `t` still to be fetched and `out` produced. */
  ghost function Code(u: seq<byte>, t: seq<byte>, out: seq<byte>, expected: nat): Fate
    decreases Slack(out, expected), |t|, |u|, 0
  {
    if |out| > expected then Overflow(t)
    else if u == [] then
      if t == [] then (if |out| == expected then Accepted(out) else Rejected)
      else if InPlace(t) then Code(t, Unskipped(t), out, expected)
      else if |t| % TWO32 < TagSize(t[0]) then Hangs
      else Code(t[..|t| % TWO32], Unskipped(t), out, expected)
    else if |u| < TagSize(u[0]) then
      var j := TagSize(u[0]) - |u|;
      match Stitched(true, t, j)
      case Joined => Code(u + t[..j], t[j..], out, expected)
      case Ended => Rejected
      case Endless => Hangs
    else
      match ReadTag(u)
      case LiteralTag(n, len) => LiteralCode(u[n..], t, len, out, expected)
      case CopyTag(n, offset, len) =>
        if 0 < offset <= |out| then Code(u[n..], t, Overlap(out, offset, len), expected) else Rejected
  }

  /** The same, with `len` bytes of a literal due first. */
  ghost function LiteralCode(u: seq<byte>, t: seq<byte>, len: nat, out: seq<byte>, expected: nat): Fate
    decreases Slack(out, expected), |t|, |u|, 1
  {
    if |out| > expected then Overflow(t)
    else if len <= |u| then Code(u[len..], t, out + u[..len], expected)
    else if |t| < len - |u| then Rejected
    else Code(t[len - |u|..], Unskipped(t), out + u + t[..len - |u|], expected)
  }

  lemma CodeFetch(t: seq<byte>, out: seq<byte>, expected: nat)
    requires t != [] && |out| <= expected
    ensures Code([], t, out, expected) ==
            if InPlace(t) then Code(t, Unskipped(t), out, expected)
            else if |t| % TWO32 < TagSize(t[0]) then Hangs
            else Code(t[..|t| % TWO32], Unskipped(t), out, expected)
  {
    hide TagSize;
  }

  lemma CodeStitch(u: seq<byte>, t: seq<byte>, out: seq<byte>, expected: nat)
    requires u != [] && |u| < TagSize(u[0]) && |out| <= expected
    ensures var j := TagSize(u[0]) - |u|;
            Code(u, t, out, expected) ==
            match Stitched(true, t, j) {
              case Joined => Code(u + t[..j], t[j..], out, expected)
              case Ended => Rejected
              case Endless => Hangs
            }
  {
  }

  lemma CodeLiteral(u: seq<byte>, t: seq<byte>, n: nat, len: nat, out: seq<byte>, expected: nat)
    requires u != [] && TagSize(u[0]) <= |u| && ReadTag(u) == LiteralTag(n, len)
    ensures Code(u, t, out, expected) == LiteralCode(u[n..], t, len, out, expected)
  {
  }

  lemma CodeCopy(u: seq<byte>, t: seq<byte>, n: nat, offset: nat, len: nat, out: seq<byte>, expected: nat)
    requires u != [] && TagSize(u[0]) <= |u| && ReadTag(u) == CopyTag(n, offset, len)
    ensures 0 < offset <= |out| ==> Code(u, t, out, expected) == Code(u[n..], t, Overlap(out, offset, len), expected)
    ensures !(0 < offset <= |out| && |out| + len <= expected) ==> Code(u, t, out, expected).Allows(No)
  {
    hide ReadTag, TagSize;
    assert 0 < offset <= |out| ==> |Overlap(out, offset, len)| == |out| + len;
  }

  lemma CodeOverflow(u: seq<byte>, t: seq<byte>, out: seq<byte>, expected: nat)
    requires |out| > expected
    ensures Code(u, t, out, expected) == Overflow(t)
  {
  }

  lemma CodeEnd(out: seq<byte>, expected: nat)
    ensures Code([], [], out, expected) == if |out| == expected then Accepted(out) else Rejected
  {
  }

  /** Whole elements in the buffer are decoded as the format says, whatever was miscounted. */
  lemma {:induction false} CodeDecode(s: seq<byte>, u: seq<byte>, t: seq<byte>, out: seq<byte>, expected: nat)
    requires Decode(s, out).Some?
    ensures Code(s + u, t, out, expected) == Code(u, t, Decode(s, out).value, expected)
    decreases |s|
  {
    hide Code, Decode, Step;
    if s == [] {
      assert s + u == u;
      NoStep(out);
    } else {
      FirstStep(s, out);
      var r := Step(s, out);
      CodeStep(s, u, t, out, expected);
      CodeDecode(s[r.used..], u, t, r.out, expected);
    }
  }

  lemma CodeStep(s: seq<byte>, u: seq<byte>, t: seq<byte>, out: seq<byte>, expected: nat)
    requires s != [] && Step(s, out).Next?
    ensures var r := Step(s, out);
            Code(s + u, t, out, expected) == Code(s[r.used..] + u, t, r.out, expected)
  {
    hide Code, ReadTag, TagSize, LiteralCode, Overlap;
    ReadTagAppend(s, u);
    match ReadTag(s) {
      case LiteralTag(n, len) =>
        CodeLiteral(s + u, t, n, len, out, expected);
        WholeLiteral(s, u, t, n, len, out, expected);
      case CopyTag(n, offset, len) =>
        CodeCopy(s + u, t, n, offset, len, out, expected);
        assert (s + u)[n..] == s[n..] + u;
    }
  }

  lemma WholeLiteral(s: seq<byte>, u: seq<byte>, t: seq<byte>, n: nat, len: nat, out: seq<byte>, expected: nat)
    requires n + len <= |s|
    ensures LiteralCode((s + u)[n..], t, len, out, expected) ==
            Code(s[n + len..] + u, t, out + s[n..n + len], expected)
  {
    hide Code;
    var v := (s + u)[n..];
    assert v[len..] == s[n + len..] + u && v[..len] == s[n..n + len];
    if |out| > expected {
      CodeOverflow(s[n + len..] + u, t, out + s[n..n + len], expected);
    }
  }

  lemma OutcomeStep(s: seq<byte>, out: seq<byte>, expected: nat)
    requires s != []
    ensures Outcome(s, out, expected) ==
            match Step(s, out) case Stuck => None case Next(used, out') => Outcome(s[used..], out', expected)
  {
    hide Step;
  }

  lemma OutcomeNothing(out: seq<byte>, expected: nat)
    ensures Outcome([], out, expected) == if |out| == expected then Some(out) else None
  {
  }

  /** The outcome of a stream of which `len` literal bytes are due first. */
  function LiteralOutcome(s: seq<byte>, len: nat, out: seq<byte>, expected: nat): Option<seq<byte>> {
    if |s| < len then None else Outcome(s[len..], out + s[..len], expected)
  }

  lemma LiteralOutcomeStep(s: seq<byte>, n: nat, len: nat, out: seq<byte>, expected: nat)
    requires s != [] && TagSize(s[0]) <= |s| && ReadTag(s) == LiteralTag(n, len)
    ensures Outcome(s, out, expected) == LiteralOutcome(s[n..], len, out, expected)
  {
    hide Outcome, ReadTag, TagSize;
    OutcomeStep(s, out, expected);
    if n + len <= |s| {
      assert s[n..][len..] == s[n + len..] && s[n..][..len] == s[n..n + len];
    }
  }

  /** A literal that ends in the buffer. */
  lemma LiteralHere(u: seq<byte>, t: seq<byte>, len: nat, out: seq<byte>, expected: nat)
    requires len <= |u|
    ensures LiteralCode(u, t, len, out, expected) == Code(u[len..], t, out + u[..len], expected)
    ensures LiteralOutcome(u + t, len, out, expected) == Outcome(u[len..] + t, out + u[..len], expected)
  {
    hide Code, Outcome;
    assert (u + t)[len..] == u[len..] + t && (u + t)[..len] == u[..len];
    if |out| > expected {
      CodeOverflow(u[len..], t, out + u[..len], expected);
    }
  }

  lemma ShortTag(c: byte)
    ensures 1 <= TagSize(c) <= 5
  {
  }

  /** The fate for either kind of source: one flat piece, or fragments that are each below 2^32 bytes. */
  ghost function Future(whole: bool, u: seq<byte>, t: seq<byte>, out: seq<byte>, expected: nat): Fate {
    if whole then Code(u, t, out, expected) else FateOf(Outcome(u + t, out, expected))
  }

  ghost function LiteralFuture(whole: bool, u: seq<byte>, t: seq<byte>, len: nat, out: seq<byte>, expected: nat): Fate {
    if whole then LiteralCode(u, t, len, out, expected) else FateOf(LiteralOutcome(u + t, len, out, expected))
  }

  lemma FutureEnd(whole: bool, out: seq<byte>, expected: nat)
    ensures Future(whole, [], [], out, expected) == if |out| == expected then Accepted(out) else Rejected
  {
    CodeEnd(out, expected);
    OutcomeNothing(out, expected);
    var nothing: seq<byte> := [];
    assert nothing + [] == [];
  }

  /** A tag cut at the end of the buffer. */
  lemma FutureStitch(whole: bool, u: seq<byte>, t: seq<byte>, j: nat, out: seq<byte>, expected: nat)
    requires u != [] && |u| + j == TagSize(u[0]) && j > 0
    ensures Stitched(whole, t, j).Joined? ==>
              Future(whole, u, t, out, expected) == Future(whole, u + t[..j], t[j..], out, expected)
    ensures Stitched(whole, t, j).Ended? ==> Future(whole, u, t, out, expected).Allows(No)
    ensures Stitched(whole, t, j).Endless? ==> Future(whole, u, t, out, expected).Allows(Never)
  {
    hide Code, Outcome, TagSize;
    if whole {
      if |out| > expected {
        CodeOverflow(u, t, out, expected);
        if Stitched(whole, t, j).Joined? {
          CodeOverflow(u + t[..j], t[j..], out, expected);
        }
      } else {
        CodeStitch(u, t, out, expected);
      }
    } else if |t| < j {
      OutcomeStep(u + t, out, expected);
    } else {
      assert u + t[..j] + t[j..] == u + t;
    }
  }

  lemma FutureLiteral(whole: bool, u: seq<byte>, t: seq<byte>, n: nat, len: nat, out: seq<byte>, expected: nat)
    requires u != [] && TagSize(u[0]) <= |u| && ReadTag(u) == LiteralTag(n, len)
    ensures Future(whole, u, t, out, expected) == LiteralFuture(whole, u[n..], t, len, out, expected)
  {
    hide Code, LiteralCode, Outcome, LiteralOutcome, TagSize, ReadTag;
    CodeLiteral(u, t, n, len, out, expected);
    ReadTagAppend(u, t);
    LiteralOutcomeStep(u + t, n, len, out, expected);
    assert (u + t)[n..] == u[n..] + t;
  }

  lemma FutureCopy(whole: bool, u: seq<byte>, t: seq<byte>, n: nat, offset: nat, len: nat, out: seq<byte>, expected: nat)
    requires u != [] && TagSize(u[0]) <= |u| && ReadTag(u) == CopyTag(n, offset, len)
    ensures 0 < offset <= |out| ==>
              Future(whole, u, t, out, expected) == Future(whole, u[n..], t, Overlap(out, offset, len), expected)
    ensures !(0 < offset <= |out| && |out| + len <= expected) ==> Future(whole, u, t, out, expected).Allows(No)
  {
    hide Code, Outcome, TagSize, ReadTag, Overlap;
    CodeCopy(u, t, n, offset, len, out, expected);
    ReadTagAppend(u, t);
    OutcomeStep(u + t, out, expected);
    assert (u + t)[n..] == u[n..] + t;
    if 0 < offset <= |out| && |out| + len > expected {
      OutcomeOverflow(u[n..] + t, Overlap(out, offset, len), expected);
    }
  }

  lemma FutureDecode(whole: bool, s: seq<byte>, u: seq<byte>, t: seq<byte>, out: seq<byte>, expected: nat)
    requires Decode(s, out).Some?
    ensures Future(whole, s + u, t, out, expected) == Future(whole, u, t, Decode(s, out).value, expected)
  {
    hide Code, Decode;
    CodeDecode(s, u, t, out, expected);
    DecodeAppend(s, u + t, out);
    assert s + u + t == s + (u + t);
  }

  lemma LiteralBuffered(whole: bool, u: seq<byte>, t: seq<byte>, len: nat, out: seq<byte>, expected: nat)
    requires len <= |u|
    ensures LiteralFuture(whole, u, t, len, out, expected) == Future(whole, u[len..], t, out + u[..len], expected)
  {
    hide Code, LiteralCode, Outcome, LiteralOutcome;
    LiteralHere(u, t, len, out, expected);
  }

  lemma LiteralOverflow(whole: bool, u: seq<byte>, t: seq<byte>, len: nat, out: seq<byte>, expected: nat)
    requires |out| + len > expected
    ensures LiteralFuture(whole, u, t, len, out, expected).Allows(No)
  {
    hide Code, Outcome;
    var s := u + t;
    if len <= |s| {
      OutcomeOverflow(s[len..], out + s[..len], expected);
    }
    if len <= |u| {
      CodeOverflow(u[len..], t, out + u[..len], expected);
    } else if len - |u| <= |t| {
      CodeOverflow(t[len - |u|..], Unskipped(t), out + u + t[..len - |u|], expected);
    }
  }

  /** A fetch when nothing is buffered: `u` is the new fragment and `t'` is left, by a 32-bit count. */
  ghost predicate Fetch(whole: bool, t: seq<byte>, u: seq<byte>, t': seq<byte>) {
    && u != [] && u <= t && t' == t[|u| % TWO32..]
    && if whole then u == t else |u| < TWO32
  }

  /** A literal that goes on in the next fragment, if there is one. */
  lemma LiteralFetch(whole: bool, u: seq<byte>, t: seq<byte>, u': seq<byte>, t': seq<byte>, len: nat, out: seq<byte>, expected: nat)
    requires |u| < len < TWO32
    ensures t == [] ==> LiteralFuture(whole, u, t, len, out, expected).Allows(No)
    ensures Fetch(whole, t, u', t') ==>
              LiteralFuture(whole, u, t, len, out, expected) == LiteralFuture(whole, u', t', len - |u|, out + u, expected)
  {
    hide Code, Outcome;
    if Fetch(whole, t, u', t') {
      var m := len - |u|;
      if whole {
        LiteralRefetch(u, t, m, out, expected);
      } else {
        assert u' + t' == t;
        if m <= |t| {
          assert (u + t)[len..] == t[m..] && out + (u + t)[..len] == out + u + t[..m];
        }
      }
    }
  }

  lemma LiteralRefetch(u: seq<byte>, t: seq<byte>, m: nat, out: seq<byte>, expected: nat)
    requires 0 < m < TWO32
    ensures LiteralCode(u, t, |u| + m, out, expected) == LiteralCode(t, Unskipped(t), m, out + u, expected)
  {
    hide Code;
    if m <= |t| && |out + u| > expected {
      CodeOverflow(t[m..], Unskipped(t), out + u + t[..m], expected);
    }
  }

  /** The buffer RefillTag works on: what was there, or a new fragment. */
  ghost predicate Supply(whole: bool, u0: seq<byte>, t0: seq<byte>, u: seq<byte>, t: seq<byte>) {
    if u0 == [] then Fetch(whole, t0, u, t) else |u0| < 5 && u == u0 && t == t0
  }

  /** What RefillTag does with the `count` bytes it believes to have. */
  lemma RefillExact(whole: bool, u0: seq<byte>, t0: seq<byte>, u: seq<byte>, t: seq<byte>, count: nat, out: seq<byte>, expected: nat)
    requires Supply(whole, u0, t0, u, t) && count == |u| % TWO32
    ensures var f := Future(whole, u0, t0, out, expected);
            if count < TagSize(u[0]) then
              var j := TagSize(u[0]) - count;
              match Stitched(whole, t, j) {
                case Joined => f == Future(whole, u[..count] + t[..j], t[j..], out, expected)
                case Ended => f.Allows(No)
                case Endless => f.Allows(Never)
              }
            else f == Future(whole, if count < 5 then u[..count] else u, t, out, expected)
  {
    hide Future, TagSize, Stitched;
    ShortTag(u[0]);
    if whole && u0 == [] && !InPlace(t0) {
      RefillShort(t0, count, out, expected);
    } else {
      RefillPlain(whole, u0, t0, u, t, out, expected);
      if |u| < TWO32 {
        assert u[..count] == u;
        if count < TagSize(u[0]) {
          FutureStitch(whole, u, t, TagSize(u[0]) - count, out, expected);
        }
      }
    }
  }

  lemma RefillPlain(whole: bool, u0: seq<byte>, t0: seq<byte>, u: seq<byte>, t: seq<byte>, out: seq<byte>, expected: nat)
    requires Supply(whole, u0, t0, u, t) && (whole && u0 == [] ==> InPlace(t0))
    ensures Future(whole, u0, t0, out, expected) == Future(whole, u, t, out, expected)
  {
    hide Code, Outcome;
    if u0 == [] {
      if !whole {
        assert [] + t0 == t0 == u + t;
      } else if |out| > expected {
        CodeOverflow([], t0, out, expected);
        CodeOverflow(u, t, out, expected);
      } else {
        CodeFetch(t0, out, expected);
      }
    }
  }

  /** A flat piece whose size is, in 32 bits, below the largest tag: what it leaves is a multiple of 2^32 bytes. */
  lemma RefillShort(t0: seq<byte>, count: nat, out: seq<byte>, expected: nat)
    requires t0 != [] && !InPlace(t0) && count == |t0| % TWO32
    ensures var f := Future(true, [], t0, out, expected);
            if count < TagSize(t0[0]) then
              Stitched(true, Unskipped(t0), TagSize(t0[0]) - count).Endless? && f.Allows(Never)
            else f == Future(true, t0[..count], Unskipped(t0), out, expected)
  {
    hide Code, TagSize;
    ShortTag(t0[0]);
    if |out| > expected {
      CodeOverflow([], t0, out, expected);
      CodeOverflow(t0[..count], Unskipped(t0), out, expected);
    } else {
      CodeFetch(t0, out, expected);
    }
  }
}
