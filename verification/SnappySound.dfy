/** When the decompressor makes of one flat piece what the stream means: exactly when the piece is below 2^32 bytes. */
module SnappySound {
  import opened Bytes
  import opened SnappyFormat
  import opened SnappyFlat

  /** With less than 2^32 bytes to come, the fate is what the remaining stream means. */
  lemma {:induction false} CodeSmall(u: seq<byte>, t: seq<byte>, out: seq<byte>, expected: nat)
    requires |t| < TWO32
    ensures Code(u, t, out, expected) == FateOf(Outcome(u + t, out, expected))
    decreases Slack(out, expected), |t|, |u|, 1
  {
    hide Code, Outcome, Step;
    if |out| > expected {
      CodeOverflow(u, t, out, expected);
      OutcomeOverflow(u + t, out, expected);
    } else if u == [] {
      assert u + t == t;
      if t == [] {
        CodeEnd(out, expected);
        OutcomeNothing(out, expected);
      } else {
        CodeFetch(t, out, expected);
        assert Unskipped(t) == [] && t + [] == t;
        CodeSmall(t, [], out, expected);
      }
    } else if |u| < TagSize(u[0]) {
      SmallStitch(u, t, out, expected);
    } else {
      SmallTag(u, t, out, expected);
    }
  }

  lemma {:induction false} SmallStitch(u: seq<byte>, t: seq<byte>, out: seq<byte>, expected: nat)
    requires u != [] && |u| < TagSize(u[0]) && |t| < TWO32 && |out| <= expected
    ensures Code(u, t, out, expected) == FateOf(Outcome(u + t, out, expected))
    decreases Slack(out, expected), |t|, |u|, 0
  {
    hide Code, Outcome, TagSize;
    var j := TagSize(u[0]) - |u|;
    CodeStitch(u, t, out, expected);
    if |t| < j {
      OutcomeStep(u + t, out, expected);
    } else {
      CodeSmall(u + t[..j], t[j..], out, expected);
      assert u + t[..j] + t[j..] == u + t;
    }
  }

  lemma {:induction false} SmallTag(u: seq<byte>, t: seq<byte>, out: seq<byte>, expected: nat)
    requires u != [] && TagSize(u[0]) <= |u| && |t| < TWO32 && |out| <= expected
    ensures Code(u, t, out, expected) == FateOf(Outcome(u + t, out, expected))
    decreases Slack(out, expected), |t|, |u|, 0
  {
    hide Code, Outcome, ReadTag, TagSize, Overlap, LiteralCode;
    OutcomeStep(u + t, out, expected);
    ReadTagAppend(u, t);
    match ReadTag(u) {
      case LiteralTag(n, len) =>
        CodeLiteral(u, t, n, len, out, expected);
        assert (u + t)[n..] == u[n..] + t;
        SmallLiteral(u[n..], t, len, out, expected);
        LiteralOutcomeStep(u + t, n, len, out, expected);
      case CopyTag(n, offset, len) =>
        assert (u + t)[n..] == u[n..] + t;
        if 0 < offset <= |out| {
          CodeCopy(u, t, n, offset, len, out, expected);
          CodeSmall(u[n..], t, Overlap(out, offset, len), expected);
        } else {
          IllegalCopy(u, t, out, expected);
        }
    }
  }

  lemma IllegalCopy(u: seq<byte>, t: seq<byte>, out: seq<byte>, expected: nat)
    requires u != [] && TagSize(u[0]) <= |u| && |out| <= expected
    requires ReadTag(u).CopyTag? && !(0 < ReadTag(u).offset <= |out|)
    ensures Code(u, t, out, expected) == Rejected
  {
  }

  lemma {:induction false} SmallLiteral(u: seq<byte>, t: seq<byte>, len: nat, out: seq<byte>, expected: nat)
    requires |t| < TWO32
    ensures LiteralCode(u, t, len, out, expected) == FateOf(LiteralOutcome(u + t, len, out, expected))
    decreases Slack(out, expected), |t|, |u|, 2
  {
    hide Code, Outcome;
    var s := u + t;
    if |out| > expected {
      if len <= |s| {
        OutcomeOverflow(s[len..], out + s[..len], expected);
      }
    } else if len <= |u| {
      assert s[len..] == u[len..] + t && s[..len] == u[..len];
      CodeSmall(u[len..], t, out + u[..len], expected);
    } else if len <= |s| {
      var m := len - |u|;
      assert s[len..] == t[m..] + [] && out + s[..len] == out + u + t[..m] && Unskipped(t) == [];
      CodeSmall(t[m..], [], out + u + t[..m], expected);
    }
  }

  /** With 2^32 bytes or more to come there is no success, whatever is buffered: at least 2^32 bytes are always left. */
  lemma {:induction false} NeverAccepted(u: seq<byte>, t: seq<byte>, out: seq<byte>, expected: nat)
    requires |t| >= TWO32
    ensures !Code(u, t, out, expected).Accepted?
    decreases Slack(out, expected), |t|, |u|, 1
  {
    hide Code, LiteralCode, TagSize, ReadTag, Overlap;
    if |out| > expected {
      CodeOverflow(u, t, out, expected);
    } else if u == [] {
      CodeFetch(t, out, expected);
      ShortTag(t[0]);
      if InPlace(t) {
        NeverAccepted(t, Unskipped(t), out, expected);
      } else if |t| % TWO32 >= TagSize(t[0]) {
        NeverAccepted(t[..|t| % TWO32], Unskipped(t), out, expected);
      }
    } else if |u| < TagSize(u[0]) {
      CodeStitch(u, t, out, expected);
      var j := TagSize(u[0]) - |u|;
      if Stitched(true, t, j).Joined? {
        NeverAccepted(u + t[..j], t[j..], out, expected);
      }
    } else {
      TagNeverAccepted(u, t, out, expected);
    }
  }

  lemma {:induction false} TagNeverAccepted(u: seq<byte>, t: seq<byte>, out: seq<byte>, expected: nat)
    requires |t| >= TWO32 && u != [] && TagSize(u[0]) <= |u| && |out| <= expected
    ensures !Code(u, t, out, expected).Accepted?
    decreases Slack(out, expected), |t|, |u|, 0
  {
    hide Code, LiteralCode, TagSize, ReadTag, Overlap;
    match ReadTag(u) {
      case LiteralTag(n, len) =>
        CodeLiteral(u, t, n, len, out, expected);
        LiteralNeverAccepted(u[n..], t, len, out, expected);
      case CopyTag(n, offset, len) =>
        CodeCopy(u, t, n, offset, len, out, expected);
        if 0 < offset <= |out| {
          NeverAccepted(u[n..], t, Overlap(out, offset, len), expected);
        }
    }
  }

  lemma {:induction false} LiteralNeverAccepted(u: seq<byte>, t: seq<byte>, len: nat, out: seq<byte>, expected: nat)
    requires |t| >= TWO32
    ensures !LiteralCode(u, t, len, out, expected).Accepted?
    decreases Slack(out, expected), |t|, |u|, 2
  {
    hide Code;
    if |out| <= expected {
      if len <= |u| {
        NeverAccepted(u[len..], t, out + u[..len], expected);
      } else if len - |u| <= |t| {
        NeverAccepted(t[len - |u|..], Unskipped(t), out + u + t[..len - |u|], expected);
      }
    }
  }

  /** What a 32-bit count leaves of 2^32 bytes or more: the next tag is stitched from it without end. */
  ghost predicate Endless(t: seq<byte>) {
    t != [] && |t| % TWO32 == 0
  }

  lemma LeavesEndless(t: seq<byte>)
    requires |t| >= TWO32
    ensures Endless(Unskipped(t))
  {
  }

  lemma EndlessStitch(t: seq<byte>, out: seq<byte>, expected: nat)
    requires Endless(t) && |out| <= expected
    ensures Code([], t, out, expected) == Hangs
  {
    hide Code, TagSize;
    CodeFetch(t, out, expected);
    ShortTag(t[0]);
  }

  /** A piece in the buffer that decodes completely. */
  lemma HangsBehind(s: seq<byte>, t: seq<byte>, out: seq<byte>, expected: nat)
    requires Endless(t) && Outcome(s, out, expected).Some?
    ensures Code(s, t, out, expected) == Hangs
  {
    hide Code, Decode;
    CodeDecode(s, [], t, out, expected);
    assert s + [] == s;
    EndlessStitch(t, Decode(s, out).value, expected);
  }

  /** A literal that starts in the buffer, or right behind it, and ends in the next fragment. */
  lemma LiteralHangs(u: seq<byte>, t: seq<byte>, len: nat, out: seq<byte>, expected: nat)
    requires |u| < len < TWO32 && Endless(t) && LiteralOutcome(u + t, len, out, expected).Some? && |out| <= expected
    ensures LiteralCode(u, t, len, out, expected) == Hangs
  {
    hide Code, Outcome;
    var m := len - |u|;
    assert (u + t)[len..] == t[m..] && out + (u + t)[..len] == out + u + t[..m];
    LeavesEndless(t);
    HangsBehind(t[m..], Unskipped(t), out + u + t[..m], expected);
  }

  /** The last bytes of the scratch buffer. */
  lemma {:induction false} ScratchHangs(u: seq<byte>, t: seq<byte>, out: seq<byte>, expected: nat)
    requires |u| < 5 && Endless(t) && Outcome(u + t, out, expected).Some?
    ensures Code(u, t, out, expected) == Hangs
    decreases |u|
  {
    hide Code, Outcome, TagSize;
    if |out| > expected {
      OutcomeOverflow(u + t, out, expected);
    } else if u == [] {
      EndlessStitch(t, out, expected);
    } else if |u| < TagSize(u[0]) {
      CodeStitch(u, t, out, expected);
    } else {
      ScratchTagHangs(u, t, out, expected);
    }
  }

  lemma {:induction false} ScratchTagHangs(u: seq<byte>, t: seq<byte>, out: seq<byte>, expected: nat)
    requires 0 < |u| < 5 && TagSize(u[0]) <= |u| && Endless(t) && Outcome(u + t, out, expected).Some? && |out| <= expected
    ensures Code(u, t, out, expected) == Hangs
    decreases |u|, 0
  {
    hide Code, Outcome, TagSize, ReadTag, Overlap, LiteralCode, LiteralOutcome;
    ReadTagAppend(u, t);
    match ReadTag(u) {
      case LiteralTag(n, len) =>
        CodeLiteral(u, t, n, len, out, expected);
        LiteralOutcomeStep(u + t, n, len, out, expected);
        assert (u + t)[n..] == u[n..] + t;
        if |u| < n + len {
          LiteralHangs(u[n..], t, len, out, expected);
        } else {
          LiteralHere(u[n..], t, len, out, expected);
          ScratchHangs(u[n..][len..], t, out + u[n..][..len], expected);
        }
      case CopyTag(n, offset, len) =>
        CodeCopy(u, t, n, offset, len, out, expected);
        OutcomeStep(u + t, out, expected);
        assert (u + t)[n..] == u[n..] + t;
        ScratchHangs(u[n..], t, Overlap(out, offset, len), expected);
    }
  }

  /** A flat piece that means something and has 2^32 bytes or more. */
  lemma LongHangs(t: seq<byte>, out: seq<byte>, expected: nat)
    requires |t| >= TWO32 && Outcome(t, out, expected).Some?
    ensures Code([], t, out, expected) == Hangs
  {
    hide Code, Outcome, TagSize;
    if |out| > expected {
      OutcomeOverflow(t, out, expected);
    } else {
      CodeFetch(t, out, expected);
      LeavesEndless(t);
      if InPlace(t) {
        HangsBehind(t, Unskipped(t), out, expected);
      } else {
        var r := |t| % TWO32;
        assert t[..r] + t[r..] == t;
        ScratchHangs(t[..r], Unskipped(t), out, expected);
      }
    }
  }

  /** A flat piece of any length: below 2^32 bytes its fate is what it means; from there on it is never accepted, and if it
      means something the decompressor hangs. */
  lemma FlatExact(t: seq<byte>, out: seq<byte>, expected: nat)
    ensures |t| < TWO32 ==> Code([], t, out, expected) == FateOf(Outcome(t, out, expected))
    ensures |t| >= TWO32 ==> !Code([], t, out, expected).Accepted?
    ensures |t| >= TWO32 && Outcome(t, out, expected).Some? ==> Code([], t, out, expected) == Hangs
  {
    hide Code, Outcome;
    if |t| < TWO32 {
      CodeSmall([], t, out, expected);
      assert [] + t == t;
    } else {
      NeverAccepted([], t, out, expected);
      if Outcome(t, out, expected).Some? {
        LongHangs(t, out, expected);
      }
    }
  }
}
