/**
 CompressFragmentDoubleHash, the level 2 match finder (deps/snappy/snappy.cc).  It backtracks matches and
 records positions ahead of the match start; those positions lie inside the match, so they are behind the
 cursor again before any entry is read.
 */
module SnappyCompress2 {
  import opened Bytes
  import opened SnappyFormat
  import opened SnappyEmit
  import opened SnappyMatch
  import opened SnappyTable
  import opened SnappyCompress1

  /** Both tables hold only positions before `bound`. */
  ghost predicate BothBelow(table: array<uint16>, table2: array<uint16>, bound: nat)
    reads table, table2
  {
    table != table2 && Below(table, bound) && Below(table2, bound)
  }

  /** FindMatchLengthPlain past a four-byte match. */
  method FullMatch(input: seq<byte>, candidate: nat, ip: nat) returns (len: nat)
    requires Candidate(input, candidate, ip)
    ensures 4 <= len && IsLongest(input, candidate, ip, len)
  {
    var n := FindMatchLengthPlain(input, candidate + 4, ip + 4);
    CandidateMatch(input, candidate, ip, n);
    len := n + 4;
  }

  /** After a four-byte match at ip: prefer a longer match at ip + 1 found through the eight-byte table; the
      result is at least as long as any match with either candidate. */
  method TryNext(input: seq<byte>, candidate0: nat, ip0: nat, table: array<uint16>, table2: array<uint16>, hash8: nat -> nat)
    returns (ip: nat, candidate: nat, len: nat)
    requires |input| <= BLOCK_SIZE && ip0 + 9 <= |input|
    requires Candidate(input, candidate0, ip0) && BothBelow(table, table2, ip0 + 1)
    modifies table2
    ensures ip0 <= ip <= ip0 + 1 && 4 <= len && IsLongest(input, candidate, ip, len) && BothBelow(table, table2, ip0 + 1)
    ensures NoneLonger(input, candidate0, ip0, len)
    ensures var candidate2 := old(table2[Slot(table2, hash8, Load64(input, ip0 + 1))]);
            NoneLonger(input, candidate2, ip0 + 1, len) && (ip, candidate) in {(ip0, candidate0), (ip0 + 1, candidate2)}
    ensures table2[..] == if ip == ip0 then old(table2[..]) else Put(old(table2[..]), table2, hash8, Load64(input, ip0 + 1), ip0)
  {
    hide LE, NoneLonger;
    ip, candidate := ip0, candidate0;
    len := FullMatch(input, candidate, ip);
    var slot2 := Slot(table2, hash8, Load64(input, ip + 1));
    var candidate2 := table2[slot2];
    var len2 := FindMatchLengthPlain(input, candidate2, ip + 1);
    ghost var most := if len2 > len then len2 else len;
    LongestNoneLonger(input, candidate0, ip0, len, most);
    LongestNoneLonger(input, candidate2, ip0 + 1, len2, most);
    if len2 > len {
      table2[slot2] := ip;
      candidate, len, ip := candidate2, len2, ip + 1;
    }
  }

  /** The scan for a first match after `nextEmit`. */
  method FindCandidate2(input: seq<byte>, nextEmit: nat, table: array<uint16>, table2: array<uint16>,
                        hash4: nat -> nat, hash8: nat -> nat)
    returns (found: bool, ip: nat, candidate: nat, len: nat)
    requires |input| <= BLOCK_SIZE && nextEmit + 15 <= |input|
    requires BothBelow(table, table2, nextEmit + 1)
    modifies table, table2
    ensures found ==> nextEmit < ip && ip + 15 <= |input| && 4 <= len && IsLongest(input, candidate, ip, len)
    ensures found ==> BothBelow(table, table2, ip + 1)
    ensures Uniform(input) && nextEmit + 17 <= |input| ==> found && ip == nextEmit + 1 && ip + len == |input|
  {
    hide LE, Uniform;
    ip, candidate, len := nextEmit + 1, 0, 0;
    var data, skip := Load64(input, ip), 512;
    while true
      invariant nextEmit < ip && ip + 8 <= |input| && skip >= 512
      invariant BothBelow(table, table2, ip) && data == Load64(input, ip)
      invariant Uniform(input) && nextEmit + 17 <= |input| ==> ip == nextEmit + 1 && skip == 512
      decreases |input| - ip
    {
      LowWord(input, ip);
      var nextIp := ip + skip / 512;
      skip := skip + 1;
      if nextIp > |input| - 15 { return false, ip, candidate, len; }
      candidate := Exchange(table2, hash8, data, ip, ip);
      WidenBelow(table, ip, ip + 1);
      if Uniform(input) {
        UniformWord(input, candidate, ip);
      }
      if data % TWO32 == Load32(input, candidate) {
        SameWord(input, candidate, ip);
        len := FullMatch(input, candidate, ip);
        if Uniform(input) {
          UniformMatch(input, candidate, ip, len);
        }
        return true, ip, candidate, len;
      }
      candidate := Exchange(table, hash4, data % TWO32, ip, ip);
      if data % TWO32 == Load32(input, candidate) {
        SameWord(input, candidate, ip);
        ghost var bound := ip + 1;
        ip, candidate, len := TryNext(input, candidate, ip, table, table2, hash8);
        WidenBelow(table, bound, ip + 1);
        WidenBelow(table2, bound, ip + 1);
        return true, ip, candidate, len;
      }
      data := Load64(input, nextIp);
      WidenBelow(table, ip + 1, nextIp);
      WidenBelow(table2, ip + 1, nextIp);
      ip := nextIp;
    }
  }

  /** Extend the match backwards over bytes not yet emitted, as far as it goes. */
  method Backtrack(input: seq<byte>, nextEmit: nat, ip0: nat, candidate0: nat, len0: nat)
    returns (ip: nat, candidate: nat, len: nat)
    requires nextEmit < ip0 && IsMatch(input, candidate0, ip0, len0)
    ensures nextEmit <= ip <= ip0 && ip + len == ip0 + len0 && IsMatch(input, candidate, ip, len)
    ensures ip == nextEmit || candidate == 0 || input[ip - 1] != input[candidate - 1]
  {
    ip, candidate, len := ip0, candidate0, len0;
    while ip > nextEmit && candidate > 0 && input[ip - 1] == input[candidate - 1]
      invariant nextEmit <= ip <= ip0 && ip + len == ip0 + len0 && IsMatch(input, candidate, ip, len)
    {
      MatchExtendBack(input, candidate, ip, len);
      ip, candidate, len := ip - 1, candidate - 1, len + 1;
    }
  }

  /** Records the two positions after the match start, which lie inside the match. */
  method RecordAhead(input: seq<byte>, ip: nat, table: array<uint16>, table2: array<uint16>,
                     hash4: nat -> nat, hash8: nat -> nat, ghost bound: nat)
    requires |input| <= BLOCK_SIZE && ip + 10 <= |input| && BothBelow(table, table2, bound) && ip + 3 <= bound
    modifies table, table2
    ensures BothBelow(table, table2, bound)
    ensures table2[..] == Put(Put(old(table2[..]), table2, hash8, Load64(input, ip + 1), ip + 1), table2, hash8, Load64(input, ip + 2), ip + 2)
    ensures table[..] == Put(old(table[..]), table, hash4, Load32(input, ip + 1), ip + 1)
  {
    hide LE;
    var _ := Exchange(table2, hash8, Load64(input, ip + 1), ip + 1, bound);
    var _ := Exchange(table2, hash8, Load64(input, ip + 2), ip + 2, bound);
    var _ := Exchange(table, hash4, Load32(input, ip + 1), ip + 1, bound);
  }

  /** Records positions just behind the cursor after a match. */
  method RecordBehind(input: seq<byte>, ip: nat, table: array<uint16>, table2: array<uint16>,
                      hash4: nat -> nat, hash8: nat -> nat)
    requires 3 <= ip && ip + 8 <= |input| <= BLOCK_SIZE && BothBelow(table, table2, ip)
    modifies table, table2
    ensures BothBelow(table, table2, ip)
    ensures var far := if ip > 7 then Put(Put(old(table2[..]), table2, hash8, Load64(input, ip - 7), ip - 7), table2, hash8, Load64(input, ip - 4), ip - 4)
                       else old(table2[..]);
            table2[..] == Put(Put(far, table2, hash8, Load64(input, ip - 3), ip - 3), table2, hash8, Load64(input, ip - 2), ip - 2)
    ensures table[..] == Put(Put(old(table[..]), table, hash4, Load32(input, ip - 2), ip - 2), table, hash4, Load32(input, ip - 1), ip - 1)
  {
    hide LE;
    if ip > 7 {
      var _ := Exchange(table2, hash8, Load64(input, ip - 7), ip - 7, ip);
      var _ := Exchange(table2, hash8, Load64(input, ip - 4), ip - 4, ip);
    }
    var _ := Exchange(table2, hash8, Load64(input, ip - 3), ip - 3, ip);
    var _ := Exchange(table2, hash8, Load64(input, ip - 2), ip - 2, ip);
    var _ := Exchange(table, hash4, Load32(input, ip - 2), ip - 2, ip);
    var _ := Exchange(table, hash4, Load32(input, ip - 1), ip - 1, ip);
  }

  /** Looks for a match right at the cursor, first by eight bytes, then by four. */
  method Reprobe2(input: seq<byte>, ip: nat, table: array<uint16>, table2: array<uint16>,
                  hash4: nat -> nat, hash8: nat -> nat)
    returns (found: bool, candidate: nat, len: nat)
    requires ip + 8 <= |input| <= BLOCK_SIZE && BothBelow(table, table2, ip)
    modifies table, table2
    ensures BothBelow(table, table2, ip + 1)
    ensures found ==> 4 <= len && IsLongest(input, candidate, ip, len)
  {
    hide LE;
    len := 0;
    candidate := Exchange(table2, hash8, Load64(input, ip), ip, ip);
    if Load32(input, ip) == Load32(input, candidate) {
      SameWord(input, candidate, ip);
      len := FullMatch(input, candidate, ip);
      WidenBelow(table, ip, ip + 1);
      return true, candidate, len;
    }
    candidate := Exchange(table, hash4, Load32(input, ip), ip, ip);
    if Load32(input, ip) == Load32(input, candidate) {
      SameWord(input, candidate, ip);
      len := FullMatch(input, candidate, ip);
      return true, candidate, len;
    }
    found := false;
  }

  /** The copy loop. */
  method EmitMatches2(input: seq<byte>, dest: array<byte>, at: nat, op0: nat, ip0: nat, candidate0: nat, len0: nat,
                      table: array<uint16>, table2: array<uint16>, hash4: nat -> nat, hash8: nat -> nat)
    returns (op: nat, ip: nat, more: bool)
    requires |input| <= BLOCK_SIZE && 15 <= |input| && at <= op0 <= dest.Length && Roomy(dest.Length - at, |input|)
    requires 4 <= len0 && IsMatch(input, candidate0, ip0, len0) && BothBelow(table, table2, ip0 + len0)
    requires Encodes(dest[at..op0], input, ip0) && AlmostSlim(op0 - at, ip0)
    modifies dest, table, table2
    ensures at <= op <= dest.Length && ip0 + len0 <= ip <= |input| && Encodes(dest[at..op], input, ip) && Slim(op - at, ip)
    ensures dest[..at] == old(dest[..at])
    ensures more ==> ip + 15 < |input| && BothBelow(table, table2, ip + 1)
    ensures ip0 + len0 == |input| ==> !more && op == op0 + |CopyCodes(ip0 - candidate0, len0)|
  {
    hide LE, Decode, CopyCodes;
    var candidate: nat, len: nat, found := candidate0, len0, true;
    op, ip := op0, ip0;
    while found
      invariant ip0 <= ip <= |input| && at <= op <= dest.Length && (found || ip0 + len0 <= ip) && dest[..at] == old(dest[..at])
      invariant found ==> 4 <= len && IsMatch(input, candidate, ip, len) && BothBelow(table, table2, ip + len)
      invariant found ==> ip0 + len0 <= ip + len
      invariant ip0 + len0 == |input| ==> found && ip == ip0 && op == op0 && candidate == candidate0 && len == len0
      invariant !found ==> ip + 15 < |input| && BothBelow(table, table2, ip + 1) && Slim(op - at, ip)
      invariant Encodes(dest[at..op], input, ip) && AlmostSlim(op - at, ip)
      decreases |input| - ip, found
    {
      op := EmitMatch(input, dest, at, op, candidate, ip, len, len < 12);
      ip := ip + len;
      if ip >= |input| - 15 {
        more := false;
        return;
      }
      RecordBehind(input, ip, table, table2, hash4, hash8);
      found, candidate, len := Reprobe2(input, ip, table, table2, hash4, hash8);
      if found {
        WidenBelow(table, ip + 1, ip + len);
        WidenBelow(table2, ip + 1, ip + len);
      }
    }
    more := true;
  }

  /** The literal before the match, if backtracking left any. */
  method EmitBefore2(input: seq<byte>, dest: array<byte>, at: nat, op: nat, from: nat, to: nat) returns (op': nat)
    requires |input| <= BLOCK_SIZE && at <= op <= dest.Length && Roomy(dest.Length - at, |input|)
    requires from <= to && to + 15 <= |input|
    requires Encodes(dest[at..op], input, from) && Slim(op - at, from)
    modifies dest
    ensures at <= op' <= dest.Length && Encodes(dest[at..op'], input, to) && AlmostSlim(op' - at, to)
    ensures op' == op + LiteralBytes(to - from)
    ensures dest[..at] == old(dest[..at])
  {
    op' := op;
    if to - from > 0 {
      op' := EmitBefore(input, dest, at, op, from, to);
    }
  }

  lemma RepeatMatched(input: seq<byte>, candidate: nat, ip: nat, len: nat)
    requires IsMatch(input, candidate, ip, len) && 4 <= len
    ensures !NoRepeats(input)
  {
    Slice(input, candidate, candidate + len, 0, 4);
    Slice(input, ip, ip + len, 0, 4);
    RepeatFound(input, candidate, ip);
  }

  /** CompressFragmentDoubleHash: what it writes at `at` decodes to the input, within 7/6 of its size; without
      repetitions it is one literal. */
  method CompressFragmentDoubleHash(input: seq<byte>, dest: array<byte>, at: nat, table: array<uint16>, table2: array<uint16>,
                                    hash4: nat -> nat, hash8: nat -> nat)
    returns (op: nat)
    requires |input| <= BLOCK_SIZE && at <= dest.Length && Roomy(dest.Length - at, |input|)
    requires BothBelow(table, table2, 1)
    modifies dest, table, table2
    ensures at <= op <= dest.Length && Decode(dest[at..op], []) == Some(input) && Within(op - at, |input|)
    ensures NoRepeats(input) ==> op == at + LiteralBytes(|input|)
    ensures Uniform(input) && |input| >= 17 ==> op == at + UniformSize(|input|)
    ensures dest[..at] == old(dest[..at])
  {
    hide LE, Decode, NoRepeats, Uniform, LiteralBytes, UniformSize, CopyCodes;
    OneByte(|input|);
    var ip := 0;
    op := at;
    EncodesNothing(input);
    assert dest[at..op] == [];
    if |input| >= 15 {
      var more := true;
      while more
        invariant at <= op <= dest.Length && Encodes(dest[at..op], input, ip) && Slim(op - at, ip)
        invariant more ==> ip + 15 <= |input| && BothBelow(table, table2, ip + 1)
        invariant dest[..at] == old(dest[..at]) && (NoRepeats(input) ==> ip == 0 && op == at)
        invariant Uniform(input) && |input| >= 17 ==>
                    if more then ip == 0 && op == at else ip == |input| && op == at + UniformSize(|input|)
        decreases |input| - ip, more
      {
        var found, start, candidate, len := FindCandidate2(input, ip, table, table2, hash4, hash8);
        if !found { break; }
        RepeatMatched(input, candidate, start, len);
        WidenBelow(table, start + 1, start + len);
        WidenBelow(table2, start + 1, start + len);
        start, candidate, len := Backtrack(input, ip, start, candidate, len);
        RecordAhead(input, start, table, table2, hash4, hash8, start + len);
        op := EmitBefore2(input, dest, at, op, ip, start);
        op, ip, more := EmitMatches2(input, dest, at, op, start, candidate, len, table, table2, hash4, hash8);
      }
    }
    op := EmitRemainder(input, dest, at, op, ip);
  }
}
