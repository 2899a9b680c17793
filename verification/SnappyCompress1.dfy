/**
 CompressFragment, the level 1 match finder (deps/snappy/snappy.cc).  `hash` is any function: the output
 always decodes to the input, because every table entry names a position before the cursor.
 */
module SnappyCompress1 {
  import opened Bytes
  import opened SnappyFormat
  import opened SnappyEmit
  import opened SnappyMatch
  import opened SnappyTable

  /** A four-byte match for the bytes at ip. */
  ghost predicate Candidate(input: seq<byte>, candidate: nat, ip: nat) {
    candidate < ip && ip + 4 <= |input| && input[candidate..candidate + 4] == input[ip..ip + 4]
  }

  lemma SameWord(input: seq<byte>, candidate: nat, ip: nat)
    requires candidate < ip && ip + 4 <= |input| && Load32(input, candidate) == Load32(input, ip)
    ensures Candidate(input, candidate, ip)
  {
    LEInjective(input[candidate..candidate + 4], input[ip..ip + 4]);
  }

  lemma UniformWord(input: seq<byte>, candidate: nat, ip: nat)
    requires Uniform(input) && candidate < ip && ip + 4 <= |input|
    ensures Load32(input, candidate) == Load32(input, ip)
  {
    UniformMatch(input, candidate, ip, 4);
  }

  lemma NextByte(input: seq<byte>, from: nat, to: nat)
    requires from + 5 <= to <= |input|
    ensures LE(input[from..to]) / 256 == LE(input[from + 1..to])
    ensures LE(input[from..to]) % TWO32 == Load32(input, from)
    ensures LE(input[from + 1..to]) % TWO32 == Load32(input, from + 1)
  {
    LEShift(input[from..to]);
    assert input[from..to][1..] == input[from + 1..to];
    LELow32(input[from..to]);
    LELow32(input[from + 1..to]);
    assert input[from..to][..4] == input[from..from + 4];
    assert input[from + 1..to][..4] == input[from + 1..from + 1 + 4];
  }

  lemma LowWord(input: seq<byte>, ip: nat)
    requires ip + 8 <= |input|
    ensures Load64(input, ip) % TWO32 == Load32(input, ip)
  {
    LELow32(input[ip..ip + 8]);
    assert input[ip..ip + 8][..4] == input[ip..ip + 4];
  }

  /** The unrolled probe of sixteen consecutive positions.  Each word but the first is cut out of an
      eight-byte load; the first is the preloaded one. */
  method Probe16(input: seq<byte>, ip: nat, preload: nat, data0: nat, table: array<uint16>, hash: nat -> nat)
    returns (found: bool, at: nat, candidate: nat, data: nat)
    requires |input| <= BLOCK_SIZE && ip + 31 <= |input| && Below(table, ip)
    requires preload == Load32(input, ip) && data0 == Load64(input, ip)
    modifies table
    ensures found ==> ip <= at < ip + 16 && Candidate(input, candidate, at) && Below(table, at + 1)
    ensures Uniform(input) ==> found && at == ip
    ensures !found ==> Below(table, ip + 16) && data == Load64(input, ip + 16)
  {
    hide LE;
    data, at, candidate := data0, ip, 0;
    for j := 0 to 4
      invariant Below(table, ip + 4 * j) && data == Load64(input, ip + 4 * j) && (Uniform(input) ==> j == 0)
    {
      for k := 0 to 4
        invariant Below(table, ip + 4 * j + k) && data == LE(input[ip + 4 * j + k..ip + 4 * j + 8])
        invariant Uniform(input) ==> j == k == 0
      {
        var i := 4 * j + k;
        NextByte(input, ip + i, ip + 4 * j + 8);
        var dword := if i == 0 then preload else data % TWO32;
        candidate := Exchange(table, hash, dword, ip + i, ip + i);
        if Uniform(input) {
          UniformWord(input, candidate, ip + i);
        }
        if Load32(input, candidate) == dword {
          SameWord(input, candidate, ip + i);
          return true, ip + i, candidate, data;
        }
        data := data / 256;
      }
      data := Load64(input, ip + 4 * j + 4);
    }
    found := false;
  }

  /** The skipping scan: after every 32 probes without a match the stride grows by one. */
  method Scan(input: seq<byte>, ip0: nat, skip0: nat, data0: nat, table: array<uint16>, hash: nat -> nat)
    returns (found: bool, ip: nat, candidate: nat, data: nat)
    requires |input| <= BLOCK_SIZE && 15 <= |input| && ip0 + 4 <= |input| && skip0 >= 32
    requires Below(table, ip0) && data0 % TWO32 == Load32(input, ip0)
    modifies table
    ensures found ==> ip0 <= ip && ip + 15 < |input| && Candidate(input, candidate, ip) && Below(table, ip + 1)
    ensures Uniform(input) && skip0 < 64 && ip0 + 16 <= |input| ==> found && ip == ip0
  {
    hide LE;
    var skip := skip0;
    ip, data, candidate := ip0, data0, 0;
    while true
      invariant ip0 <= ip && ip + 4 <= |input| && skip >= 32
      invariant Below(table, ip) && data % TWO32 == Load32(input, ip)
      invariant Uniform(input) && skip0 < 64 && ip0 + 16 <= |input| ==> ip == ip0 && skip == skip0
      decreases |input| - ip
    {
      var between := skip / 32;
      skip := skip + between;
      var nextIp := ip + between;
      if nextIp > |input| - 15 { return false, ip, candidate, data; }
      candidate := Exchange(table, hash, data % TWO32, ip, ip);
      if Uniform(input) {
        UniformWord(input, candidate, ip);
      }
      if data % TWO32 == Load32(input, candidate) {
        SameWord(input, candidate, ip);
        return true, ip, candidate, data;
      }
      data := Load32(input, nextIp);
      Load32Small(input, nextIp);
      WidenBelow(table, ip + 1, nextIp);
      ip := nextIp;
    }
  }

  lemma Load32Small(input: seq<byte>, ip: nat)
    requires ip + 4 <= |input|
    ensures Load32(input, ip) < TWO32
  {
    LELow32(input[ip..ip + 4]);
    assert input[ip..ip + 4][..4] == input[ip..ip + 4];
  }

  lemma WidenBelow(table: array<uint16>, a: nat, b: nat)
    requires Below(table, a) && a <= b
    ensures Below(table, b)
  {
  }

  /** Step 1 of an iteration: find a four-byte match after `nextEmit`. */
  method FindCandidate(input: seq<byte>, nextEmit: nat, preload: nat, table: array<uint16>, hash: nat -> nat)
    returns (found: bool, ip: nat, candidate: nat, data: nat)
    requires |input| <= BLOCK_SIZE && nextEmit + 15 <= |input|
    requires Below(table, nextEmit + 1) && preload == Load32(input, nextEmit + 1)
    modifies table
    ensures found ==> nextEmit < ip && ip + 15 <= |input| && Candidate(input, candidate, ip) && Below(table, ip + 1)
    ensures Uniform(input) && nextEmit + 17 <= |input| ==> found && ip == nextEmit + 1
  {
    hide LE;
    ip := nextEmit + 1;
    data := Load64(input, ip);
    LowWord(input, ip);
    var skip := 32;
    if |input| - 15 - ip >= 16 {
      found, ip, candidate, data := Probe16(input, nextEmit + 1, preload, data, table, hash);
      if found { return; }
      ip, skip := nextEmit + 17, skip + 16;
      LowWord(input, ip);
    }
    found, ip, candidate, data := Scan(input, ip, skip, data, table, hash);
  }

  /** A candidate extended by FindMatchLength is a longest match of at least four bytes. */
  lemma CandidateMatch(input: seq<byte>, candidate: nat, ip: nat, n: nat)
    requires Candidate(input, candidate, ip) && IsMatch(input, candidate + 4, ip + 4, n)
    ensures IsMatch(input, candidate, ip, 4 + n)
    ensures IsLongest(input, candidate + 4, ip + 4, n) ==> IsLongest(input, candidate, ip, 4 + n)
  {
    MatchExtend(input, candidate, ip, 4, n);
  }

  lemma CarriedWord(input: seq<byte>, ip: nat, data: nat)
    requires ip + 5 <= |input| && data % TWO40 == LE(input[ip..ip + 5])
    ensures data % TWO32 == Load32(input, ip)
    ensures data / 256 % TWO32 == Load32(input, ip + 1)
  {
    hide LE;
    NextByte(input, ip, ip + 5);
    Load32Small(input, ip + 1);
    assert input[ip + 1..ip + 5] == input[ip + 1..ip + 1 + 4];
    LowFive(data);
  }

  lemma LowFive(data: nat)
    ensures data % TWO32 == data % TWO40 % TWO32
    ensures data / 256 % TWO32 == data % TWO40 / 256
  {
    var q, r := data / TWO40, data % TWO40;
    assert data == q * TWO40 + r == (q * 256 + r / TWO32) * TWO32 + r % TWO32;
    ModUnique(data, TWO32, q * 256 + r / TWO32, r % TWO32);
    assert data / 256 == q * TWO32 + r / 256;
    ModUnique(data / 256, TWO32, q, r / 256);
  }

  /** Steps 2 and 3: copies for as long as the bytes after a match have a candidate of their own.  When the
      finder goes on, the carried word supplies the next preload. */
  method EmitMatches(input: seq<byte>, dest: array<byte>, at: nat, op0: nat, ip0: nat, candidate0: nat, data0: nat,
                     table: array<uint16>, hash: nat -> nat)
    returns (op: nat, ip: nat, more: bool, preload: nat)
    requires |input| <= BLOCK_SIZE && 15 <= |input| && at <= op0 <= dest.Length && Roomy(dest.Length - at, |input|)
    requires Candidate(input, candidate0, ip0) && Below(table, ip0 + 1)
    requires Encodes(dest[at..op0], input, ip0) && AlmostSlim(op0 - at, ip0)
    modifies dest, table
    ensures at <= op <= dest.Length && ip0 < ip <= |input| && Encodes(dest[at..op], input, ip) && Slim(op - at, ip)
    ensures dest[..at] == old(dest[..at])
    ensures more ==> ip + 15 < |input| && Below(table, ip + 1) && preload == Load32(input, ip + 1)
    ensures Uniform(input) ==> !more && ip == |input| && op == op0 + |CopyCodes(ip0 - candidate0, |input| - ip0)|
  {
    hide LE, Decode, CopyCodes, Uniform;
    var candidate: nat, data: nat := candidate0, data0;
    op, ip, preload := op0, ip0, 0;
    while true
      invariant ip0 <= ip && at <= op <= dest.Length && dest[..at] == old(dest[..at])
      invariant Candidate(input, candidate, ip) && Below(table, ip + 1)
      invariant Uniform(input) ==> ip == ip0 && op == op0 && candidate == candidate0
      invariant Encodes(dest[at..op], input, ip) && AlmostSlim(op - at, ip)
      decreases |input| - ip
    {
      var n, below8;
      n, below8, data := FindMatchLength(input, candidate + 4, ip + 4, data);
      CandidateMatch(input, candidate, ip, n);
      if Uniform(input) {
        UniformMatch(input, candidate, ip, 4 + n);
      }
      op := EmitMatch(input, dest, at, op, candidate, ip, 4 + n, below8);
      ip := ip + 4 + n;
      if ip >= |input| - 15 {
        more := false;
        return;
      }
      CarriedWord(input, ip, data);
      candidate := Reprobe(input, ip, data, table, hash);
      if data % TWO32 != Load32(input, candidate) {
        break;
      }
      SameWord(input, candidate, ip);
    }
    more, preload := true, data / 256 % TWO32;
  }

  /** Records the positions ip - 1 and ip and looks up a candidate for ip. */
  method Reprobe(input: seq<byte>, ip: nat, data: nat, table: array<uint16>, hash: nat -> nat) returns (candidate: nat)
    requires 1 <= ip && ip + 4 <= |input| <= BLOCK_SIZE && Below(table, ip)
    modifies table
    ensures candidate < ip && Below(table, ip + 1)
    ensures var first := Put(old(table[..]), table, hash, Load32(input, ip - 1), ip - 1);
            candidate == first[Slot(table, hash, data % TWO32)] && table[..] == Put(first, table, hash, data % TWO32, ip)
  {
    hide LE;
    var _ := Exchange(table, hash, Load32(input, ip - 1), ip - 1, ip);
    candidate := Exchange(table, hash, data % TWO32, ip, ip);
  }

  lemma RepeatFound(input: seq<byte>, candidate: nat, ip: nat)
    requires Candidate(input, candidate, ip)
    ensures !NoRepeats(input)
  {
    assert Quad(input, candidate) == Quad(input, ip);
  }

  lemma OneByte(n: nat)
    ensures LiteralBytes(1) == 2 && LiteralBytes(0) == 0 && (n >= 17 ==> UniformSize(n) == 2 + |CopyCodes(1, n - 1)|)
  {
    LiteralHeaderSize(1);
  }

  /** CompressFragment: what it writes at `at` decodes to the input, within 7/6 of its size; without repetitions it is
      one literal. */
  method CompressFragment(input: seq<byte>, dest: array<byte>, at: nat, table: array<uint16>, hash: nat -> nat) returns (op: nat)
    requires |input| <= BLOCK_SIZE && at <= dest.Length && Roomy(dest.Length - at, |input|)
    requires Below(table, 1)
    modifies dest, table
    ensures at <= op <= dest.Length && Decode(dest[at..op], []) == Some(input) && Within(op - at, |input|)
    ensures NoRepeats(input) ==> op == at + LiteralBytes(|input|)
    ensures Uniform(input) && |input| >= 17 ==> op == at + UniformSize(|input|)
    ensures dest[..at] == old(dest[..at])
  {
    hide LE, Decode, NoRepeats, Uniform, LiteralBytes, UniformSize;
    OneByte(|input|);
    var ip := 0;
    op := at;
    EncodesNothing(input);
    assert dest[at..op] == [];
    if |input| >= 15 {
      var preload, more := Load32(input, 1), true;
      while more
        invariant at <= op <= dest.Length && Encodes(dest[at..op], input, ip) && Slim(op - at, ip)
        invariant more ==> ip + 15 <= |input| && Below(table, ip + 1) && preload == Load32(input, ip + 1)
        invariant dest[..at] == old(dest[..at]) && (NoRepeats(input) ==> ip == 0 && op == at)
        invariant Uniform(input) && |input| >= 17 ==>
                    if more then ip == 0 && op == at else ip == |input| && op == at + UniformSize(|input|)
        decreases |input| - ip, more
      {
        var found, start, candidate, data := FindCandidate(input, ip, preload, table, hash);
        if !found { break; }
        RepeatFound(input, candidate, start);
        op := EmitBefore(input, dest, at, op, ip, start);
        op, ip, more, preload := EmitMatches(input, dest, at, op, start, candidate, data, table, hash);
      }
    }
    op := EmitRemainder(input, dest, at, op, ip);
  }
}
