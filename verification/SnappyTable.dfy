/** What both match finders share: the hash table, and the meaning and size of the output so far. */
module SnappyTable {
  import opened Bytes
  import opened SnappyFormat
  import opened SnappyEmit
  import opened SnappyMatch

  type uint16 = x: int | 0 <= x < 65536

  const BLOCK_SIZE: nat := 65536

  function MaxCompressedLength(n: nat): nat {
    32 + n + n / 6
  }

  /** 32 + n + n/6: the least number no smaller than (7 n + 187) / 6. */
  lemma MaxCompressedLengthValue(n: nat)
    ensures 7 * n + 187 <= 6 * MaxCompressedLength(n) <= 7 * n + 192
    ensures MaxCompressedLength(600) == 732
  {
  }

  /** Every entry names a position before `bound`. */
  ghost predicate Below(table: array<uint16>, bound: nat)
    reads table
  {
    table.Length > 0 && forall k :: 0 <= k < table.Length ==> table[k] < bound
  }

  /** The slot of a word; the hash is arbitrary. */
  function Slot(table: array<uint16>, hash: nat -> nat, word: nat): (slot: nat)
    requires table.Length > 0
    ensures slot < table.Length
  {
    hash(word) % table.Length
  }

  /** The entries with the one for `word` replaced. */
  function Put(entries: seq<uint16>, table: array<uint16>, hash: nat -> nat, word: nat, pos: uint16): (r: seq<uint16>)
    requires |entries| == table.Length > 0
    ensures |r| == |entries|
  {
    entries[Slot(table, hash, word) := pos]
  }

  /** Reads the entry for `word` and replaces it by `pos`. */
  method Exchange(table: array<uint16>, hash: nat -> nat, word: nat, pos: uint16, ghost bound: nat)
    returns (candidate: nat)
    requires Below(table, bound)
    modifies table
    ensures candidate < bound && Below(table, if pos < bound then bound else pos + 1)
    ensures candidate == old(table[Slot(table, hash, word)])
    ensures table[..] == Put(old(table[..]), table, hash, word, pos)
  {
    var slot := Slot(table, hash, word);
    candidate := table[slot];
    table[slot] := pos;
  }

  /** The output decodes to the first `ip` bytes of the input. */
  ghost predicate Encodes(s: seq<byte>, input: seq<byte>, ip: nat) {
    ip <= |input| && Decode(s, []) == Some(input[..ip])
  }

  lemma EncodesNothing(input: seq<byte>)
    ensures Encodes([], input, 0)
  {
  }

  lemma AppendCode(s: seq<byte>, code: seq<byte>, input: seq<byte>, from: nat, to: nat)
    requires Encodes(s, input, from) && to <= |input|
    requires Decode(code, input[..from]) == Some(input[..to])
    ensures Encodes(s + code, input, to)
  {
    DecodeAppend(s, code, []);
  }

  lemma AppendLiteral(s: seq<byte>, input: seq<byte>, from: nat, len: nat)
    requires Encodes(s, input, from) && 1 <= len < TWO32 && from + len <= |input|
    ensures Encodes(s + (LiteralHeader(len) + input[from..from + len]), input, from + len)
  {
    hide LiteralHeader, Decode;
    var lit := input[from..from + len];
    DecodeLiteral(lit, input[..from]);
    assert input[..from] + lit == input[..from + len];
    AppendCode(s, LiteralHeader(len) + lit, input, from, from + len);
  }

  /** A real earlier match is what the overlapping copy reproduces. */
  lemma MatchIsOverlap(input: seq<byte>, candidate: nat, ip: nat, len: nat)
    requires IsMatch(input, candidate, ip, len)
    ensures Overlap(input[..ip], ip - candidate, len) == input[..ip + len]
  {
    var r := input[..ip + len];
    forall i | ip <= i < |r|
      ensures r[i] == r[i - (ip - candidate)]
    {
      assert input[candidate..candidate + len][i - ip] == input[ip..ip + len][i - ip];
    }
    OverlapIsPeriodic(input[..ip], ip - candidate, len, r);
  }

  lemma AppendMatch(s: seq<byte>, input: seq<byte>, candidate: nat, ip: nat, len: nat)
    requires Encodes(s, input, ip) && IsMatch(input, candidate, ip, len) && 4 <= len && ip - candidate < 65536
    ensures Encodes(s + CopyCodes(ip - candidate, len), input, ip + len)
  {
    hide CopyCodes;
    DecodeCopies(ip - candidate, len, input[..ip]);
    MatchIsOverlap(input, candidate, ip, len);
    AppendCode(s, CopyCodes(ip - candidate, len), input, ip, ip + len);
  }

  /** Size of the output after an element that ends in a copy: less than 7/6 of the input consumed. */
  predicate Slim(op: nat, ip: nat) {
    (op == 0 && ip == 0) || 6 * op + 5 <= 7 * ip
  }

  /** Size of the output after the literal that may precede a copy. */
  predicate AlmostSlim(op: nat, ip: nat) {
    6 * op <= 7 * ip + 5
  }

  /** Room the emitters' stores need; a caller's buffer has at least as much left at each block. */
  predicate Roomy(capacity: nat, n: nat) {
    6 * capacity >= 7 * n + 157
  }

  lemma MaxCompressedLengthIsRoomy(n: nat)
    ensures Roomy(MaxCompressedLength(n), n)
  {
  }

  lemma LiteralSize(op: nat, from: nat, len: nat)
    requires Slim(op, from) && 1 <= len <= 65536
    ensures AlmostSlim(op + |LiteralHeader(len)| + len, from + len)
    ensures |LiteralHeader(len)| <= 3
  {
    LiteralHeaderSize(len);
  }

  /** The output since position `at`, after code was appended behind `op`. */
  lemma Appended(before: seq<byte>, after: seq<byte>, at: nat, code: seq<byte>)
    requires at <= |before| && after == before + code
    ensures after[..at] == before[..at] && after[at..] == before[at..] + code
  {
  }

  /** A dest buffer seen from its front and from `at` on. */
  lemma Parts(dest: array<byte>, at: nat, op: nat)
    requires at <= op <= dest.Length
    ensures dest[at..op] == dest[..op][at..] && dest[..at] == dest[..op][..at]
  {
  }

  /** The literal before a match, with the fast path's over-long loads and stores. */
  method EmitBefore(input: seq<byte>, dest: array<byte>, at: nat, op: nat, from: nat, to: nat) returns (op': nat)
    requires |input| <= BLOCK_SIZE && at <= op <= dest.Length && Roomy(dest.Length - at, |input|)
    requires from < to && to + 15 <= |input|
    requires Encodes(dest[at..op], input, from) && Slim(op - at, from)
    modifies dest
    ensures at <= op' <= dest.Length && Encodes(dest[at..op'], input, to) && AlmostSlim(op' - at, to)
    ensures op' == op + LiteralBytes(to - from)
    ensures dest[..at] == old(dest[..at])
  {
    hide LiteralHeader, Encodes;
    ghost var before, code := dest[..op], LiteralHeader(to - from) + input[from..to];
    LiteralSize(op - at, from, to - from);
    AppendLiteral(dest[at..op], input, from, to - from);
    Parts(dest, at, op);
    op' := EmitLiteral(dest, op, input, from, to - from, true);
    Parts(dest, at, op');
    Appended(before, dest[..op'], at, code);
  }

  /** The copy for a match. */
  method EmitMatch(input: seq<byte>, dest: array<byte>, at: nat, op: nat, candidate: nat, ip: nat, len: nat, below12: bool)
    returns (op': nat)
    requires |input| <= BLOCK_SIZE && at <= op <= dest.Length && Roomy(dest.Length - at, |input|)
    requires IsMatch(input, candidate, ip, len) && 4 <= len && (below12 <==> len < 12)
    requires Encodes(dest[at..op], input, ip) && AlmostSlim(op - at, ip)
    modifies dest
    ensures at <= op' <= dest.Length && Encodes(dest[at..op'], input, ip + len) && Slim(op' - at, ip + len)
    ensures op' == op + |CopyCodes(ip - candidate, len)|
    ensures dest[..at] == old(dest[..at])
  {
    hide Encodes, CopyCodes;
    ghost var before, code := dest[..op], CopyCodes(ip - candidate, len);
    CopyCodesSize(ip - candidate, len);
    AppendMatch(dest[at..op], input, candidate, ip, len);
    Parts(dest, at, op);
    op' := EmitCopy(dest, op, ip - candidate, len, below12);
    Parts(dest, at, op');
    Appended(before, dest[..op'], at, code);
  }

  /** Bytes of the literal for `n` bytes that are left, if any. */
  function LiteralBytes(n: nat): nat
    requires n < TWO32
  {
    if n == 0 then 0 else |LiteralHeader(n)| + n
  }

  /** emit_remainder: the rest of the block as one literal. */
  method EmitRemainder(input: seq<byte>, dest: array<byte>, at: nat, op: nat, ip: nat) returns (op': nat)
    requires |input| <= BLOCK_SIZE && at <= op <= dest.Length && Roomy(dest.Length - at, |input|)
    requires Encodes(dest[at..op], input, ip) && Slim(op - at, ip)
    modifies dest
    ensures at <= op' <= dest.Length && Decode(dest[at..op'], []) == Some(input)
    ensures Within(op' - at, |input|) && op' == op + LiteralBytes(|input| - ip)
    ensures dest[..at] == old(dest[..at])
  {
    hide LiteralHeader, Decode;
    op' := op;
    assert input[..|input|] == input;
    if ip < |input| {
      ghost var before, code := dest[..op], LiteralHeader(|input| - ip) + input[ip..];
      LiteralSize(op - at, ip, |input| - ip);
      if |input| >= 6 {
        RemainderSize(op - at, ip, |input|);
      }
      assert input[ip..ip + (|input| - ip)] == input[ip..];
      AppendLiteral(dest[at..op], input, ip, |input| - ip);
      Parts(dest, at, op);
      op' := EmitLiteral(dest, op, input, ip, |input| - ip, false);
      Parts(dest, at, op');
      Appended(before, dest[..op'], at, code);
    }
  }

  /** A compressed block has at most 7/6 of its size, except that a block below six bytes may take one more. */
  predicate Within(size: nat, n: nat) {
    6 * size <= 7 * n + 5 && (n >= 6 ==> 6 * size <= 7 * n)
  }

  /** All bytes of the block are the same. */
  ghost predicate Uniform(input: seq<byte>) {
    forall i :: 0 <= i < |input| ==> input[i] == input[0]
  }

  /** Any two places of such a block match, as far as the block goes. */
  lemma UniformMatch(input: seq<byte>, s1: nat, s2: nat, n: nat)
    requires Uniform(input) && s1 < s2 <= |input| && s2 + n <= |input|
    ensures IsMatch(input, s1, s2, n) && (IsLongest(input, s1, s2, n) ==> s2 + n == |input|)
  {
    var a, b := input[s1..s1 + n], input[s2..s2 + n];
    assert forall k :: 0 <= k < n ==> a[k] == b[k];
  }

  /** The size of its compressed form: a literal of one byte and a copy of all the others. */
  function UniformSize(n: nat): nat
    requires n >= 17
  {
    2 + |CopyCodes(1, n - 1)|
  }

  /** That is 3/64 of its size, and a little more. */
  lemma UniformSizeBound(n: nat)
    requires n >= 17
    ensures 64 * UniformSize(n) <= 3 * n + 400
  {
    hide CopyCodes;
    CopyCodesExact(1, n - 1);
    if n - 1 >= 68 {
      CopyCodesExact(1, 4 + (n - 5) % 64);
    }
  }

  function Quad(input: seq<byte>, i: nat): seq<byte>
    requires i + 4 <= |input|
  {
    input[i..i + 4]
  }

  /** No four bytes of the block occur twice. */
  ghost predicate NoRepeats(input: seq<byte>) {
    forall i: nat, j: nat :: i < j && j + 4 <= |input| ==> Quad(input, i) != Quad(input, j)
  }

  lemma RemainderSize(op: nat, ip: nat, n: nat)
    requires Slim(op, ip) && ip < n <= 65536 && n >= 6
    ensures 6 * (op + |LiteralHeader(n - ip)| + (n - ip)) <= 7 * n
  {
    LiteralHeaderSize(n - ip);
  }
}
