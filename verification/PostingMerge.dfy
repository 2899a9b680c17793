/** PostingListMergeOperator (c_src/posting_list_merge_operator.cc): the byte loops, proved against the laws. */
module PostingMerge {
  import opened Bytes
  import opened PostingFormat
  import opened PostingLaws

  lemma ReadBESlice(s: seq<byte>, p: nat, i: nat)
    requires p + i + 4 <= |s|
    ensures ReadBE(s[p..], i) == ReadBE(s, p + i)
  {
  }

  /** ParseV1Value: last occurrence wins; a truncated tail is ignored. */
  method ParseV1Value(value: seq<byte>, states: map<Key, bool>) returns (r: map<Key, bool>)
    ensures r == Apply(states, V1Entries(value))
  {
    hide Apply, V1Entries;
    r := states;
    var p := 0;
    assert value[0..] == value;
    while p + 5 <= |value|
      invariant 0 <= p <= |value|
      invariant Apply(states, V1Entries(value)) == Apply(r, V1Entries(value[p..]))
    {
      var len := ReadBE(value, p);
      var tombstone := value[p + 4] != 0;
      ReadBESlice(value, p, 0);
      if p + 5 + len > |value| {
        V1Done(value, p, r);
        return;
      }
      var key := value[p + 5..p + 5 + len];
      V1Step(value, p, len, r);
      r := r[key := tombstone];
      p := p + 5 + len;
    }
    V1Done(value, p, r);
  }

  lemma V1Done(value: seq<byte>, p: nat, m: map<Key, bool>)
    requires p <= |value| && (p + 5 > |value| || p + 5 + ReadBE(value, p) > |value|)
    ensures Apply(m, V1Entries(value[p..])) == m
  {
    if p + 5 <= |value| {
      ReadBESlice(value, p, 0);
    }
  }

  lemma ApplyCons(m: map<Key, bool>, e: Entry, es: seq<Entry>)
    ensures Apply(m, [e] + es) == Apply(m[e.0 := e.1], es)
  {
    assert ([e] + es)[1..] == es;
  }

  lemma V1Unfold(value: seq<byte>, p: nat, len: nat)
    requires p + 5 + len <= |value| && len == ReadBE(value, p)
    ensures V1Entries(value[p..]) == [(value[p + 5..p + 5 + len], value[p + 4] != 0)] + V1Entries(value[p + 5 + len..])
  {
    var s := value[p..];
    ReadBESlice(value, p, 0);
    assert s[5..5 + len] == value[p + 5..p + 5 + len] && s[5 + len..] == value[p + 5 + len..];
  }

  lemma V1Step(value: seq<byte>, p: nat, len: nat, m: map<Key, bool>)
    requires p + 5 + len <= |value| && len == ReadBE(value, p)
    ensures Apply(m, V1Entries(value[p..])) ==
            Apply(m[value[p + 5..p + 5 + len] := value[p + 4] != 0], V1Entries(value[p + 5 + len..]))
  {
    hide Apply, V1Entries;
    V1Unfold(value, p, len);
    ApplyCons(m, (value[p + 5..p + 5 + len], value[p + 4] != 0), V1Entries(value[p + 5 + len..]));
  }

  /** ParseV2Value: every key read is active. */
  method ParseV2Value(value: seq<byte>, states: map<Key, bool>) returns (r: map<Key, bool>)
    ensures r == Apply(states, Live(V2Keys(value)))
  {
    hide Apply, Keys, Live;
    r := states;
    ApplyNothing(states);
    NothingLive();
    if |value| < 1 { return; }
    if |value| < 5 { return; }
    var bitmapSize := ReadBE(value, 1);
    if 5 + bitmapSize > |value| { return; }
    var p := 5 + bitmapSize;
    if p + 4 > |value| { return; }
    var count := ReadBE(value, p);
    p := p + 4;
    var i := 0;
    while i < count && p + 4 <= |value|
      invariant 0 <= p <= |value| && 0 <= i <= count
      invariant Apply(states, Live(V2Keys(value))) == Apply(r, Live(Keys(value[p..], count - i)))
      decreases count - i
    {
      var len := ReadBE(value, p);
      ReadBESlice(value, p, 0);
      if p + 4 + len > |value| {
        KeysDone(value, p, count - i, r);
        return;
      }
      KeysStep(value, p, len, count - i, r);
      r := r[value[p + 4..p + 4 + len] := false];
      p, i := p + 4 + len, i + 1;
    }
    KeysDone(value, p, count - i, r);
  }

  lemma NothingLive()
    ensures Live([]) == []
  {
  }

  lemma KeysDone(value: seq<byte>, p: nat, n: nat, m: map<Key, bool>)
    requires p <= |value| && (n == 0 || p + 4 > |value| || p + 4 + ReadBE(value, p) > |value|)
    ensures Apply(m, Live(Keys(value[p..], n))) == m
  {
    if p + 4 <= |value| {
      ReadBESlice(value, p, 0);
    }
    assert Keys(value[p..], n) == [];
  }

  lemma KeysUnfold(value: seq<byte>, p: nat, len: nat, n: nat)
    requires p + 4 + len <= |value| && len == ReadBE(value, p) && n > 0
    ensures Keys(value[p..], n) == [value[p + 4..p + 4 + len]] + Keys(value[p + 4 + len..], n - 1)
  {
    var s := value[p..];
    ReadBESlice(value, p, 0);
    assert s[4..4 + len] == value[p + 4..p + 4 + len] && s[4 + len..] == value[p + 4 + len..];
  }

  lemma KeysStep(value: seq<byte>, p: nat, len: nat, n: nat, m: map<Key, bool>)
    requires p + 4 + len <= |value| && len == ReadBE(value, p) && n > 0
    ensures Apply(m, Live(Keys(value[p..], n))) ==
            Apply(m[value[p + 4..p + 4 + len] := false], Live(Keys(value[p + 4 + len..], n - 1)))
  {
    KeysUnfold(value, p, len, n);
    var k, rest := value[p + 4..p + 4 + len], Keys(value[p + 4 + len..], n - 1);
    assert Live([k] + rest)[0] == (k, false) && Live([k] + rest)[1..] == Live(rest);
  }

  method ParseExistingValue(value: seq<byte>, states: map<Key, bool>) returns (r: map<Key, bool>)
    ensures r == Apply(states, Entries(value))
  {
    if DetectVersion(value) == V2 {
      r := ParseV2Value(value, states);
    } else {
      r := ParseV1Value(value, states);
    }
  }

  lemma KeyRecordsAppend(ks: seq<Key>, k: Key)
    ensures KeyRecords(ks + [k]) == KeyRecords(ks) + KeyRecord(k)
  {
    if ks != [] {
      assert (ks + [k])[1..] == ks[1..] + [k];
      KeyRecordsAppend(ks[1..], k);
    } else {
      assert KeyRecords([k]) == KeyRecord(k) + KeyRecords([]);
    }
  }

  /** Iterates a set in ascending order, as std::map and std::set do. */
  method Listed(keys: set<Key>) returns (ks: seq<Key>)
    ensures ks == InOrder(keys)
  {
    hide InOrder, Less;
    ks := [];
    var left := keys;
    while left != {}
      invariant ks + InOrder(left) == InOrder(keys)
      decreases |left|
    {
      LeastExists(left);
      var k :| k in left && forall x <- left :: x != k ==> Less(k, x);
      assert IsLeast(k, left);
      InOrderUnfold(left, k);
      assert ks + ([k] + InOrder(left - {k})) == ks + [k] + InOrder(left - {k});
      ks, left := ks + [k], left - {k};
    }
    NothingInOrder();
    assert ks + [] == ks;
  }

  lemma NothingInOrder()
    ensures InOrder({}) == []
  {
  }

  /** SerializeV2, and serialize_v2 of the query module, which starts from the active keys. */
  method SerializeKeys(keys: set<Key>, b: Bitmap) returns (output: seq<byte>)
    ensures output == Serialized(keys, b)
  {
    var bitmap := b.Of(keys);
    var ks := Listed(keys);
    output := Header(bitmap, |keys|);
    for i := 0 to |ks|
      invariant output == Header(bitmap, |keys|) + KeyRecords(ks[..i])
    {
      KeyRecordsAppend(ks[..i], ks[i]);
      assert ks[..i] + [ks[i]] == ks[..i + 1];
      output := output + KeyRecord(ks[i]);
    }
    assert ks[..|ks|] == ks;
  }

  method SerializeV2(states: map<Key, bool>, b: Bitmap) returns (output: seq<byte>)
    ensures output == Serialized(Active(states), b)
  {
    output := SerializeKeys(Active(states), b);
  }

  /** The bytes AppendEntryV1 appends. */
  function EntryV1(k: Key, tombstone: bool): seq<byte> {
    BE32(|k|) + [if tombstone then 1 else 0] + k
  }

  /** A V1 entry reads back, whatever follows it... */
  lemma ReadEntryV1(k: Key, tombstone: bool, t: seq<byte>)
    requires |k| < TWO32
    ensures V1Entries(EntryV1(k, tombstone) + t) == [(k, tombstone)] + V1Entries(t)
  {
    var flag: byte := if tombstone then 1 else 0;
    var s := EntryV1(k, tombstone) + t;
    assert s == [] + BE32(|k|) + ([flag] + k + t);
    ReadBEAt([], |k|, [flag] + k + t);
    assert s[4] == flag && s[5..5 + |k|] == k && s[5 + |k|..] == t;
  }

  /** ... but the list is taken for V1 only if its first length byte is not the V2 marker, that is, unless the first
      key is 32 MiB to 48 MiB long. */
  lemma EntryV1Version(k: Key, tombstone: bool, t: seq<byte>)
    requires |k| < TWO32
    ensures DetectVersion(EntryV1(k, tombstone) + t) == V1 <==> !(0x200_0000 <= |k| < 0x300_0000)
  {
    assert (EntryV1(k, tombstone) + t)[0] == |k| / 16777216;
  }

  /** One operand of either merge. */
  method MergeOperand(op: Operand, states: map<Key, bool>) returns (r: map<Key, bool>)
    ensures r == Apply(states, Effect(op))
  {
    match op {
      case Add(k) => r := states[k := false];
      case Del(k) => r := states[k := true];
      case Raw(bytes) => r := ParseExistingValue(bytes, states);
    }
  }

  method MergeOperands(ops: seq<Operand>, states: map<Key, bool>) returns (r: map<Key, bool>)
    ensures r == Apply(states, Effects(ops))
  {
    hide Apply, Effect;
    r := states;
    ApplyNothing(states);
    for i := 0 to |ops|
      invariant r == Apply(states, Effects(ops[..i]))
    {
      assert ops[..i + 1] == ops[..i] + [ops[i]];
      EffectsAppend(ops[..i], [ops[i]]);
      assert Effects([ops[i]]) == Effect(ops[i]) + Effects([]) == Effect(ops[i]);
      ApplyAppend(states, Effects(ops[..i]), Effect(ops[i]));
      r := MergeOperand(ops[i], r);
    }
    assert ops[..|ops|] == ops;
  }

  lemma ApplyNothing(m: map<Key, bool>)
    ensures Apply(m, []) == m
  {
  }

  /** FullMergeV2. */
  method FullMergeV2(existing: Option<seq<byte>>, ops: seq<Operand>, b: Bitmap) returns (value: seq<byte>)
    ensures value == FullMerge(existing, ops, b)
  {
    hide Apply, Effects, Serialized, Entries;
    var states: map<Key, bool> := map[];
    EmptyValue();
    ApplyNothing(states);
    if existing.Some? && existing.value != [] {
      states := ParseExistingValue(existing.value, states);
    }
    ApplyAppend(map[], Existing(existing), Effects(ops));
    states := MergeOperands(ops, states);
    value := SerializeV2(states, b);
  }

  lemma EmptyValue()
    ensures Entries([]) == []
  {
  }

  /** PartialMergeMulti: declines fewer than two operands. */
  method PartialMergeMulti(ops: seq<Operand>, b: Bitmap) returns (value: Option<seq<byte>>)
    ensures value == if |ops| < 2 then None else Some(PartialMerge(ops, b))
  {
    if |ops| < 2 { return None; }
    var states := MergeOperands(ops, map[]);
    var v := SerializeV2(states, b);
    value := Some(v);
  }
}
