/** Laws of the merge operator (c_src/posting_list_merge_operator.cc), stated on the meaning of posting lists. */
module PostingLaws {
  import opened Bytes
  import opened PostingFormat

  /** A merge operand: an Erlang term {posting_add, K} or {posting_delete, K}, or a raw posting list. */
  datatype Operand = Add(key: Key) | Del(key: Key) | Raw(bytes: seq<byte>)

  function Effect(op: Operand): seq<Entry> {
    match op
    case Add(k) => [(k, false)]
    case Del(k) => [(k, true)]
    case Raw(bytes) => Entries(bytes)
  }

  function Effects(ops: seq<Operand>): seq<Entry>
    decreases |ops|
  {
    if ops == [] then [] else Effect(ops[0]) + Effects(ops[1..])
  }

  /** The key states a merge starts from; a missing and an empty value are the same. */
  function Existing(base: Option<seq<byte>>): seq<Entry> {
    if base.None? then [] else Entries(base.value)
  }

  function Merged(base: Option<seq<byte>>, ops: seq<Operand>): map<Key, bool> {
    Apply(map[], Existing(base) + Effects(ops))
  }

  ghost function FullMerge(base: Option<seq<byte>>, ops: seq<Operand>, b: Bitmap): seq<byte> {
    Serialized(Active(Merged(base, ops)), b)
  }

  lemma {:induction false} ApplyAppend(m: map<Key, bool>, a: seq<Entry>, c: seq<Entry>)
    ensures Apply(m, a + c) == Apply(Apply(m, a), c)
    decreases |a|
  {
    if a == [] {
      assert a + c == c;
    } else {
      assert (a + c)[1..] == a[1..] + c;
      ApplyAppend(m[a[0].0 := a[0].1], a[1..], c);
    }
  }

  lemma {:induction false} EffectsAppend(a: seq<Operand>, c: seq<Operand>)
    ensures Effects(a + c) == Effects(a) + Effects(c)
    decreases |a|
  {
    if a == [] {
      assert a + c == c;
    } else {
      assert (a + c)[1..] == a[1..] + c;
      EffectsAppend(a[1..], c);
    }
  }

  /** Dropped tombstones never matter: whether a key ends up active depends only on whether it started active. */
  lemma {:induction false} ApplyActive(m: map<Key, bool>, m': map<Key, bool>, es: seq<Entry>, k: Key)
    requires IsActive(m, k) <==> IsActive(m', k)
    ensures IsActive(Apply(m, es), k) <==> IsActive(Apply(m', es), k)
    decreases |es|
  {
    if es != [] {
      ApplyActive(m[es[0].0 := es[0].1], m'[es[0].0 := es[0].1], es[1..], k);
    }
  }

  lemma SameActive(m: map<Key, bool>, m': map<Key, bool>, es: seq<Entry>)
    requires Active(m) == Active(m')
    ensures Active(Apply(m, es)) == Active(Apply(m', es))
  {
    forall k
      ensures k in Active(Apply(m, es)) <==> k in Active(Apply(m', es))
    {
      assert k in Active(m) <==> k in Active(m');
      ApplyActive(m, m', es, k);
    }
  }

  /** A key named by the entries takes its state from them alone; any other key keeps its state. */
  lemma {:induction false} ApplyDecides(m: map<Key, bool>, es: seq<Entry>, k: Key)
    ensures var e := Apply(map[], es);
            var r := Apply(m, es);
            if k in e then k in r && r[k] == e[k] else (k in r <==> k in m) && (k in m ==> r[k] == m[k])
    decreases |es|
  {
    if es != [] {
      var x, rest := es[0], es[1..];
      ApplyDecides(m[x.0 := x.1], rest, k);
      ApplyDecides(map[x.0 := x.1], rest, k);
      assert map[][x.0 := x.1] == map[x.0 := x.1];
    }
  }

  lemma {:induction false} LiveStates(m: map<Key, bool>, ks: seq<Key>, k: Key)
    ensures var r := Apply(m, Live(ks));
            if k in ks then k in r && !r[k] else (k in r <==> k in m) && (k in m ==> r[k] == m[k])
    decreases |ks|
  {
    if ks != [] {
      assert Live(ks)[1..] == Live(ks[1..]);
      assert Live(ks)[0] == (ks[0], false);
      LiveStates(m[ks[0] := false], ks[1..], k);
      assert k in ks <==> k == ks[0] || k in ks[1..];
    }
  }

  lemma {:induction false} KeysOfRecords(ks: seq<Key>)
    requires forall i :: 0 <= i < |ks| ==> |ks[i]| < TWO32
    ensures Keys(KeyRecords(ks), |ks|) == ks
  {
    if ks != [] {
      var k, rest := ks[0], KeyRecords(ks[1..]);
      var s := KeyRecord(k) + rest;
      assert s == [] + BE32(|k|) + (k + rest);
      ReadBEAt([], |k|, k + rest);
      assert s[4..4 + |k|] == k && s[4 + |k|..] == rest;
      KeysOfRecords(ks[1..]);
      assert Keys(s, |ks|) == [k] + Keys(rest, |ks| - 1);
    }
  }

  lemma HeaderFields(bitmap: seq<byte>, count: nat, t: seq<byte>)
    requires |bitmap| < TWO32 && count < TWO32
    ensures var s := Header(bitmap, count) + t;
            && DetectVersion(s) == V2 && ReadBE(s, 1) == |bitmap| && ReadBE(s, 5 + |bitmap|) == count
            && s[9 + |bitmap|..] == t
  {
    var s := Header(bitmap, count) + t;
    var p := [V2] + BE32(|bitmap|) + bitmap;
    assert s == [V2] + BE32(|bitmap|) + (bitmap + BE32(count) + t);
    ReadBEAt([V2], |bitmap|, bitmap + BE32(count) + t);
    assert s == p + BE32(count) + t;
    ReadBEAt(p, count, t);
  }

  /** Reading back what SerializeV2 wrote gives exactly the active keys, in order. */
  lemma ParseSerialized(keys: set<Key>, b: Bitmap)
    requires Fits(keys, b)
    ensures DetectVersion(Serialized(keys, b)) == V2 && V2Keys(Serialized(keys, b)) == InOrder(keys)
  {
    var ks, bitmap := InOrder(keys), b.Of(keys);
    InOrderSorted(keys);
    HeaderFields(bitmap, |keys|, KeyRecords(ks));
    forall i | 0 <= i < |ks|
      ensures |ks[i]| < TWO32
    {
      InOrderHas(keys, ks[i]);
    }
    KeysOfRecords(ks);
  }

  lemma SerializedStates(m: map<Key, bool>, keys: set<Key>, b: Bitmap, k: Key)
    requires Fits(keys, b)
    ensures var r := Apply(m, Entries(Serialized(keys, b)));
            if k in keys then k in r && !r[k] else (k in r <==> k in m) && (k in m ==> r[k] == m[k])
  {
    hide Serialized, Apply, Live;
    ParseSerialized(keys, b);
    LiveStates(m, InOrder(keys), k);
    InOrderHas(keys, k);
  }

  lemma SerializedActive(keys: set<Key>, b: Bitmap)
    requires Fits(keys, b)
    ensures Active(Apply(map[], Entries(Serialized(keys, b)))) == keys
  {
    hide Serialized, Apply, Entries;
    forall k
      ensures IsActive(Apply(map[], Entries(Serialized(keys, b))), k) <==> k in keys
    {
      SerializedStates(map[], keys, b, k);
    }
  }

  /** Merging in two steps is byte-identical to merging in one, for raw operands and either base format too. */
  lemma MergeSplits(base: Option<seq<byte>>, ops1: seq<Operand>, ops2: seq<Operand>, b: Bitmap)
    requires Fits(Active(Merged(base, ops1)), b)
    ensures FullMerge(base, ops1 + ops2, b) == FullMerge(Some(FullMerge(base, ops1, b)), ops2, b)
  {
    hide Serialized, Apply, Entries, Effects, Active;
    var first, es2 := Merged(base, ops1), Effects(ops2);
    var v := FullMerge(base, ops1, b);
    EffectsAppend(ops1, ops2);
    assert Existing(base) + (Effects(ops1) + es2) == Existing(base) + Effects(ops1) + es2;
    ApplyAppend(map[], Existing(base) + Effects(ops1), es2);
    ApplyAppend(map[], Entries(v), es2);
    SerializedActive(Active(first), b);
    SameActive(first, Apply(map[], Entries(v)), es2);
  }

  /** The value PartialMergeMulti leaves for a group of operands. */
  ghost function PartialMerge(group: seq<Operand>, b: Bitmap): seq<byte> {
    Serialized(Active(Apply(map[], Effects(group))), b)
  }

  /** The group ends by deleting a key that is active before it. */
  ghost predicate DeletesActive(m: map<Key, bool>, group: seq<Operand>) {
    exists k :: IsActive(m, k) && k in Apply(map[], Effects(group)) && Apply(map[], Effects(group))[k]
  }

  lemma PartialStates(m: map<Key, bool>, group: seq<Operand>, b: Bitmap, k: Key)
    requires Fits(Active(Apply(map[], Effects(group))), b)
    ensures var e := Apply(map[], Effects(group));
            var direct := IsActive(Apply(m, Effects(group)), k);
            var viaPartial := IsActive(Apply(m, Entries(PartialMerge(group, b))), k);
            if k in e && e[k] then !direct && (viaPartial <==> IsActive(m, k)) else direct <==> viaPartial
  {
    hide Serialized, Apply, Entries, Effects;
    var es := Effects(group);
    ApplyDecides(m, es, k);
    SerializedStates(m, Active(Apply(map[], es)), b, k);
  }

  /** Merging a group through PartialMergeMulti agrees with merging its operands directly exactly when the group
      deletes no key that was active before it. */
  lemma PartialMergeAgrees(m: map<Key, bool>, group: seq<Operand>, b: Bitmap)
    requires Fits(Active(Apply(map[], Effects(group))), b)
    ensures Active(Apply(m, Entries(PartialMerge(group, b)))) == Active(Apply(m, Effects(group))) <==> !DeletesActive(m, group)
  {
    hide Serialized, Apply, Entries, Effects, PartialMerge;
    var e := Apply(map[], Effects(group));
    var direct, via := Apply(m, Effects(group)), Apply(m, Entries(PartialMerge(group, b)));
    if DeletesActive(m, group) {
      var k :| IsActive(m, k) && k in e && e[k];
      PartialStates(m, group, b, k);
      assert k in Active(via) && k !in Active(direct);
    } else {
      forall k
        ensures k in Active(via) <==> k in Active(direct)
      {
        PartialStates(m, group, b, k);
      }
    }
  }

  lemma SerializedInjective(a: set<Key>, c: set<Key>, b: Bitmap)
    requires Fits(a, b) && Fits(c, b) && Serialized(a, b) == Serialized(c, b)
    ensures a == c
  {
    hide Serialized, Entries, Apply;
    SerializedActive(a, b);
    SerializedActive(c, b);
  }

  lemma MergedAppend(base: Option<seq<byte>>, before: seq<Operand>, ops: seq<Operand>)
    ensures Merged(base, before + ops) == Apply(Merged(base, before), Effects(ops))
  {
    hide Apply, Effects, Entries;
    EffectsAppend(before, ops);
    assert Existing(base) + (Effects(before) + Effects(ops)) == Existing(base) + Effects(before) + Effects(ops);
    ApplyAppend(map[], Existing(base) + Effects(before), Effects(ops));
  }

  lemma RawEffect(bytes: seq<byte>)
    ensures Effects([Raw(bytes)]) == Entries(bytes)
  {
    hide Entries;
    assert Effects([Raw(bytes)]) == Entries(bytes) + Effects([]);
  }

  /** The same, on the stored bytes: with any base and any operands before the group, replacing the group by its
      partial merge leaves the merged value unchanged exactly when the group deletes nothing active before it. */
  lemma PartialMergeTransparent(base: Option<seq<byte>>, before: seq<Operand>, group: seq<Operand>, b: Bitmap)
    requires Fits(Active(Apply(map[], Effects(group))), b)
    requires Fits(Active(Merged(base, before + group)), b)
    requires Fits(Active(Merged(base, before + [Raw(PartialMerge(group, b))])), b)
    ensures FullMerge(base, before + [Raw(PartialMerge(group, b))], b) == FullMerge(base, before + group, b)
            <==> !DeletesActive(Merged(base, before), group)
  {
    hide Serialized, Apply, Entries, Effects, PartialMerge, Merged, Active, DeletesActive, Fits;
    var p := PartialMerge(group, b);
    var m := Merged(base, before);
    MergedAppend(base, before, group);
    MergedAppend(base, before, [Raw(p)]);
    RawEffect(p);
    PartialMergeAgrees(m, group, b);
    if FullMerge(base, before + [Raw(p)], b) == FullMerge(base, before + group, b) {
      SerializedInjective(Active(Merged(base, before + [Raw(p)])), Active(Merged(base, before + group)), b);
    }
  }

  /** With no earlier value the two always agree. */
  lemma PartialMergeWithoutBase(group: seq<Operand>, b: Bitmap)
    requires Fits(Active(Apply(map[], Effects(group))), b)
    ensures FullMerge(None, [Raw(PartialMerge(group, b))], b) == FullMerge(None, group, b)
  {
    hide Serialized, Apply, Entries, PartialMerge, Active;
    PartialMergeAgrees(map[], group, b);
    var p := PartialMerge(group, b);
    RawEffect(p);
    assert [] + Entries(p) == Entries(p) && [] + Effects(group) == Effects(group);
  }

  lemma TwoDeletes(k: Key)
    ensures Apply(map[], Effects([Del(k), Del(k)])) == map[k := true]
  {
    var one: seq<Operand> := [Del(k)];
    var es: seq<Entry> := [(k, true), (k, true)];
    assert Effects(one) == [(k, true)] + Effects([]) == [(k, true)];
    assert [Del(k), Del(k)] == one + one;
    EffectsAppend(one, one);
    assert es == [(k, true)] + [(k, true)] && es[1..] == [(k, true)] && es[1..][1..] == [];
    assert Apply(map[], es) == Apply(map[k := true], es[1..]) == Apply(map[k := true], es[1..][1..]);
  }

  /** A run of the failing family: a stored key deleted by a group that is partially merged first comes back. */
  lemma PartialMergeResurrects(k: Key, b: Bitmap)
    requires Fits({k}, b) && Fits({}, b)
    ensures var base := Apply(map[], Entries(Serialized({k}, b)));
            var group := [Del(k), Del(k)];
            Active(Apply(base, Effects(group))) == {} && Active(Apply(base, Entries(PartialMerge(group, b)))) == {k}
  {
    hide Serialized, Entries, Apply, Effects, PartialMerge;
    var group := [Del(k), Del(k)];
    var base := Apply(map[], Entries(Serialized({k}, b)));
    TwoDeletes(k);
    assert Active(map[k := true]) == {};
    SerializedActive({k}, b);
    forall x
      ensures x !in Active(Apply(base, Effects(group)))
      ensures x in Active(Apply(base, Entries(PartialMerge(group, b)))) <==> x == k
    {
      assert x in Active(base) <==> x == k;
      PartialStates(base, group, b, x);
      ApplyDecides(base, Effects(group), x);
    }
  }

  /** The ascending list of a set is unique, so the serialised form of a set is canonical. */
  lemma {:induction false} InOrderUnique(ks: seq<Key>)
    requires Ascending(ks)
    ensures ks == InOrder(set k | k in ks)
    decreases |ks|
  {
    var s := set k | k in ks;
    if ks == [] {
      assert s == {};
    } else {
      var rest := ks[1..];
      assert ks == [ks[0]] + rest;
      assert ks[0] in s;
      forall x | x in s && x != ks[0]
        ensures Less(ks[0], x)
      {
        var i :| 0 <= i < |ks| && ks[i] == x;
      }
      assert IsLeast(ks[0], s);
      LessTotal(ks[0], ks[0]);
      forall i | 0 <= i < |rest|
        ensures rest[i] != ks[0]
      {
        assert Less(ks[0], ks[i + 1]);
      }
      assert (set k | k in rest) == s - {ks[0]};
      InOrderUnique(rest);
      InOrderUnfold(s, ks[0]);
    }
  }

  /** An Add or Del of another key. */
  predicate Spares(op: Operand, k: Key) {
    !op.Raw? && op.key != k
  }

  lemma EffectsFirst(ops: seq<Operand>)
    requires ops != []
    ensures Effects(ops) == Effect(ops[0]) + Effects(ops[1..])
  {
  }

  lemma ApplyOne(m: map<Key, bool>, e: Entry)
    ensures Apply(m, [e]) == m[e.0 := e.1]
  {
    assert [e][1..] == [];
  }

  lemma {:induction false} SparedKey(m: map<Key, bool>, ops: seq<Operand>, k: Key)
    requires forall j :: 0 <= j < |ops| ==> Spares(ops[j], k)
    ensures var r := Apply(m, Effects(ops)); (k in r <==> k in m) && (k in m ==> r[k] == m[k])
    decreases |ops|
  {
    hide Apply, Effects;
    if ops == [] {
      NoEffect(m);
    } else {
      var op := ops[0];
      var e := (op.key, op.Del?);
      assert Spares(op, k) && Effect(op) == [e];
      EffectsFirst(ops);
      ApplyAppend(m, [e], Effects(ops[1..]));
      ApplyOne(m, e);
      SparedKey(m[e.0 := e.1], ops[1..], k);
    }
  }

  lemma NoEffect(m: map<Key, bool>)
    ensures Apply(m, Effects([])) == m
  {
  }

  /** The last operand that names a key decides it: after an Add it is active, after a Del it is not. */
  lemma LastOperandDecides(base: Option<seq<byte>>, ops: seq<Operand>, i: nat, k: Key)
    requires i < |ops| && !ops[i].Raw? && ops[i].key == k
    requires forall j :: i < j < |ops| ==> Spares(ops[j], k)
    ensures IsActive(Merged(base, ops), k) <==> ops[i].Add?
  {
    hide Apply, Effects, Merged;
    var before, op, rest := ops[..i], ops[i], ops[i + 1..];
    var e := (k, op.Del?);
    assert ops == before + ([op] + rest);
    MergedAppend(base, before, [op] + rest);
    EffectsFirst([op] + rest);
    assert ([op] + rest)[1..] == rest && Effect(op) == [e];
    var m := Merged(base, before);
    ApplyAppend(m, [e], Effects(rest));
    ApplyOne(m, e);
    assert forall j :: 0 <= j < |rest| ==> rest[j] == ops[i + 1 + j];
    SparedKey(m[k := op.Del?], rest, k);
  }

  /** The last entry for a key is no tombstone. */
  ghost predicate LastActive(es: seq<Entry>, k: Key) {
    exists i: nat :: i < |es| && es[i] == (k, false) && NamedLast(es, i)
  }

  ghost predicate NamedLast(es: seq<Entry>, i: nat)
    requires i < |es|
  {
    forall j :: i < j < |es| ==> es[j].0 != es[i].0
  }

  lemma {:induction false} ApplyUnnamed(m: map<Key, bool>, es: seq<Entry>, k: Key)
    requires forall j :: 0 <= j < |es| ==> es[j].0 != k
    ensures var r := Apply(m, es); (k in r <==> k in m) && (k in m ==> r[k] == m[k])
    decreases |es|
  {
    if es != [] {
      ApplyUnnamed(m[es[0].0 := es[0].1], es[1..], k);
    }
  }

  lemma {:induction false} ApplyLast(m: map<Key, bool>, es: seq<Entry>, i: nat)
    requires i < |es| && NamedLast(es, i)
    ensures var r := Apply(m, es); es[i].0 in r && r[es[i].0] == es[i].1
    decreases |es|
  {
    var m' := m[es[0].0 := es[0].1];
    if i == 0 {
      ApplyUnnamed(m', es[1..], es[0].0);
    } else {
      assert NamedLast(es[1..], i - 1);
      ApplyLast(m', es[1..], i - 1);
    }
  }

  lemma {:induction false} LastNamed(es: seq<Entry>, k: Key) returns (found: bool, i: nat)
    ensures found ==> i < |es| && es[i].0 == k && NamedLast(es, i)
    ensures !found ==> forall j :: 0 <= j < |es| ==> es[j].0 != k
    decreases |es|
  {
    found, i := false, 0;
    if es != [] {
      var n := |es| - 1;
      if es[n].0 == k {
        found, i := true, n;
      } else {
        found, i := LastNamed(es[..n], k);
      }
    }
  }

  /** A list of entries means the keys whose last entry is no tombstone. */
  lemma ActiveByLast(es: seq<Entry>, k: Key)
    ensures IsActive(Apply(map[], es), k) <==> LastActive(es, k)
  {
    hide Apply;
    var found, i := LastNamed(es, k);
    if found {
      ApplyLast(map[], es, i);
      if LastActive(es, k) {
        var j: nat :| j < |es| && es[j] == (k, false) && NamedLast(es, j);
        assert i == j;
      }
    } else {
      ApplyUnnamed(map[], es, k);
    }
  }

  /** The keys of a stored value, by its format. */
  ghost predicate Lists(value: seq<byte>, k: Key) {
    if DetectVersion(value) == V2 then k in V2Keys(value) else LastActive(V1Entries(value), k)
  }

  lemma ListsActive(value: seq<byte>, k: Key)
    ensures Lists(value, k) <==> IsActive(Apply(map[], Entries(value)), k)
  {
    hide Apply, V2Keys, V1Entries, Live;
    if DetectVersion(value) == V2 {
      LiveStates(map[], V2Keys(value), k);
    } else {
      ActiveByLast(V1Entries(value), k);
    }
  }

  /** A key that no operand names is active exactly if the base lists it. */
  lemma UnnamedKeyKept(base: Option<seq<byte>>, ops: seq<Operand>, k: Key)
    requires forall j :: 0 <= j < |ops| ==> Spares(ops[j], k)
    ensures IsActive(Merged(base, ops), k) <==> base.Some? && Lists(base.value, k)
  {
    hide Apply, Effects, Lists, Entries;
    assert ops == [] + ops;
    MergedAppend(base, [], ops);
    SparedKey(Merged(base, []), ops, k);
    NoEffects();
    assert Existing(base) + [] == Existing(base);
    if base.Some? {
      ListsActive(base.value, k);
    } else {
      NoEffect(map[]);
    }
  }

  lemma NoEffects()
    ensures Effects([]) == []
  {
  }

  /** The keys parsed from a merged value are the active ones. */
  lemma StoredKeys(base: Option<seq<byte>>, ops: seq<Operand>, b: Bitmap, k: Key)
    requires Fits(Active(Merged(base, ops)), b)
    ensures k in V2Keys(FullMerge(base, ops, b)) <==> IsActive(Merged(base, ops), k)
  {
    hide Serialized, V2Keys, Merged, InOrder;
    var keys := Active(Merged(base, ops));
    ParseSerialized(keys, b);
    InOrderHas(keys, k);
  }

  /** What a merge stores for a key: as its last Add or Del says, otherwise as the base did. */
  lemma MergeStores(base: Option<seq<byte>>, ops: seq<Operand>, b: Bitmap, i: nat, k: Key)
    requires Fits(Active(Merged(base, ops)), b) && i <= |ops|
    requires forall j :: i <= j < |ops| ==> Spares(ops[j], k)
    ensures i > 0 && ops[i - 1] == Add(k) ==> k in V2Keys(FullMerge(base, ops, b))
    ensures i > 0 && ops[i - 1] == Del(k) ==> k !in V2Keys(FullMerge(base, ops, b))
    ensures i == 0 ==> (k in V2Keys(FullMerge(base, ops, b)) <==> base.Some? && Lists(base.value, k))
  {
    hide FullMerge, V2Keys, Merged, Lists, Fits;
    StoredKeys(base, ops, b, k);
    if i == 0 {
      UnnamedKeyKept(base, ops, k);
    } else if !ops[i - 1].Raw? && ops[i - 1].key == k {
      LastOperandDecides(base, ops, i - 1, k);
    }
  }

  /** The bitmap field of a merged value holds the hashes of its keys. */
  lemma MergeStoresBitmap(base: Option<seq<byte>>, ops: seq<Operand>, b: Bitmap)
    requires Fits(Active(Merged(base, ops)), b)
    ensures var value := FullMerge(base, ops, b);
            var bitmap := b.bytes(set k | k in V2Keys(value) :: b.hash(k));
            |value| >= 9 + |bitmap| && value[0] == 2 && ReadBE(value, 1) == |bitmap| && value[5..5 + |bitmap|] == bitmap
  {
    hide V2Keys, Merged, InOrder, KeyRecords, Active;
    var keys := Active(Merged(base, ops));
    var value := FullMerge(base, ops, b);
    var records := KeyRecords(InOrder(keys));
    ParseSerialized(keys, b);
    forall k
      ensures k in V2Keys(value) <==> k in keys
    {
      InOrderHas(keys, k);
    }
    assert (set k | k in V2Keys(value) :: b.hash(k)) == (set k | k in keys :: b.hash(k));
    var bitmap := b.Of(keys);
    assert b.bytes(set k | k in keys :: b.hash(k)) == bitmap;
    HeaderFields(bitmap, |keys|, records);
    BitmapField(bitmap, |keys|, records);
  }

  lemma BitmapField(bitmap: seq<byte>, count: nat, t: seq<byte>)
    ensures var s := Header(bitmap, count) + t; |s| >= 9 + |bitmap| && s[5..5 + |bitmap|] == bitmap
  {
    var s := Header(bitmap, count) + t;
    assert s == [V2] + BE32(|bitmap|) + (bitmap + (BE32(count) + t));
  }
}
