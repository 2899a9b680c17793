/** Queries on posting lists (c_src/posting_list_nif.cc). */
module PostingQuery {
  import opened Bytes
  import opened PostingFormat
  import opened PostingLaws
  import opened PostingMerge

  /** The active keys of a value in either format. */
  function ActiveKeys(value: seq<byte>): set<Key> {
    Active(Apply(map[], Entries(value)))
  }

  /** parse_posting_list_v1: last occurrence wins, tombstones dropped. */
  method ParsePostingListV1(data: seq<byte>) returns (keys: set<Key>)
    ensures keys == Active(Apply(map[], V1Entries(data)))
  {
    var states := ParseV1Value(data, map[]);
    keys := Active(states);
  }

  lemma KeySetStates(ks: seq<Key>)
    ensures Active(Apply(map[], Live(ks))) == set k | k in ks
  {
    hide Apply, Live;
    forall k
      ensures k in Active(Apply(map[], Live(ks))) <==> k in ks
    {
      LiveStates(map[], ks, k);
    }
  }

  /** parse_posting_list_v2. */
  method ParsePostingListV2(data: seq<byte>) returns (keys: set<Key>)
    ensures keys == set k | k in V2Keys(data)
  {
    hide Keys;
    keys := {};
    if |data| < 1 { return; }
    if |data| < 5 { return; }
    var bitmapSize := ReadBE(data, 1);
    if 5 + bitmapSize > |data| { return; }
    var p := 5 + bitmapSize;
    if p + 4 > |data| { return; }
    var ks := ScanKeys(data, p + 4, ReadBE(data, p));
    keys := set k | k in ks;
  }

  /** The key scan shared by parse_posting_list_v2 and binary_search_v2_keys. */
  method ScanKeys(data: seq<byte>, from: nat, count: nat) returns (ks: seq<Key>)
    requires from <= |data|
    ensures ks == Keys(data[from..], count)
  {
    hide Keys;
    ks := [];
    var p, i := from, 0;
    while i < count && p + 4 <= |data|
      invariant from <= p <= |data| && 0 <= i <= count
      invariant ks + Keys(data[p..], count - i) == Keys(data[from..], count)
      decreases count - i
    {
      var len := ReadBE(data, p);
      if p + 4 + len > |data| { break; }
      KeysUnfold(data, p, len, count - i);
      var key := data[p + 4..p + 4 + len];
      assert ks + ([key] + Keys(data[p + 4 + len..], count - i - 1)) == ks + [key] + Keys(data[p + 4 + len..], count - i - 1);
      ks := ks + [key];
      p, i := p + 4 + len, i + 1;
    }
    NoKeys(data, p, count - i);
    assert ks + [] == ks;
  }

  lemma NoKeys(data: seq<byte>, p: nat, n: nat)
    requires p <= |data| && (n == 0 || p + 4 > |data| || p + 4 + ReadBE(data, p) > |data|)
    ensures Keys(data[p..], n) == []
  {
    if p + 4 <= |data| {
      ReadBESlice(data, p, 0);
    }
  }

  /** memcmp on the common prefix, then the lengths. */
  function Compare(a: Key, b: Key): int {
    var n := if |a| < |b| then |a| else |b|;
    var c := MemCmp(a[..n], b[..n]);
    if c != 0 then c else if |a| < |b| then -1 else if |a| > |b| then 1 else 0
  }

  function MemCmp(a: Key, b: Key): int
    requires |a| == |b|
  {
    if a == [] then 0 else if a[0] < b[0] then -1 else if a[0] > b[0] then 1 else MemCmp(a[1..], b[1..])
  }

  lemma PrefixTail(a: Key, n: nat)
    requires 0 < n <= |a|
    ensures a[..n][1..] == a[1..][..n - 1]
  {
  }

  /** The comparison is the string order. */
  lemma {:induction false} CompareIsOrder(a: Key, b: Key)
    ensures Compare(a, b) == if a == b then 0 else if Less(a, b) then -1 else 1
  {
    if a != [] && b != [] {
      CompareIsOrder(a[1..], b[1..]);
      var n := if |a| < |b| then |a| else |b|;
      PrefixTail(a, n);
      PrefixTail(b, n);
      assert a == [a[0]] + a[1..] && b == [b[0]] + b[1..];
    }
  }

  /** What halving finds between `lo` and `hi`, whether or not the keys ascend. */
  function Search(ks: seq<Key>, key: Key, lo: nat, hi: nat): bool
    requires hi <= |ks|
    decreases hi - lo
  {
    lo < hi &&
    var mid := lo + (hi - lo) / 2;
    var cmp := Compare(ks[mid], key);
    cmp == 0 || if cmp < 0 then Search(ks, key, mid + 1, hi) else Search(ks, key, lo, mid)
  }

  /** A positive answer is always right, and the middle key is always found. */
  lemma {:induction false} SearchFinds(ks: seq<Key>, key: Key, lo: nat, hi: nat)
    requires hi <= |ks|
    ensures Search(ks, key, lo, hi) ==> exists i :: lo <= i < hi && ks[i] == key
    ensures lo < hi && ks[lo + (hi - lo) / 2] == key ==> Search(ks, key, lo, hi)
    decreases hi - lo
  {
    if lo < hi {
      var mid := lo + (hi - lo) / 2;
      CompareIsOrder(ks[mid], key);
      SearchFinds(ks, key, mid + 1, hi);
      SearchFinds(ks, key, lo, mid);
    }
  }

  /** On ascending keys nothing is missed. */
  lemma {:induction false} SearchComplete(ks: seq<Key>, key: Key, lo: nat, hi: nat, i: nat)
    requires Ascending(ks) && lo <= i < hi <= |ks| && ks[i] == key
    ensures Search(ks, key, lo, hi)
    decreases hi - lo
  {
    hide Less, Compare;
    var mid := lo + (hi - lo) / 2;
    CompareIsOrder(ks[mid], key);
    LessTotal(ks[mid], key);
    if i < mid {
      SearchComplete(ks, key, lo, mid, i);
    } else if mid < i {
      SearchComplete(ks, key, mid + 1, hi, i);
    }
  }

  lemma SearchIsMembership(ks: seq<Key>, key: Key)
    requires Ascending(ks)
    ensures Search(ks, key, 0, |ks|) <==> key in ks
  {
    SearchFinds(ks, key, 0, |ks|);
    if key in ks {
      var i :| 0 <= i < |ks| && ks[i] == key;
      SearchComplete(ks, key, 0, |ks|, i);
    }
  }

  /** Without ascending keys a key may be missed: searching "b" in the list "b", "a". */
  lemma UnsortedMissed()
    ensures !Search([[98], [97]], [98], 0, 2)
  {
    var a: Key, b: Key := [97], [98];
    var ks := [b, a];
    CompareIsOrder(a, b);
    assert Less(a, b) && a != b;
    assert !Search(ks, b, 2, 2);
  }

  /** The lo/hi loop over the indexed keys. */
  method SearchKeys(ks: seq<Key>, key: Key) returns (found: bool)
    ensures found == Search(ks, key, 0, |ks|)
  {
    hide Compare;
    var lo, hi := 0, |ks|;
    while lo < hi
      invariant 0 <= lo <= hi <= |ks| && Search(ks, key, lo, hi) == Search(ks, key, 0, |ks|)
    {
      var mid := lo + (hi - lo) / 2;
      var cmp := Compare(ks[mid], key);
      if cmp == 0 { return true; }
      if cmp < 0 {
        lo := mid + 1;
      } else {
        hi := mid;
      }
    }
    found := false;
  }

  /** Where the search looks for the key count: the size of the bitmap and of its own field are added in 32 bits. */
  function CountAt(data: seq<byte>): nat
    requires |data| >= 5
  {
    1 + (4 + ReadBE(data, 1)) % TWO32
  }

  /** The keys the search indexes. */
  function IndexedKeys(data: seq<byte>): seq<Key> {
    if |data| < 5 || CountAt(data) + 4 > |data| then []
    else Keys(data[CountAt(data) + 4..], ReadBE(data, CountAt(data)))
  }

  /** The sum does not wrap. */
  predicate FitsField(data: seq<byte>) {
    |data| < 5 || ReadBE(data, 1) < 0xFFFF_FFFC
  }

  lemma IndexedAreParsed(data: seq<byte>)
    requires FitsField(data)
    ensures IndexedKeys(data) == V2Keys(data)
  {
    hide Keys;
  }

  /** The first key record at the cursor of the search is complete. */
  predicate RecordAtCount(data: seq<byte>)
    requires |data| >= 5
  {
    var p := CountAt(data) + 4;
    p + 4 <= |data| && p + 4 + ReadBE(data, p) <= |data|
  }

  lemma WrappedField(data: seq<byte>)
    requires |data| >= 5 && !FitsField(data)
    ensures data[1] == data[2] == data[3] == 255 && data[4] >= 252 && CountAt(data) == data[4] - 251
  {
  }

  lemma WrappedCount(data: seq<byte>)
    requires |data| >= 5 && !FitsField(data) && CountAt(data) + 4 <= |data|
    ensures ReadBE(data, CountAt(data)) > 0
  {
    WrappedField(data);
  }

  /** Where the sum wraps, the search finds some key exactly if there is a complete record at its cursor. */
  lemma WrappedFinds(data: seq<byte>)
    requires |data| >= 5 && !FitsField(data)
    ensures IndexedKeys(data) != [] <==> RecordAtCount(data)
  {
    if CountAt(data) + 4 <= |data| {
      WrappedCount(data);
      var p := CountAt(data) + 4;
      if p + 4 <= |data| {
        ReadBESlice(data, p, 0);
      }
    }
  }

  /** binary_search_v2_keys answers as membership in the parsed set, for every key. */
  ghost predicate Agrees(data: seq<byte>) {
    forall key: Key :: Search(IndexedKeys(data), key, 0, |IndexedKeys(data)|) <==> key in V2Keys(data)
  }

  /** When the search agrees with the parser, whose keys ascend: always if the sum fits 32 bits; if it does not, and the
      parser finds no keys (the value is too short for the bitmap it announces, say), exactly if there is no complete
      record at the wrapped cursor; and exactly if both see the same list wherever the indexed keys ascend too. */
  lemma SearchAgrees(data: seq<byte>)
    requires Ascending(V2Keys(data))
    ensures FitsField(data) ==> Agrees(data)
    ensures !FitsField(data) && V2Keys(data) == [] ==> (Agrees(data) <==> !RecordAtCount(data))
    ensures !FitsField(data) && Agrees(data) && V2Keys(data) != [] ==> RecordAtCount(data)
    ensures Ascending(IndexedKeys(data)) ==> (Agrees(data) <==> IndexedKeys(data) == V2Keys(data))
  {
    hide Search, Keys, Less, IndexedKeys, V2Keys, Ascending;
    if FitsField(data) {
      IndexedAreParsed(data);
      SameListAgrees(data);
    } else {
      WrappedFinds(data);
      if V2Keys(data) == [] {
        WrappedAgrees(data);
      } else if IndexedKeys(data) == [] {
        NothingFound(data);
      }
    }
    if Ascending(IndexedKeys(data)) {
      SameListAgrees(data);
    }
  }

  /** Two ascending lists with the same members are one. */
  lemma SameListAgrees(data: seq<byte>)
    requires Ascending(V2Keys(data)) && Ascending(IndexedKeys(data))
    ensures Agrees(data) <==> IndexedKeys(data) == V2Keys(data)
  {
    hide Search, Keys, Less, IndexedKeys, V2Keys, Ascending;
    var a, b := IndexedKeys(data), V2Keys(data);
    forall key: Key
      ensures Search(a, key, 0, |a|) <==> key in a
    {
      SearchIsMembership(a, key);
    }
    if Agrees(data) {
      assert (set k | k in a) == (set k | k in b);
      InOrderUnique(a);
      InOrderUnique(b);
    }
  }

  lemma NothingFound(data: seq<byte>)
    requires IndexedKeys(data) == [] && V2Keys(data) != []
    ensures !Agrees(data)
  {
    hide IndexedKeys, V2Keys;
    assert V2Keys(data)[0] in V2Keys(data);
    assert !Search([], V2Keys(data)[0], 0, 0);
  }

  lemma WrappedAgrees(data: seq<byte>)
    requires !FitsField(data) && V2Keys(data) == []
    ensures Agrees(data) <==> !RecordAtCount(data)
  {
    hide Search, Keys, IndexedKeys, V2Keys;
    WrappedFinds(data);
    var ks := IndexedKeys(data);
    if ks != [] {
      var mid := |ks| / 2;
      SearchFinds(ks, ks[mid], 0, |ks|);
      assert ks[mid] !in V2Keys(data);
    } else {
      forall key: Key
        ensures !Search(ks, key, 0, |ks|)
      {
        SearchFinds(ks, key, 0, |ks|);
      }
    }
  }

  /** A value of ten bytes that holds no keys, in which the search finds "a". */
  lemma WrappedSearchFinds()
    ensures var data: seq<byte> := [2, 255, 255, 255, 252, 0, 0, 0, 1, 97];
            V2Keys(data) == [] && Search(IndexedKeys(data), [97], 0, |IndexedKeys(data)|)
  {
    var data: seq<byte> := [2, 255, 255, 255, 252, 0, 0, 0, 1, 97];
    assert CountAt(data) == 1 && ReadBE(data, 1) == 0xFFFF_FFFC;
    var s := data[5..];
    assert s == [0, 0, 0, 1, 97] && ReadBE(s, 0) == 1 && s[4..5] == [97] && s[5..] == [];
    var ks := IndexedKeys(data);
    assert ks == [[97]] + Keys([], 0xFFFF_FFFB);
    assert ks == [[97]];
    SearchFinds(ks, [97], 0, 1);
  }

  /** binary_search_v2_keys, on any bytes. */
  method BinarySearchV2Keys(data: seq<byte>, key: Key) returns (found: bool)
    ensures found <==> data != [] && data[0] == V2 && Search(IndexedKeys(data), key, 0, |IndexedKeys(data)|)
    ensures DetectVersion(data) == V2 && FitsField(data) ==> (found ==> key in V2Keys(data))
    ensures DetectVersion(data) == V2 && FitsField(data) && Ascending(V2Keys(data)) ==> (found <==> key in V2Keys(data))
  {
    hide Keys, Less, Search;
    if |data| == 0 || data[0] != V2 { return false; }
    ghost var ks0 := IndexedKeys(data);
    SearchFinds(ks0, key, 0, |ks0|);
    if FitsField(data) {
      IndexedAreParsed(data);
    }
    if Ascending(ks0) {
      SearchIsMembership(ks0, key);
    }
    if |data| < 5 { return false; }
    var p := 1 + (4 + ReadBE(data, 1)) % TWO32;
    if p + 4 > |data| { return false; }
    var count := ReadBE(data, p);
    p := p + 4;
    if count == 0 {
      NoKeys(data, p, count);
      return false;
    }
    var ks := ScanKeys(data, p, count);
    found := SearchKeys(ks, key);
  }

  /** PostingListContains: membership in the active set, for V1 values and for V2 values with ascending keys whose bitmap
      size does not wrap. */
  method PostingListContains(data: seq<byte>, key: Key) returns (r: bool)
    ensures DetectVersion(data) == V2 && FitsField(data) && Ascending(V2Keys(data)) ==> (r <==> key in ActiveKeys(data))
    ensures DetectVersion(data) == V2 ==> r == Search(IndexedKeys(data), key, 0, |IndexedKeys(data)|)
    ensures DetectVersion(data) != V2 || (FitsField(data) && Ascending(V2Keys(data))) ==> (r <==> Lists(data, key))
    ensures DetectVersion(data) != V2 ==> (r <==> key in ActiveKeys(data))
  {
    hide Apply, V2Keys, V1Entries, Less, Live, Search, IndexedKeys, FitsField, Lists;
    ListsActive(data, key);
    if DetectVersion(data) == V2 {
      KeySetStates(V2Keys(data));
      r := BinarySearchV2Keys(data, key);
    } else {
      var keys := ParsePostingListV1(data);
      r := key in keys;
    }
  }

  lemma SerializedFits(keys: set<Key>, b: Bitmap)
    requires Fits(keys, b) && |b.Of(keys)| + 4 < TWO32
    ensures FitsField(Serialized(keys, b))
  {
    hide KeyRecords, InOrder;
    HeaderFields(b.Of(keys), |keys|, KeyRecords(InOrder(keys)));
  }

  /** Whatever the merge operator stores, the query answers with the last operation on the key, unless the bitmap takes
      2^32 - 4 bytes or more. */
  method QueryAfterMerge(existing: Option<seq<byte>>, ops: seq<Operand>, key: Key, b: Bitmap) returns (r: bool)
    requires Fits(Active(Merged(existing, ops)), b)
    ensures |b.Of(Active(Merged(existing, ops)))| + 4 < TWO32 ==> (r <==> IsActive(Merged(existing, ops), key))
  {
    hide Apply, Less, Serialized, Effects, V2Keys, InOrder, Entries, Existing, FitsField, Search, IndexedKeys;
    ghost var keys := Active(Merged(existing, ops));
    var value := FullMergeV2(existing, ops, b);
    ParseSerialized(keys, b);
    InOrderSorted(keys);
    SerializedActive(keys, b);
    if |b.Of(keys)| + 4 < TWO32 {
      SerializedFits(keys, b);
    }
    r := PostingListContains(value, key);
  }
}
