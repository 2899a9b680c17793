/**
 Posting lists (c_src/posting_list_merge_operator.{h,cc}, c_src/posting_list_nif.cc): the two binary formats,
 key order, and the meaning of a list as a set of active keys.
 */
module PostingFormat {
  import opened Bytes

  type Key = seq<byte>

  /** A key and whether the entry is a tombstone. */
  type Entry = (Key, bool)

  const V1: byte := 1
  const V2: byte := 2

  /** The low 32 bits of v, most significant byte first. */
  function BE32(v: nat): (s: seq<byte>)
    ensures |s| == 4
  {
    [v / 16777216 % 256, v / 65536 % 256, v / 256 % 256, v % 256]
  }

  function ReadBE(s: seq<byte>, i: nat): nat
    requires i + 4 <= |s|
  {
    s[i] as int * 16777216 + s[i + 1] as int * 65536 + s[i + 2] as int * 256 + s[i + 3]
  }

  lemma ReadBE32(v: nat)
    requires v < TWO32
    ensures ReadBE(BE32(v), 0) == v
  {
    assert v / 65536 == v / 256 / 256 && v / 16777216 == v / 65536 / 256;
  }

  lemma ReadBEAt(p: seq<byte>, v: nat, t: seq<byte>)
    requires v < TWO32
    ensures ReadBE(p + BE32(v) + t, |p|) == v
  {
    var s := p + BE32(v) + t;
    assert s[|p|] == BE32(v)[0] && s[|p| + 1] == BE32(v)[1] && s[|p| + 2] == BE32(v)[2] && s[|p| + 3] == BE32(v)[3];
    ReadBE32(v);
  }

  /** A number below 2^32 in four bytes, most significant first. */
  lemma BigEndian(v: nat)
    requires v < TWO32
    ensures BE32(v) == [v / 16777216, v / 65536 % 256, v / 256 % 256, v % 256]
  {
  }

  /** Version byte test; an empty value counts as V1. */
  function DetectVersion(s: seq<byte>): byte {
    if s == [] then V1 else if s[0] == V2 then V2 else V1
  }

  /** V1: <Len:32><Flag:8><Key:Len>..., up to the first entry that does not fit. */
  function V1Entries(s: seq<byte>): seq<Entry>
    decreases |s|
  {
    if |s| < 5 then []
    else
      var len := ReadBE(s, 0);
      if 5 + len > |s| then [] else [(s[5..5 + len], s[4] != 0)] + V1Entries(s[5 + len..])
  }

  /** At most `count` <Len:32><Key:Len> records, up to the first that does not fit. */
  function Keys(s: seq<byte>, count: nat): seq<Key>
    decreases count
  {
    if count == 0 || |s| < 4 then []
    else
      var len := ReadBE(s, 0);
      if 4 + len > |s| then [] else [s[4..4 + len]] + Keys(s[4 + len..], count - 1)
  }

  /** V2: <Version:8><BitmapSize:32><Bitmap><KeyCount:32><Keys>. */
  function V2Keys(s: seq<byte>): seq<Key> {
    if |s| < 5 then []
    else
      var at := 5 + ReadBE(s, 1);
      if at + 4 > |s| then [] else Keys(s[at + 4..], ReadBE(s, at))
  }

  /** A V1 entry as it is stored: four bytes of length, a flag, the key. */
  lemma V1Layout(k: Key, flag: byte, t: seq<byte>)
    requires |k| < TWO32
    ensures var n := |k|;
            V1Entries([n / 16777216, n / 65536 % 256, n / 256 % 256, n % 256, flag] + k + t) == [(k, flag != 0)] + V1Entries(t)
  {
    hide V1Entries;
    var h: seq<byte> := BE32(|k|) + [flag];
    BigEndian(|k|);
    var s := h + k + t;
    assert s == [] + BE32(|k|) + ([flag] + k + t);
    ReadBEAt([], |k|, [flag] + k + t);
    assert s[4] == flag && s[5..5 + |k|] == k && s[5 + |k|..] == t;
    V1First(s);
    assert [|k| / 16777216, |k| / 65536 % 256, |k| / 256 % 256, |k| % 256, flag] == h;
  }

  lemma V1First(s: seq<byte>)
    requires |s| >= 5 && 5 + ReadBE(s, 0) <= |s|
    ensures var n := ReadBE(s, 0); V1Entries(s) == [(s[5..5 + n], s[4] != 0)] + V1Entries(s[5 + n..])
  {
  }

  /** A V2 value as it is stored: the marker, the bitmap behind its size, the number of keys... */
  lemma V2Layout(bitmap: seq<byte>, count: nat, t: seq<byte>)
    requires |bitmap| < TWO32 && count < TWO32
    ensures var n := |bitmap|;
            var s := [2, n / 16777216, n / 65536 % 256, n / 256 % 256, n % 256] + bitmap
                     + [count / 16777216, count / 65536 % 256, count / 256 % 256, count % 256] + t;
            DetectVersion(s) == V2 && V2Keys(s) == Keys(t, count)
  {
    hide Keys;
    var n := |bitmap|;
    BigEndian(n);
    BigEndian(count);
    var s := [2] + BE32(n) + bitmap + BE32(count) + t;
    assert s == [2] + BE32(n) + (bitmap + BE32(count) + t);
    ReadBEAt([2], n, bitmap + BE32(count) + t);
    var p := [2] + BE32(n) + bitmap;
    ReadBEAt(p, count, t);
    assert s[9 + n..] == t;
    assert s == [2, n / 16777216, n / 65536 % 256, n / 256 % 256, n % 256] + bitmap
                + [count / 16777216, count / 65536 % 256, count / 256 % 256, count % 256] + t;
  }

  /** ... and each key behind its length. */
  lemma KeyLayout(k: Key, t: seq<byte>, count: nat)
    requires |k| < TWO32
    ensures var n := |k|;
            Keys([n / 16777216, n / 65536 % 256, n / 256 % 256, n % 256] + k + t, count + 1) == [k] + Keys(t, count)
    ensures Keys(t, 0) == []
  {
    var s := BE32(|k|) + k + t;
    BigEndian(|k|);
    assert s == [] + BE32(|k|) + (k + t);
    ReadBEAt([], |k|, k + t);
    assert s[4..4 + |k|] == k && s[4 + |k|..] == t;
  }

  function Live(ks: seq<Key>): seq<Entry> {
    seq(|ks|, i requires 0 <= i < |ks| => (ks[i], false))
  }

  /** The entries of a value in either format. */
  function Entries(s: seq<byte>): seq<Entry> {
    if DetectVersion(s) == V2 then Live(V2Keys(s)) else V1Entries(s)
  }

  /** Later entries overwrite earlier ones. */
  function Apply(m: map<Key, bool>, es: seq<Entry>): map<Key, bool>
    decreases |es|
  {
    if es == [] then m else Apply(m[es[0].0 := es[0].1], es[1..])
  }

  predicate IsActive(m: map<Key, bool>, k: Key) {
    k in m && !m[k]
  }

  function Active(m: map<Key, bool>): set<Key> {
    set k | k in m && !m[k]
  }

  /** Strict lexicographic order on bytes, a proper prefix first: the order of std::string. */
  predicate Less(a: Key, b: Key) {
    b != [] && (a == [] || a[0] < b[0] || (a[0] == b[0] && Less(a[1..], b[1..])))
  }

  lemma {:induction false} LessTransitive(a: Key, b: Key, c: Key)
    requires Less(a, b) && Less(b, c)
    ensures Less(a, c)
  {
    if a != [] && a[0] == b[0] == c[0] {
      LessTransitive(a[1..], b[1..], c[1..]);
    }
  }

  lemma {:induction false} LessTotal(a: Key, b: Key)
    ensures a == b || Less(a, b) || Less(b, a)
    ensures !(Less(a, b) && (a == b || Less(b, a)))
    ensures !Less(a, a)
  {
    if a != [] && b != [] {
      LessTotal(a[1..], b[1..]);
      assert a == [a[0]] + a[1..] && b == [b[0]] + b[1..];
    }
    if a != [] {
      LessTotal(a[1..], a[1..]);
    }
  }

  /** `a` and `b` agree on `n` bytes, and then `a` ends first or has the smaller byte. */
  ghost predicate FirstDifference(a: Key, b: Key, n: nat) {
    n <= |a| && n < |b| && a[..n] == b[..n] && (n == |a| || a[n] < b[n])
  }

  /** The order is that of the first difference; a proper prefix comes first. */
  lemma {:induction false} LessByFirstDifference(a: Key, b: Key)
    ensures Less(a, b) <==> exists n: nat :: FirstDifference(a, b, n)
  {
    if b != [] && a == [] {
      assert FirstDifference(a, b, 0);
    } else if b != [] {
      LessByFirstDifference(a[1..], b[1..]);
      if a[0] < b[0] {
        assert FirstDifference(a, b, 0);
      } else if Less(a, b) {
        var n: nat :| FirstDifference(a[1..], b[1..], n);
        assert a[..n + 1] == [a[0]] + a[1..][..n] && b[..n + 1] == [b[0]] + b[1..][..n];
        assert FirstDifference(a, b, n + 1);
      }
      forall n: nat | FirstDifference(a, b, n)
        ensures Less(a, b)
      {
        if n > 0 {
          assert a[..n][0] == b[..n][0] && a[..n][1..] == a[1..][..n - 1] && b[..n][1..] == b[1..][..n - 1];
          assert FirstDifference(a[1..], b[1..], n - 1);
        }
      }
    }
  }

  ghost predicate Ascending(ks: seq<Key>) {
    forall i, j :: 0 <= i < j < |ks| ==> Less(ks[i], ks[j])
  }

  /** The least key of a set. */
  ghost predicate IsLeast(k: Key, s: set<Key>) {
    k in s && forall x :: x in s && x != k ==> Less(k, x)
  }

  lemma {:induction false} LeastExists(s: set<Key>)
    requires s != {}
    ensures exists k :: IsLeast(k, s)
    decreases |s|
  {
    var x :| x in s;
    if s == {x} {
      assert IsLeast(x, s);
    } else {
      var rest := s - {x};
      assert s == {x} + rest;
      LeastExists(rest);
      var k :| IsLeast(k, rest);
      LessTotal(x, k);
      if Less(x, k) {
        forall y | y in s && y != x
          ensures Less(x, y)
        {
          if y != k { LessTransitive(x, k, y); }
        }
        assert IsLeast(x, s);
      } else {
        assert IsLeast(k, s);
      }
    }
  }

  /** The keys of a set in ascending order, as std::set and std::map iterate. */
  ghost function InOrder(s: set<Key>): seq<Key>
    decreases |s|
  {
    if s == {} then [] else
      LeastExists(s);
      var k :| IsLeast(k, s);
      [k] + InOrder(s - {k})
  }

  lemma LeastUnique(k: Key, k': Key, s: set<Key>)
    requires IsLeast(k, s) && IsLeast(k', s)
    ensures k == k'
  {
    if k != k' { LessTotal(k, k'); }
  }

  lemma InOrderUnfold(s: set<Key>, k: Key)
    requires IsLeast(k, s)
    ensures InOrder(s) == [k] + InOrder(s - {k})
  {
    var k' :| IsLeast(k', s) && InOrder(s) == [k'] + InOrder(s - {k'});
    LeastUnique(k, k', s);
  }

  lemma {:induction false} InOrderHas(s: set<Key>, x: Key)
    ensures x in InOrder(s) <==> x in s
    decreases |s|
  {
    if s != {} {
      LeastExists(s);
      var k :| IsLeast(k, s);
      InOrderUnfold(s, k);
      InOrderHas(s - {k}, x);
      assert x in [k] + InOrder(s - {k}) <==> x == k || x in InOrder(s - {k});
    }
  }

  lemma AscendingCons(k: Key, ks: seq<Key>)
    requires Ascending(ks) && forall x :: x in ks ==> Less(k, x)
    ensures Ascending([k] + ks)
  {
    var all := [k] + ks;
    forall i, j | 0 <= i < j < |all|
      ensures Less(all[i], all[j])
    {
      if i == 0 { assert ks[j - 1] in ks; } else { assert Less(ks[i - 1], ks[j - 1]); }
    }
  }

  lemma {:induction false} InOrderSorted(s: set<Key>)
    ensures Ascending(InOrder(s)) && |InOrder(s)| == |s|
    decreases |s|
  {
    if s != {} {
      LeastExists(s);
      var k :| IsLeast(k, s);
      InOrderUnfold(s, k);
      InOrderSorted(s - {k});
      forall x | x in InOrder(s - {k})
        ensures Less(k, x)
      {
        InOrderHas(s - {k}, x);
      }
      AscendingCons(k, InOrder(s - {k}));
    }
  }

  /** Serialisation of the bitmap: CRoaring, or nothing in a build without it. */
  datatype Bitmap = Bitmap(hash: Key -> nat, bytes: set<nat> -> seq<byte>) {
    function Of(keys: set<Key>): seq<byte> {
      bytes(set k | k in keys :: hash(k))
    }
  }

  function KeyRecord(k: Key): seq<byte> {
    BE32(|k|) + k
  }

  function KeyRecords(ks: seq<Key>): seq<byte> {
    if ks == [] then [] else KeyRecord(ks[0]) + KeyRecords(ks[1..])
  }

  /** V2 header in front of the key records. */
  function Header(bitmap: seq<byte>, count: nat): seq<byte> {
    [V2] + BE32(|bitmap|) + bitmap + BE32(count)
  }

  /** The V2 value of a set of active keys. */
  ghost function Serialized(keys: set<Key>, b: Bitmap): seq<byte> {
    Header(b.Of(keys), |keys|) + KeyRecords(InOrder(keys))
  }

  /** Sizes the 32-bit fields can hold. */
  ghost predicate Fits(keys: set<Key>, b: Bitmap) {
    |keys| < TWO32 && |b.Of(keys)| < TWO32 && forall k :: k in keys ==> |k| < TWO32
  }
}
