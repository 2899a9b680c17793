/**
 DbObject::Shutdown (c_src/refobjects.cc) with no registration going on: the five drain loops, the children's
 destructors that re-enter the lists, and the last reference.
 */
module HandleShutdown {

  /** A child of kind 0..4 (iterator, column family, snapshot, log iterator, transaction). */
  datatype Child = Child(kind: nat, count: nat, close: nat)

  /** A child that still holds its pointer to the database. */
  predicate Holds(c: Child) {
    c.close < 2
  }

  function Holders(kids: map<nat, Child>): set<nat> {
    set id | id in kids && Holds(kids[id])
  }

  /** std::list::remove. */
  function Without(s: seq<nat>, id: nat): (r: seq<nat>)
    ensures |r| <= |s|
    ensures forall x :: x in r <==> x in s && x != id
  {
    if s == [] then [] else if s[0] == id then Without(s[1..], id) else [s[0]] + Without(s[1..], id)
  }

  /** Between calls: an open child has its own reference, a closed one lives only while others refer to it. */
  predicate ChildOk(c: Child) {
    c.kind < 5 && (c.close < 2 ==> c.count >= 1) && c.close != 2 && c.close <= 3
  }

  /** What a close request makes of a child. */
  function Closed(c: Child): Child {
    if c.close != 0 then c
    else if c.count <= 1 then c.(count := 0, close := 3)
    else c.(count := c.count - 1, close := 1)
  }

  /** A close request to each of a set of children. */
  function CloseAll(kids: map<nat, Child>, ids: set<nat>): map<nat, Child> {
    map id | id in kids :: if id in ids then Closed(kids[id]) else kids[id]
  }

  lemma CloseOneMore(kids: map<nat, Child>, ids: set<nat>, id: nat)
    requires id in kids
    ensures CloseAll(kids, ids)[id := Closed(CloseAll(kids, ids)[id])] == CloseAll(kids, ids + {id})
  {
  }

  lemma CloseTwice(kids: map<nat, Child>, a: set<nat>, b: set<nat>)
    ensures CloseAll(CloseAll(kids, a), b) == CloseAll(kids, a + b)
  {
  }

  function Elements(s: seq<nat>): set<nat> {
    set x | x in s
  }

  /** The children on any of the lists. */
  function Listed(ls: seq<seq<nat>>): set<nat>
    decreases |ls|
  {
    if ls == [] then {} else Listed(ls[..|ls| - 1]) + Elements(ls[|ls| - 1])
  }

  lemma ListedNext(ls: seq<seq<nat>>, j: nat)
    requires j < |ls|
    ensures Listed(ls[..j + 1]) == Listed(ls[..j]) + Elements(ls[j])
  {
    assert ls[..j + 1][..j] == ls[..j];
  }

  lemma NothingListed(ls: seq<seq<nat>>, j: nat)
    requires j <= |ls| && forall i :: 0 <= i < |ls| ==> ls[i] == []
    ensures Listed(ls[..j]) == {}
  {
    if j > 0 {
      NothingListed(ls, j - 1);
      ListedNext(ls, j - 1);
    }
  }

  lemma CloseNext(kids: map<nat, Child>, ls: seq<seq<nat>>, j: nat)
    requires j < |ls|
    ensures CloseAll(CloseAll(kids, Listed(ls[..j])), Elements(ls[j])) == CloseAll(kids, Listed(ls[..j + 1]))
  {
    hide CloseAll, Listed, Elements;
    CloseTwice(kids, Listed(ls[..j]), Elements(ls[j]));
    ListedNext(ls, j);
  }

  class DbObject {
    var count: nat
    var close: nat
    var alive: bool
    var lists: seq<seq<nat>>
    var kids: map<nat, Child>
    ghost var refs: nat
    ghost var dropped: bool

    ghost predicate Valid()
      reads this
    {
      && |lists| == 5
      && (forall id :: id in kids ==> ChildOk(kids[id]))
      && (forall j, id :: 0 <= j < 5 && id in lists[j] ==> id in kids && kids[id].kind == j && Holds(kids[id]))
      && count == (if dropped then 0 else 1) + refs + |Holders(kids)|
      && (alive <==> close < 2) && (close == 0 ==> !dropped)
    }

    /** CreateDbObject: one reference, given back by close. */
    constructor ()
      ensures Valid() && close == 0 && count == 1 && kids == map[] && Listed(lists) == {}
    {
      count, close, alive, kids, refs, dropped := 1, 0, true, map[], 0, false;
      lists := [[], [], [], [], []];
      new;
      assert Holders(kids) == {};
      forall j | 0 <= j <= 5
        ensures Listed(lists[..j]) == {}
      {
        NothingListed(lists, j);
      }
      assert lists[..5] == lists;
    }

    /** A child is created by a call that holds a reference, and points back to the database. */
    method NewChild(id: nat, kind: nat)
      requires Valid() && id !in kids && kind < 5 && count > 0
      modifies this`count, this`kids
      ensures Valid() && count == old(count) + 1 && kids == old(kids)[id := Child(kind, 1, 0)]
    {
      ghost var before := Holders(kids);
      kids := kids[id := Child(kind, 1, 0)];
      count := count + 1;
      assert Holders(kids) == before + {id} && id !in before;
    }

    /** AddReference and its four siblings: an iterator does not register with a closing database. */
    method Register(id: nat)
      requires Valid() && id in kids && Holds(kids[id])
      modifies this`lists
      ensures Valid()
      ensures var kind := kids[id].kind;
              lists == if kind == 0 && close != 0 then old(lists) else old(lists)[kind := old(lists)[kind] + [id]]
    {
      var kind := kids[id].kind;
      if !(kind == 0 && close != 0) {
        lists := lists[kind := lists[kind] + [id]];
      }
    }

    /** --m_RefCount; the last reference after a close request destroys the database. */
    method RefDec()
      requires count > 0
      modifies this`count, this`close, this`alive
      ensures count == old(count) - 1
      ensures if count == 0 && old(close) == 1 then close == 3 && !alive else close == old(close) && alive == old(alive)
    {
      count := count - 1;
      if count == 0 && close == 1 {
        close := 2;
        alive := false;
        close := 3;
      }
    }

    /** A child's destructor: leave the list, let go of the database. */
    method DestroyChild(id: nat)
      requires Valid() && id in kids && kids[id].close == 1 && kids[id].count == 1 && !dropped
      modifies this
      ensures Valid() && kids == old(kids)[id := old(kids)[id].(count := 0, close := 3)]
      ensures count == old(count) - 1 && close == old(close) && alive == old(alive) && refs == old(refs) && !dropped
      ensures forall j :: 0 <= j < 5 ==> lists[j] == if j == kids[id].kind then Without(old(lists)[j], id) else old(lists)[j]
    {
      ghost var before := Holders(kids);
      var c := kids[id];
      kids := kids[id := c.(count := 0, close := 2)];
      lists := lists[c.kind := Without(lists[c.kind], id)];
      assert Holders(kids) == before - {id} && id in before;
      RefDec();
      kids := kids[id := kids[id].(close := 3)];
      assert Holders(kids) == before - {id};
    }
  
    /** RefDec of a child. */
    method ChildRefDec(id: nat)
      requires Valid() && id in kids && kids[id].close == 1 && !dropped
      modifies this
      ensures Valid() && Same(old(close), old(alive), old(refs))
      ensures var c := old(kids)[id];
              kids == old(kids)[id := if c.count == 1 then c.(count := 0, close := 3) else c.(count := c.count - 1)]
      ensures forall j :: 0 <= j < 5 ==> lists[j] == old(lists)[j] || lists[j] == Without(old(lists)[j], id)
      ensures forall j :: 0 <= j < 5 && j != kids[id].kind ==> lists[j] == old(lists)[j]
    {
      if kids[id].count == 1 {
        DestroyChild(id);
      } else {
        ghost var before := Holders(kids);
        kids := kids[id := kids[id].(count := kids[id].count - 1)];
        assert Holders(kids) == before;
      }
    }

    ghost predicate Same(close0: nat, alive0: bool, refs0: nat)
      reads this
    {
      close == close0 && alive == alive0 && refs == refs0 && !dropped
    }

    /** InitiateCloseRequest on a child: the winner of the flag gives the child's own reference back. */
    method CloseChild(id: nat)
      requires Valid() && id in kids && !dropped
      modifies this
      ensures Valid() && Same(old(close), old(alive), old(refs))
      ensures kids == old(kids)[id := Closed(old(kids)[id])]
      ensures forall j :: 0 <= j < 5 ==> lists[j] == old(lists)[j] || lists[j] == Without(old(lists)[j], id)
      ensures forall j :: 0 <= j < 5 && j != kids[id].kind ==> lists[j] == old(lists)[j]
    {
      if kids[id].close == 0 {
        ghost var before := Holders(kids);
        kids := kids[id := kids[id].(close := 1)];
        assert Holders(kids) == before;
        ChildRefDec(id);
      }
    }

    /** One turn of a drain loop: pop a child under the lock, close it outside. */
    method PopAndClose(j: nat) returns (id: nat)
      requires Valid() && j < 5 && lists[j] != [] && !dropped
      modifies this
      ensures Valid() && |lists| == 5 && Same(old(close), old(alive), old(refs))
      ensures forall i :: 0 <= i < 5 && i != j ==> lists[i] == old(lists)[i]
      ensures |lists[j]| < |old(lists)[j]| && Elements(old(lists)[j]) == {id} + Elements(lists[j])
      ensures id in old(kids) && kids == old(kids)[id := Closed(old(kids)[id])]
    {
      ghost var was := lists[j];
      id := lists[j][0];
      assert was == [id] + was[1..];
      lists := lists[j := lists[j][1..]];
      CloseChild(id);
      assert forall x :: x in was <==> x == id || x in was[1..];
    }

    /** One drain loop. */
    method Drain(j: nat)
      requires Valid() && j < 5 && !dropped
      modifies this
      ensures Valid() && |lists| == 5 && Same(old(close), old(alive), old(refs))
      ensures forall i :: 0 <= i < 5 ==> lists[i] == if i == j then [] else old(lists)[i]
      ensures kids == CloseAll(old(kids), Elements(old(lists)[j]))
    {
      assert |lists| == 5;
      hide Valid, Closed;
      ghost var done: set<nat> := {};
      ghost var kids0, list0 := kids, lists[j];
      while lists[j] != []
        invariant Valid() && |lists| == 5 && Same(old(close), old(alive), old(refs))
        invariant forall i :: 0 <= i < 5 && i != j ==> lists[i] == old(lists)[i]
        invariant kids == CloseAll(kids0, done)
        invariant Elements(list0) == done + Elements(lists[j])
        decreases |lists[j]|
      {
        var id := PopAndClose(j);
        CloseOneMore(kids0, done, id);
        done := done + {id};
      }
      assert done == Elements(list0);
    }

    /** Shutdown, entered with the close flag at 1: terminates, leaves every list empty and every registered child
        close-requested (destroyed if nothing else refers to it), touches no other child, and its last step
        destroys the database exactly when no other counted reference remains. */
    method Shutdown()
      requires Valid() && close == 1 && !dropped
      modifies this
      ensures Valid() && dropped && refs == old(refs)
      ensures forall j :: 0 <= j < 5 ==> lists[j] == []
      ensures kids == CloseAll(old(kids), Listed(old(lists)))
      ensures forall id :: id in Listed(old(lists)) && id in kids ==> kids[id].close >= 1
      ensures forall id :: id in Listed(old(lists)) && id in kids && old(kids)[id].close == 0 ==>
                             (kids[id].close == 3 <==> old(kids)[id].count == 1)
      ensures if refs == 0 && Holders(kids) == {} then close == 3 && !alive else close == 1 && alive
    {
      DrainAll();
      RefDec();
      dropped := true;
    }

    /** InitiateCloseRequest on the database: only the caller that moves the flag from 0 to 1 shuts down. */
    method InitiateCloseRequest() returns (won: bool)
      requires Valid()
      modifies this
      ensures Valid() && (won <==> old(close) == 0)
      ensures !won ==> kids == old(kids) && lists == old(lists) && count == old(count) && close == old(close)
      ensures won ==> dropped && kids == CloseAll(old(kids), Listed(old(lists))) && forall j :: 0 <= j < 5 ==> lists[j] == []
      ensures won ==> (alive <==> refs > 0 || Holders(kids) != {})
    {
      won := close == 0;
      if won {
        close := 1;
        Shutdown();
      }
    }

    lemma SameNow()
      requires !dropped
      ensures Same(close, alive, refs)
    {
    }

    lemma SameIs(close0: nat, alive0: bool, refs0: nat)
      requires Same(close0, alive0, refs0)
      ensures close == close0 && alive == alive0 && refs == refs0 && !dropped
    {
    }

    method DrainAll()
      requires Valid() && !dropped
      modifies this
      ensures Valid() && |lists| == 5 && Same(old(close), old(alive), old(refs))
      ensures forall j :: 0 <= j < 5 ==> lists[j] == []
      ensures kids == CloseAll(old(kids), Listed(old(lists)))
    {
      assert |lists| == 5;
      hide Valid, Same, Closed, CloseAll, Elements, Listed;
      ghost var lists0, kids0, close0, alive0, refs0 := lists, kids, close, alive, refs;
      CloseNone(kids0);
      SameNow();
      assert lists0[..0] == [];
      var j := 0;
      while j < 5
        invariant 0 <= j <= 5 && Valid() && |lists| == 5 && Same(close0, alive0, refs0)
        invariant forall i :: 0 <= i < 5 ==> lists[i] == if i < j then [] else lists0[i]
        invariant kids == CloseAll(kids0, Listed(lists0[..j]))
      {
        SameIs(close0, alive0, refs0);
        Drain(j);
        CloseNext(kids0, lists0, j);
        j := j + 1;
      }
      assert lists0[..5] == lists0;
    }
  }

  lemma CloseNone(kids: map<nat, Child>)
    ensures CloseAll(kids, Listed([])) == kids
  {
  }
}
