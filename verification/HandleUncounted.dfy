/**
 CreateColumnFamilyWithTtl (c_src/erocksdb_db.cc) holds the database by a pointer that is not counted while it creates a
 child.  This module adds such pointers to the handle protocol and says when they are harmless.
 */
module HandleUncounted {
  import P = HandleProtocol

  /** `raw` running calls hold an uncounted pointer; `stray` once one of them has created a child when the count was zero. */
  datatype State = State(base: P.State, raw: nat, stray: bool)

  datatype Step = Base(a: P.Step) | GetRaw | DropRaw | ConstructRaw(id: nat)

  const START := State(P.START, 0, false)

  predicate Enabled(s: State, a: Step) {
    match a
    case Base(b) => P.Enabled(s.base, b)
    case GetRaw => s.base.db.close == 0
    case DropRaw => s.raw > 0
    case ConstructRaw(id) => s.raw > 0 && id !in s.base.kids
  }

  function Next(s: State, a: Step): State
    requires Enabled(s, a)
  {
    match a
    case Base(b) => s.(base := P.Next(s.base, b))
    case GetRaw => s.(raw := s.raw + 1)
    case DropRaw => s.(raw := s.raw - 1)
    case ConstructRaw(id) =>
      State(P.WithChild(s.base, id, false), s.raw - 1, s.stray || s.base.db.count == 0)
  }

  ghost predicate Follows(s: State, s': State) {
    exists a :: Enabled(s, a) && s' == Next(s, a)
  }

  ghost predicate IsRun(run: seq<State>) {
    |run| > 0 && run[0] == START && forall i :: 0 <= i < |run| - 1 ==> Follows(run[i], run[i + 1])
  }

  /** The count does not go below zero before a child strays. */
  ghost predicate Inv(s: State) {
    s.stray || P.Inv(s.base)
  }

  lemma InvNext(s: State, a: Step)
    requires Inv(s) && Enabled(s, a)
    ensures Inv(Next(s, a))
  {
    hide P.Inv, P.Next, P.Enabled;
    if !s.stray {
      match a {
        case Base(b) => P.InvNext(s.base, b);
        case GetRaw =>
        case DropRaw =>
        case ConstructRaw(id) =>
          CountIsNat(s.base);
          if s.base.db.count > 0 {
            P.InvNewChild(s.base, id, false);
          }
      }
    }
  }

  lemma CountIsNat(s: P.State)
    requires P.Inv(s)
    ensures s.db.count >= 0
  {
  }

  lemma {:induction false} RunInv(run: seq<State>, i: nat)
    requires IsRun(run) && i < |run|
    ensures Inv(run[i])
  {
    hide Next, Enabled, P.Inv;
    if i == 0 {
      P.InvStart();
    } else {
      RunInv(run, i - 1);
      assert Follows(run[i - 1], run[i - 1 + 1]);
      var a :| Enabled(run[i - 1], a) && run[i] == Next(run[i - 1], a);
      InvNext(run[i - 1], a);
    }
  }

  /** The database is deleted under a child that still needs it. */
  predicate Unsafe(s: State, id: nat) {
    id in s.base.kids && !s.base.db.alive && !P.Finished(s.base.kids[id])
  }

  /** As long as no child has been created at a count of zero, the database outlives its children. */
  lemma SafeUnlessStray(run: seq<State>, i: nat, id: nat)
    requires IsRun(run) && i < |run| && !run[i].stray
    ensures !Unsafe(run[i], id)
  {
    hide IsRun, P.Inv;
    RunInv(run, i);
    if id in run[i].base.kids && P.Holds(run[i].base.kids[id]) {
      P.HolderCounts(run[i].base, id);
    }
  }

  lemma Extend(run: seq<State>, a: Step) returns (longer: seq<State>)
    requires IsRun(run) && Enabled(run[|run| - 1], a)
    ensures IsRun(longer) && run <= longer && |longer| == |run| + 1 && longer[|longer| - 1] == Next(run[|run| - 1], a)
  {
    hide Next, Enabled;
    longer := run + [Next(run[|run| - 1], a)];
    forall i | 0 <= i < |longer| - 1
      ensures Follows(longer[i], longer[i + 1])
    {
      if i < |run| - 1 {
        assert Follows(run[i], run[i + 1]);
      }
    }
  }

  /** A database with a count of zero is on its way out, or gone. */
  lemma OnItsWay(s: P.State)
    requires P.Inv(s) && s.db.count == 0
    ensures (s.db.zeros > 0 && s.db.close == 1) || s.db.stage == P.Body || !s.db.alive
  {
  }

  /** The condition is exact: a child created at a count of zero can always lose its database. */
  lemma StrayIsUnsafe(run: seq<State>, id: nat) returns (longer: seq<State>)
    requires IsRun(run) && !run[|run| - 1].stray && run[|run| - 1].base.db.count == 0
    requires Enabled(run[|run| - 1], ConstructRaw(id))
    ensures IsRun(longer) && run <= longer && |longer| > |run| && Unsafe(longer[|longer| - 1], id)
    ensures longer[|run|] == Next(run[|run| - 1], ConstructRaw(id))
  {
    hide IsRun, P.Inv;
    RunLast(run);
    RunInv(run, |run| - 1);
    OnItsWay(run[|run| - 1].base);
    longer := Extend(run, ConstructRaw(id));
    ghost var n := |run|;
    if longer[n].base.db.alive {
      if longer[n].base.db.stage != P.Body {
        longer := Extend(longer, Base(P.CasDb));
      }
      longer := Extend(longer, Base(P.DeleteDb));
    }
  }

  lemma RunLast(run: seq<State>)
    requires IsRun(run)
    ensures |run| > 0
  {
  }

  /** And such a run exists: a close between the test of the flag and the creation of the column family. */
  lemma StrayHappens() returns (run: seq<State>)
    ensures IsRun(run) && |run| > 0 && Unsafe(run[|run| - 1], 0)
  {
    hide IsRun;
    run := Beginning();
    run := Extend(run, GetRaw);
    run := Extend(run, Base(P.CloseDb));
    run := Extend(run, Base(P.DropDb));
    run := StrayIsUnsafe(run, 0);
  }

  lemma Beginning() returns (run: seq<State>)
    ensures IsRun(run) && |run| == 1 && run[0] == START
  {
    run := [START];
  }
}
