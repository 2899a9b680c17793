/** Whole runs of the handle protocol: what references are, what the lists hold, and that everything can be destroyed. */
module HandleRuns {
  import opened HandleProtocol

  /** A run together with the steps taken. */
  ghost predicate IsStepRun(run: seq<State>, steps: seq<Step>) {
    |run| == |steps| + 1 && run[0] == START && forall i :: 0 <= i < |steps| ==> StepAt(run, i, steps[i])
  }

  lemma StepRunIsRun(run: seq<State>, steps: seq<Step>)
    requires IsStepRun(run, steps)
    ensures IsRun(run)
  {
    hide Next, Enabled;
    forall i | 0 <= i < |run| - 1
      ensures Follows(run[i], run[i + 1])
    {
      assert StepAt(run, i, steps[i]);
    }
  }

  /** How often a step was taken. */
  function Times(steps: seq<Step>, a: Step): nat
    decreases |steps|
  {
    if steps == [] then 0 else Times(steps[..|steps| - 1], a) + if steps[|steps| - 1] == a then 1 else 0
  }

  lemma TimesNext(steps: seq<Step>, n: nat, a: Step)
    requires n < |steps|
    ensures Times(steps[..n + 1], a) == Times(steps[..n], a) + if steps[n] == a then 1 else 0
  {
    assert steps[..n + 1][..n] == steps[..n];
  }

  function Refs(s: State, id: nat): nat {
    if id in s.kids then s.kids[id].refs else 0
  }

  lemma RefStep(s: State, a: Step, id: nat)
    requires Enabled(s, a)
    ensures Next(s, a).db.refs == s.db.refs + (if a == AcquireDb then 1 else 0) - (if a == ReleaseDb then 1 else 0)
    ensures Refs(Next(s, a), id) == Refs(s, id) + (if a == Acquire(id) then 1 else 0) - (if a == Release(id) then 1 else 0)
  {
  }

  /** References are what the calls have taken and not given back. */
  lemma {:induction false} RefsAreHeld(run: seq<State>, steps: seq<Step>, n: nat, id: nat)
    requires IsStepRun(run, steps) && n <= |steps|
    ensures run[n].db.refs == Times(steps[..n], AcquireDb) - Times(steps[..n], ReleaseDb)
    ensures Refs(run[n], id) == Times(steps[..n], Acquire(id)) - Times(steps[..n], Release(id))
  {
    hide Next, Enabled, Times;
    if n == 0 {
      NoTimes(steps);
    } else {
      RefsAreHeld(run, steps, n - 1, id);
      assert StepAt(run, n - 1, steps[n - 1]);
      RefStep(run[n - 1], steps[n - 1], id);
      TimesNext(steps, n - 1, AcquireDb);
      TimesNext(steps, n - 1, ReleaseDb);
      TimesNext(steps, n - 1, Acquire(id));
      TimesNext(steps, n - 1, Release(id));
    }
  }

  lemma NoTimes(steps: seq<Step>)
    ensures forall a :: Times(steps[..0], a) == 0
  {
  }

  /** Nothing is destroyed while a call holds it: no destructor is due, and the database is there. */
  lemma HeldIsAlive(run: seq<State>, steps: seq<Step>, n: nat, id: nat)
    requires IsStepRun(run, steps) && n <= |steps|
    ensures Times(steps[..n], AcquireDb) > Times(steps[..n], ReleaseDb) ==> !DbDue(run[n].db) && run[n].db.alive
    ensures Times(steps[..n], Acquire(id)) > Times(steps[..n], Release(id)) ==>
              id in run[n].kids && !Due(run[n].kids[id]) && !DbDue(run[n].db) && run[n].db.alive
  {
    hide IsRun, IsStepRun, Times, Inv;
    StepRunIsRun(run, steps);
    RefsAreHeld(run, steps, n, id);
    RunLength(run, steps);
    RunInv(run, n);
    HeldNow(run[n], id);
  }

  lemma RunLength(run: seq<State>, steps: seq<Step>)
    requires IsStepRun(run, steps)
    ensures |run| == |steps| + 1
  {
  }

  lemma HeldNow(s: State, id: nat)
    requires Inv(s)
    ensures s.db.refs > 0 ==> !DbDue(s.db) && s.db.alive
    ensures Refs(s, id) > 0 ==> id in s.kids && !Due(s.kids[id]) && !DbDue(s.db) && s.db.alive
  {
    if Refs(s, id) > 0 {
      HolderCounts(s, id);
    }
  }

  /** Only registered children that still need the database are listed. */
  predicate ListOk(s: State) {
    && (forall id :: id in s.kids && s.kids[id].adopted ==> s.kids[id].registered)
    && (forall id :: id in s.listed ==> id in s.kids && s.kids[id].registered && (s.kids[id].stage == Live || s.kids[id].stage == Body))
  }

  lemma ListStep(s: State, a: Step, id: nat)
    requires Inv(s) && ListOk(s) && Enabled(s, a)
    ensures id in Next(s, a).kids && Next(s, a).kids[id].adopted ==> Next(s, a).kids[id].registered
    ensures id in Next(s, a).listed ==>
              id in Next(s, a).kids && Next(s, a).kids[id].registered && (Next(s, a).kids[id].stage == Live || Next(s, a).kids[id].stage == Body)
  {
    if !OnDbOnly(a) && !OnBoth(a) && a.id == id {
      ListKidStep(s.kids[id], a);
    }
  }

  lemma ListKidStep(c: Child, a: Step)
    requires ChildOk(c) && (c.adopted ==> c.registered)
    requires (a.Adopt? ==> c.registered) && (a.Finish? ==> c.stage == Released)
    ensures NextKid(c, a).registered == c.registered && (NextKid(c, a).adopted ==> c.registered)
    ensures c.stage == Live || c.stage == Body ==> NextKid(c, a).stage == Live || NextKid(c, a).stage == Body
  {
  }

  /** In every reachable state a listed child is at work or in its destructor body: what Shutdown pops is there. */
  lemma {:induction false} ListedAreAlive(run: seq<State>, i: nat)
    requires IsRun(run) && i < |run|
    ensures ListOk(run[i])
  {
    hide Next, Enabled, Inv;
    if i > 0 {
      ListedAreAlive(run, i - 1);
      RunInv(run, i - 1);
      var a := StepFrom(run, i - 1);
      forall id: nat
        ensures id in run[i].kids && run[i].kids[id].adopted ==> run[i].kids[id].registered
        ensures id in run[i].listed ==>
                  id in run[i].kids && run[i].kids[id].registered && (run[i].kids[id].stage == Live || run[i].kids[id].stage == Body)
      {
        ListStep(run[i - 1], a, id);
      }
    }
  }

  predicate IsRegistered(s: State, id: nat) {
    id in s.kids && s.kids[id].registered
  }

  lemma PopStep(s: State, a: Step, id: nat)
    requires Enabled(s, a) && (id in s.listed ==> IsRegistered(s, id))
    ensures One(a == Pop(id)) + One(id in Next(s, a).listed) + One(IsRegistered(s, id))
            <= One(id in s.listed) + One(IsRegistered(Next(s, a), id))
    ensures One(a == ClosePopped(id)) + One(id in Next(s, a).popped) <= One(id in s.popped) + One(a == Pop(id))
  {
  }

  /** Shutdown pops each child at most once, and asks it to close no more often. */
  lemma {:induction false} PoppedOnce(run: seq<State>, steps: seq<Step>, n: nat, id: nat)
    requires IsStepRun(run, steps) && n <= |steps|
    ensures Times(steps[..n], Pop(id)) + One(id in run[n].listed) <= One(IsRegistered(run[n], id))
    ensures Times(steps[..n], ClosePopped(id)) + One(id in run[n].popped) <= Times(steps[..n], Pop(id))
  {
    hide Next, Enabled, Times;
    if n == 0 {
      NoTimes(steps);
    } else {
      PoppedOnce(run, steps, n - 1, id);
      assert StepAt(run, n - 1, steps[n - 1]);
      PopStep(run[n - 1], steps[n - 1], id);
      TimesNext(steps, n - 1, Pop(id));
      TimesNext(steps, n - 1, ClosePopped(id));
    }
  }

  /** The step that put a child on its list: no iterator joins a database that is closing. */
  predicate Joins(run: seq<State>, steps: seq<Step>, i: nat, id: nat)
    requires i < |steps| && i < |run|
  {
    steps[i] == Register(id) && id in run[i].kids && (run[i].kids[id].iter ==> run[i].db.close == 0)
  }

  lemma JoinStep(s: State, a: Step, id: nat)
    requires Enabled(s, a)
    ensures id in Next(s, a).listed && id !in s.listed ==>
              a == Register(id) && id in s.kids && (s.kids[id].iter ==> s.db.close == 0)
    ensures a == Register(id) && !(s.kids[id].iter && s.db.close != 0) ==> id in Next(s, a).listed
  {
  }

  lemma {:induction false} ListedJoined(run: seq<State>, steps: seq<Step>, n: nat, id: nat)
    requires IsStepRun(run, steps) && n <= |steps| && id in run[n].listed
    ensures exists i: nat :: i < n && Joins(run, steps, i, id)
  {
    hide Next, Enabled;
    if n > 0 {
      assert StepAt(run, n - 1, steps[n - 1]);
      JoinStep(run[n - 1], steps[n - 1], id);
      if id in run[n - 1].listed {
        ListedJoined(run, steps, n - 1, id);
      } else {
        assert Joins(run, steps, n - 1, id);
      }
    }
  }

  lemma KindStep(s: State, a: Step, id: nat)
    requires Enabled(s, a)
    ensures id in Next(s, a).kids && id !in s.kids ==> a.Construct? && a.id == id && a.iter == Next(s, a).kids[id].iter
    ensures id in s.kids ==> id in Next(s, a).kids && Next(s, a).kids[id].iter == s.kids[id].iter
  {
  }

  /** A child is of the kind it was constructed as. */
  lemma {:induction false} KindConstructed(run: seq<State>, steps: seq<Step>, n: nat, id: nat)
    requires IsStepRun(run, steps) && n <= |steps| && id in run[n].kids
    ensures exists i: nat :: i < n && steps[i] == Construct(id, run[n].kids[id].iter)
  {
    hide Next, Enabled;
    if n > 0 {
      assert StepAt(run, n - 1, steps[n - 1]);
      KindStep(run[n - 1], steps[n - 1], id);
      if id in run[n - 1].kids {
        KindConstructed(run, steps, n - 1, id);
        var i: nat :| i < n - 1 && steps[i] == Construct(id, run[n - 1].kids[id].iter);
      } else {
        assert steps[n - 1] == Construct(id, run[n].kids[id].iter);
      }
    }
  }

  /** Steps a child still needs to be destroyed. */
  function Distance(c: Child): nat {
    (if c.registered then 0 else 1) + (if c.adopted then 0 else 1) + (if c.close == 0 then 1 else 0) + c.refs
    + (if c.dropped then 0 else 1) + (4 - Rank(c.stage))
  }

  /** The next of them. */
  function Onward(c: Child, id: nat): Step {
    if !c.registered then Register(id)
    else if !c.adopted then Adopt(id)
    else if c.close == 0 then Close(id)
    else if c.refs > 0 then Release(id)
    else if !c.dropped then Drop(id)
    else Pending(c, id)
  }

  /** What such a step leaves alone. */
  predicate Apart(s: State, s': State, id: nat) {
    && s'.kids.Keys == s.kids.Keys && (forall k :: k in s.kids && k != id ==> s'.kids[k] == s.kids[k])
    && s'.db.refs == s.db.refs && s'.db.close == s.db.close && s'.db.dropped == s.db.dropped
  }

  lemma OnwardStep(s: State, id: nat)
    requires Inv(s) && ListOk(s) && id in s.kids && !s.kids[id].early && s.kids[id].stage != Done
    ensures Enabled(s, Onward(s.kids[id], id))
    ensures var s' := Next(s, Onward(s.kids[id], id));
            Apart(s, s', id) && !s'.kids[id].early && Distance(s'.kids[id]) < Distance(s.kids[id])
  {
  }

  /** Every child that was not closed early can be destroyed, without touching any other. */
  lemma {:induction false} ChildCanBeDestroyed(run: seq<State>, id: nat) returns (longer: seq<State>)
    requires IsRun(run) && id in Last(run).kids && !Last(run).kids[id].early
    ensures IsRun(longer) && run <= longer && |longer| > 0 && id in Last(longer).kids && Last(longer).kids[id].stage == Done
    ensures |run| > 0 && Apart(Last(run), Last(longer), id) && !Last(longer).kids[id].early
    decreases Distance(Last(run).kids[id])
  {
    hide IsRun, Inv, Next, Enabled, ListOk, Onward, Distance;
    LastInv(run);
    longer := run;
    if Last(run).kids[id].stage != Done {
      ListedAreAlive(run, |run| - 1);
      OnwardStep(Last(run), id);
      var next := Extend(run, Onward(Last(run).kids[id], id));
      longer := ChildCanBeDestroyed(next, id);
    }
  }

  function Unfinished(s: State): set<nat> {
    set id | id in s.kids && s.kids[id].stage != Done
  }

  /** No child was closed before its creator took its reference. */
  predicate NoneEarly(s: State) {
    forall id :: id in s.kids ==> !s.kids[id].early
  }

  lemma FewerUnfinished(s: State, s': State, id: nat)
    requires id in s.kids && s.kids[id].stage != Done && Apart(s, s', id) && s'.kids[id].stage == Done
    requires NoneEarly(s) && !s'.kids[id].early
    ensures |Unfinished(s')| < |Unfinished(s)| && NoneEarly(s')
  {
    assert Unfinished(s') == Unfinished(s) - {id};
  }

  lemma {:induction false} ChildrenCanBeDestroyed(run: seq<State>) returns (longer: seq<State>)
    requires IsRun(run) && NoneEarly(Last(run))
    ensures IsRun(longer) && run <= longer && |longer| > 0 && NoneEarly(Last(longer)) && Unfinished(Last(longer)) == {}
    decreases |Unfinished(Last(run))|
  {
    hide IsRun, Inv;
    LastInv(run);
    longer := run;
    if Unfinished(Last(run)) != {} {
      var id :| id in Unfinished(Last(run));
      var next := ChildCanBeDestroyed(run, id);
      FewerUnfinished(Last(run), Last(next), id);
      longer := ChildrenCanBeDestroyed(next);
    }
  }

  function DbDistance(d: Db): nat {
    (if d.close == 0 then 1 else 0) + d.refs + (if d.dropped then 0 else 1) + (4 - Rank(d.stage))
  }

  function DbOnward(d: Db): Step {
    if d.close == 0 then CloseDb else if d.refs > 0 then ReleaseDb else if !d.dropped then DropDb else DbPending(d)
  }

  lemma DbOnwardStep(s: State)
    requires Inv(s) && Unfinished(s) == {} && s.db.stage != Done
    ensures Enabled(s, DbOnward(s.db))
    ensures Next(s, DbOnward(s.db)).kids == s.kids && DbDistance(Next(s, DbOnward(s.db)).db) < DbDistance(s.db)
  {
    assert Holders(s.kids) == {} by {
      forall id | id in s.kids
        ensures !Holds(s.kids[id])
      {
        assert id !in Unfinished(s);
      }
    }
  }

  lemma {:induction false} DbCanBeDestroyed(run: seq<State>) returns (longer: seq<State>)
    requires IsRun(run) && Unfinished(Last(run)) == {}
    ensures IsRun(longer) && run <= longer && |longer| > 0 && Last(longer).db.stage == Done && Last(longer).kids == Last(run).kids
    decreases DbDistance(Last(run).db)
  {
    hide IsRun, Inv, Next, Enabled, DbOnward, DbDistance;
    LastInv(run);
    longer := run;
    if Last(run).db.stage != Done {
      DbOnwardStep(Last(run));
      var next := Extend(run, DbOnward(Last(run).db));
      longer := DbCanBeDestroyed(next);
    }
  }

  /** Everything is destroyed. */
  predicate AllGone(s: State) {
    s.db.stage == Done && !s.db.alive && Unfinished(s) == {}
  }

  /** The exact condition for a complete cleanup: a run can go on to one in which the database and all its children are
      destroyed if and only if no child was closed early. */
  lemma CleanupExactly(run: seq<State>) returns (longer: seq<State>)
    requires IsRun(run)
    ensures NoneEarly(Last(run)) ==> IsRun(longer) && run <= longer && |longer| > 0 && AllGone(Last(longer))
    ensures !NoneEarly(Last(run)) ==> forall other :: IsRun(other) && run <= other && |other| > 0 ==> !AllGone(Last(other))
  {
    hide IsRun, Inv, AllGone;
    LastInv(run);
    longer := run;
    if NoneEarly(Last(run)) {
      longer := ChildrenCanBeDestroyed(run);
      longer := DbCanBeDestroyed(longer);
      LastInv(longer);
      Gone(Last(longer));
    } else {
      var id :| id in Last(run).kids && Last(run).kids[id].early;
      forall other | IsRun(other) && run <= other && |other| > 0
        ensures !AllGone(Last(other))
      {
        EarlyCloseLeaks(other, |run| - 1, |other| - 1, id);
        NotGone(Last(other));
      }
    }
  }

  lemma Gone(s: State)
    requires Inv(s) && s.db.stage == Done && Unfinished(s) == {}
    ensures AllGone(s)
  {
  }

  lemma NotGone(s: State)
    requires s.db.alive
    ensures !AllGone(s)
  {
  }
}
