/**
 Reference-counted handles (c_src/refobjects.{h,cc}): a database object and the iterators, column families,
 snapshots, log iterators and transactions created from it, as a step system over atomic actions.

 One assumption is built in: testing the close flag and taking a counted reference (RetrieveDbObject followed by
 ReferencePtr::assign) is one step.  The construction of a child is three: it counts itself at the database, then
 registers, then takes its own reference.
 */
module HandleProtocol {

  /** How far the destructor of an object has come. */
  datatype Stage = Live | Body | BodyDone | Released | Done

  /** A child: `registered` once it has tried to join a list of the database, `adopted` once its creator has taken the
      reference that close gives back, `dropped` once close has given it back, `early` if it did so first; `zeros`
      threads have seen the count reach zero and not yet tried to start the destructor. */
  datatype Child = Child(iter: bool, count: int, close: nat, registered: bool, adopted: bool, dropped: bool, early: bool,
                         refs: nat, zeros: nat, stage: Stage)

  /** The database object; `refs` are the pointers held by running calls. */
  datatype Db = Db(count: int, close: nat, dropped: bool, refs: nat, zeros: nat, stage: Stage, alive: bool)

  datatype State = State(db: Db, kids: map<nat, Child>, listed: set<nat>, popped: set<nat>)

  datatype Step =
    | AcquireDb | ReleaseDb | CloseDb | DropDb | CasDb | DeleteDb | FinishDb
    | Construct(id: nat, iter: bool) | Register(id: nat) | Adopt(id: nat) | Acquire(id: nat) | Release(id: nat)
    | Pop(id: nat) | ClosePopped(id: nat) | Close(id: nat) | Drop(id: nat)
    | Cas(id: nat) | RunBody(id: nat) | ReleaseParent(id: nat) | Finish(id: nat)

  /** An open database with one handle and no children. */
  const START := State(Db(1, 0, false, 0, 0, Live, true), map[], {}, {})

  /** A running call holds a child, through which it can create another: an iterator of a transaction. */
  predicate ChildHeld(s: State) {
    exists id :: id in s.kids && s.kids[id].refs > 0
  }

  predicate Enabled(s: State, a: Step) {
    match a
    case AcquireDb => s.db.close == 0
    case ReleaseDb => s.db.refs > 0
    case CloseDb => s.db.close == 0
    case DropDb => s.db.close > 0 && !s.db.dropped
    case CasDb => s.db.zeros > 0
    case DeleteDb => s.db.stage == Body
    case FinishDb => s.db.stage == BodyDone
    case Construct(id, _) => id !in s.kids && (s.db.refs > 0 || s.db.close == 0 || ChildHeld(s))
    case Register(id) => id in s.kids && !s.kids[id].registered
    case Adopt(id) => id in s.kids && s.kids[id].registered && !s.kids[id].adopted
    case Acquire(id) => id in s.kids && s.kids[id].adopted && s.kids[id].close == 0
    case Release(id) => id in s.kids && s.kids[id].refs > 0
    case Pop(id) => s.db.close > 0 && !s.db.dropped && id in s.listed && id in s.kids
    case ClosePopped(id) => id in s.popped && id in s.kids
    case Close(id) => id in s.kids && s.kids[id].adopted && s.kids[id].close == 0
    case Drop(id) => id in s.kids && s.kids[id].close > 0 && !s.kids[id].dropped
    case Cas(id) => id in s.kids && s.kids[id].zeros > 0
    case RunBody(id) => id in s.kids && s.kids[id].stage == Body
    case ReleaseParent(id) => id in s.kids && s.kids[id].stage == BodyDone
    case Finish(id) => id in s.kids && s.kids[id].stage == Released
  }

  /** --m_RefCount on the database, remembering a zero for the compare-and-swap that follows. */
  function DecDb(d: Db): Db {
    d.(count := d.count - 1, zeros := d.zeros + if d.count - 1 == 0 then 1 else 0)
  }

  function Dec(c: Child): Child {
    c.(count := c.count - 1, zeros := c.zeros + if c.count - 1 == 0 then 1 else 0)
  }

  /** Compare-and-swap of the close flag from 1 to 2; the winner starts the destructor. */
  function CasOf(close: nat, stage: Stage): (nat, Stage) {
    if close == 1 then (2, Body) else (close, stage)
  }

  function NewChild(iter: bool): Child {
    Child(iter, 0, 0, false, false, false, false, 0, 0, Live)
  }

  /** A new child counts itself at the database. */
  function WithChild(s: State, id: nat, iter: bool): State {
    s.(db := s.db.(count := s.db.count + 1), kids := s.kids[id := NewChild(iter)])
  }

  function Next(s: State, a: Step): State
    requires Enabled(s, a)
  {
    match a
    case AcquireDb => s.(db := s.db.(count := s.db.count + 1, refs := s.db.refs + 1))
    case ReleaseDb => s.(db := DecDb(s.db.(refs := s.db.refs - 1)))
    case CloseDb => s.(db := s.db.(close := 1))
    case DropDb => s.(db := DecDb(s.db.(dropped := true)))
    case CasDb =>
      var (close, stage) := CasOf(s.db.close, s.db.stage);
      s.(db := s.db.(zeros := s.db.zeros - 1, close := close, stage := stage))
    case DeleteDb => s.(db := s.db.(alive := false, stage := BodyDone))
    case FinishDb => s.(db := s.db.(close := 3, stage := Done))
    case Construct(id, iter) =>
      WithChild(s, id, iter)
    case Register(id) =>
      s.(kids := s.kids[id := s.kids[id].(registered := true)],
         listed := if s.kids[id].iter && s.db.close != 0 then s.listed else s.listed + {id})
    case Pop(id) => s.(listed := s.listed - {id}, popped := s.popped + {id})
    case ClosePopped(id) =>
      var c := s.kids[id];
      s.(popped := s.popped - {id}, kids := s.kids[id := if c.close == 0 then c.(close := 1) else c])
    case ReleaseParent(id) => s.(db := DecDb(s.db), kids := s.kids[id := s.kids[id].(stage := Released)])
    case RunBody(id) => s.(listed := s.listed - {id}, kids := s.kids[id := s.kids[id].(stage := BodyDone)])
    case _ => s.(kids := s.kids[a.id := NextKid(s.kids[a.id], a)])
  }

  /** The steps that touch one child only. */
  function NextKid(c: Child, a: Step): Child {
    match a
    case Adopt(_) => c.(count := c.count + 1, adopted := true)
    case Acquire(_) => c.(count := c.count + 1, refs := c.refs + 1)
    case Release(_) => if c.refs > 0 then Dec(c.(refs := c.refs - 1)) else c
    case Close(_) => c.(close := 1)
    case Drop(_) => Dec(c.(dropped := true, early := !c.adopted))
    case Cas(_) =>
      var (close, stage) := CasOf(c.close, c.stage);
      if c.zeros > 0 then c.(zeros := c.zeros - 1, close := close, stage := stage) else c
    case Finish(_) => c.(close := 3, stage := Done)
    case _ => c
  }

  /** A child that still holds its counted pointer to the database. */
  predicate Holds(c: Child) {
    c.stage != Released && c.stage != Done
  }

  function Holders(kids: map<nat, Child>): set<nat> {
    set id | id in kids && Holds(kids[id])
  }

  function One(b: bool): nat {
    if b then 1 else 0
  }

  /** The close flag tracks the destructor: 1 after a close request, 2 once the destructor starts, 3 at its end. */
  predicate FlagOk(close: nat, stage: Stage) {
    close <= 3 && (stage == Live ==> close <= 1) && (stage == Done <==> close == 3) &&
    (stage == Body || stage == BodyDone || stage == Released ==> close == 2)
  }

  /** Invariant of a child.  One clause is exact: the destructor is pending, running or done if and only if
      close has given back a reference taken before it and no other reference is left. */
  predicate ChildOk(c: Child) {
    && c.count == One(c.adopted) - One(c.dropped) + c.refs
    && FlagOk(c.close, c.stage)
    && (c.refs > 0 ==> c.adopted)
    && (c.dropped ==> c.close >= 1)
    && (c.early ==> c.dropped && c.refs == 0) && (c.dropped && !c.adopted ==> c.early)
    && (c.zeros > 0 || c.stage != Live <==> c.adopted && c.dropped && c.refs == 0 && !c.early)
    && (c.zeros > 0 ==> c.zeros == 1 && c.stage == Live)
  }

  predicate DbOk(s: State) {
    && s.db.count == One(!s.db.dropped) + s.db.refs + |Holders(s.kids)|
    && FlagOk(s.db.close, s.db.stage) && s.db.stage != Released
    && (s.db.dropped ==> s.db.close >= 1)
    && (s.db.zeros > 0 || s.db.stage != Live <==> s.db.count == 0)
    && (s.db.zeros > 0 ==> s.db.zeros == 1 && s.db.stage == Live)
    && (s.db.alive <==> s.db.stage == Live || s.db.stage == Body)
  }

  predicate Inv(s: State) {
    DbOk(s) && forall id :: id in s.kids ==> ChildOk(s.kids[id])
  }

  lemma KidStep(c: Child, a: Step)
    requires ChildOk(c)
    requires a.Adopt? ==> !c.adopted
    requires a.Acquire? || a.Close? ==> c.adopted && c.close == 0
    requires a.Drop? ==> c.close > 0 && !c.dropped
    requires a.Finish? ==> c.stage == Released
    ensures ChildOk(NextKid(c, a))
    ensures Holds(NextKid(c, a)) == Holds(c)
  {
  }

  lemma HoldersSame(kids: map<nat, Child>, id: nat, c: Child)
    requires id in kids && Holds(c) == Holds(kids[id])
    ensures Holders(kids[id := c]) == Holders(kids)
  {
  }

  lemma HoldersDrop(kids: map<nat, Child>, id: nat, c: Child)
    requires id in kids && Holds(kids[id]) && !Holds(c)
    ensures |Holders(kids[id := c])| == |Holders(kids)| - 1
  {
    assert Holders(kids[id := c]) == Holders(kids) - {id};
  }

  lemma HoldersNew(kids: map<nat, Child>, id: nat, c: Child)
    requires id !in kids && Holds(c)
    ensures |Holders(kids[id := c])| == |Holders(kids)| + 1
  {
    assert Holders(kids[id := c]) == Holders(kids) + {id};
  }

  lemma InvStart()
    ensures Inv(START)
  {
    assert Holders(map[]) == {};
  }

  predicate OnDbOnly(a: Step) {
    a.AcquireDb? || a.ReleaseDb? || a.CloseDb? || a.DropDb? || a.CasDb? || a.DeleteDb? || a.FinishDb? || a.Pop?
  }

  predicate OnBoth(a: Step) {
    a.Construct? || a.Register? || a.ClosePopped? || a.ReleaseParent? || a.RunBody?
  }

  /** A held child has not let go of the database. */
  lemma HeldCounts(s: State)
    requires Inv(s) && (s.db.refs > 0 || s.db.close == 0 || ChildHeld(s))
    ensures s.db.count >= 1
  {
    if ChildHeld(s) {
      var id :| id in s.kids && s.kids[id].refs > 0;
      HolderCounts(s, id);
    }
  }

  lemma InvDbStep(s: State, a: Step)
    requires Inv(s) && Enabled(s, a) && OnDbOnly(a)
    ensures Inv(Next(s, a))
  {
    hide ChildOk;
  }

  lemma InvNewChild(s: State, id: nat, iter: bool)
    requires Inv(s) && id !in s.kids && s.db.count >= 1
    ensures Inv(WithChild(s, id, iter))
  {
    HoldersNew(s.kids, id, NewChild(iter));
  }

  lemma InvSharedStep(s: State, a: Step)
    requires Inv(s) && Enabled(s, a) && OnBoth(a)
    ensures Inv(Next(s, a))
  {
    if a.Construct? {
      HeldCounts(s);
      InvNewChild(s, a.id, a.iter);
    } else if a.ReleaseParent? {
      HoldersDrop(s.kids, a.id, Next(s, a).kids[a.id]);
    } else {
      HoldersSame(s.kids, a.id, Next(s, a).kids[a.id]);
    }
  }

  lemma InvChildStep(s: State, a: Step)
    requires Inv(s) && Enabled(s, a) && !OnDbOnly(a) && !OnBoth(a)
    ensures Inv(Next(s, a))
  {
    hide ChildOk, NextKid;
    KidStep(s.kids[a.id], a);
    HoldersSame(s.kids, a.id, NextKid(s.kids[a.id], a));
  }

  /** Every step keeps the invariant. */
  lemma InvNext(s: State, a: Step)
    requires Inv(s) && Enabled(s, a)
    ensures Inv(Next(s, a))
  {
    hide Inv, Next, Enabled;
    if OnDbOnly(a) {
      InvDbStep(s, a);
    } else if OnBoth(a) {
      InvSharedStep(s, a);
    } else {
      InvChildStep(s, a);
    }
  }

  ghost predicate Follows(s: State, s': State) {
    exists a :: Enabled(s, a) && s' == Next(s, a)
  }

  /** A finite run from an open database. */
  ghost predicate IsRun(run: seq<State>) {
    |run| > 0 && run[0] == START && forall i :: 0 <= i < |run| - 1 ==> Follows(run[i], run[i + 1])
  }

  lemma {:induction false} RunInv(run: seq<State>, i: nat)
    requires IsRun(run) && i < |run|
    ensures Inv(run[i])
  {
    hide Next, Enabled, Inv;
    if i == 0 {
      InvStart();
    } else {
      RunInv(run, i - 1);
      assert Follows(run[i - 1], run[i - 1 + 1]);
      var a :| Enabled(run[i - 1], a) && run[i] == Next(run[i - 1], a);
      InvNext(run[i - 1], a);
    }
  }

  predicate Finished(c: Child) {
    c.stage == BodyDone || c.stage == Released || c.stage == Done
  }

  /** In every reachable state the database is deleted only after every child created from it has finished its
      destructor body, and a destructor body in progress still finds the database. */
  lemma DatabaseOutlivesChildren(run: seq<State>, i: nat, id: nat)
    requires IsRun(run) && i < |run| && id in run[i].kids
    ensures !run[i].db.alive ==> Finished(run[i].kids[id]) && !Holds(run[i].kids[id])
    ensures run[i].kids[id].stage == Body ==> run[i].db.alive
  {
    hide Inv, IsRun;
    RunInv(run, i);
    if Holds(run[i].kids[id]) {
      HolderCounts(run[i], id);
    }
  }

  lemma HolderCounts(s: State, id: nat)
    requires Inv(s) && id in s.kids && Holds(s.kids[id])
    ensures s.db.count >= 1 && s.db.stage == Live && s.db.alive
  {
    assert id in Holders(s.kids);
  }

  function Rank(stage: Stage): nat {
    match stage
    case Live => 0
    case Body => 1
    case BodyDone => 2
    case Released => 3
    case Done => 4
  }

  /** An object's flag and destructor only move forward, the flag one value at a time. */
  predicate Advances(close: nat, stage: Stage, close': nat, stage': Stage) {
    close <= close' <= close + 1 && Rank(stage) <= Rank(stage')
  }

  lemma KidAdvances(c: Child, a: Step)
    requires ChildOk(c) && (a.Close? ==> c.close == 0) && (a.Finish? ==> c.stage == Released)
    ensures Advances(c.close, c.stage, NextKid(c, a).close, NextKid(c, a).stage)
    ensures c.early ==> a.Drop? || NextKid(c, a).early
  {
  }

  /** On every step the close flags only move 0, 1, 2, 3, no destructor restarts and no child is forgotten. */
  lemma FlagsAdvance(s: State, a: Step, id: nat)
    requires Inv(s) && Enabled(s, a)
    ensures Advances(s.db.close, s.db.stage, Next(s, a).db.close, Next(s, a).db.stage)
    ensures id in s.kids ==> id in Next(s, a).kids
    ensures id in s.kids ==>
              Advances(s.kids[id].close, s.kids[id].stage, Next(s, a).kids[id].close, Next(s, a).kids[id].stage)
    ensures id in s.kids && s.kids[id].early ==> Next(s, a).kids[id].early
  {
    if !OnDbOnly(a) && !OnBoth(a) {
      KidAdvances(s.kids[a.id], a);
    }
  }

  /** Between any two states of a run the flags and destructors of the database and of each child only move forward. */
  lemma {:induction false} RunAdvances(run: seq<State>, i: nat, j: nat, id: nat)
    requires IsRun(run) && i <= j < |run|
    ensures run[i].db.close <= run[j].db.close && Rank(run[i].db.stage) <= Rank(run[j].db.stage)
    ensures id in run[i].kids ==> id in run[j].kids
    ensures id in run[i].kids ==>
              run[i].kids[id].close <= run[j].kids[id].close && Rank(run[i].kids[id].stage) <= Rank(run[j].kids[id].stage)
    ensures id in run[i].kids && run[i].kids[id].early ==> run[j].kids[id].early
    decreases j
  {
    hide Next, Enabled, Inv;
    if i < j {
      RunAdvances(run, i, j - 1, id);
      RunInv(run, j - 1);
      assert Follows(run[j - 1], run[j - 1 + 1]);
      var a :| Enabled(run[j - 1], a) && run[j] == Next(run[j - 1], a);
      FlagsAdvance(run[j - 1], a, id);
    }
  }

  /** The step from run[i] starts the destructor of a child. */
  predicate Starts(run: seq<State>, i: nat, id: nat) {
    i + 1 < |run| && id in run[i].kids && run[i].kids[id].stage == Live && id in run[i + 1].kids && run[i + 1].kids[id].stage != Live
  }

  /** The step from run[i] starts the destructor of the database. */
  predicate DbStarts(run: seq<State>, i: nat) {
    i + 1 < |run| && run[i].db.stage == Live && run[i + 1].db.stage != Live
  }

  /** Each destructor runs at most once, that of a child... */
  lemma DestructorRunsOnce(run: seq<State>, i: nat, j: nat, id: nat)
    requires IsRun(run) && Starts(run, i, id) && Starts(run, j, id)
    ensures i == j
  {
    hide IsRun;
    if i < j {
      RunAdvances(run, i + 1, j, id);
    } else if j < i {
      RunAdvances(run, j + 1, i, id);
    }
  }

  /** ... and that of the database. */
  lemma DbDestructorRunsOnce(run: seq<State>, i: nat, j: nat)
    requires IsRun(run) && DbStarts(run, i) && DbStarts(run, j)
    ensures i == j
  {
    hide IsRun;
    if i < j {
      RunAdvances(run, i + 1, j, 0);
    } else if j < i {
      RunAdvances(run, j + 1, i, 0);
    }
  }

  /** In every reachable state: a count of zero means close was requested, and the destructor of a child is due,
      running or done exactly when close has given back the creator's reference, after it was taken, and no other
      reference is left. */
  lemma DestroyedExactly(run: seq<State>, i: nat, id: nat)
    requires IsRun(run) && i < |run| && id in run[i].kids
    ensures var c := run[i].kids[id];
            && (c.adopted && c.count == 0 ==> c.close >= 1)
            && (c.zeros == 1 || c.stage != Live <==> c.adopted && c.dropped && c.refs == 0 && !c.early)
    ensures run[i].db.count == 0 ==> run[i].db.close >= 1
    ensures run[i].db.zeros == 1 || run[i].db.stage != Live <==>
            run[i].db.dropped && run[i].db.refs == 0 && Holders(run[i].kids) == {}
  {
    RunInv(run, i);
    assert |Holders(run[i].kids)| == 0 <==> Holders(run[i].kids) == {};
  }

  function Last(run: seq<State>): State
    requires |run| > 0
  {
    run[|run| - 1]
  }

  /** `longer` is `run` with the given steps taken at its end. */
  ghost predicate Takes(run: seq<State>, longer: seq<State>, steps: seq<Step>) {
    && |run| > 0 && |longer| == |run| + |steps| && run <= longer
    && forall k :: 0 <= k < |steps| ==> StepAt(longer, |run| + k - 1, steps[k])
  }

  predicate StepAt(run: seq<State>, i: nat, a: Step)
    requires i + 1 < |run|
  {
    Enabled(run[i], a) && run[i + 1] == Next(run[i], a)
  }

  /** A run goes on with any step that is enabled at its end. */
  lemma Extend(run: seq<State>, a: Step) returns (longer: seq<State>)
    requires IsRun(run) && Enabled(Last(run), a)
    ensures IsRun(longer) && longer == run + [Next(Last(run), a)]
    ensures |longer| > 0 && Last(longer) == Next(Last(run), a) && Takes(run, longer, [a])
  {
    hide Next, Enabled;
    longer := run + [Next(Last(run), a)];
    assert StepAt(longer, |run| - 1, a);
    forall i | 0 <= i < |longer| - 1
      ensures Follows(longer[i], longer[i + 1])
    {
      if i < |run| - 1 {
        assert Follows(run[i], run[i + 1]);
      }
    }
  }

  lemma TakesMore(run: seq<State>, mid: seq<State>, longer: seq<State>, steps: seq<Step>, more: seq<Step>)
    requires Takes(run, mid, steps) && Takes(mid, longer, more)
    ensures Takes(run, longer, steps + more)
  {
    hide Next, Enabled;
    forall k | 0 <= k < |steps| + |more|
      ensures StepAt(longer, |run| + k - 1, (steps + more)[k])
    {
      if k < |steps| {
        assert StepAt(mid, |run| + k - 1, steps[k]);
      } else {
        assert StepAt(longer, |mid| + (k - |steps|) - 1, more[k - |steps|]);
      }
    }
  }

  lemma LastInv(run: seq<State>)
    requires IsRun(run)
    ensures |run| > 0 && Inv(Last(run))
  {
    hide Inv;
    RunInv(run, |run| - 1);
  }

  predicate At(s: State, id: nat, stage: Stage) {
    id in s.kids && s.kids[id].stage == stage
  }

  /** The steps of a destructor follow one another. */
  lemma Destruction(s: State, id: nat)
    requires Inv(s) && id in s.kids
    ensures s.kids[id].zeros > 0 ==> Enabled(s, Cas(id)) && At(Next(s, Cas(id)), id, Body)
    ensures s.kids[id].stage == Body ==> Enabled(s, RunBody(id)) && At(Next(s, RunBody(id)), id, BodyDone)
    ensures s.kids[id].stage == BodyDone ==> Enabled(s, ReleaseParent(id)) && At(Next(s, ReleaseParent(id)), id, Released)
    ensures s.kids[id].stage == Released ==> Enabled(s, Finish(id)) && At(Next(s, Finish(id)), id, Done)
    ensures s.kids[id].stage == Done ==> s.kids[id].close == 3
  {
  }

  lemma DbDestruction(s: State)
    requires Inv(s)
    ensures s.db.zeros > 0 ==> Enabled(s, CasDb) && Next(s, CasDb).db.stage == Body
    ensures s.db.stage == Body ==> Enabled(s, DeleteDb) && Next(s, DeleteDb).db.stage == BodyDone
    ensures s.db.stage == BodyDone ==> Enabled(s, FinishDb) && Next(s, FinishDb).db.stage == Done
    ensures s.db.stage == Done ==> s.db.close == 3 && !s.db.alive
  {
  }

  /** A child's destructor is due or running. */
  predicate Due(c: Child) {
    c.zeros > 0 || c.stage != Live
  }

  predicate DbDue(d: Db) {
    d.zeros > 0 || d.stage != Live
  }

  /** The next step of a destructor that is due and not done. */
  function Pending(c: Child, id: nat): Step {
    match c.stage
    case Live => Cas(id)
    case Body => RunBody(id)
    case BodyDone => ReleaseParent(id)
    case Released => Finish(id)
    case Done => Finish(id)
  }

  function DbPending(d: Db): Step {
    match d.stage
    case Live => CasDb
    case Body => DeleteDb
    case BodyDone => FinishDb
    case Released => FinishDb
    case Done => FinishDb
  }

  lemma DueStep(s: State, a: Step, id: nat)
    requires Inv(s) && Enabled(s, a)
    ensures id in s.kids && Due(s.kids[id]) ==> id in Next(s, a).kids && Due(Next(s, a).kids[id])
    ensures id in s.kids && Due(s.kids[id]) && a != Pending(s.kids[id], id) ==> Next(s, a).kids[id].stage == s.kids[id].stage
    ensures DbDue(s.db) ==> DbDue(Next(s, a).db)
    ensures DbDue(s.db) && a != DbPending(s.db) ==> Next(s, a).db.stage == s.db.stage
  {
    InvNext(s, a);
    if !OnDbOnly(a) && !OnBoth(a) && a.id == id && Due(s.kids[id]) {
      DueKidStep(s.kids[id], a);
    }
  }

  lemma DueKidStep(c: Child, a: Step)
    requires ChildOk(c) && Due(c) && (a.Drop? ==> !c.dropped) && (a.Finish? ==> c.stage == Released) && (a.Release? ==> c.refs > 0)
    requires a.Adopt? ==> !c.adopted
    requires a.Acquire? || a.Close? ==> c.adopted && c.close == 0
    ensures Due(NextKid(c, a))
    ensures !a.Cas? && !a.Finish? ==> NextKid(c, a).stage == c.stage
  {
  }

  /** No destructor that is due ever stalls: in each later state of a run it is done or its next step is enabled, and only
      that step moves it. */
  lemma {:induction false} NeverStalls(run: seq<State>, i: nat, j: nat, id: nat)
    requires IsRun(run) && i <= j < |run| && id in run[i].kids && Due(run[i].kids[id])
    ensures id in run[j].kids && Due(run[j].kids[id])
    ensures run[j].kids[id].stage == Done || Enabled(run[j], Pending(run[j].kids[id], id))
    ensures j + 1 < |run| && run[j + 1].kids[id].stage != run[j].kids[id].stage ==>
              StepAt(run, j, Pending(run[j].kids[id], id))
    decreases j
  {
    hide Next, Enabled, Inv, Due, Pending;
    RunInv(run, j);
    if i < j {
      NeverStalls(run, i, j - 1, id);
      RunInv(run, j - 1);
      var a := StepFrom(run, j - 1);
      DueStep(run[j - 1], a, id);
    }
    PendingEnabled(run[j], id);
    if j + 1 < |run| {
      var a := StepFrom(run, j);
      DueStep(run[j], a, id);
    }
  }

  lemma StepFrom(run: seq<State>, i: nat) returns (a: Step)
    requires IsRun(run) && i + 1 < |run|
    ensures Enabled(run[i], a) && run[i + 1] == Next(run[i], a)
  {
    hide Next, Enabled;
    assert Follows(run[i], run[i + 1]);
    a :| Enabled(run[i], a) && run[i + 1] == Next(run[i], a);
  }

  lemma PendingEnabled(s: State, id: nat)
    requires Inv(s) && id in s.kids && Due(s.kids[id])
    ensures s.kids[id].stage == Done || Enabled(s, Pending(s.kids[id], id))
  {
  }

  lemma DbPendingEnabled(s: State)
    requires Inv(s) && DbDue(s.db)
    ensures s.db.stage == Done || Enabled(s, DbPending(s.db))
  {
  }

  /** The same for the database. */
  lemma {:induction false} DbNeverStalls(run: seq<State>, i: nat, j: nat)
    requires IsRun(run) && i <= j < |run| && DbDue(run[i].db)
    ensures DbDue(run[j].db)
    ensures run[j].db.stage == Done || Enabled(run[j], DbPending(run[j].db))
    ensures j + 1 < |run| && run[j + 1].db.stage != run[j].db.stage ==> StepAt(run, j, DbPending(run[j].db))
    decreases j
  {
    hide Next, Enabled, Inv, DbDue, DbPending;
    RunInv(run, j);
    if i < j {
      DbNeverStalls(run, i, j - 1);
      RunInv(run, j - 1);
      var a := StepFrom(run, j - 1);
      DueStep(run[j - 1], a, 0);
    }
    DbPendingEnabled(run[j]);
    if j + 1 < |run| {
      var a := StepFrom(run, j);
      DueStep(run[j], a, 0);
    }
  }

  /** One step of a destructor, taken at the end of a run after others. */
  lemma Destroy(start: seq<State>, run: seq<State>, steps: seq<Step>, a: Step, all: seq<Step>) returns (longer: seq<State>)
    requires IsRun(run) && |run| > 0 && Takes(start, run, steps) && Enabled(Last(run), a) && all == steps + [a]
    ensures IsRun(longer) && Takes(start, longer, all)
    ensures |longer| > 0 && Last(longer) == Next(Last(run), a) && Inv(Last(longer))
  {
    hide IsRun, Inv, Next, Enabled, Takes;
    longer := Extend(run, a);
    TakesMore(start, run, longer, steps, [a]);
    LastInv(longer);
  }

  lemma TakesNothing(run: seq<State>)
    requires |run| > 0
    ensures Takes(run, run, [])
  {
  }

  /** A due destructor can be brought to its end by its own four steps, with no help from any other thread. */
  lemma DueDestructorRuns(run: seq<State>, id: nat) returns (longer: seq<State>)
    requires IsRun(run) && id in Last(run).kids && Last(run).kids[id].zeros > 0
    ensures IsRun(longer) && Takes(run, longer, [Cas(id), RunBody(id), ReleaseParent(id), Finish(id)])
    ensures |longer| > 0 && id in Last(longer).kids && Last(longer).kids[id].stage == Done && Last(longer).kids[id].close == 3
  {
    hide IsRun, Inv, Next, Enabled, Takes;
    LastInv(run);
    TakesNothing(run);
    Destruction(Last(run), id);
    longer := Destroy(run, run, [], Cas(id), [Cas(id)]);
    Destruction(Last(longer), id);
    longer := Destroy(run, longer, [Cas(id)], RunBody(id), [Cas(id), RunBody(id)]);
    Destruction(Last(longer), id);
    longer := Destroy(run, longer, [Cas(id), RunBody(id)], ReleaseParent(id), [Cas(id), RunBody(id), ReleaseParent(id)]);
    Destruction(Last(longer), id);
    longer := Destroy(run, longer, [Cas(id), RunBody(id), ReleaseParent(id)], Finish(id), [Cas(id), RunBody(id), ReleaseParent(id), Finish(id)]);
    Destruction(Last(longer), id);
  }

  /** The same for the database, by three steps. */
  lemma DueDbDestructorRuns(run: seq<State>) returns (longer: seq<State>)
    requires IsRun(run) && Last(run).db.zeros > 0
    ensures IsRun(longer) && Takes(run, longer, [CasDb, DeleteDb, FinishDb])
    ensures |longer| > 0 && Last(longer).db.stage == Done && Last(longer).db.close == 3 && !Last(longer).db.alive
  {
    hide IsRun, Inv, Next, Enabled, Takes;
    LastInv(run);
    TakesNothing(run);
    DbDestruction(Last(run));
    longer := Destroy(run, run, [], CasDb, [CasDb]);
    DbDestruction(Last(longer));
    longer := Destroy(run, longer, [CasDb], DeleteDb, [CasDb, DeleteDb]);
    DbDestruction(Last(longer));
    longer := Destroy(run, longer, [CasDb, DeleteDb], FinishDb, [CasDb, DeleteDb, FinishDb]);
    DbDestruction(Last(longer));
  }

  /** The window between registration and the creator's reference is real: this run closes a child inside it. */
  lemma EarlyCloseHappens() returns (run: seq<State>)
    ensures IsRun(run) && 0 in Last(run).kids && Last(run).kids[0].early
  {
    hide IsRun;
    run := Beginning();
    run := Extend(run, AcquireDb);
    run := Extend(run, Construct(0, true));
    run := Extend(run, Register(0));
    run := Extend(run, CloseDb);
    run := Extend(run, Pop(0));
    run := Extend(run, ClosePopped(0));
    run := Extend(run, Drop(0));
  }

  lemma Beginning() returns (run: seq<State>)
    ensures IsRun(run) && Last(run) == START
  {
    run := [START];
  }

  /** And it is final: neither that child nor the database is ever destroyed. */
  lemma EarlyCloseLeaks(run: seq<State>, i: nat, j: nat, id: nat)
    requires IsRun(run) && i <= j < |run| && id in run[i].kids && run[i].kids[id].early
    ensures id in run[j].kids && run[j].kids[id].stage == Live && run[j].kids[id].close < 3
    ensures run[j].db.alive && run[j].db.close < 3
  {
    RunAdvances(run, i, j, id);
    RunInv(run, j);
    HolderCounts(run[j], id);
  }
}
