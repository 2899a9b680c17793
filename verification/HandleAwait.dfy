/**
 AwaitCloseAndDestructor against ~ErlRefObject (c_src/refobjects.cc): any number of waiters, a mutex, a condition
 variable with spurious wakeups, and the destructor that sets the flag to 3 and notifies.
 */
module HandleAwait {
  import HandleProtocol

  /** Where a waiter stands: before the quick test, about to lock, holding the mutex, waiting on the condition
      variable, woken and about to lock again, or returned. */
  datatype Pc = Start | Locking | Checking | Waiting | Woken | Returned

  datatype Dtor = NotYet | Locked | FlagSet | Notified | Done

  datatype Owner = Free | Waiter(w: nat) | Destructor

  datatype State = State(waiters: map<nat, Pc>, dtor: Dtor, owner: Owner, flag: bool)

  datatype Step =
    | Arrive(w: nat) | QuickTest(w: nat) | Lock(w: nat) | Check(w: nat) | Spurious(w: nat) | Relock(w: nat)
    | DtorLock | DtorSet | DtorNotify | DtorUnlock

  const START := State(map[], NotYet, Free, false)

  predicate At(s: State, w: nat, pc: Pc) {
    w in s.waiters && s.waiters[w] == pc
  }

  predicate Enabled(s: State, a: Step) {
    match a
    case Arrive(w) => w !in s.waiters
    case QuickTest(w) => At(s, w, Start)
    case Lock(w) => At(s, w, Locking) && s.owner == Free
    case Check(w) => At(s, w, Checking)
    case Spurious(w) => At(s, w, Waiting)
    case Relock(w) => At(s, w, Woken) && s.owner == Free
    case DtorLock => s.dtor == NotYet && s.owner == Free
    case DtorSet => s.dtor == Locked
    case DtorNotify => s.dtor == FlagSet
    case DtorUnlock => s.dtor == Notified
  }

  function WakeAll(ws: map<nat, Pc>): map<nat, Pc> {
    map w | w in ws :: if ws[w] == Waiting then Woken else ws[w]
  }

  function Next(s: State, a: Step): State
    requires Enabled(s, a)
  {
    match a
    case Arrive(w) => s.(waiters := s.waiters[w := Start])
    case QuickTest(w) => s.(waiters := s.waiters[w := if s.flag then Returned else Locking])
    case Lock(w) => s.(waiters := s.waiters[w := Checking], owner := Waiter(w))
    case Check(w) => s.(waiters := s.waiters[w := if s.flag then Returned else Waiting], owner := Free)
    case Spurious(w) => s.(waiters := s.waiters[w := Woken])
    case Relock(w) => s.(waiters := s.waiters[w := Checking], owner := Waiter(w))
    case DtorLock => s.(dtor := Locked, owner := Destructor)
    case DtorSet => s.(dtor := FlagSet, flag := true)
    case DtorNotify => s.(dtor := Notified, waiters := WakeAll(s.waiters))
    case DtorUnlock => s.(dtor := Done, owner := Free)
  }

  predicate Inv(s: State) {
    && (s.flag <==> s.dtor == FlagSet || s.dtor == Notified || s.dtor == Done)
    && (s.owner == Destructor <==> s.dtor == Locked || s.dtor == FlagSet || s.dtor == Notified)
    && (forall w :: w in s.waiters ==> (s.waiters[w] == Checking <==> s.owner == Waiter(w)))
    && (s.owner.Waiter? ==> s.owner.w in s.waiters)
    && (forall w :: w in s.waiters && s.waiters[w] == Returned ==> s.flag)
    && (s.dtor == Notified || s.dtor == Done ==> forall w :: w in s.waiters ==> s.waiters[w] != Waiting)
  }

  lemma InvNext(s: State, a: Step)
    requires Inv(s) && Enabled(s, a)
    ensures Inv(Next(s, a))
  {
  }

  ghost predicate Follows(s: State, s': State) {
    exists a :: Enabled(s, a) && s' == Next(s, a)
  }

  ghost predicate IsRun(run: seq<State>) {
    |run| > 0 && run[0] == START && forall i :: 0 <= i < |run| - 1 ==> Follows(run[i], run[i + 1])
  }

  /** On every run a waiter returns only with the flag at 3, and once the destructor is through no waiter is left
      asleep: no wakeup is lost. */
  lemma {:induction false} NoLostWakeup(run: seq<State>, i: nat)
    requires IsRun(run) && i < |run|
    ensures Inv(run[i])
    ensures forall w :: w in run[i].waiters && run[i].waiters[w] == Returned ==> run[i].flag
    ensures run[i].dtor == Done ==> forall w :: w in run[i].waiters ==> run[i].waiters[w] != Waiting
  {
    hide Next, Enabled;
    if i > 0 {
      NoLostWakeup(run, i - 1);
      assert Follows(run[i - 1], run[i - 1 + 1]);
      var a :| Enabled(run[i - 1], a) && run[i] == Next(run[i - 1], a);
      InvNext(run[i - 1], a);
    }
  }

  /** Steps a waiter still needs once the destructor is done. */
  function Distance(pc: Pc): nat {
    match pc
    case Returned => 0
    case Start => 1
    case Checking => 1
    case _ => 2
  }

  /** After the destructor every step of a waiter brings it closer to its return, and does not touch the others. */
  lemma StepsAreProgress(s: State, a: Step, w: nat)
    requires Inv(s) && s.dtor == Done && Enabled(s, a) && !a.Arrive? && w in s.waiters
    ensures var s' := Next(s, a);
            && s'.dtor == Done && w in s'.waiters
            && (a.w == w ==> Distance(s'.waiters[w]) < Distance(s.waiters[w]))
            && (a.w != w ==> s'.waiters[w] == s.waiters[w])
  {
  }

  /** ... and as long as some waiter has not returned, such a step is possible: the mutex cannot be stuck. */
  lemma SomeoneCanMove(s: State, w: nat) returns (a: Step)
    requires Inv(s) && s.dtor == Done && w in s.waiters && s.waiters[w] != Returned
    ensures Enabled(s, a) && !a.Arrive? && a.w in s.waiters
  {
    if s.owner.Waiter? {
      a := Check(s.owner.w);
    } else {
      match s.waiters[w] {
        case Start => a := QuickTest(w);
        case Locking => a := Lock(w);
        case Woken => a := Relock(w);
      }
    }
  }

  /** A run goes on with any step that is enabled at its end. */
  lemma Extend(run: seq<State>, a: Step) returns (longer: seq<State>)
    requires IsRun(run) && Enabled(run[|run| - 1], a)
    ensures IsRun(longer) && run <= longer && |longer| == |run| + 1 && longer[|run|] == Next(run[|run| - 1], a)
  {
    hide Next, Enabled;
    longer := run + [Next(run[|run| - 1], a)];
    forall i | 0 <= i < |longer| - 1
      ensures Follows(longer[i], longer[i + 1])
    {
      if i < |run| - 1 {
        assert Follows(run[i], run[i + 1]);
      }
    }
  }

  function Remaining(d: Dtor): nat {
    match d
    case NotYet => 4
    case Locked => 3
    case FlagSet => 2
    case Notified => 1
    case Done => 0
  }

  /** How far a waiter is from its return, the destructor included. */
  function ToGo(s: State, w: nat): nat
    requires w in s.waiters
  {
    100 * Remaining(s.dtor) + (if s.owner.Waiter? && s.owner.w != w then 10 else 0)
    + if s.dtor == Done then Distance(s.waiters[w]) else if s.owner == Waiter(w) then 1 else 0
  }

  /** A step that brings it closer. */
  function Onward(s: State, w: nat): Step
    requires w in s.waiters
  {
    if s.owner.Waiter? then Check(s.owner.w)
    else match s.dtor
      case NotYet => DtorLock
      case Locked => DtorSet
      case FlagSet => DtorNotify
      case Notified => DtorUnlock
      case Done => if s.waiters[w] == Start then QuickTest(w) else if s.waiters[w] == Locking then Lock(w) else Relock(w)
  }

  lemma OnwardStep(s: State, w: nat)
    requires Inv(s) && w in s.waiters && s.waiters[w] != Returned
    ensures Enabled(s, Onward(s, w))
    ensures var s' := Next(s, Onward(s, w)); w in s'.waiters && ToGo(s', w) < ToGo(s, w)
  {
  }

  /** A new waiter may always arrive, and every waiter can return, once the destructor has run. */
  lemma {:induction false} WaiterCanReturn(run: seq<State>, w: nat) returns (longer: seq<State>)
    requires IsRun(run)
    requires w in run[|run| - 1].waiters
    ensures IsRun(longer) && run <= longer && |longer| > 0 && At(longer[|longer| - 1], w, Returned) && longer[|longer| - 1].flag
    decreases ToGo(run[|run| - 1], w)
  {
    hide Next, Enabled, Inv, ToGo, Onward;
    NoLostWakeup(run, |run| - 1);
    longer := run;
    if run[|run| - 1].waiters[w] != Returned {
      OnwardStep(run[|run| - 1], w);
      var next := Extend(run, Onward(run[|run| - 1], w));
      longer := WaiterCanReturn(next, w);
    }
  }

  /** A waiter that falls asleep before the destructor sets the flag, and returns afterwards. */
  lemma SleeperReturns() returns (run: seq<State>, longer: seq<State>)
    ensures IsRun(run) && At(run[|run| - 1], 0, Waiting) && !run[|run| - 1].flag
    ensures IsRun(longer) && run <= longer && |longer| > 0 && At(longer[|longer| - 1], 0, Returned)
  {
    run := [START];
    run := Extend(run, Arrive(0));
    run := Extend(run, QuickTest(0));
    run := Extend(run, Lock(0));
    run := Extend(run, Check(0));
    longer := WaiterCanReturn(run, 0);
  }

  /** A child closed before its creator took a reference is waited for in vain: neither its own cleanup nor that of the
      database ever returns, whatever the waiters do.  The flag the waiters see is the close flag at 3. */
  lemma LeakIsAwaitedForever(run: seq<HandleProtocol.State>, i: nat, j: nat, id: nat, waits: seq<State>, k: nat, ofDb: bool, w: nat)
    requires HandleProtocol.IsRun(run) && i <= j < |run| && id in run[i].kids && run[i].kids[id].early
    requires IsRun(waits) && k < |waits| && w in waits[k].waiters
    requires waits[k].flag ==> id in run[j].kids && 3 == if ofDb then run[j].db.close else run[j].kids[id].close
    ensures waits[k].waiters[w] != Returned
  {
    HandleProtocol.EarlyCloseLeaks(run, i, j, id);
    NoLostWakeup(waits, k);
  }
}
