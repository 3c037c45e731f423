/** The semaphore of psem.c: a count guarded by a mutex, with a condition
    variable to wait on. Waiting releases the mutex and sleeps in one step, a
    broadcast wakes every waiter, and a waiter may wake up for no reason. */
module Psem {
  import opened Counting
  import Semaphore

  datatype Pc =
    | Idle
    | DownLock               // about to lock the mutex
    | DownTest               // about to test count > 0
    | DownLoad
    | DownStore(loaded: int)
    | DownUnlock
    | CondWait               // the test failed, about to call cond_wait
    | Waiting                // asleep inside cond_wait
    | Reacquire              // woken inside cond_wait, about to take the mutex again
    | UpLock
    | UpLoad
    | UpStore(loaded: int)
    | UpUnlock
    | Broadcast              // unlocked, about to broadcast

  datatype State = State(locked: bool, count: int, pcs: seq<Pc>)

  datatype Action = CallDown | CallUp | Go | SpuriousWakeup

  predicate Init(s: State, count: int) {
    !s.locked && s.count == count && forall p | 0 <= p < |s.pcs| :: s.pcs[p] == Idle
  }

  predicate WantsMutex(pc: Pc) { pc == DownLock || pc == UpLock || pc == Reacquire }

  predicate Enabled(s: State, p: nat, a: Action) {
    p < |s.pcs| &&
    match a
    case CallDown => s.pcs[p] == Idle
    case CallUp => s.pcs[p] == Idle
    case SpuriousWakeup => s.pcs[p] == Waiting
    case Go => s.pcs[p] != Idle && s.pcs[p] != Waiting && (WantsMutex(s.pcs[p]) ==> !s.locked)
  }

  function Goto(s: State, p: nat, pc: Pc): State
    requires p < |s.pcs|
  {
    s.(pcs := s.pcs[p := pc])
  }

  function Apply(s: State, p: nat, a: Action): State
    requires Enabled(s, p, a)
  {
    match a
    case CallDown => Goto(s, p, DownLock)
    case CallUp => Goto(s, p, UpLock)
    case SpuriousWakeup => Goto(s, p, Reacquire)
    case Go =>
      match s.pcs[p]
      case DownLock => Goto(s.(locked := true), p, DownTest)
      case Reacquire => Goto(s.(locked := true), p, DownTest)
      case DownTest => Goto(s, p, if s.count > 0 then DownLoad else CondWait)
      case DownLoad => Goto(s, p, DownStore(s.count))
      case DownStore(v) => Goto(s.(count := v - 1), p, DownUnlock)
      case DownUnlock => Goto(s.(locked := false), p, Idle)
      case CondWait => Goto(s.(locked := false), p, Waiting)
      case UpLock => Goto(s.(locked := true), p, UpLoad)
      case UpLoad => Goto(s, p, UpStore(s.count))
      case UpStore(v) => Goto(s.(count := v + 1), p, UpUnlock)
      case UpUnlock => Goto(s.(locked := false), p, Broadcast)
      case Broadcast => Goto(s.(pcs := WakeAll(s.pcs)), p, Idle)
  }

  function WakeAll(pcs: seq<Pc>): (r: seq<Pc>)
    ensures |r| == |pcs|
  {
    seq(|pcs|, i requires 0 <= i < |pcs| => if pcs[i] == Waiting then Reacquire else pcs[i])
  }

  // ----- the invariant

  predicate Holds(pc: Pc) {
    match pc
    case DownTest | DownLoad | DownStore(_) | DownUnlock | CondWait => true
    case UpLoad | UpStore(_) | UpUnlock => true
    case _ => false
  }

  predicate Knows(pc: Pc, count: int) {
    match pc
    case DownLoad => count > 0
    case DownStore(v) => v == count && count > 0
    case UpStore(v) => v == count
    case CondWait => count == 0
    case _ => true
  }

  /** An up that has stored but not yet broadcast, or a down that has not taken
      its unit and is not asleep. */
  predicate Credit(pc: Pc) {
    match pc
    case DownLock | DownTest | DownLoad | DownStore(_) | CondWait | Reacquire => true
    case UpUnlock | Broadcast => true
    case _ => false
  }

  ghost predicate SomeWaiting(s: State) {
    exists p :: 0 <= p < |s.pcs| && s.pcs[p] == Waiting
  }

  ghost predicate Inv(s: State) {
    && Count(Holds, s.pcs) == Bit(s.locked)
    && s.count >= 0
    && (forall p | 0 <= p < |s.pcs| :: Knows(s.pcs[p], s.count))
    && (SomeWaiting(s) ==> s.count <= Count(Credit, s.pcs))
  }

  lemma InvInit(s: State, initial: nat)
    requires Init(s, initial)
    ensures Inv(s)
  {
    CountNone(Holds, s.pcs);
  }

  lemma InvStep(s: State, p: nat, a: Action)
    requires Inv(s) && Enabled(s, p, a)
    ensures Inv(Apply(s, p, a))
  {
    MutexStep(s, p, a);
    OthersKeepKnowing(s, p, a);
    CreditStep(s, p, a);
  }

  lemma MutexStep(s: State, p: nat, a: Action)
    requires Inv(s) && Enabled(s, p, a)
    ensures var s' := Apply(s, p, a); Count(Holds, s'.pcs) == Bit(s'.locked)
  {
    hide Apply, Holds, Knows;
    HolderOnly(s, p);
    MutexMoves(s, p, a);
    CountChange(Holds, s.pcs, Apply(s, p, a).pcs, p);
  }

  /** A step locks the mutex exactly when its process comes to hold it. */
  lemma MutexMoves(s: State, p: nat, a: Action)
    requires Enabled(s, p, a) && (Holds(s.pcs[p]) ==> s.locked)
    ensures var s' := Apply(s, p, a);
      && |s'.pcs| == |s.pcs|
      && Bit(s.locked) + Bit(Holds(s'.pcs[p])) == Bit(s'.locked) + Bit(Holds(s.pcs[p]))
      && forall q | 0 <= q < |s.pcs| && q != p :: Holds(s'.pcs[q]) == Holds(s.pcs[q])
  {
  }

  lemma CreditStep(s: State, p: nat, a: Action)
    requires Inv(s) && Enabled(s, p, a)
    ensures var s' := Apply(s, p, a); SomeWaiting(s') ==> s'.count <= Count(Credit, s'.pcs)
  {
    var s' := Apply(s, p, a);
    if SomeWaiting(s') {
      var q :| 0 <= q < |s'.pcs| && s'.pcs[q] == Waiting;
      OwnCredit(s, p, a);
      assert s'.count == 0 || s.pcs[q] == Waiting;
      CountChange(Credit, s.pcs, s'.pcs, p);
    }
  }

  /** A process inside the critical section is the only one there, and has locked the mutex. */
  lemma HolderOnly(s: State, p: nat)
    requires Count(Holds, s.pcs) == Bit(s.locked) && p < |s.pcs|
    ensures Holds(s.pcs[p]) ==> s.locked
    ensures Holds(s.pcs[p]) ==> forall q: nat | q < |s.pcs| && Holds(s.pcs[q]) :: q == p
  {
    CountNone(Holds, s.pcs);
    if Holds(s.pcs[p]) {
      forall q: nat | q < |s.pcs| && Holds(s.pcs[q])
        ensures q == p
      {
        CountUnique(Holds, s.pcs, p, q);
      }
    }
  }

  lemma OthersKeepKnowing(s: State, p: nat, a: Action)
    requires Inv(s) && Enabled(s, p, a)
    ensures var s' := Apply(s, p, a);
      s'.count >= 0 && forall q | 0 <= q < |s.pcs| :: Knows(s'.pcs[q], s'.count)
  {
    var s' := Apply(s, p, a);
    HolderOnly(s, p);
    assert Knows(s.pcs[p], s.count);
    forall q | 0 <= q < |s.pcs|
      ensures Knows(s'.pcs[q], s'.count)
    {
      assert Knows(s.pcs[q], s.count);
    }
  }

  lemma OwnCredit(s: State, p: nat, a: Action)
    requires Enabled(s, p, a) && Knows(s.pcs[p], s.count)
    requires SomeWaiting(Apply(s, p, a))
    ensures var s' := Apply(s, p, a);
      && s'.pcs == s.pcs[p := s'.pcs[p]]
      && (s'.count + Bit(Credit(s.pcs[p])) <= s.count + Bit(Credit(s'.pcs[p])) || s'.count == 0)
      && (s'.pcs[p] == Waiting ==> s'.count == 0)
  {
  }

  // ----- runs

  ghost predicate Steps(s: State, s': State) {
    exists p, a :: Enabled(s, p, a) && s' == Apply(s, p, a)
  }

  ghost predicate IsRun(run: seq<State>, initial: nat) {
    && run != [] && Init(run[0], initial)
    && forall i | 0 <= i < |run| - 1 :: Steps(run[i], run[i + 1])
  }

  lemma {:induction false} RunKeepsInv(run: seq<State>, initial: nat, i: nat)
    requires IsRun(run, initial) && i < |run|
    ensures Inv(run[i])
  {
    if i == 0 {
      InvInit(run[0], initial);
    } else {
      RunKeepsInv(run, initial, i - 1);
      assert Steps(run[i - 1], run[i - 1 + 1]);
      var p, a :| Enabled(run[i - 1], p, a) && run[i] == Apply(run[i - 1], p, a);
      InvStep(run[i - 1], p, a);
    }
  }

  /** No lost wakeup: units that are there while somebody waits are covered by ups
      still to broadcast and by downs still on their way to the count. */
  lemma NoLostWakeup(run: seq<State>, initial: nat, i: nat)
    requires IsRun(run, initial) && i < |run|
    ensures var s := run[i]; SomeWaiting(s) ==> s.count <= Count(Credit, s.pcs)
  {
    RunKeepsInv(run, initial, i);
  }

  /** The process can move only if another one moves first or its client calls. */
  predicate Parked(s: State, p: nat)
    requires p < |s.pcs|
  {
    s.pcs[p] == Idle || s.pcs[p] == Waiting || (WantsMutex(s.pcs[p]) && s.locked)
  }

  lemma ParkedMeans(s: State)
    requires Inv(s) && forall p: nat | p < |s.pcs| :: Parked(s, p)
    ensures !s.locked
    ensures forall p | 0 <= p < |s.pcs| :: s.pcs[p] == Idle || s.pcs[p] == Waiting
    ensures SomeWaiting(s) ==> s.count == 0
  {
    forall p: nat | p < |s.pcs|
      ensures !Holds(s.pcs[p])
    {
      assert Parked(s, p);
    }
    CountNone(Holds, s.pcs);
    forall p: nat | p < |s.pcs|
      ensures s.pcs[p] == Idle || s.pcs[p] == Waiting
    {
      assert Parked(s, p);
    }
    CountNone(Credit, s.pcs);
  }

  /** When nobody can move, the mutex is free and whoever waits faces a count of 0. */
  lemma NoStuckState(run: seq<State>, initial: nat, i: nat)
    requires IsRun(run, initial) && i < |run|
    requires forall p: nat | p < |run[i].pcs| :: Parked(run[i], p)
    ensures var s := run[i];
      && !s.locked
      && (forall p | 0 <= p < |s.pcs| :: s.pcs[p] == Idle || s.pcs[p] == Waiting)
      && (SomeWaiting(s) ==> s.count == 0)
  {
    RunKeepsInv(run, initial, i);
    ParkedMeans(run[i]);
  }

  // ----- calls come to an end

  /** Ups that have not broadcast: each can send waiters round once more. */
  function UpRank(pc: Pc): nat {
    match pc case UpLock | UpLoad | UpStore(_) | UpUnlock | Broadcast => 1 case _ => 0
  }

  /** How many steps a call is from its end or from waiting. */
  function CallRank(pc: Pc): nat {
    match pc
    case Idle | Waiting => 0
    case DownUnlock | CondWait | Broadcast => 1
    case DownStore(_) | UpUnlock => 2
    case DownLoad | UpStore(_) => 3
    case DownTest | UpLoad => 4
    case DownLock | Reacquire | UpLock => 5
  }

  predicate Lower(s': State, s: State) {
    var up', up := Total(UpRank, s'.pcs), Total(UpRank, s.pcs);
    up' < up || (up' == up && Total(CallRank, s'.pcs) < Total(CallRank, s.pcs))
  }

  lemma GoLowers(s: State, p: nat)
    requires p < |s.pcs| && !Parked(s, p)
    ensures Enabled(s, p, Go) && Lower(Apply(s, p, Go), s)
  {
    hide Apply, Enabled, UpRank, CallRank;
    RanksMove(s, p);
    var s' := Apply(s, p, Go);
    if UpRank(s'.pcs[p]) < UpRank(s.pcs[p]) {
      TotalDrops(UpRank, UpRank, s.pcs, s'.pcs, p);
    } else {
      TotalAtMost(UpRank, UpRank, s.pcs, s'.pcs);
      TotalAtMost(UpRank, UpRank, s'.pcs, s.pcs);
      TotalDrops(CallRank, CallRank, s.pcs, s'.pcs, p);
    }
  }

  /** A broadcast lowers the rank of its up; every other step lowers the rank of
      its call and leaves the other processes alone. */
  lemma RanksMove(s: State, p: nat)
    requires p < |s.pcs| && !Parked(s, p)
    ensures Enabled(s, p, Go)
    ensures var s' := Apply(s, p, Go);
      && |s'.pcs| == |s.pcs|
      && (forall q | 0 <= q < |s.pcs| :: UpRank(s'.pcs[q]) <= UpRank(s.pcs[q]))
      && (UpRank(s'.pcs[p]) < UpRank(s.pcs[p]) ||
            ((forall q | 0 <= q < |s.pcs| :: UpRank(s'.pcs[q]) == UpRank(s.pcs[q]))
            && (forall q | 0 <= q < |s.pcs| :: CallRank(s'.pcs[q]) <= CallRank(s.pcs[q]))
            && CallRank(s'.pcs[p]) < CallRank(s.pcs[p])))
  {
  }

  /** A step of a call that has begun, and no spurious wakeup. */
  ghost predicate StepsOn(s: State, s': State) {
    exists p :: Enabled(s, p, Go) && s' == Apply(s, p, Go)
  }

  ghost predicate GoesOn(path: seq<State>) {
    path != [] && forall i | 0 <= i < |path| - 1 :: StepsOn(path[i], path[i + 1])
  }

  /** Every call has returned, or is a down that waits because there is no unit. */
  predicate Settled(s: State) {
    !s.locked && forall pc | pc in s.pcs :: pc == Idle || (pc == Waiting && s.count == 0)
  }

  lemma {:induction false} Settles(s: State) returns (path: seq<State>)
    requires Inv(s)
    ensures GoesOn(path) && path[0] == s && Settled(path[|path| - 1])
    decreases Total(UpRank, s.pcs), Total(CallRank, s.pcs)
  {
    hide Apply, Enabled, Knows;
    path := [s];
    if p: nat :| p < |s.pcs| && !Parked(s, p) {
      GoLowers(s, p);
      InvStep(s, p, Go);
      var rest := Settles(Apply(s, p, Go));
      assert StepsOn(s, rest[0]);
      path := path + rest;
    } else {
      ParkedMeans(s);
    }
  }

  /** Every run, at whatever point, can go on without a new call to a state in
      which every call has returned, but for downs that wait while the count is 0. */
  lemma RunSettles(run: seq<State>, initial: nat) returns (path: seq<State>)
    requires IsRun(run, initial)
    ensures path != [] && path[0] == run[|run| - 1] && GoesOn(path) && Settled(path[|path| - 1])
    ensures IsRun(run + path[1..], initial)
  {
    RunKeepsInv(run, initial, |run| - 1);
    path := Settles(run[|run| - 1]);
    var longer := run + path[1..];
    forall i | 0 <= i < |longer| - 1
      ensures Steps(longer[i], longer[i + 1])
    {
      if i < |run| - 1 {
        assert Steps(run[i], run[i + 1]);
      } else {
        var j := i - (|run| - 1);
        assert StepsOn(path[j], path[j + 1]);
      }
    }
  }

  // ----- refinement

  function AbsProc(pc: Pc): Semaphore.Proc {
    match pc
    case Idle => Semaphore.Idle
    case DownLock | DownTest | DownLoad | DownStore(_) | CondWait | Waiting | Reacquire => Semaphore.DownPending
    case DownUnlock => Semaphore.DownDone
    case UpLock | UpLoad | UpStore(_) => Semaphore.UpPending
    case UpUnlock | Broadcast => Semaphore.UpDone
  }

  function Abs(s: State): (r: Semaphore.State)
    ensures |r.procs| == |s.pcs|
  {
    Semaphore.State(s.count, seq(|s.pcs|, i requires 0 <= i < |s.pcs| => AbsProc(s.pcs[i])))
  }

  /** Every step of psem is one step of the atomic semaphore, or invisible. */
  lemma Refines(s: State, p: nat, a: Action)
    requires Inv(s) && Enabled(s, p, a)
    ensures var s' := Apply(s, p, a);
      Abs(s') == Abs(s) || Semaphore.Step(Abs(s), Abs(s'), p)
  {
    var s' := Apply(s, p, a);
    assert Knows(s.pcs[p], s.count);
    var t, t' := Abs(s), Abs(s');
    assert forall q | 0 <= q < |s.pcs| && q != p :: t'.procs[q] == t.procs[q];
    assert t'.procs == t.procs[p := t'.procs[p]];
    if t'.procs[p] == t.procs[p] {
      assert t' == t;
    }
  }

  function AbsRun(run: seq<State>): (r: seq<Semaphore.State>)
    ensures |r| == |run|
  {
    seq(|run|, i requires 0 <= i < |run| => Abs(run[i]))
  }

  /** Seen through Abs, a run of psem is a run of the atomic semaphore with pauses. */
  lemma RunRefines(run: seq<State>, initial: nat)
    requires IsRun(run, initial)
    ensures Semaphore.IsRun(AbsRun(run), initial)
  {
    forall i: nat | i < |run| - 1
      ensures Semaphore.StepOrPause(Abs(run[i]), Abs(run[i + 1]))
    {
      RunKeepsInv(run, initial, i);
      assert Steps(run[i], run[i + 1]);
      var p, a :| Enabled(run[i], p, a) && run[i + 1] == Apply(run[i], p, a);
      Refines(run[i], p, a);
    }
  }
}
