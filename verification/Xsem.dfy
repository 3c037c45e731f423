/** The counting semaphore of xsem.c: a count word guarded by the futex lock of
    Xlock, and a second futex on the count word itself. Every read, every write,
    every CAS and every futex call is one atomic step. */
module Xsem {
  import opened Counting
  import Xlock
  import Semaphore

  /** Where a process stands in xsem_down (first block) or xsem_up (second). */
  datatype Pc =
    | Idle
    | DownTest               // taking the lock; once it is held, about to test count > 0
    | DownLoad               // the test succeeded, about to load the count for count--
    | DownStore(loaded: int) // about to store loaded - 1
    | DownUnlock             // leaving with the unit taken
    | RetryUnlock            // unlocking in order to wait; then about to FUTEX_WAIT for 0
    | Sleeping               // asleep on the count word
    | Relock                 // the futex call returned, about to call xlock_lock again
    | UpLoad                 // taking the lock; once it is held, about to load the count
    | UpStore(loaded: int)   // about to store loaded + 1
    | UpUnlock               // unlocking; then about to FUTEX_WAKE the count word

  /** ups and downs record the history: how many stores of either kind happened. */
  datatype State = State(lock: Xlock.State, count: int, pcs: seq<Pc>, ups: nat, downs: nat)

  datatype Action =
    | CallDown
    | CallUp
    | LockStep(a: Xlock.Action)
    | Test
    | Load
    | Store
    | CountWait
    | CountSpurious
    | CallLockAgain
    | CountWake(woken: set<nat>)
    | Return

  predicate Init(s: State, count: int) {
    && Xlock.Init(s.lock) && s.count == count && s.ups == 0 && s.downs == 0
    && |s.pcs| == |s.lock.pcs|
    && forall p | 0 <= p < |s.pcs| :: s.pcs[p] == Idle
  }

  predicate Unlocking(pc: Pc) { pc == DownUnlock || pc == RetryUnlock || pc == UpUnlock }

  /** FUTEX_WAKE on the count word: sleepers only, and at least one when there is one. */
  predicate Wakes(pcs: seq<Pc>, woken: set<nat>) {
    && (forall q | q in woken :: q < |pcs| && pcs[q] == Sleeping)
    && ((exists q :: 0 <= q < |pcs| && pcs[q] == Sleeping) ==> woken != {})
  }

  predicate Enabled(s: State, p: nat, a: Action) {
    p < |s.pcs| == |s.lock.pcs| &&
    var pc, lpc := s.pcs[p], s.lock.pcs[p];
    match a
    case CallDown => pc == Idle && lpc == Xlock.Out
    case CallUp => pc == Idle && lpc == Xlock.Out
    case LockStep(b) => !b.Enter? && (b.CasUnlock? ==> Unlocking(pc)) && Xlock.Enabled(s.lock, p, b)
    case Test => pc == DownTest && lpc == Xlock.Held
    case Load => (pc == DownLoad || pc == UpLoad) && lpc == Xlock.Held
    case Store => (pc.DownStore? || pc.UpStore?) && lpc == Xlock.Held
    case CountWait => pc == RetryUnlock && lpc == Xlock.Out
    case CountSpurious => pc == Sleeping
    case CallLockAgain => pc == Relock && lpc == Xlock.Out
    case CountWake(woken) => pc == UpUnlock && lpc == Xlock.Out && Wakes(s.pcs, woken)
    case Return => pc == DownUnlock && lpc == Xlock.Out
  }

  function Goto(s: State, p: nat, pc: Pc): State
    requires p < |s.pcs|
  {
    s.(pcs := s.pcs[p := pc])
  }

  function Locking(s: State, p: nat, pc: Pc): State
    requires p < |s.pcs| && Xlock.Enabled(s.lock, p, Xlock.Enter)
  {
    Goto(s.(lock := Xlock.Apply(s.lock, p, Xlock.Enter)), p, pc)
  }

  function Apply(s: State, p: nat, a: Action): State
    requires Enabled(s, p, a)
  {
    match a
    case CallDown => Locking(s, p, DownTest)
    case CallUp => Locking(s, p, UpLoad)
    case LockStep(b) => s.(lock := Xlock.Apply(s.lock, p, b))
    case Test => Goto(s, p, if s.count > 0 then DownLoad else RetryUnlock)
    case Load => Goto(s, p, if s.pcs[p] == DownLoad then DownStore(s.count) else UpStore(s.count))
    case Store =>
      if s.pcs[p].DownStore? then
        Goto(s.(count := s.pcs[p].loaded - 1, downs := s.downs + 1), p, DownUnlock)
      else
        Goto(s.(count := s.pcs[p].loaded + 1, ups := s.ups + 1), p, UpUnlock)
    case CountWait => Goto(s, p, if s.count == 0 then Sleeping else Relock)
    case CountSpurious => Goto(s, p, Relock)
    case CallLockAgain => Locking(s, p, DownTest)
    case CountWake(woken) => Goto(s.(pcs := WakeAll(s.pcs, woken)), p, Idle)
    case Return => Goto(s, p, Idle)
  }

  function WakeAll(pcs: seq<Pc>, woken: set<nat>): (r: seq<Pc>)
    ensures |r| == |pcs|
  {
    seq(|pcs|, i requires 0 <= i < |pcs| => if i in woken then Relock else pcs[i])
  }

  // ----- the invariant

  /** Which lock positions go with a semaphore position. */
  predicate Agree(pc: Pc, lpc: Xlock.Pc) {
    match pc
    case Idle | Sleeping | Relock => lpc == Xlock.Out
    case DownTest | UpLoad => lpc in {Xlock.Try, Xlock.Wait, Xlock.Asleep, Xlock.Held}
    case DownLoad | DownStore(_) | UpStore(_) => lpc == Xlock.Held
    case DownUnlock | RetryUnlock | UpUnlock => lpc in {Xlock.Held, Xlock.Wake, Xlock.Out}
  }

  /** What a process inside the critical section knows about the count. */
  predicate Knows(pc: Pc, count: int) {
    match pc
    case DownLoad => count > 0
    case DownStore(v) => v == count && count > 0
    case UpStore(v) => v == count
    case _ => true
  }

  /** The processes that account for a positive count while others sleep: an up
      that has stored but not yet issued its wake, or a process inside xsem_down
      that has not taken its unit and is not asleep on the count word. */
  predicate Credit(pc: Pc) {
    match pc
    case UpUnlock | DownTest | DownLoad | DownStore(_) | RetryUnlock | Relock => true
    case _ => false
  }

  ghost predicate SomeSleeping(s: State) {
    exists p :: 0 <= p < |s.pcs| && s.pcs[p] == Sleeping
  }

  ghost predicate Inv(s: State, initial: nat) {
    && |s.pcs| == |s.lock.pcs|
    && Xlock.Inv(s.lock)
    && (forall p | 0 <= p < |s.pcs| :: Agree(s.pcs[p], s.lock.pcs[p]) && Knows(s.pcs[p], s.count))
    && s.count >= 0
    && s.count == initial + s.ups - s.downs
    && (SomeSleeping(s) ==> s.count <= Count(Credit, s.pcs))
  }

  lemma InvInit(s: State, initial: nat)
    requires Init(s, initial)
    ensures Inv(s, initial)
  {
    Xlock.InvInit(s.lock);
  }

  lemma InvStep(s: State, initial: nat, p: nat, a: Action)
    requires Inv(s, initial) && Enabled(s, p, a)
    ensures Inv(Apply(s, p, a), initial)
  {
    var s' := Apply(s, p, a);
    match a {
      case CallDown | CallUp | CallLockAgain => Xlock.InvStep(s.lock, p, Xlock.Enter);
      case LockStep(b) => Xlock.InvStep(s.lock, p, b);
      case _ =>
    }
    LocalStep(s, initial, p, a);
    CreditStep(s, initial, p, a);
  }

  /** Only the lock holder changes the count, so what the others know stays true. */
  lemma LocalStep(s: State, initial: nat, p: nat, a: Action)
    requires Inv(s, initial) && Enabled(s, p, a)
    ensures var s' := Apply(s, p, a);
      forall q | 0 <= q < |s.pcs| :: Agree(s'.pcs[q], s'.lock.pcs[q]) && Knows(s'.pcs[q], s'.count)
  {
    var s' := Apply(s, p, a);
    Xlock.MutualExclusion(s.lock);
    forall q | 0 <= q < |s.pcs|
      ensures Agree(s'.pcs[q], s'.lock.pcs[q]) && Knows(s'.pcs[q], s'.count)
    {
      assert Agree(s.pcs[q], s.lock.pcs[q]) && Knows(s.pcs[q], s.count);
    }
  }

  lemma CreditStep(s: State, initial: nat, p: nat, a: Action)
    requires Inv(s, initial) && Enabled(s, p, a)
    ensures var s' := Apply(s, p, a);
      SomeSleeping(s') ==> s'.count <= Count(Credit, s'.pcs)
  {
    if a.CountWake? {
      WakeCredit(s, p, a.woken);
    } else {
      var s' := Apply(s, p, a);
      OwnCredit(s, p, a);
      CountChange(Credit, s.pcs, s'.pcs, p);
      hide Apply, Enabled, Xlock.Inv, Agree, Knows, Credit;
      if q :| 0 <= q < |s'.pcs| && s'.pcs[q] == Sleeping {
        assert s'.count == 0 || s.pcs[q] == Sleeping;
      }
    }
  }

  /** The up that issues its wake gives up its credit, but whoever it wakes gains one. */
  lemma WakeCredit(s: State, p: nat, woken: set<nat>)
    requires Enabled(s, p, CountWake(woken)) && (SomeSleeping(s) ==> s.count <= Count(Credit, s.pcs))
    ensures var s' := Apply(s, p, CountWake(woken));
      SomeSleeping(s') ==> s'.count <= Count(Credit, s'.pcs)
  {
    var s' := Apply(s, p, CountWake(woken));
    if q :| 0 <= q < |s'.pcs| && s'.pcs[q] == Sleeping {
      assert s.pcs[q] == Sleeping;
      var r :| r in woken;
      CountTrade(Credit, s.pcs, s'.pcs, p, r);
    }
  }

  /** Apart from the wake, a step moves its own process only. It raises the count
      no further than that process's own credit, and it makes nobody sleep on a
      positive count. */
  lemma OwnCredit(s: State, p: nat, a: Action)
    requires Enabled(s, p, a) && !a.CountWake? && Knows(s.pcs[p], s.count)
    ensures var s' := Apply(s, p, a);
      && s'.pcs == s.pcs[p := s'.pcs[p]]
      && (s'.count + Bit(Credit(s.pcs[p])) <= s.count + Bit(Credit(s'.pcs[p])) || s'.count == 0)
      && (s'.pcs[p] == Sleeping ==> s'.count == 0 || s.pcs[p] == Sleeping)
  {
  }

  // ----- runs

  ghost predicate Steps(s: State, s': State) {
    exists p, a :: Enabled(s, p, a) && s' == Apply(s, p, a)
  }

  /** A run from an initial count: any processes, any schedule, any wakeups. */
  ghost predicate IsRun(run: seq<State>, initial: nat) {
    && run != [] && Init(run[0], initial)
    && forall i | 0 <= i < |run| - 1 :: Steps(run[i], run[i + 1])
  }

  lemma {:induction false} RunKeepsInv(run: seq<State>, initial: nat, i: nat)
    requires IsRun(run, initial) && i < |run|
    ensures Inv(run[i], initial)
  {
    if i == 0 {
      InvInit(run[0], initial);
    } else {
      RunKeepsInv(run, initial, i - 1);
      assert Steps(run[i - 1], run[i - 1 + 1]);
      var p, a :| Enabled(run[i - 1], p, a) && run[i] == Apply(run[i - 1], p, a);
      InvStep(run[i - 1], initial, p, a);
    }
  }

  predicate WakePending(pc: Pc) { pc == UpUnlock }

  /** Inside xsem_down, the unit not yet taken, not asleep on the count word. */
  predicate DownActive(pc: Pc) { Credit(pc) && pc != UpUnlock }

  lemma {:induction false} CreditSplits(pcs: seq<Pc>)
    ensures Count(Credit, pcs) == Count(WakePending, pcs) + Count(DownActive, pcs)
  {
    if pcs != [] {
      CreditSplits(pcs[1..]);
    }
  }

  /** No lost wakeup: units that are there while somebody sleeps are covered by
      ups still to issue their wake and by downs still on their way to the count. */
  lemma NoLostWakeup(run: seq<State>, initial: nat, i: nat)
    requires IsRun(run, initial) && i < |run|
    ensures var s := run[i];
      SomeSleeping(s) ==> s.count <= Count(WakePending, s.pcs) + Count(DownActive, s.pcs)
  {
    RunKeepsInv(run, initial, i);
    CreditSplits(run[i].pcs);
  }

  /** The process can move only if somebody wakes it or its client makes a call. */
  predicate Parked(s: State, p: nat)
    requires p < |s.pcs| == |s.lock.pcs|
  {
    s.pcs[p] == Idle || s.pcs[p] == Sleeping || s.lock.pcs[p] == Xlock.Asleep
  }

  lemma ParkedMeans(s: State, initial: nat)
    requires Inv(s, initial) && forall p: nat | p < |s.pcs| :: Parked(s, p)
    ensures s.lock.word == 0
    ensures forall p | 0 <= p < |s.pcs| :: s.lock.pcs[p] == Xlock.Out && (s.pcs[p] == Idle || s.pcs[p] == Sleeping)
    ensures SomeSleeping(s) ==> s.count == 0
  {
    forall p: nat | p < |s.pcs|
      ensures s.lock.pcs[p] == Xlock.Out || s.lock.pcs[p] == Xlock.Asleep
    {
      assert Parked(s, p) && Agree(s.pcs[p], s.lock.pcs[p]);
    }
    CountNone(Xlock.IsHeld, s.lock.pcs);
    forall p: nat | p < |s.pcs|
      ensures !Credit(s.pcs[p]) && (s.pcs[p] == Idle || s.pcs[p] == Sleeping)
    {
      assert s.lock.pcs[p] != Xlock.Asleep;
      assert Parked(s, p) && Agree(s.pcs[p], s.lock.pcs[p]);
    }
    CountNone(Credit, s.pcs);
  }

  /** No stuck state: when all are idle or asleep, the lock is free, nobody sleeps
      on it, and whoever sleeps on the count waits for a count that is really 0. */
  lemma NoStuckState(run: seq<State>, initial: nat, i: nat)
    requires IsRun(run, initial) && i < |run|
    requires |run[i].pcs| == |run[i].lock.pcs|
    requires forall p: nat | p < |run[i].pcs| :: Parked(run[i], p)
    ensures var s := run[i];
      && s.lock.word == 0
      && (forall p | 0 <= p < |s.pcs| :: s.lock.pcs[p] != Xlock.Asleep)
      && (SomeSleeping(s) ==> s.count == 0)
  {
    RunKeepsInv(run, initial, i);
    ParkedMeans(run[i], initial);
  }

  /** Every process that is not parked has a step of its own to take. */
  lemma Progress(s: State, initial: nat, p: nat)
    requires Inv(s, initial) && p < |s.pcs| && !Parked(s, p)
    ensures exists a :: Enabled(s, p, a) && a != CountSpurious && a != LockStep(Xlock.Spurious)
  {
    assert Agree(s.pcs[p], s.lock.pcs[p]);
    NextIsEnabled(s, p);
    assert Enabled(s, p, Next(s, p));
  }

  // ----- calls come to an end

  /** Ups that have not issued their wake: each can send sleepers round once more. */
  function UpRank(pc: Pc): nat {
    match pc case UpLoad => 2 case UpStore(_) => 2 case UpUnlock => 1 case _ => 0
  }

  /** How far a call is from its end or from falling asleep, while the count is positive. */
  function RankPositive(pc: Pc): nat {
    match pc
    case Idle | Sleeping => 0
    case DownUnlock | UpUnlock => 1
    case DownStore(_) | UpStore(_) => 2
    case DownLoad | UpLoad => 3
    case DownTest => 4
    case Relock => 5
    case RetryUnlock => 6
  }

  /** The same while it is 0: who has left the lock in order to wait will sleep. */
  function RankZero(pc: Pc): nat { if pc == RetryUnlock then 1 else RankPositive(pc) }

  function Rank(count: int): Pc -> nat { if count > 0 then RankPositive else RankZero }

  function CallWork(s: State): nat { Total(Rank(s.count), s.pcs) }

  predicate Lower(s': State, s: State) {
    var up', up := Total(UpRank, s'.pcs), Total(UpRank, s.pcs);
    up' < up || (up' == up &&
      (CallWork(s') < CallWork(s) || (CallWork(s') == CallWork(s) &&
        Total(Xlock.LockRank, s'.lock.pcs) < Total(Xlock.LockRank, s.lock.pcs))))
  }

  /** The step that xsem_down or xsem_up takes next. */
  function Next(s: State, p: nat): Action
    requires p < |s.pcs| == |s.lock.pcs|
  {
    match s.lock.pcs[p]
    case Out =>
      (match s.pcs[p]
       case Relock => CallLockAgain
       case DownUnlock => Return
       case RetryUnlock => CountWait
       case _ => CountWake(set q: nat | q < |s.pcs| && s.pcs[q] == Sleeping))
    case Held =>
      (match s.pcs[p]
       case DownTest => Test
       case DownLoad | UpLoad => Load
       case DownStore(_) | UpStore(_) => Store
       case _ => LockStep(Xlock.CasUnlock))
    case _ => LockStep(Xlock.Next(s.lock, p))
  }

  /** Not parked, and not about to run against a lock that is taken. */
  predicate Ready(s: State, p: nat) {
    p < |s.pcs| == |s.lock.pcs| && !Parked(s, p) && (s.lock.word == 1 ==> s.lock.pcs[p] == Xlock.Held)
  }

  lemma NextLowers(s: State, initial: nat, p: nat)
    requires Inv(s, initial) && Ready(s, p)
    ensures Enabled(s, p, Next(s, p)) && Lower(Apply(s, p, Next(s, p)), s)
  {
    assert Agree(s.pcs[p], s.lock.pcs[p]) && Knows(s.pcs[p], s.count);
    if Next(s, p).LockStep? {
      Xlock.NextLowers(s.lock, p);
    } else {
      NextIsEnabled(s, p);
      OwnStepLowers(s, p);
    }
  }

  lemma NextIsEnabled(s: State, p: nat)
    requires p < |s.pcs| == |s.lock.pcs| && !Parked(s, p) && Agree(s.pcs[p], s.lock.pcs[p])
    ensures Enabled(s, p, Next(s, p))
  {
    Xlock.NextIsEnabled(s.lock, p);
    if q :| 0 <= q < |s.pcs| && s.pcs[q] == Sleeping {
      assert Next(s, p).CountWake? ==> q in Next(s, p).woken;
    }
  }

  lemma OwnStepLowers(s: State, p: nat)
    requires Ready(s, p) && Agree(s.pcs[p], s.lock.pcs[p]) && Knows(s.pcs[p], s.count) && s.count >= 0
    requires !Next(s, p).LockStep? && Enabled(s, p, Next(s, p))
    ensures Lower(Apply(s, p, Next(s, p)), s)
  {
    var s' := Apply(s, p, Next(s, p));
    RanksMove(s, p);
    hide Apply, Enabled, Next, Ready, Agree, Knows, UpRank, RankPositive, RankZero;
    if UpRank(s'.pcs[p]) < UpRank(s.pcs[p]) {
      TotalDrops(UpRank, UpRank, s.pcs, s'.pcs, p);
    } else {
      TotalAtMost(UpRank, UpRank, s.pcs, s'.pcs);
      TotalAtMost(UpRank, UpRank, s'.pcs, s.pcs);
      TotalDrops(Rank(s.count), Rank(s'.count), s.pcs, s'.pcs, p);
    }
  }

  /** An up lowers its own rank by its store and its wake, and moves others only
      then; every other step lowers the rank of its process and no rank goes up. */
  lemma RanksMove(s: State, p: nat)
    requires Ready(s, p) && Agree(s.pcs[p], s.lock.pcs[p]) && Knows(s.pcs[p], s.count) && s.count >= 0
    requires !Next(s, p).LockStep? && Enabled(s, p, Next(s, p))
    ensures var s' := Apply(s, p, Next(s, p));
      && |s'.pcs| == |s.pcs|
      && (forall q | 0 <= q < |s.pcs| :: UpRank(s'.pcs[q]) <= UpRank(s.pcs[q]))
      && (UpRank(s'.pcs[p]) < UpRank(s.pcs[p]) ||
            ((forall q | 0 <= q < |s.pcs| :: UpRank(s'.pcs[q]) == UpRank(s.pcs[q]))
            && (forall q | 0 <= q < |s.pcs| :: Rank(s'.count)(s'.pcs[q]) <= Rank(s.count)(s.pcs[q]))
            && Rank(s'.count)(s'.pcs[p]) < Rank(s.count)(s.pcs[p])))
  {
  }

  /** As long as not all are parked, somebody is ready. */
  lemma SomeReady(s: State, initial: nat) returns (p: nat)
    requires Inv(s, initial) && exists q: nat :: q < |s.pcs| && !Parked(s, q)
    ensures Ready(s, p)
  {
    p :| p < |s.pcs| && !Parked(s, p);
    if s.lock.word == 1 {
      Xlock.MutualExclusion(s.lock);
      p :| p < |s.pcs| && s.lock.pcs[p] == Xlock.Held;
      assert Agree(s.pcs[p], s.lock.pcs[p]);
    }
  }

  /** A step of a call that has begun, and no spurious wakeup. */
  predicate WithinCall(a: Action) {
    a != CallDown && a != CallUp && a != CountSpurious && a != LockStep(Xlock.Spurious)
  }

  ghost predicate StepsOn(s: State, s': State) {
    exists p, a :: Enabled(s, p, a) && WithinCall(a) && s' == Apply(s, p, a)
  }

  ghost predicate GoesOn(path: seq<State>) {
    path != [] && forall i | 0 <= i < |path| - 1 :: StepsOn(path[i], path[i + 1])
  }

  /** Every call has returned, or is a down that sleeps because there is no unit. */
  predicate Settled(s: State) {
    && s.lock.word == 0
    && forall pc | pc in s.pcs :: pc == Idle || (pc == Sleeping && s.count == 0)
  }

  lemma {:induction false} Settles(s: State, initial: nat) returns (path: seq<State>)
    requires Inv(s, initial)
    ensures GoesOn(path) && path[0] == s && Settled(path[|path| - 1])
    decreases Total(UpRank, s.pcs), CallWork(s), Total(Xlock.LockRank, s.lock.pcs)
  {
    hide CallWork, Apply, Enabled, Agree, Knows;
    path := [s];
    if q: nat :| q < |s.pcs| && !Parked(s, q) {
      var p := SomeReady(s, initial);
      NextLowers(s, initial, p);
      InvStep(s, initial, p, Next(s, p));
      var rest := Settles(Apply(s, p, Next(s, p)), initial);
      assert StepsOn(s, rest[0]);
      path := path + rest;
    } else {
      ParkedMeans(s, initial);
    }
  }

  /** Every run, at whatever point, can go on without a new call to a state in
      which every call has returned, but for downs that sleep while the count is 0. */
  lemma RunSettles(run: seq<State>, initial: nat) returns (path: seq<State>)
    requires IsRun(run, initial)
    ensures path != [] && path[0] == run[|run| - 1] && GoesOn(path) && Settled(path[|path| - 1])
    ensures IsRun(run + path[1..], initial)
  {
    RunKeepsInv(run, initial, |run| - 1);
    path := Settles(run[|run| - 1], initial);
    var longer := run + path[1..];
    forall i | 0 <= i < |longer| - 1
      ensures Steps(longer[i], longer[i + 1])
    {
      if i < |run| - 1 {
        assert Steps(run[i], run[i + 1]);
      } else {
        var j := i - (|run| - 1);
        assert StepsOn(path[j], path[j + 1]);
      }
    }
  }

  lemma Conservation(run: seq<State>, initial: nat, i: nat)
    requires IsRun(run, initial) && i < |run|
    ensures run[i].count == initial + run[i].ups - run[i].downs
    ensures run[i].count >= 0
  {
    RunKeepsInv(run, initial, i);
  }

  // ----- refinement

  function AbsProc(pc: Pc): Semaphore.Proc {
    match pc
    case Idle => Semaphore.Idle
    case DownTest | DownLoad | DownStore(_) | RetryUnlock | Sleeping | Relock => Semaphore.DownPending
    case DownUnlock => Semaphore.DownDone
    case UpLoad | UpStore(_) => Semaphore.UpPending
    case UpUnlock => Semaphore.UpDone
  }

  function Abs(s: State): (r: Semaphore.State)
    ensures |r.procs| == |s.pcs|
  {
    Semaphore.State(s.count, seq(|s.pcs|, i requires 0 <= i < |s.pcs| => AbsProc(s.pcs[i])))
  }

  /** Every step of xsem is one step of the atomic semaphore, or invisible. */
  lemma Refines(s: State, initial: nat, p: nat, a: Action)
    requires Inv(s, initial) && Enabled(s, p, a)
    ensures var s' := Apply(s, p, a);
      Abs(s') == Abs(s) || Semaphore.Step(Abs(s), Abs(s'), p)
  {
    var s' := Apply(s, p, a);
    assert Knows(s.pcs[p], s.count);
    var t, t' := Abs(s), Abs(s');
    assert forall q | 0 <= q < |s.pcs| && q != p :: t'.procs[q] == t.procs[q];
    assert t'.procs == t.procs[p := t'.procs[p]];
    if t'.procs[p] == t.procs[p] {
      assert t' == t;
    }
  }

  function AbsRun(run: seq<State>): (r: seq<Semaphore.State>)
    ensures |r| == |run|
  {
    seq(|run|, i requires 0 <= i < |run| => Abs(run[i]))
  }

  /** Seen through Abs, a run of xsem is a run of the atomic semaphore with pauses. */
  lemma RunRefines(run: seq<State>, initial: nat)
    requires IsRun(run, initial)
    ensures Semaphore.IsRun(AbsRun(run), initial)
  {
    forall i: nat | i < |run| - 1
      ensures Semaphore.StepOrPause(Abs(run[i]), Abs(run[i + 1]))
    {
      RunKeepsInv(run, initial, i);
      assert Steps(run[i], run[i + 1]);
      var p, a :| Enabled(run[i], p, a) && run[i + 1] == Apply(run[i], p, a);
      Refines(run[i], initial, p, a);
    }
  }
}
