/** The futex lock of xlock.c, as a machine whose atomic steps are the two
    compare-and-swaps and the two futex calls. Any number of processes share
    one lock word. */
module Xlock {
  import opened Counting

  /** Where a process stands in xlock_lock / xlock_unlock. */
  datatype Pc =
    | Out     // not in the lock, not holding it
    | Try     // about to CAS 0 -> 1
    | Wait    // the CAS failed, about to FUTEX_WAIT for the value 1
    | Asleep  // sleeping on the lock word
    | Held    // past the CAS; the next lock operation is the CAS 1 -> 0
    | Wake    // the unlocking CAS succeeded, about to FUTEX_WAKE

  datatype State = State(word: int, pcs: seq<Pc>)

  datatype Action =
    | Enter
    | CasLock
    | FutexWait
    | Spurious                      // a wakeup nobody asked for
    | CasUnlock
    | FutexWake(woken: set<nat>)    // the kernel chooses whom to wake

  predicate Init(s: State) {
    s.word == 0 && forall p | 0 <= p < |s.pcs| :: s.pcs[p] == Out
  }

  /** FUTEX_WAKE wakes sleepers only, and at least one when there is one. */
  predicate Wakes(pcs: seq<Pc>, woken: set<nat>) {
    && (forall q | q in woken :: q < |pcs| && pcs[q] == Asleep)
    && ((exists q :: 0 <= q < |pcs| && pcs[q] == Asleep) ==> woken != {})
  }

  predicate Enabled(s: State, p: nat, a: Action) {
    p < |s.pcs| &&
    match a
    case Enter => s.pcs[p] == Out
    case CasLock => s.pcs[p] == Try
    case FutexWait => s.pcs[p] == Wait
    case Spurious => s.pcs[p] == Asleep
    case CasUnlock => s.pcs[p] == Held
    case FutexWake(woken) => s.pcs[p] == Wake && Wakes(s.pcs, woken)
  }

  function Apply(s: State, p: nat, a: Action): State
    requires Enabled(s, p, a)
  {
    match a
    case Enter => s.(pcs := s.pcs[p := Try])
    case CasLock => if s.word == 0 then State(1, s.pcs[p := Held]) else s.(pcs := s.pcs[p := Wait])
    case FutexWait => s.(pcs := s.pcs[p := if s.word == 1 then Asleep else Try])
    case Spurious => s.(pcs := s.pcs[p := Try])
    case CasUnlock => if s.word == 1 then State(0, s.pcs[p := Wake]) else s
    case FutexWake(woken) => s.(pcs := WakeAll(s.pcs, woken)[p := Out])
  }

  function WakeAll(pcs: seq<Pc>, woken: set<nat>): (r: seq<Pc>)
    ensures |r| == |pcs|
  {
    seq(|pcs|, i requires 0 <= i < |pcs| => if i in woken then Try else pcs[i])
  }

  predicate IsHeld(pc: Pc) { pc == Held }

  /** Some process will look at the lock word again without being woken first. */
  predicate Rescuer(pc: Pc) { pc == Wake || pc == Try }

  /** The word counts the holders, and a sleeper always has somebody to free it. */
  ghost predicate Inv(s: State) {
    && 0 <= s.word <= 1
    && s.word == Count(IsHeld, s.pcs)
    && (s.word == 0 ==> SleepersHaveRescuer(s))
  }

  ghost predicate SleepersHaveRescuer(s: State) {
    (exists p :: 0 <= p < |s.pcs| && s.pcs[p] == Asleep) ==>
      exists q :: 0 <= q < |s.pcs| && Rescuer(s.pcs[q])
  }

  lemma InvInit(s: State)
    requires Init(s)
    ensures Inv(s)
  {
    CountNone(IsHeld, s.pcs);
  }

  lemma InvStep(s: State, p: nat, a: Action)
    requires Inv(s) && Enabled(s, p, a)
    ensures Inv(Apply(s, p, a))
  {
    var s' := Apply(s, p, a);
    CountChange(IsHeld, s.pcs, s'.pcs, p);
    match a
    case CasLock =>
    case Enter | Spurious =>
      assert Rescuer(s'.pcs[p]);
    case CasUnlock =>
      UnlockSucceeds(s, p);
      assert Rescuer(s'.pcs[p]);
    case FutexWait =>
      if s'.word == 0 {
        assert Rescuer(s'.pcs[p]);
      }
    case FutexWake(woken) =>
      if q :| 0 <= q < |s'.pcs| && s'.pcs[q] == Asleep {
        assert s.pcs[q] == Asleep;
        var r :| r in woken;
        assert r != p && Rescuer(s'.pcs[r]);
      }
  }

  /** A process that is past its locking CAS finds the word equal to 1, so its
      unlocking CAS succeeds at the first try. */
  lemma UnlockSucceeds(s: State, p: nat)
    requires Inv(s) && p < |s.pcs| && s.pcs[p] == Held
    ensures s.word == 1
    ensures Apply(s, p, CasUnlock) == State(0, s.pcs[p := Wake])
  {
    CountNone(IsHeld, s.pcs);
  }

  lemma MutualExclusion(s: State)
    requires Inv(s)
    ensures s.word == 1 <==> exists p :: 0 <= p < |s.pcs| && s.pcs[p] == Held
    ensures forall p, q | 0 <= p < |s.pcs| && 0 <= q < |s.pcs| && s.pcs[p] == Held && s.pcs[q] == Held :: p == q
  {
    CountNone(IsHeld, s.pcs);
    forall p, q | 0 <= p < |s.pcs| && 0 <= q < |s.pcs| && s.pcs[p] == Held && s.pcs[q] == Held
      ensures p == q
    {
      CountUnique(IsHeld, s.pcs, p, q);
    }
    if s.word == 1 {
      var p :| 0 <= p < |s.pcs| && IsHeld(s.pcs[p]);
      assert s.pcs[p] == Held;
    } else if p :| 0 <= p < |s.pcs| && s.pcs[p] == Held {
      assert IsHeld(s.pcs[p]);
    }
  }

  /** A run: a start state followed by any number of steps of any processes. */
  ghost predicate IsRun(run: seq<State>) {
    && run != [] && Init(run[0])
    && forall i | 0 <= i < |run| - 1 :: Steps(run[i], run[i + 1])
  }

  ghost predicate Steps(s: State, s': State) {
    exists p, a :: Enabled(s, p, a) && s' == Apply(s, p, a)
  }

  lemma {:induction false} RunKeepsInv(run: seq<State>, i: nat)
    requires IsRun(run) && i < |run|
    ensures Inv(run[i])
  {
    if i == 0 {
      InvInit(run[0]);
    } else {
      RunKeepsInv(run, i - 1);
      assert Steps(run[i - 1], run[i - 1 + 1]);
      var p, a :| Enabled(run[i - 1], p, a) && run[i] == Apply(run[i - 1], p, a);
      InvStep(run[i - 1], p, a);
    }
  }

  /** Lock safety in every state of every run: the word is 1 exactly when some
      process is between its two CASes, no two are, the holder's unlocking CAS
      succeeds, a locking CAS succeeds on a free lock, and nobody sleeps on a free lock unless another process is about
      to wake the sleepers or to retry the CAS itself. */
  lemma LockSafety(run: seq<State>, i: nat)
    requires IsRun(run) && i < |run|
    ensures var s := run[i];
      && (s.word == 1 <==> exists p :: 0 <= p < |s.pcs| && s.pcs[p] == Held)
      && s.word in {0, 1}
      && (forall p, q | 0 <= p < |s.pcs| && 0 <= q < |s.pcs| && s.pcs[p] == Held && s.pcs[q] == Held :: p == q)
      && (forall p: nat | p < |s.pcs| && s.pcs[p] == Held :: Apply(s, p, CasUnlock) == State(0, s.pcs[p := Wake]))
      && (forall p: nat | p < |s.pcs| && s.pcs[p] == Try && s.word == 0 :: Apply(s, p, CasLock) == State(1, s.pcs[p := Held]))
      && (s.word == 0 ==> SleepersHaveRescuer(s))
  {
    var s := run[i];
    RunKeepsInv(run, i);
    MutualExclusion(s);
    forall p: nat | p < |s.pcs| && s.pcs[p] == Held
      ensures Apply(s, p, CasUnlock) == State(0, s.pcs[p := Wake])
    {
      UnlockSucceeds(s, p);
    }
  }

  // ----- the lock is always handed on

  /** How many steps a process is away from being out of the lock again, when the
      others leave it alone. */
  function LockRank(pc: Pc): nat {
    match pc case Out => 0 case Wake => 1 case Held => 2 case Try => 3 case Wait => 4 case Asleep => 5
  }

  /** The step that xlock_lock or xlock_unlock takes next; a wake reaches all sleepers. */
  function Next(s: State, p: nat): Action
    requires p < |s.pcs|
  {
    match s.pcs[p]
    case Out => Enter
    case Try => CasLock
    case Wait => FutexWait
    case Asleep => Spurious
    case Held => CasUnlock
    case Wake => FutexWake(set q: nat | q < |s.pcs| && s.pcs[q] == Asleep)
  }

  /** A process that is on its way, and does not run against a lock that is taken. */
  predicate Ready(s: State, p: nat) {
    p < |s.pcs| && s.pcs[p] != Out && s.pcs[p] != Asleep && (s.word == 1 ==> s.pcs[p] == Held)
  }

  lemma NextIsEnabled(s: State, p: nat)
    requires p < |s.pcs|
    ensures Enabled(s, p, Next(s, p))
  {
    if q :| 0 <= q < |s.pcs| && s.pcs[q] == Asleep {
      assert Next(s, p).FutexWake? ==> q in Next(s, p).woken;
    }
  }

  lemma NextLowers(s: State, p: nat)
    requires Inv(s) && Ready(s, p)
    ensures Enabled(s, p, Next(s, p))
    ensures Total(LockRank, Apply(s, p, Next(s, p)).pcs) < Total(LockRank, s.pcs)
  {
    NextIsEnabled(s, p);
    if s.pcs[p] == Held {
      UnlockSucceeds(s, p);
    }
    TotalDrops(LockRank, LockRank, s.pcs, Apply(s, p, Next(s, p)).pcs, p);
  }

  /** As long as somebody uses the lock, somebody is ready. */
  lemma SomeReady(s: State) returns (p: nat)
    requires Inv(s) && exists q :: 0 <= q < |s.pcs| && s.pcs[q] != Out
    ensures Ready(s, p)
  {
    if s.word == 1 {
      MutualExclusion(s);
      p :| p < |s.pcs| && s.pcs[p] == Held;
    } else {
      CountNone(IsHeld, s.pcs);
      var q :| 0 <= q < |s.pcs| && s.pcs[q] != Out;
      if s.pcs[q] != Asleep {
        p := q;
      } else {
        p :| p < |s.pcs| && Rescuer(s.pcs[p]);
      }
    }
  }

  /** A step of a call that has begun: nobody newly comes to the lock. */
  ghost predicate StepsOn(s: State, s': State) {
    exists p, a :: Enabled(s, p, a) && a != Enter && a != Spurious && s' == Apply(s, p, a)
  }

  ghost predicate GoesOn(path: seq<State>) {
    path != [] && forall i | 0 <= i < |path| - 1 :: StepsOn(path[i], path[i + 1])
  }

  predicate AllOut(s: State) { forall pc | pc in s.pcs :: pc == Out }

  lemma {:induction false} AllGetOut(s: State) returns (path: seq<State>)
    requires Inv(s)
    ensures GoesOn(path) && path[0] == s
    ensures AllOut(path[|path| - 1])
    decreases Total(LockRank, s.pcs)
  {
    path := [s];
    if exists q :: 0 <= q < |s.pcs| && s.pcs[q] != Out {
      var p := SomeReady(s);
      NextLowers(s, p);
      InvStep(s, p, Next(s, p));
      var rest := AllGetOut(Apply(s, p, Next(s, p)));
      assert StepsOn(s, rest[0]);
      path := path + rest;
    }
  }

  /** Every run can go on, with nobody newly coming, until all have got the lock
      and left it again. */
  lemma RunGetsOut(run: seq<State>) returns (path: seq<State>)
    requires IsRun(run)
    ensures path != [] && path[0] == run[|run| - 1] && GoesOn(path) && AllOut(path[|path| - 1])
    ensures IsRun(run + path[1..])
  {
    RunKeepsInv(run, |run| - 1);
    path := AllGetOut(run[|run| - 1]);
    var longer := run + path[1..];
    forall i | 0 <= i < |longer| - 1
      ensures Steps(longer[i], longer[i + 1])
    {
      if i < |run| - 1 {
        assert Steps(run[i], run[i + 1]);
      } else {
        var j := i - (|run| - 1);
        assert StepsOn(path[j], path[j + 1]);
      }
    }
  }
}
