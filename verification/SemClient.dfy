/** The client of test_sem.c. Each of nr_threads processes goes once through
    SEM_DOWN; check_count++; SEM_UP, with the increment split into a load and a
    store. What it needs is proved over the atomic semaphore and then carried to
    xsem and to psem by their refinements: the two are exchangeable. */
module SemClient {
  import opened Counting
  import Semaphore
  import Xlock
  import Xsem
  import Psem

  datatype Phase =
    | Start
    | InDown
    | Load
    | Store(loaded: int)
    | CallUp
    | InUp
    | Exit

  /** A semaphore, where each client stands, and the shared check_count. */
  datatype World<S> = World(sem: S, phases: seq<Phase>, check: int)

  /** How the phase of a client follows the calls and returns of its semaphore operation. */
  predicate Follows(ph: Phase, ph': Phase, ap: Semaphore.Proc, ap': Semaphore.Proc) {
    if ap == ap' then
      ph' == ph
    else match (ap, ap')
      case (Idle, DownPending) => ph == Start && ph' == InDown
      case (DownPending, DownDone) => ph == InDown && ph' == InDown
      case (DownDone, Idle) => ph == InDown && ph' == Load
      case (Idle, UpPending) => ph == CallUp && ph' == InUp
      case (UpPending, UpDone) => ph == InUp && ph' == InUp
      case (UpDone, Idle) => ph == InUp && ph' == Exit
      case _ => false
  }

  /** check_count++ touches the shared word twice and the semaphore not at all. */
  predicate ClientStep<S(==)>(w: World<S>, w': World<S>, p: nat) {
    && p < |w.phases|
    && w'.sem == w.sem
    && match w.phases[p]
       case Load => w' == w.(phases := w.phases[p := Store(w.check)])
       case Store(v) => w' == w.(phases := w.phases[p := CallUp], check := v + 1)
       case _ => false
  }

  predicate PhaseMoves<S>(w: World<S>, w': World<S>, p: nat) {
    && p < |w.phases| == |w'.phases|
    && w'.phases == w.phases[p := w'.phases[p]]
    && w'.check == w.check
  }

  predicate AtomicStep(w: World<Semaphore.State>, w': World<Semaphore.State>, p: nat) {
    || ClientStep(w, w', p)
    || (&& PhaseMoves(w, w', p)
        && p < |w.sem.procs| == |w'.sem.procs|
        && (w'.sem == w.sem || Semaphore.Step(w.sem, w'.sem, p))
        && Follows(w.phases[p], w'.phases[p], w.sem.procs[p], w'.sem.procs[p]))
  }

  predicate XsemStep(w: World<Xsem.State>, w': World<Xsem.State>, p: nat, a: Xsem.Action) {
    || ClientStep(w, w', p)
    || (&& PhaseMoves(w, w', p)
        && Xsem.Enabled(w.sem, p, a) && w'.sem == Xsem.Apply(w.sem, p, a)
        && Follows(w.phases[p], w'.phases[p], Xsem.AbsProc(w.sem.pcs[p]), Xsem.AbsProc(w'.sem.pcs[p])))
  }

  predicate PsemStep(w: World<Psem.State>, w': World<Psem.State>, p: nat, a: Psem.Action) {
    || ClientStep(w, w', p)
    || (&& PhaseMoves(w, w', p)
        && Psem.Enabled(w.sem, p, a) && w'.sem == Psem.Apply(w.sem, p, a)
        && Follows(w.phases[p], w'.phases[p], Psem.AbsProc(w.sem.pcs[p]), Psem.AbsProc(w'.sem.pcs[p])))
  }

  predicate Fresh<S>(w: World<S>, n: nat) {
    w.check == 0 && |w.phases| == n && forall p | 0 <= p < n :: w.phases[p] == Start
  }

  // ----- the client over the atomic semaphore

  /** Holds a unit: its down has taken effect and its up has not. */
  predicate Inside(m: (Phase, Semaphore.Proc)) {
    match m.0
    case InDown => m.1 == Semaphore.DownDone
    case Load | Store(_) | CallUp => true
    case InUp => m.1 == Semaphore.UpPending
    case _ => false
  }

  /** Has incremented check_count. */
  predicate Counted(m: (Phase, Semaphore.Proc)) {
    m.0 == CallUp || m.0 == InUp || m.0 == Exit
  }

  /** Between the return of SEM_DOWN and the call of SEM_UP. */
  predicate BetweenPhase(ph: Phase) { ph == Load || ph.Store? || ph == CallUp }

  predicate Matches(ph: Phase, ap: Semaphore.Proc) {
    match ph
    case InDown => ap == Semaphore.DownPending || ap == Semaphore.DownDone
    case InUp => ap == Semaphore.UpPending || ap == Semaphore.UpDone
    case _ => ap == Semaphore.Idle
  }

  function Marks(w: World<Semaphore.State>): (r: seq<(Phase, Semaphore.Proc)>)
    requires |w.phases| == |w.sem.procs|
    ensures |r| == |w.phases|
  {
    seq(|w.phases|, i requires 0 <= i < |w.phases| => (w.phases[i], w.sem.procs[i]))
  }

  ghost predicate Inv(w: World<Semaphore.State>, units: nat) {
    && |w.phases| == |w.sem.procs|
    && w.sem.count >= 0
    && (forall p | 0 <= p < |w.phases| :: Matches(w.phases[p], w.sem.procs[p]))
    && w.sem.count + Count(Inside, Marks(w)) == units
    && (units == 1 ==>
          && w.check == Count(Counted, Marks(w))
          && forall p | 0 <= p < |w.phases| && w.phases[p].Store? :: w.phases[p].loaded == w.check)
  }

  lemma InvInit(w: World<Semaphore.State>, n: nat, units: nat)
    requires Fresh(w, n) && |w.sem.procs| == n && Semaphore.Init(w.sem, units)
    ensures Inv(w, units)
  {
    CountNone(Inside, Marks(w));
    CountNone(Counted, Marks(w));
  }

  lemma InvStep(w: World<Semaphore.State>, w': World<Semaphore.State>, units: nat, p: nat)
    requires Inv(w, units) && AtomicStep(w, w', p)
    ensures Inv(w', units)
  {
    assert Matches(w.phases[p], w.sem.procs[p]);
    assert |w'.phases| == |w'.sem.procs|;
    var m, m' := Marks(w), Marks(w');
    forall q | 0 <= q < |m| && q != p
      ensures m'[q] == m[q]
    {
      assert w'.phases[q] == w.phases[q] && w'.sem.procs[q] == w.sem.procs[q];
    }
    CountChange(Inside, m, m', p);
    CountChange(Counted, m, m', p);
    if units == 1 && w.phases[p].Store? {
      forall q: nat | q < |w.phases| && w'.phases[q].Store?
        ensures q == p
      {
        if q != p {
          assert Inside(m[p]) && Inside(m[q]);
          CountUnique(Inside, m, p, q);
        }
      }
    }
  }

  /** At most as many clients between SEM_DOWN and SEM_UP as there are units;
      with a single unit, no increment of check_count is ever lost. */
  ghost predicate Safe(phases: seq<Phase>, check: int, units: nat) {
    && Count(BetweenPhase, phases) <= units
    && (units == 1 && (forall p | 0 <= p < |phases| :: phases[p] == Exit) ==> check == |phases|)
  }

  lemma InvIsSafe(w: World<Semaphore.State>, units: nat)
    requires Inv(w, units)
    ensures Safe(w.phases, w.check, units)
  {
    BetweenAreInside(w.phases, Marks(w));
    if forall p | 0 <= p < |w.phases| :: w.phases[p] == Exit {
      CountAll(Counted, Marks(w));
    }
  }

  lemma {:induction false} BetweenAreInside(phases: seq<Phase>, marks: seq<(Phase, Semaphore.Proc)>)
    requires |phases| == |marks| && forall i | 0 <= i < |phases| :: marks[i].0 == phases[i]
    ensures Count(BetweenPhase, phases) <= Count(Inside, marks)
  {
    if phases != [] {
      BetweenAreInside(phases[1..], marks[1..]);
    }
  }

  // ----- carried to the two implementations

  function AbsX(w: World<Xsem.State>): World<Semaphore.State> {
    World(Xsem.Abs(w.sem), w.phases, w.check)
  }

  function AbsP(w: World<Psem.State>): World<Semaphore.State> {
    World(Psem.Abs(w.sem), w.phases, w.check)
  }

  ghost predicate XsemSteps(w: World<Xsem.State>, w': World<Xsem.State>) {
    exists p, a :: XsemStep(w, w', p, a)
  }

  ghost predicate PsemSteps(w: World<Psem.State>, w': World<Psem.State>) {
    exists p, a :: PsemStep(w, w', p, a)
  }

  ghost predicate IsXsemRun(run: seq<World<Xsem.State>>, n: nat, units: nat) {
    && run != [] && Fresh(run[0], n) && |run[0].sem.pcs| == n && Xsem.Init(run[0].sem, units)
    && forall i | 0 <= i < |run| - 1 :: XsemSteps(run[i], run[i + 1])
  }

  ghost predicate IsPsemRun(run: seq<World<Psem.State>>, n: nat, units: nat) {
    && run != [] && Fresh(run[0], n) && |run[0].sem.pcs| == n && Psem.Init(run[0].sem, units)
    && forall i | 0 <= i < |run| - 1 :: PsemSteps(run[i], run[i + 1])
  }

  lemma XsemStepIsAtomic(w: World<Xsem.State>, w': World<Xsem.State>, units: nat, p: nat, a: Xsem.Action)
    requires Xsem.Inv(w.sem, units) && |w.sem.pcs| == |w.phases| && XsemStep(w, w', p, a)
    ensures Xsem.Inv(w'.sem, units) && |w'.sem.pcs| == |w'.phases| == |w.phases|
    ensures AtomicStep(AbsX(w), AbsX(w'), p)
  {
    if !ClientStep(w, w', p) {
      Xsem.InvStep(w.sem, units, p, a);
      Xsem.Refines(w.sem, units, p, a);
    }
  }

  lemma {:induction false} XsemRunInv(run: seq<World<Xsem.State>>, n: nat, units: nat, i: nat)
    requires IsXsemRun(run, n, units) && i < |run|
    ensures Xsem.Inv(run[i].sem, units) && |run[i].sem.pcs| == |run[i].phases| == n
    ensures Inv(AbsX(run[i]), units)
  {
    if i == 0 {
      Xsem.InvInit(run[0].sem, units);
      InvInit(AbsX(run[0]), n, units);
    } else {
      XsemRunInv(run, n, units, i - 1);
      assert XsemSteps(run[i - 1], run[i - 1 + 1]);
      var p, a :| XsemStep(run[i - 1], run[i], p, a);
      XsemStepIsAtomic(run[i - 1], run[i], units, p, a);
      InvStep(AbsX(run[i - 1]), AbsX(run[i]), units, p);
    }
  }

  /** test_sem over xsem: for every interleaving of n processes. */
  lemma XsemClientSafe(run: seq<World<Xsem.State>>, n: nat, units: nat, i: nat)
    requires IsXsemRun(run, n, units) && i < |run|
    ensures Safe(run[i].phases, run[i].check, units) && |run[i].phases| == n
  {
    XsemRunInv(run, n, units, i);
    InvIsSafe(AbsX(run[i]), units);
  }

  lemma PsemStepIsAtomic(w: World<Psem.State>, w': World<Psem.State>, p: nat, a: Psem.Action)
    requires Psem.Inv(w.sem) && |w.sem.pcs| == |w.phases| && PsemStep(w, w', p, a)
    ensures Psem.Inv(w'.sem) && |w'.sem.pcs| == |w'.phases| == |w.phases|
    ensures AtomicStep(AbsP(w), AbsP(w'), p)
  {
    if !ClientStep(w, w', p) {
      Psem.InvStep(w.sem, p, a);
      Psem.Refines(w.sem, p, a);
    }
  }

  lemma {:induction false} PsemRunInv(run: seq<World<Psem.State>>, n: nat, units: nat, i: nat)
    requires IsPsemRun(run, n, units) && i < |run|
    ensures Psem.Inv(run[i].sem) && |run[i].sem.pcs| == |run[i].phases| == n
    ensures Inv(AbsP(run[i]), units)
  {
    if i == 0 {
      Psem.InvInit(run[0].sem, units);
      InvInit(AbsP(run[0]), n, units);
    } else {
      PsemRunInv(run, n, units, i - 1);
      assert PsemSteps(run[i - 1], run[i - 1 + 1]);
      var p, a :| PsemStep(run[i - 1], run[i], p, a);
      PsemStepIsAtomic(run[i - 1], run[i], p, a);
      InvStep(AbsP(run[i - 1]), AbsP(run[i]), units, p);
    }
  }

  /** test_sem over psem: for every interleaving of n threads. */
  lemma PsemClientSafe(run: seq<World<Psem.State>>, n: nat, units: nat, i: nat)
    requires IsPsemRun(run, n, units) && i < |run|
    ensures Safe(run[i].phases, run[i].check, units) && |run[i].phases| == n
  {
    PsemRunInv(run, n, units, i);
    InvIsSafe(AbsP(run[i]), units);
  }

  // ----- all clients exit

  predicate AllExited<S>(w: World<S>) { forall ph | ph in w.phases :: ph == Exit }

  function PhaseRank(ph: Phase): nat {
    match ph
    case Start => 6 case InDown => 5 case Load => 4 case Store(_) => 3 case CallUp => 2 case InUp => 1 case Exit => 0
  }

  /** Not inside a semaphore operation, and with something left to do. */
  predicate BetweenCalls(ph: Phase) { ph == Start || ph == Load || ph.Store? || ph == CallUp }

  /** Where a client stands after a move of its semaphore operation. */
  function NextPhase(ph: Phase, ap: Semaphore.Proc, ap': Semaphore.Proc): Phase {
    match (ap, ap')
    case (Idle, DownPending) => InDown
    case (DownDone, Idle) => Load
    case (Idle, UpPending) => InUp
    case (UpDone, Idle) => Exit
    case _ => ph
  }

  lemma ClientMoves<S>(w: World<S>, p: nat) returns (w': World<S>)
    requires p < |w.phases| && (w.phases[p] == Load || w.phases[p].Store?)
    ensures ClientStep(w, w', p)
    ensures |w'.phases| == |w.phases| && Total(PhaseRank, w'.phases) < Total(PhaseRank, w.phases)
  {
    w' := match w.phases[p]
      case Load => w.(phases := w.phases[p := Store(w.check)])
      case Store(v) => w.(phases := w.phases[p := CallUp], check := v + 1)
      case _ => w;
    TotalDrops(PhaseRank, PhaseRank, w.phases, w'.phases, p);
  }

  // ----- all clients exit, over Xsem

  /** Client p takes step a of its semaphore operation. */
  lemma XsemMoves(w: World<Xsem.State>, units: nat, p: nat, a: Xsem.Action) returns (w': World<Xsem.State>)
    requires Xsem.Inv(w.sem, units) && |w.sem.pcs| == |w.phases| && Inv(AbsX(w), units)
    requires p < |w.phases| && Xsem.Enabled(w.sem, p, a)
    requires a == Xsem.CallDown ==> w.phases[p] == Start
    requires a == Xsem.CallUp ==> w.phases[p] == CallUp
    ensures XsemStep(w, w', p, a) && w'.sem == Xsem.Apply(w.sem, p, a)
    ensures |w'.phases| == |w.phases| && Total(PhaseRank, w'.phases) <= Total(PhaseRank, w.phases)
    ensures a == Xsem.CallDown || a == Xsem.CallUp ==> Total(PhaseRank, w'.phases) < Total(PhaseRank, w.phases)
  {
    hide Xsem.Apply, Xsem.Enabled, Xsem.Inv, Xsem.AbsProc, Inv, Follows, NextPhase;
    var sem := Xsem.Apply(w.sem, p, a);
    var ph := XsemFollows(w, units, p, a);
    w' := World(sem, w.phases[p := ph], w.check);
    if PhaseRank(ph) < PhaseRank(w.phases[p]) {
      TotalDrops(PhaseRank, PhaseRank, w.phases, w'.phases, p);
    } else {
      TotalAtMost(PhaseRank, PhaseRank, w.phases, w'.phases);
    }
  }

  lemma XsemFollows(w: World<Xsem.State>, units: nat, p: nat, a: Xsem.Action) returns (ph: Phase)
    requires Xsem.Inv(w.sem, units) && |w.sem.pcs| == |w.phases| && Inv(AbsX(w), units)
    requires p < |w.phases| && Xsem.Enabled(w.sem, p, a)
    requires a == Xsem.CallDown ==> w.phases[p] == Start
    requires a == Xsem.CallUp ==> w.phases[p] == CallUp
    ensures |Xsem.Apply(w.sem, p, a).pcs| == |w.phases|
    ensures Follows(w.phases[p], ph, Xsem.AbsProc(w.sem.pcs[p]), Xsem.AbsProc(Xsem.Apply(w.sem, p, a).pcs[p]))
    ensures PhaseRank(ph) < PhaseRank(w.phases[p]) || (ph == w.phases[p] && a != Xsem.CallDown && a != Xsem.CallUp)
  {
    var ap, ap' := Xsem.AbsProc(w.sem.pcs[p]), Xsem.AbsProc(Xsem.Apply(w.sem, p, a).pcs[p]);
    ph := NextPhase(w.phases[p], ap, ap');
    assert Matches(w.phases[p], ap) by {
      assert Matches(w.phases[p], AbsX(w).sem.procs[p]);
    }
    XsemMove(w.sem, units, p, a);
  }

  /** What a step of the semaphore operation of p looks like from outside. */
  lemma XsemMove(s: Xsem.State, units: nat, p: nat, a: Xsem.Action)
    requires Xsem.Inv(s, units) && Xsem.Enabled(s, p, a)
    ensures |Xsem.Apply(s, p, a).pcs| == |s.pcs|
    ensures var ap, ap' := Xsem.AbsProc(s.pcs[p]), Xsem.AbsProc(Xsem.Apply(s, p, a).pcs[p]);
      if a == Xsem.CallDown then ap == Semaphore.Idle && ap' == Semaphore.DownPending
      else if a == Xsem.CallUp then ap == Semaphore.Idle && ap' == Semaphore.UpPending
      else
        || ap' == ap
        || (ap == Semaphore.DownPending && ap' == Semaphore.DownDone) || (ap == Semaphore.DownDone && ap' == Semaphore.Idle)
        || (ap == Semaphore.UpPending && ap' == Semaphore.UpDone) || (ap == Semaphore.UpDone && ap' == Semaphore.Idle)
  {
  }

  /** When no semaphore call can go on and no client is between calls, all have exited:
      a client that sleeps would face a count of 0 with no unit taken. */
  lemma XsemNobodyLeft(w: World<Xsem.State>, units: nat)
    requires units > 0 && Xsem.Inv(w.sem, units) && |w.sem.pcs| == |w.phases| && Inv(AbsX(w), units)
    requires forall p | 0 <= p < |w.phases| :: !BetweenCalls(w.phases[p])
    requires forall p: nat | p < |w.sem.pcs| :: Xsem.Parked(w.sem, p)
    ensures AllExited(w)
  {
    Xsem.ParkedMeans(w.sem, units);
    var marks := Marks(AbsX(w));
    forall p | 0 <= p < |w.phases|
      ensures !Inside(marks[p]) && (w.phases[p] == Exit || w.sem.pcs[p] == Xsem.Sleeping)
    {
      assert Matches(w.phases[p], AbsX(w).sem.procs[p]) && !BetweenCalls(w.phases[p]);
    }
    CountNone(Inside, marks);
  }

  lemma {:induction false} XsemExits(w: World<Xsem.State>, units: nat) returns (path: seq<World<Xsem.State>>)
    requires units > 0 && Xsem.Inv(w.sem, units) && |w.sem.pcs| == |w.phases| && Inv(AbsX(w), units)
    ensures path != [] && path[0] == w && AllExited(path[|path| - 1])
    ensures forall i | 0 <= i < |path| - 1 :: XsemSteps(path[i], path[i + 1])
    decreases Total(PhaseRank, w.phases), Total(Xsem.UpRank, w.sem.pcs), Xsem.CallWork(w.sem), Total(Xlock.LockRank, w.sem.lock.pcs)
  {
    hide Xsem.Apply, Xsem.Enabled, Xsem.Inv, Inv, Safe, Xsem.Ready, Xsem.CallWork, Matches;
    path := [w];
    if !AllExited(w) {
      var w', p, a := XsemGoesOn(w, units);
      XsemStepIsAtomic(w, w', units, p, a);
      InvStep(AbsX(w), AbsX(w'), units, p);
      var rest := XsemExits(w', units);
      assert XsemSteps(w, rest[0]);
      path := path + rest;
    }
  }

  lemma XsemGoesOn(w: World<Xsem.State>, units: nat)
      returns (w': World<Xsem.State>, p: nat, a: Xsem.Action)
    requires units > 0 && Xsem.Inv(w.sem, units) && |w.sem.pcs| == |w.phases| && Inv(AbsX(w), units) && !AllExited(w)
    ensures XsemStep(w, w', p, a)
    ensures |w'.phases| == |w.phases|
    ensures Total(PhaseRank, w'.phases) < Total(PhaseRank, w.phases) ||
      (Total(PhaseRank, w'.phases) == Total(PhaseRank, w.phases) && Xsem.Lower(w'.sem, w.sem))
  {
    if q: nat :| q < |w.phases| && BetweenCalls(w.phases[q]) {
      p := q;
      assert Matches(w.phases[p], AbsX(w).sem.procs[p]);
      assert Xsem.Agree(w.sem.pcs[p], w.sem.lock.pcs[p]);
      if w.phases[p] == Start || w.phases[p] == CallUp {
        a := if w.phases[p] == Start then Xsem.CallDown else Xsem.CallUp;
        w' := XsemMoves(w, units, p, a);
      } else {
        a := Xsem.CallDown;
        w' := ClientMoves(w, p);
      }
    } else {
      if forall q: nat | q < |w.sem.pcs| :: Xsem.Parked(w.sem, q) {
        XsemNobodyLeft(w, units);
      }
      p := Xsem.SomeReady(w.sem, units);
      a := Xsem.Next(w.sem, p);
      Xsem.NextLowers(w.sem, units, p);
      w' := XsemMoves(w, units, p, a);
    }
  }

  /** Every run over Xsem can go on until all clients have exited, if there is a unit
      at all; with a single one check_count then counts all of them. */
  lemma XsemRunExits(run: seq<World<Xsem.State>>, n: nat, units: nat) returns (longer: seq<World<Xsem.State>>)
    requires IsXsemRun(run, n, units) && units > 0
    ensures run <= longer && IsXsemRun(longer, n, units) && AllExited(longer[|longer| - 1])
    ensures units == 1 ==> longer[|longer| - 1].check == n
  {
    hide Fresh, XsemSteps, Xsem.Inv, Inv, Xsem.Init;
    XsemRunInv(run, n, units, |run| - 1);
    var path := XsemExits(run[|run| - 1], units);
    longer := run + path[1..];
    forall i | 0 <= i < |longer| - 1
      ensures XsemSteps(longer[i], longer[i + 1])
    {
      if i < |run| - 1 {
        assert XsemSteps(run[i], run[i + 1]);
      } else {
        var j := i - (|run| - 1);
        assert XsemSteps(path[j], path[j + 1]);
      }
    }
    XsemClientSafe(longer, n, units, |longer| - 1);
    var end := longer[|longer| - 1];
    assert forall p | 0 <= p < |end.phases| :: end.phases[p] in end.phases;
  }

  // ----- all clients exit, over Psem

  /** Client p takes step a of its semaphore operation. */
  lemma PsemMoves(w: World<Psem.State>, units: nat, p: nat, a: Psem.Action) returns (w': World<Psem.State>)
    requires Psem.Inv(w.sem) && |w.sem.pcs| == |w.phases| && Inv(AbsP(w), units)
    requires p < |w.phases| && Psem.Enabled(w.sem, p, a)
    requires a == Psem.CallDown ==> w.phases[p] == Start
    requires a == Psem.CallUp ==> w.phases[p] == CallUp
    ensures PsemStep(w, w', p, a) && w'.sem == Psem.Apply(w.sem, p, a)
    ensures |w'.phases| == |w.phases| && Total(PhaseRank, w'.phases) <= Total(PhaseRank, w.phases)
    ensures a == Psem.CallDown || a == Psem.CallUp ==> Total(PhaseRank, w'.phases) < Total(PhaseRank, w.phases)
  {
    hide Psem.Apply, Psem.Enabled, Psem.Inv, Psem.AbsProc, Inv, Follows, NextPhase;
    var sem := Psem.Apply(w.sem, p, a);
    var ph := PsemFollows(w, units, p, a);
    w' := World(sem, w.phases[p := ph], w.check);
    if PhaseRank(ph) < PhaseRank(w.phases[p]) {
      TotalDrops(PhaseRank, PhaseRank, w.phases, w'.phases, p);
    } else {
      TotalAtMost(PhaseRank, PhaseRank, w.phases, w'.phases);
    }
  }

  lemma PsemFollows(w: World<Psem.State>, units: nat, p: nat, a: Psem.Action) returns (ph: Phase)
    requires Psem.Inv(w.sem) && |w.sem.pcs| == |w.phases| && Inv(AbsP(w), units)
    requires p < |w.phases| && Psem.Enabled(w.sem, p, a)
    requires a == Psem.CallDown ==> w.phases[p] == Start
    requires a == Psem.CallUp ==> w.phases[p] == CallUp
    ensures |Psem.Apply(w.sem, p, a).pcs| == |w.phases|
    ensures Follows(w.phases[p], ph, Psem.AbsProc(w.sem.pcs[p]), Psem.AbsProc(Psem.Apply(w.sem, p, a).pcs[p]))
    ensures PhaseRank(ph) < PhaseRank(w.phases[p]) || (ph == w.phases[p] && a != Psem.CallDown && a != Psem.CallUp)
  {
    var ap, ap' := Psem.AbsProc(w.sem.pcs[p]), Psem.AbsProc(Psem.Apply(w.sem, p, a).pcs[p]);
    ph := NextPhase(w.phases[p], ap, ap');
    assert Matches(w.phases[p], ap) by {
      assert Matches(w.phases[p], AbsP(w).sem.procs[p]);
    }
    PsemMove(w.sem, p, a);
  }

  /** What a step of the semaphore operation of p looks like from outside. */
  lemma PsemMove(s: Psem.State, p: nat, a: Psem.Action)
    requires Psem.Inv(s) && Psem.Enabled(s, p, a)
    ensures |Psem.Apply(s, p, a).pcs| == |s.pcs|
    ensures var ap, ap' := Psem.AbsProc(s.pcs[p]), Psem.AbsProc(Psem.Apply(s, p, a).pcs[p]);
      if a == Psem.CallDown then ap == Semaphore.Idle && ap' == Semaphore.DownPending
      else if a == Psem.CallUp then ap == Semaphore.Idle && ap' == Semaphore.UpPending
      else
        || ap' == ap
        || (ap == Semaphore.DownPending && ap' == Semaphore.DownDone) || (ap == Semaphore.DownDone && ap' == Semaphore.Idle)
        || (ap == Semaphore.UpPending && ap' == Semaphore.UpDone) || (ap == Semaphore.UpDone && ap' == Semaphore.Idle)
  {
  }

  /** When no semaphore call can go on and no client is between calls, all have exited:
      a client that sleeps would face a count of 0 with no unit taken. */
  lemma PsemNobodyLeft(w: World<Psem.State>, units: nat)
    requires units > 0 && Psem.Inv(w.sem) && |w.sem.pcs| == |w.phases| && Inv(AbsP(w), units)
    requires forall p | 0 <= p < |w.phases| :: !BetweenCalls(w.phases[p])
    requires forall p: nat | p < |w.sem.pcs| :: Psem.Parked(w.sem, p)
    ensures AllExited(w)
  {
    Psem.ParkedMeans(w.sem);
    var marks := Marks(AbsP(w));
    forall p | 0 <= p < |w.phases|
      ensures !Inside(marks[p]) && (w.phases[p] == Exit || w.sem.pcs[p] == Psem.Waiting)
    {
      assert Matches(w.phases[p], AbsP(w).sem.procs[p]) && !BetweenCalls(w.phases[p]);
    }
    CountNone(Inside, marks);
  }

  lemma {:induction false} PsemExits(w: World<Psem.State>, units: nat) returns (path: seq<World<Psem.State>>)
    requires units > 0 && Psem.Inv(w.sem) && |w.sem.pcs| == |w.phases| && Inv(AbsP(w), units)
    ensures path != [] && path[0] == w && AllExited(path[|path| - 1])
    ensures forall i | 0 <= i < |path| - 1 :: PsemSteps(path[i], path[i + 1])
    decreases Total(PhaseRank, w.phases), Total(Psem.UpRank, w.sem.pcs), Total(Psem.CallRank, w.sem.pcs)
  {
    hide Psem.Apply, Psem.Enabled, Psem.Inv, Inv, Safe, Matches;
    path := [w];
    if !AllExited(w) {
      var w', p, a := PsemGoesOn(w, units);
      PsemStepIsAtomic(w, w', p, a);
      InvStep(AbsP(w), AbsP(w'), units, p);
      var rest := PsemExits(w', units);
      assert PsemSteps(w, rest[0]);
      path := path + rest;
    }
  }

  lemma PsemGoesOn(w: World<Psem.State>, units: nat)
      returns (w': World<Psem.State>, p: nat, a: Psem.Action)
    requires units > 0 && Psem.Inv(w.sem) && |w.sem.pcs| == |w.phases| && Inv(AbsP(w), units) && !AllExited(w)
    ensures PsemStep(w, w', p, a)
    ensures |w'.phases| == |w.phases|
    ensures Total(PhaseRank, w'.phases) < Total(PhaseRank, w.phases) ||
      (Total(PhaseRank, w'.phases) == Total(PhaseRank, w.phases) && Psem.Lower(w'.sem, w.sem))
  {
    if q: nat :| q < |w.phases| && BetweenCalls(w.phases[q]) {
      p := q;
      assert Matches(w.phases[p], AbsP(w).sem.procs[p]);
      
      if w.phases[p] == Start || w.phases[p] == CallUp {
        a := if w.phases[p] == Start then Psem.CallDown else Psem.CallUp;
        w' := PsemMoves(w, units, p, a);
      } else {
        a := Psem.CallDown;
        w' := ClientMoves(w, p);
      }
    } else {
      if forall q: nat | q < |w.sem.pcs| :: Psem.Parked(w.sem, q) {
        PsemNobodyLeft(w, units);
      }
      p :| p < |w.sem.pcs| && !Psem.Parked(w.sem, p);
      a := Psem.Go;
      Psem.GoLowers(w.sem, p);
      w' := PsemMoves(w, units, p, a);
    }
  }

  /** Every run over Psem can go on until all clients have exited, if there is a unit
      at all; with a single one check_count then counts all of them. */
  lemma PsemRunExits(run: seq<World<Psem.State>>, n: nat, units: nat) returns (longer: seq<World<Psem.State>>)
    requires IsPsemRun(run, n, units) && units > 0
    ensures run <= longer && IsPsemRun(longer, n, units) && AllExited(longer[|longer| - 1])
    ensures units == 1 ==> longer[|longer| - 1].check == n
  {
    hide Fresh, PsemSteps, Psem.Inv, Inv, Psem.Init;
    PsemRunInv(run, n, units, |run| - 1);
    var path := PsemExits(run[|run| - 1], units);
    longer := run + path[1..];
    forall i | 0 <= i < |longer| - 1
      ensures PsemSteps(longer[i], longer[i + 1])
    {
      if i < |run| - 1 {
        assert PsemSteps(run[i], run[i + 1]);
      } else {
        var j := i - (|run| - 1);
        assert PsemSteps(path[j], path[j + 1]);
      }
    }
    PsemClientSafe(longer, n, units, |longer| - 1);
    var end := longer[|longer| - 1];
    assert forall p | 0 <= p < |end.phases| :: end.phases[p] in end.phases;
  }
}
