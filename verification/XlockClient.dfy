/** The client of test_xlock.c: nr_forks processes, each incrementing the number
    in a file MAX_ITER times under the lock. do_inc_file is split into its file
    operations, so that two unlocked increments could lose an update. */
module XlockClient {
  import opened Counting
  import Xlock

  const MAX_ITER := 20

  /** The file: not there yet, created but still empty, or holding a number. */
  datatype File = Absent | Empty | Holds(value: int)

  /** Where a process is in the body of its loop. */
  datatype Phase =
    | Locking                                // from the top of the loop to the lock
    | Stat                                   // about to stat the file
    | Open(doInit: bool)
    | Read(doInit: bool)
    | Write(value: int)
    | Unlocking                              // from the unlock to the end of the loop body
    | Finished

  datatype State = State(lock: Xlock.State, phases: seq<Phase>, iters: seq<nat>, file: File)

  datatype Action =
    | CallLock
    | LockStep(a: Xlock.Action)
    | FileStep(garbage: int)                 // what a read of an empty file leaves in the variable
    | EndOfBody

  predicate Init(s: State, n: nat, file: File) {
    && Xlock.Init(s.lock) && s.file == file && file != Empty
    && |s.lock.pcs| == |s.phases| == |s.iters| == n
    && forall p | 0 <= p < n :: s.phases[p] == Locking && s.iters[p] == 0
  }

  predicate Enabled(s: State, p: nat, a: Action) {
    p < |s.phases| == |s.lock.pcs| == |s.iters| &&
    match a
    case CallLock => s.phases[p] == Locking && s.lock.pcs[p] == Xlock.Out
    case LockStep(b) =>
      !b.Enter? && (b.CasUnlock? ==> s.phases[p] == Unlocking) && Xlock.Enabled(s.lock, p, b)
    case FileStep(_) =>
      s.lock.pcs[p] == Xlock.Held &&
      (s.phases[p] == Locking || s.phases[p] == Stat || s.phases[p].Open? || s.phases[p].Read? || s.phases[p].Write?)
    case EndOfBody => s.phases[p] == Unlocking && s.lock.pcs[p] == Xlock.Out
  }

  function Goto(s: State, p: nat, ph: Phase): State
    requires p < |s.phases|
  {
    s.(phases := s.phases[p := ph])
  }

  function Apply(s: State, p: nat, a: Action): State
    requires Enabled(s, p, a)
  {
    match a
    case CallLock => s.(lock := Xlock.Apply(s.lock, p, Xlock.Enter))
    case LockStep(b) => s.(lock := Xlock.Apply(s.lock, p, b))
    case FileStep(garbage) =>
      (match s.phases[p]
       case Locking => Goto(s, p, Stat)
       case Stat => Goto(s, p, Open(s.file == Absent))
       case Open(doInit) => Goto(s.(file := if s.file == Absent then Empty else s.file), p, Read(doInit))
       case Read(doInit) =>
         var fint := if s.file.Holds? then s.file.value else garbage;
         Goto(s, p, Write((if doInit then 0 else fint) + 1))
       case Write(v) => Goto(s.(file := Holds(v)), p, Unlocking))
    case EndOfBody =>
      var done := s.iters[p] + 1;
      Goto(s.(iters := s.iters[p := done]), p, if done == MAX_ITER then Finished else Locking)
  }

  // ----- the invariant

  function Number(f: File): int { if f.Holds? then f.value else 0 }

  function Sum(xs: seq<nat>): nat { if xs == [] then 0 else xs[0] + Sum(xs[1..]) }

  /** This round's increment is in the file, and not yet counted in iters. */
  predicate Written(ph: Phase) { ph == Unlocking }

  predicate Agree(ph: Phase, lpc: Xlock.Pc, file: File) {
    match ph
    case Locking => lpc in {Xlock.Out, Xlock.Try, Xlock.Wait, Xlock.Asleep, Xlock.Held}
    case Stat => lpc == Xlock.Held && file != Empty
    case Open(doInit) => lpc == Xlock.Held && file != Empty && (doInit <==> file == Absent)
    case Read(doInit) => lpc == Xlock.Held && file != Absent && (doInit <==> file == Empty)
    case Write(v) => lpc == Xlock.Held && v == Number(file) + 1
    case Unlocking => lpc in {Xlock.Held, Xlock.Wake, Xlock.Out}
    case Finished => lpc == Xlock.Out
  }

  /** The file is empty only while the holder is between its open and its write. */
  predicate Midway(ph: Phase) { ph.Read? || ph.Write? }

  ghost predicate Inv(s: State, n: nat, start: int) {
    && |s.lock.pcs| == |s.phases| == |s.iters| == n
    && Xlock.Inv(s.lock)
    && (forall p | 0 <= p < n :: Agree(s.phases[p], s.lock.pcs[p], s.file))
    && (forall p | 0 <= p < n :: (s.phases[p] == Finished <==> s.iters[p] == MAX_ITER) && s.iters[p] <= MAX_ITER)
    && (s.file == Empty ==> exists p :: 0 <= p < n && Midway(s.phases[p]))
    && Number(s.file) == start + Sum(s.iters) + Count(Written, s.phases)
  }

  lemma {:induction false} SumUpdate(xs: seq<nat>, p: nat, v: nat)
    requires p < |xs|
    ensures Sum(xs[p := v]) + xs[p] == Sum(xs) + v
  {
    if p > 0 {
      assert xs[p := v][1..] == xs[1..][p - 1 := v];
      SumUpdate(xs[1..], p - 1, v);
    }
  }

  lemma {:induction false} SumConst(xs: seq<nat>, v: nat)
    requires forall i | 0 <= i < |xs| :: xs[i] == v
    ensures Sum(xs) == |xs| * v
  {
    if xs != [] {
      SumConst(xs[1..], v);
      assert |xs| * v == v + (|xs| - 1) * v;
    }
  }

  lemma InvInit(s: State, n: nat, file: File)
    requires Init(s, n, file)
    ensures Inv(s, n, Number(file))
  {
    Xlock.InvInit(s.lock);
    CountNone(Written, s.phases);
    SumConst(s.iters, 0);
  }

  lemma InvStep(s: State, n: nat, start: int, p: nat, a: Action)
    requires Inv(s, n, start) && Enabled(s, p, a)
    ensures Inv(Apply(s, p, a), n, start)
  {
    LockStays(s, n, start, p, a);
    AgreeStep(s, n, start, p, a);
    RoundsStep(s, n, start, p, a);
    NumberStep(s, n, start, p, a);
    hide Agree, Enabled, Apply, Number, Midway, Xlock.Inv;
  }

  lemma LockStays(s: State, n: nat, start: int, p: nat, a: Action)
    requires Inv(s, n, start) && Enabled(s, p, a)
    ensures Xlock.Inv(Apply(s, p, a).lock)
  {
    hide Agree, Number, Xlock.Inv;
    match a {
      case CallLock => Xlock.InvStep(s.lock, p, Xlock.Enter);
      case LockStep(b) => Xlock.InvStep(s.lock, p, b);
      case _ =>
    }
  }

  lemma RoundsStep(s: State, n: nat, start: int, p: nat, a: Action)
    requires Inv(s, n, start) && Enabled(s, p, a)
    ensures var s' := Apply(s, p, a);
      && |s'.lock.pcs| == |s'.phases| == |s'.iters| == n
      && forall q | 0 <= q < n :: (s'.phases[q] == Finished <==> s'.iters[q] == MAX_ITER) && s'.iters[q] <= MAX_ITER
  {
    hide Agree, Number, Midway, Xlock.Inv;
  }

  /** What a process writes is one more than what the others left in the file. */
  lemma NumberStep(s: State, n: nat, start: int, p: nat, a: Action)
    requires Inv(s, n, start) && Enabled(s, p, a)
    ensures var s' := Apply(s, p, a);
      Number(s'.file) == start + Sum(s'.iters) + Count(Written, s'.phases)
  {
    hide Xlock.Inv, Midway;
    var s' := Apply(s, p, a);
    assert Agree(s.phases[p], s.lock.pcs[p], s.file);
    CountChange(Written, s.phases, s'.phases, p);
    SumUpdate(s.iters, p, s'.iters[p]);
    assert s.iters[p := s'.iters[p]] == s'.iters;
  }

  lemma AgreeStep(s: State, n: nat, start: int, p: nat, a: Action)
    requires Inv(s, n, start) && Enabled(s, p, a)
    ensures var s' := Apply(s, p, a);
      && (forall q | 0 <= q < n :: Agree(s'.phases[q], s'.lock.pcs[q], s'.file))
      && (s'.file == Empty ==> exists q :: 0 <= q < n && Midway(s'.phases[q]))
  {
    var s' := Apply(s, p, a);
    Xlock.MutualExclusion(s.lock);
    assert Agree(s.phases[p], s.lock.pcs[p], s.file);
    if s.file == Empty {
      var r :| 0 <= r < n && Midway(s.phases[r]);
      assert Agree(s.phases[r], s.lock.pcs[r], s.file);
      assert s'.file == Empty ==> Midway(s'.phases[r]);
    } else if s'.file == Empty {
      assert Midway(s'.phases[p]);
    }
    forall q | 0 <= q < n
      ensures Agree(s'.phases[q], s'.lock.pcs[q], s'.file)
    {
      assert Agree(s.phases[q], s.lock.pcs[q], s.file);
    }
  }

  // ----- runs

  ghost predicate Steps(s: State, s': State) {
    exists p, a :: Enabled(s, p, a) && s' == Apply(s, p, a)
  }

  ghost predicate IsRun(run: seq<State>, n: nat, file: File) {
    && run != [] && Init(run[0], n, file)
    && forall i | 0 <= i < |run| - 1 :: Steps(run[i], run[i + 1])
  }

  lemma {:induction false} RunKeepsInv(run: seq<State>, n: nat, file: File, i: nat)
    requires IsRun(run, n, file) && i < |run|
    ensures Inv(run[i], n, Number(file))
  {
    if i == 0 {
      InvInit(run[0], n, file);
    } else {
      RunKeepsInv(run, n, file, i - 1);
      assert Steps(run[i - 1], run[i - 1 + 1]);
      var p, a :| Enabled(run[i - 1], p, a) && run[i] == Apply(run[i - 1], p, a);
      InvStep(run[i - 1], n, Number(file), p, a);
    }
  }

  /** No update is lost: once every process has finished, the number in the file
      (0 if there was no file) has grown by nr_forks * MAX_ITER, whatever the
      interleaving. */
  lemma NoLostUpdate(run: seq<State>, nrForks: nat, file: File, i: nat)
    requires IsRun(run, nrForks, file) && i < |run|
    requires AllFinished(run[i])
    ensures Number(run[i].file) == Number(file) + nrForks * MAX_ITER
  {
    RunKeepsInv(run, nrForks, file, i);
    assert forall p | 0 <= p < nrForks :: run[i].phases[p] in run[i].phases;
    CountNone(Written, run[i].phases);
    SumConst(run[i].iters, MAX_ITER);
  }

  // ----- all processes finish

  /** The step that a process takes next; what it reads from an empty file is 0. */
  function Next(s: State, p: nat): Action
    requires p < |s.phases| == |s.lock.pcs|
  {
    match s.lock.pcs[p]
    case Out => if s.phases[p] == Locking then CallLock else EndOfBody
    case Held => if s.phases[p] == Unlocking then LockStep(Xlock.CasUnlock) else FileStep(0)
    case _ => LockStep(Xlock.Next(s.lock, p))
  }

  /** Every process that has not finished and does not sleep on the lock has a step
      of its own to take. */
  lemma Progress(s: State, n: nat, start: int, p: nat)
    requires Inv(s, n, start) && p < n && s.phases[p] != Finished && s.lock.pcs[p] != Xlock.Asleep
    ensures Enabled(s, p, Next(s, p))
  {
    assert Agree(s.phases[p], s.lock.pcs[p], s.file);
    Xlock.NextIsEnabled(s.lock, p);
  }

  /** The processes that have not finished are never all asleep. */
  lemma NoStuckState(run: seq<State>, n: nat, file: File, i: nat)
    requires IsRun(run, n, file) && i < |run|
    requires |run[i].phases| == |run[i].lock.pcs|
    requires forall p | 0 <= p < |run[i].phases| :: run[i].phases[p] == Finished || run[i].lock.pcs[p] == Xlock.Asleep
    ensures AllFinished(run[i])
  {
    RunKeepsInv(run, n, file, i);
    if !AllFinished(run[i]) {
      var _ := SomeReady(run[i], n, Number(file));
    }
  }

  predicate AllFinished(s: State) { forall ph | ph in s.phases :: ph == Finished }

  /** How many steps a process is from its end, when the others leave it alone. */
  function Rank(proc: (Phase, Xlock.Pc, nat)): nat {
    (if proc.2 < MAX_ITER then 16 * (MAX_ITER - proc.2) else 0) +
    match proc.0
    case Locking => 8 + (match proc.1 case Out => 4 case Asleep => 3 case Wait => 2 case Try => 1 case _ => 0)
    case Stat => 7
    case Open(_) => 6
    case Read(_) => 5
    case Write(_) => 4
    case Unlocking => 1 + (match proc.1 case Held => 2 case Wake => 1 case _ => 0)
    case Finished => 0
  }

  function Procs(s: State): (r: seq<(Phase, Xlock.Pc, nat)>)
    requires |s.phases| == |s.lock.pcs| == |s.iters|
    ensures |r| == |s.phases| && forall p | 0 <= p < |r| :: r[p] == (s.phases[p], s.lock.pcs[p], s.iters[p])
  {
    seq(|s.phases|, p requires 0 <= p < |s.phases| => (s.phases[p], s.lock.pcs[p], s.iters[p]))
  }

  /** On its way, and not about to run against a lock that is taken. */
  predicate Ready(s: State, p: nat) {
    && p < |s.phases| == |s.lock.pcs| && s.phases[p] != Finished && s.lock.pcs[p] != Xlock.Asleep
    && (s.lock.word == 1 ==> s.lock.pcs[p] == Xlock.Held || s.lock.pcs[p] == Xlock.Out || s.lock.pcs[p] == Xlock.Wake)
  }

  lemma NextLowers(s: State, n: nat, start: int, p: nat)
    requires Inv(s, n, start) && Ready(s, p)
    ensures Enabled(s, p, Next(s, p))
    ensures var s' := Apply(s, p, Next(s, p));
      |s'.phases| == |s'.lock.pcs| == |s'.iters| == n && Total(Rank, Procs(s')) < Total(Rank, Procs(s))
  {
    Progress(s, n, start, p);
    assert Agree(s.phases[p], s.lock.pcs[p], s.file);
    if s.lock.pcs[p] == Xlock.Held {
      Xlock.UnlockSucceeds(s.lock, p);
    }
    var s' := Apply(s, p, Next(s, p));
    RanksMove(s, n, p);
    hide Rank, Apply, Next, Ready, Agree, Enabled;
    TotalDrops(Rank, Rank, Procs(s), Procs(s'), p);
  }

  lemma RanksMove(s: State, n: nat, p: nat)
    requires Ready(s, p) && Enabled(s, p, Next(s, p)) && n == |s.iters| && Agree(s.phases[p], s.lock.pcs[p], s.file)
    requires s.lock.word == 0 || s.lock.word == 1
    requires s.lock.pcs[p] == Xlock.Held ==> s.lock.word == 1
    requires s.iters[p] <= MAX_ITER && (s.phases[p] == Finished <==> s.iters[p] == MAX_ITER)
    ensures var s' := Apply(s, p, Next(s, p));
      && |s'.phases| == |s'.lock.pcs| == |s'.iters| == n
      && (forall q | 0 <= q < n :: Rank(Procs(s')[q]) <= Rank(Procs(s)[q]))
      && Rank(Procs(s')[p]) < Rank(Procs(s)[p])
  {
  }

  lemma SomeReady(s: State, n: nat, start: int) returns (p: nat)
    requires Inv(s, n, start) && !AllFinished(s)
    ensures Ready(s, p)
  {
    var ph :| ph in s.phases && ph != Finished;
    p :| p < n && s.phases[p] == ph;
    assert Agree(s.phases[p], s.lock.pcs[p], s.file);
    if exists q :: 0 <= q < |s.lock.pcs| && s.lock.pcs[q] != Xlock.Out {
      p := Xlock.SomeReady(s.lock);
      assert Agree(s.phases[p], s.lock.pcs[p], s.file);
    }
  }

  lemma {:induction false} AllFinish(s: State, n: nat, start: int) returns (path: seq<State>)
    requires Inv(s, n, start)
    ensures path != [] && path[0] == s && AllFinished(path[|path| - 1])
    ensures forall i | 0 <= i < |path| - 1 :: Steps(path[i], path[i + 1])
    decreases Total(Rank, Procs(s))
  {
    hide Apply, Enabled, Agree, Rank, Next, Ready, Xlock.Inv;
    path := [s];
    if !AllFinished(s) {
      var p := SomeReady(s, n, start);
      NextLowers(s, n, start, p);
      InvStep(s, n, start, p, Next(s, p));
      var rest := AllFinish(Apply(s, p, Next(s, p)), n, start);
      assert Steps(s, rest[0]);
      path := path + rest;
    }
  }

  /** Every run, at whatever point, can go on to one in which all have finished;
      the number in the file has then grown by nrForks * MAX_ITER. */
  lemma RunFinishes(run: seq<State>, nrForks: nat, file: File) returns (longer: seq<State>)
    requires IsRun(run, nrForks, file)
    ensures run <= longer && IsRun(longer, nrForks, file)
    ensures var end := longer[|longer| - 1];
      AllFinished(end) && Number(end.file) == Number(file) + nrForks * MAX_ITER
  {
    RunKeepsInv(run, nrForks, file, |run| - 1);
    var path := AllFinish(run[|run| - 1], nrForks, Number(file));
    longer := run + path[1..];
    forall i | 0 <= i < |longer| - 1
      ensures Steps(longer[i], longer[i + 1])
    {
      if i < |run| - 1 {
        assert Steps(run[i], run[i + 1]);
      } else {
        var j := i - (|run| - 1);
        assert Steps(path[j], path[j + 1]);
      }
    }
    NoLostUpdate(longer, nrForks, file, |longer| - 1);
  }
}
