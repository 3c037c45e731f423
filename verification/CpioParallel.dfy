/** The threads of gen_init_cpio.c as a machine: workers that serialise their
    lines into rewindable files and dump them under a trylock, and the main
    thread that flushes what is left and writes the trailer. A record handler is
    one step, since all it shares is the inode counter; a dump is many steps,
    kept apart from other dumps by the spin lock alone. */
module CpioParallel {
  import opened CpioFormat
  import opened CpioWriter

  /** What worker_thread_routine makes of a line. */
  datatype Line =
    | Comment
    | Blank              // a blank line, or nothing but a type
    | NoType             // no token at all: the worker stops here
    | Rejected           // unknown type, or arguments the handler cannot scan
    | Known(c: Command)

  datatype Job = Job(lines: seq<Line>, threads: nat, mtime: U32)

  const FIRST_INODE := 721

  /** A line that was serialised, and how many inodes had been handed out before. */
  datatype Item = Item(line: nat, ticket: nat)

  datatype Phase =
    | Scan
    | TryDump
    | Dump(sent: nat)    // holds the lock; sent bytes are already on stdout
    | Done

  /** pending lists the items whose records are in the file and not yet dumped. */
  datatype Worker = Worker(next: nat, phase: Phase, file: string, pos: nat, pending: seq<Item>)

  datatype MainPhase = Join(t: nat) | Flush(t: nat, sent: nat) | Exited

  /** issued lists the lines in the order in which they took an inode number;
      log lists the items that are on stdout completely. */
  datatype State = State(workers: seq<Worker>, lock: Option<nat>, out: string, main: MainPhase,
                         issued: seq<nat>, log: seq<Item>)

  datatype Action =
    | Work(w: nat)
    | Trylock(w: nat, success: bool)
    | Emit(w: nat, k: nat)
    | Release(w: nat)
    | MainLock
    | MainEmit(k: nat)
    | MainRelease
    | MainTrailer

  ghost predicate GoodJob(job: Job) {
    job.threads > 0 && forall l | l in job.lines && l.Known? :: GoodLine(l.c)
  }

  function Owner(job: Job, line: nat): (w: nat)
    requires job.threads > 0
    ensures w < job.threads
  {
    (line + 1) % job.threads
  }

  predicate Serialised(job: Job, line: nat) {
    line < |job.lines| && job.lines[line].Known? && Accepted(job.lines[line].c)
  }

  function ItemInode(item: Item): U32 { (FIRST_INODE + item.ticket) % U32_LIMIT }

  function ItemEntries(job: Job, item: Item): seq<Entry> {
    if Serialised(job, item.line) then EntriesOf(job.lines[item.line].c, ItemInode(item), job.mtime) else []
  }

  function ItemBytes(job: Job, item: Item): string {
    var es := ItemEntries(job, item);
    if AllEncodable(es) then EncodeAll(es) else ""
  }

  function Entries(job: Job, items: seq<Item>): seq<Entry> {
    if items == [] then [] else ItemEntries(job, items[0]) + Entries(job, items[1..])
  }

  function Bytes(job: Job, items: seq<Item>): string {
    if items == [] then "" else ItemBytes(job, items[0]) + Bytes(job, items[1..])
  }

  // ----- the machine

  predicate Init(job: Job, s: State) {
    && |s.workers| == job.threads && s.lock == None && s.out == "" && s.main == Join(0)
    && s.issued == [] && s.log == []
    && forall w | 0 <= w < |s.workers| :: s.workers[w] == Worker(0, Scan, "", 0, [])
  }

  predicate Enabled(job: Job, s: State, a: Action) {
    |s.workers| == job.threads > 0 &&
    match a
    case Work(w) => w < |s.workers| && s.workers[w].phase == Scan && s.workers[w].pos <= |s.workers[w].file|
    case Trylock(w, success) => w < |s.workers| && s.workers[w].phase == TryDump && (success ==> s.lock == None)
    case Emit(w, k) =>
      w < |s.workers| && s.workers[w].phase.Dump? &&
      s.workers[w].phase.sent + k <= s.workers[w].pos <= |s.workers[w].file|
    case Release(w) => w < |s.workers| && s.workers[w].phase == Dump(s.workers[w].pos)
    case MainLock =>
      s.main.Join? && s.main.t < |s.workers| && s.workers[s.main.t].phase == Done && s.lock == None
    case MainEmit(k) =>
      s.main.Flush? && s.main.t < |s.workers| &&
      s.main.sent + k <= s.workers[s.main.t].pos <= |s.workers[s.main.t].file|
    case MainRelease => s.main.Flush? && s.main.t < |s.workers| && s.main.sent == s.workers[s.main.t].pos
    case MainTrailer => s.main == Join(|s.workers|)
  }

  function SetWorker(s: State, w: nat, v: Worker): State
    requires w < |s.workers|
  {
    s.(workers := s.workers[w := v])
  }

  /** One turn of the worker's loop over the table, up to the attempt to dump. */
  function WorkOn(job: Job, s: State, w: nat): State
    requires Enabled(job, s, Work(w))
  {
    var v, i := s.workers[w], s.workers[w].next;
    if i >= |job.lines| then SetWorker(s, w, v.(phase := Done))
    else if Owner(job, i) != w then SetWorker(s, w, v.(next := i + 1))
    else match job.lines[i]
      case Comment => SetWorker(s, w, v.(next := i + 1))
      case Blank => SetWorker(s, w, v.(next := i + 1))
      case NoType => SetWorker(s, w, v.(phase := Done))
      case Rejected => SetWorker(s, w, v.(next := i + 1, phase := TryDump))
      case Known(c) =>
        if !Accepted(c) then SetWorker(s, w, v.(next := i + 1, phase := TryDump))
        else
          var item := Item(i, |s.issued|);
          var bytes := ItemBytes(job, item);
          SetWorker(s.(issued := s.issued + [i]), w,
                    Worker(i + 1, TryDump, Overwrite(v.file, v.pos, bytes), v.pos + |bytes|, v.pending + [item]))
  }

  function Apply(job: Job, s: State, a: Action): State
    requires Enabled(job, s, a)
  {
    match a
    case Work(w) => WorkOn(job, s, w)
    case Trylock(w, success) =>
      if success then SetWorker(s.(lock := Some(w)), w, s.workers[w].(phase := Dump(0)))
      else SetWorker(s, w, s.workers[w].(phase := Scan))
    case Emit(w, k) =>
      var v := s.workers[w];
      SetWorker(s.(out := s.out + v.file[v.phase.sent..v.phase.sent + k]), w, v.(phase := Dump(v.phase.sent + k)))
    case Release(w) =>
      var v := s.workers[w];
      SetWorker(s.(lock := None, log := s.log + v.pending), w, v.(phase := Scan, pos := 0, pending := []))
    case MainLock => s.(lock := Some(|s.workers|), main := Flush(s.main.t, 0))
    case MainEmit(k) =>
      var v := s.workers[s.main.t];
      s.(out := s.out + v.file[s.main.sent..s.main.sent + k], main := Flush(s.main.t, s.main.sent + k))
    case MainRelease =>
      var v := s.workers[s.main.t];
      SetWorker(s.(lock := None, log := s.log + v.pending, main := Join(s.main.t + 1)), s.main.t,
                v.(file := "", pos := 0, pending := []))
    case MainTrailer => s.(out := s.out + Trailer(), main := Exited)
  }

  // ----- which lines a worker has to serialise

  /** The lines from index i on that worker w serialises, in their order. */
  function Mine(job: Job, w: nat, i: nat): seq<nat>
    requires job.threads > 0
    decreases |job.lines| - i
  {
    if i >= |job.lines| then []
    else if Owner(job, i) != w then Mine(job, w, i + 1)
    else if job.lines[i] == NoType then []
    else if Serialised(job, i) then [i] + Mine(job, w, i + 1)
    else Mine(job, w, i + 1)
  }

  /** Exactly the accepted lines dealt to w in front of its first line without a type. */
  lemma {:induction false} MineMeaning(job: Job, w: nat, i: nat, line: nat)
    requires job.threads > 0
    ensures line in Mine(job, w, i) <==>
      && i <= line < |job.lines| && (line + 1) % job.threads == w
      && job.lines[line].Known? && !(job.lines[line].c.File? && job.lines[line].c.source.Unreadable?)
      && forall j: nat | i <= j < line && (j + 1) % job.threads == w :: job.lines[j] != NoType
    decreases |job.lines| - i
  {
    if i < |job.lines| {
      MineMeaning(job, w, i + 1, line);
    }
  }

  lemma {:induction false} MineIncreases(job: Job, w: nat, i: nat)
    requires job.threads > 0
    ensures forall a, b | 0 <= a < b < |Mine(job, w, i)| :: Mine(job, w, i)[a] < Mine(job, w, i)[b]
    decreases |job.lines| - i
  {
    if i < |job.lines| {
      MineIncreases(job, w, i + 1);
      var tail := Mine(job, w, i + 1);
      forall b | 0 <= b < |tail|
        ensures i < tail[b]
      {
        MineMeaning(job, w, i + 1, tail[b]);
      }
    }
  }

  /** The lines of the items that worker w serialised. */
  function LinesOf(job: Job, items: seq<Item>, w: nat): seq<nat>
    requires job.threads > 0
  {
    if items == [] then []
    else (if Owner(job, items[0].line) == w then [items[0].line] else []) + LinesOf(job, items[1..], w)
  }

  lemma {:induction false} LinesOfConcat(job: Job, a: seq<Item>, b: seq<Item>, w: nat)
    requires job.threads > 0
    ensures LinesOf(job, a + b, w) == LinesOf(job, a, w) + LinesOf(job, b, w)
  {
    if a == [] {
      assert a + b == b;
    } else {
      assert (a + b)[1..] == a[1..] + b;
      LinesOfConcat(job, a[1..], b, w);
    }
  }

  lemma {:induction false} LinesOfOthers(job: Job, items: seq<Item>, w: nat, u: nat)
    requires job.threads > 0 && u != w && forall x | x in items :: Owner(job, x.line) == w
    ensures LinesOf(job, items, u) == []
  {
    if items != [] {
      assert items[0] in items;
      LinesOfOthers(job, items[1..], w, u);
    }
  }

  lemma {:induction false} BytesConcat(job: Job, a: seq<Item>, b: seq<Item>)
    ensures Bytes(job, a + b) == Bytes(job, a) + Bytes(job, b)
  {
    if a == [] {
      assert a + b == b;
    } else {
      assert (a + b)[1..] == a[1..] + b;
      BytesConcat(job, a[1..], b);
    }
  }

  /** The bytes of the items are the encoding of their entries. */
  lemma {:induction false} BytesAreEncoding(job: Job, items: seq<Item>)
    requires GoodJob(job)
    ensures AllEncodable(Entries(job, items)) && Bytes(job, items) == EncodeAll(Entries(job, items))
  {
    hide Encodable, Encode;
    if items != [] {
      if Serialised(job, items[0].line) {
        EntriesEncodable(job.lines[items[0].line].c, ItemInode(items[0]), job.mtime);
      }
      BytesAreEncoding(job, items[1..]);
      EncodeAllConcat(ItemEntries(job, items[0]), Entries(job, items[1..]));
    }
  }

  // ----- the invariant

  /** What is in front of the stream position is what is pending, whatever older
      bytes lie behind it. */
  predicate WorkerInv(job: Job, v: Worker, w: nat)
    requires job.threads > 0
  {
    && v.pos <= |v.file| && v.file[..v.pos] == Bytes(job, v.pending)
    && (v.phase.Dump? ==> v.phase.sent <= v.pos)
    && (forall x | x in v.pending :: Owner(job, x.line) == w)
  }

  /** Lines on stdout, lines pending and lines still to come are w's lines in order. */
  predicate InOrder(job: Job, log: seq<Item>, v: Worker, w: nat)
    requires job.threads > 0
  {
    LinesOf(job, log, w) + LinesOf(job, v.pending, w) + (if v.phase == Done then [] else Mine(job, w, v.next))
      == Mine(job, w, 0)
  }

  /** The lock is held by whoever is in the middle of emitting. */
  predicate LockInv(s: State) {
    && (forall w | 0 <= w < |s.workers| :: s.workers[w].phase.Dump? <==> s.lock == Some(w))
    && (s.main.Flush? <==> s.lock == Some(|s.workers|))
    && (s.lock.Some? ==> s.lock.value <= |s.workers|)
  }

  predicate MainInv(s: State) {
    match s.main
    case Join(t) => t <= |s.workers| && Flushed(s, t)
    case Flush(t, sent) =>
      t < |s.workers| && Flushed(s, t) && s.workers[t].phase == Done && sent <= s.workers[t].pos
    case Exited => Flushed(s, |s.workers|)
  }

  predicate Flushed(s: State, t: nat)
    requires t <= |s.workers|
  {
    forall u | 0 <= u < t :: s.workers[u].phase == Done && s.workers[u].pending == []
  }

  /** The part of the current dump that is already out. */
  function Partial(s: State): string {
    if s.lock.None? then ""
    else if s.lock.value < |s.workers| then
      var v := s.workers[s.lock.value];
      if v.phase.Dump? && v.phase.sent <= |v.file| then v.file[..v.phase.sent] else ""
    else if s.main.Flush? && s.main.t < |s.workers| && s.main.sent <= |s.workers[s.main.t].file| then
      s.workers[s.main.t].file[..s.main.sent]
    else ""
  }

  predicate Issued(issued: seq<nat>, items: seq<Item>) {
    forall x | x in items :: x.ticket < |issued| && issued[x.ticket] == x.line
  }

  predicate Inv(job: Job, s: State) {
    && |s.workers| == job.threads > 0
    && LockInv(s) && MainInv(s)
    && (forall w: nat | w < |s.workers| :: WorkerInv(job, s.workers[w], w))
    && (forall w: nat | w < |s.workers| :: InOrder(job, s.log, s.workers[w], w))
    && (forall w: nat | w < |s.workers| :: Issued(s.issued, s.workers[w].pending))
    && Issued(s.issued, s.log)
    && s.out == Bytes(job, s.log) + (if s.main == Exited then Trailer() else Partial(s))
  }

  lemma InvInit(job: Job, s: State)
    requires job.threads > 0 && Init(job, s)
    ensures Inv(job, s)
  {
    forall w: nat | w < |s.workers|
      ensures InOrder(job, s.log, s.workers[w], w)
    {
      assert [] + [] + Mine(job, w, 0) == Mine(job, w, 0);
    }
  }

  lemma InvStep(job: Job, s: State, a: Action)
    requires Inv(job, s) && Enabled(job, s, a)
    ensures Inv(job, Apply(job, s, a))
  {
    hide *;
    match a
    case Work(w) => WorkStep(job, s, w);
    case Trylock(w, success) => TrylockStep(job, s, w, success);
    case Emit(w, k) => EmitStep(job, s, w, k);
    case Release(w) => ReleaseStep(job, s, w);
    case MainLock => MainLockStep(job, s);
    case MainEmit(k) => MainEmitStep(job, s, k);
    case MainRelease => MainReleaseStep(job, s);
    case MainTrailer => MainTrailerStep(job, s);
  }

  lemma MainTrailerStep(job: Job, s: State)
    requires Inv(job, s) && Enabled(job, s, MainTrailer)
    ensures Inv(job, Apply(job, s, MainTrailer))
  {
    hide Bytes, LinesOf, Mine, Trailer;
    assert s.out == Bytes(job, s.log) + "";
  }

  lemma TrylockStep(job: Job, s: State, w: nat, success: bool)
    requires Inv(job, s) && Enabled(job, s, Trylock(w, success))
    ensures Inv(job, Apply(job, s, Trylock(w, success)))
  {
    hide Bytes, LinesOf, Mine, Trailer;
    var s' := Apply(job, s, Trylock(w, success));
    assert WorkerInv(job, s.workers[w], w) && InOrder(job, s.log, s.workers[w], w);
    assert Partial(s') == Partial(s);
  }

  lemma EmitStep(job: Job, s: State, w: nat, k: nat)
    requires Inv(job, s) && Enabled(job, s, Emit(w, k))
    ensures Inv(job, Apply(job, s, Emit(w, k)))
  {
    hide Bytes, LinesOf, Mine, Trailer;
    var s' := Apply(job, s, Emit(w, k));
    var v := s.workers[w];
    assert WorkerInv(job, v, w) && InOrder(job, s.log, v, w);
    assert s.lock == Some(w);
    EmitSlice(Bytes(job, s.log), v.file, v.phase.sent, k);
  }

  lemma EmitSlice(out: string, file: string, sent: nat, k: nat)
    requires sent + k <= |file|
    ensures out + file[..sent] + file[sent..sent + k] == out + file[..sent + k]
  {
    assert file[..sent] + file[sent..sent + k] == file[..sent + k];
  }

  lemma ReleaseStep(job: Job, s: State, w: nat)
    requires Inv(job, s) && Enabled(job, s, Release(w))
    ensures Inv(job, Apply(job, s, Release(w)))
  {
    hide LinesOf, Mine, Trailer, Bytes;
    assert WorkerInv(job, s.workers[w], w) && s.lock == Some(w);
    var v' := s.workers[w].(phase := Scan, pos := 0, pending := []);
    LoggedInOrder(job, s, w, v');
    LoggedBytes(job, s, w, v');
    hide InOrder, Issued;
  }

  /** Moving a worker's pending items to the log keeps every worker's order. */
  lemma LoggedInOrder(job: Job, s: State, w: nat, v': Worker)
    requires Inv(job, s) && w < |s.workers|
    requires v'.pending == [] && v'.next == s.workers[w].next && (v'.phase == Done <==> s.workers[w].phase == Done)
    ensures var log, after := s.log + s.workers[w].pending, s.workers[w := v'];
      forall u: nat | u < |after| :: InOrder(job, log, after[u], u)
  {
    var moved, after := s.workers[w].pending, s.workers[w := v'];
    assert WorkerInv(job, s.workers[w], w);
    forall u: nat | u < |after|
      ensures InOrder(job, s.log + moved, after[u], u)
    {
      assert InOrder(job, s.log, s.workers[u], u);
      hide *;
      if u == w {
        OwnOrder(job, s.log, s.workers[w], v', w);
      } else {
        OtherOrder(job, s.log, moved, s.workers[u], u, w);
      }
    }
  }

  lemma OwnOrder(job: Job, log: seq<Item>, v: Worker, v': Worker, w: nat)
    requires job.threads > 0 && InOrder(job, log, v, w)
    requires v'.pending == [] && v'.next == v.next && (v'.phase == Done <==> v.phase == Done)
    ensures InOrder(job, log + v.pending, v', w)
  {
    LinesOfConcat(job, log, v.pending, w);
    assert LinesOf(job, [], w) == [];
    hide LinesOf, Mine;
    assert LinesOf(job, log, w) + LinesOf(job, v.pending, w) + [] == LinesOf(job, log, w) + LinesOf(job, v.pending, w);
  }

  lemma OtherOrder(job: Job, log: seq<Item>, moved: seq<Item>, v: Worker, u: nat, w: nat)
    requires job.threads > 0 && InOrder(job, log, v, u) && u != w
    requires forall x | x in moved :: Owner(job, x.line) == w
    ensures InOrder(job, log + moved, v, u)
  {
    LinesOfConcat(job, log, moved, u);
    LinesOfOthers(job, moved, w, u);
    hide LinesOf, Mine;
    assert LinesOf(job, log, u) + [] == LinesOf(job, log, u);
  }

  /** A finished dump has put exactly the pending records on stdout. */
  lemma LoggedBytes(job: Job, s: State, w: nat, v': Worker)
    requires Inv(job, s) && w < |s.workers| && v'.pending == [] && v'.pos == 0
    requires Partial(s) == Bytes(job, s.workers[w].pending) && s.main != Exited
    ensures var log := s.log + s.workers[w].pending;
      s.out == Bytes(job, log) && Issued(s.issued, log) && (!v'.phase.Dump? ==> WorkerInv(job, v', w))
  {
    BytesConcat(job, s.log, s.workers[w].pending);
    assert Issued(s.issued, s.workers[w].pending);
  }

  lemma MainLockStep(job: Job, s: State)
    requires Inv(job, s) && Enabled(job, s, MainLock)
    ensures Inv(job, Apply(job, s, MainLock))
  {
    hide Bytes, LinesOf, Mine, Trailer;
    assert Partial(Apply(job, s, MainLock)) == Partial(s);
  }

  lemma MainEmitStep(job: Job, s: State, k: nat)
    requires Inv(job, s) && Enabled(job, s, MainEmit(k))
    ensures Inv(job, Apply(job, s, MainEmit(k)))
  {
    hide Bytes, LinesOf, Mine, Trailer;
    EmitSlice(Bytes(job, s.log), s.workers[s.main.t].file, s.main.sent, k);
  }

  lemma MainReleaseStep(job: Job, s: State)
    requires Inv(job, s) && Enabled(job, s, MainRelease)
    ensures Inv(job, Apply(job, s, MainRelease))
  {
    hide LinesOf, Mine, Trailer, Bytes;
    var w := s.main.t;
    assert WorkerInv(job, s.workers[w], w);
    var v' := s.workers[w].(file := "", pos := 0, pending := []);
    LoggedInOrder(job, s, w, v');
    LoggedBytes(job, s, w, v');
    hide InOrder, Issued;
  }

  lemma MineUnfold(job: Job, w: nat, i: nat)
    requires job.threads > 0
    ensures i >= |job.lines| ==> Mine(job, w, i) == []
    ensures i < |job.lines| && Owner(job, i) == w && job.lines[i] == NoType ==> Mine(job, w, i) == []
    ensures i < |job.lines| && Owner(job, i) == w && Serialised(job, i) ==>
      Mine(job, w, i) == [i] + Mine(job, w, i + 1)
    ensures i < |job.lines| && (Owner(job, i) != w || (job.lines[i] != NoType && !Serialised(job, i))) ==>
      Mine(job, w, i) == Mine(job, w, i + 1)
  {
  }

  /** The worker's own part of a turn: its file and its lines keep in step. */
  lemma WorkLocal(job: Job, s: State, w: nat)
    requires Enabled(job, s, Work(w)) && job.threads > 0 && w < |s.workers|
    requires s.workers[w].phase == Scan && s.workers[w].pos <= |s.workers[w].file|
    requires WorkerInv(job, s.workers[w], w) && InOrder(job, s.log, s.workers[w], w)
    requires Issued(s.issued, s.workers[w].pending)
    ensures var s' := WorkOn(job, s, w);
      && WorkerInv(job, s'.workers[w], w) && InOrder(job, s.log, s'.workers[w], w)
      && Issued(s'.issued, s'.workers[w].pending)
  {
    hide *;
    var v := s.workers[w];
    WorkMoves(job, s, w);
    MineUnfold(job, w, v.next);
    if v.next < |job.lines| && Owner(job, v.next) == w && Serialised(job, v.next) {
      SerialiseBytes(job, v, w, |s.issued|);
      SerialiseOrder(job, s.log, v, w, |s.issued|);
      IssuedNext(s.issued, v.pending, v.next);
      assert WorkerAfter(job, v, |s.issued|).pending == v.pending + [Item(v.next, |s.issued|)] by {
        PendingAfter(job, v, |s.issued|);
      }
    } else {
      SkipKeeps(job, s.log, v, WorkOn(job, s, w).workers[w], w);
    }
  }

  /** The two outcomes of a turn for the worker: its next line is in the file, or
      only its place in the table has changed. */
  lemma WorkMoves(job: Job, s: State, w: nat)
    requires Enabled(job, s, Work(w))
    ensures |WorkOn(job, s, w).workers| == |s.workers|
    ensures var v, s' := s.workers[w], WorkOn(job, s, w);
      if v.next < |job.lines| && Owner(job, v.next) == w && Serialised(job, v.next) then
        s'.workers[w] == WorkerAfter(job, v, |s.issued|) && s'.issued == s.issued + [v.next]
      else
        var v' := s'.workers[w];
        && s'.issued == s.issued && v' == v.(next := v'.next, phase := v'.phase) && !v'.phase.Dump?
        && (Mine(job, w, v.next) == if v'.phase == Done then [] else Mine(job, w, v'.next))
  {
    MineUnfold(job, w, s.workers[w].next);
    hide Mine, ItemBytes, Overwrite;
  }

  lemma PendingAfter(job: Job, v: Worker, ticket: nat)
    requires v.pos <= |v.file|
    ensures WorkerAfter(job, v, ticket).pending == v.pending + [Item(v.next, ticket)]
  {
  }

  lemma SkipKeeps(job: Job, log: seq<Item>, v: Worker, v': Worker, w: nat)
    requires job.threads > 0 && WorkerInv(job, v, w) && InOrder(job, log, v, w) && v.phase != Done
    requires v' == v.(next := v'.next, phase := v'.phase) && !v'.phase.Dump?
    requires Mine(job, w, v.next) == if v'.phase == Done then [] else Mine(job, w, v'.next)
    ensures WorkerInv(job, v', w) && InOrder(job, log, v', w)
  {
  }

  lemma IssuedNext(issued: seq<nat>, items: seq<Item>, line: nat)
    requires Issued(issued, items)
    ensures Issued(issued + [line], items + [Item(line, |issued|)])
  {
  }

  function WorkerAfter(job: Job, v: Worker, ticket: nat): Worker
    requires v.pos <= |v.file|
  {
    var item := Item(v.next, ticket);
    var bytes := ItemBytes(job, item);
    Worker(v.next + 1, TryDump, Overwrite(v.file, v.pos, bytes), v.pos + |bytes|, v.pending + [item])
  }

  lemma SerialiseBytes(job: Job, v: Worker, w: nat, ticket: nat)
    requires job.threads > 0 && WorkerInv(job, v, w) && Owner(job, v.next) == w
    ensures WorkerInv(job, WorkerAfter(job, v, ticket), w)
  {
    hide ItemBytes, Overwrite;
    var item := Item(v.next, ticket);
    BytesConcat(job, v.pending, [item]);
    SingleItem(job, item, w);
  }

  lemma SerialiseOrder(job: Job, log: seq<Item>, v: Worker, w: nat, ticket: nat)
    requires job.threads > 0 && v.pos <= |v.file| && Owner(job, v.next) == w
    requires v.phase != Done && InOrder(job, log, v, w)
    requires Mine(job, w, v.next) == [v.next] + Mine(job, w, v.next + 1)
    ensures InOrder(job, log, WorkerAfter(job, v, ticket), w)
  {
    var item := Item(v.next, ticket);
    hide LinesOf, Bytes, Mine, ItemBytes, Overwrite;
    LinesOfConcat(job, v.pending, [item], w);
    SingleItem(job, item, w);
    Regroup(LinesOf(job, log, w), LinesOf(job, v.pending, w), [v.next], Mine(job, w, v.next + 1));
  }

  lemma SingleItem(job: Job, item: Item, w: nat)
    requires job.threads > 0 && Owner(job, item.line) == w
    ensures LinesOf(job, [item], w) == [item.line] && Bytes(job, [item]) == ItemBytes(job, item)
  {
    hide ItemBytes;
    assert LinesOf(job, [], w) == [] && Bytes(job, []) == "";
  }

  lemma Regroup(a: seq<nat>, b: seq<nat>, c: seq<nat>, d: seq<nat>)
    ensures a + (b + c) + d == a + b + (c + d)
  {
  }

  lemma WorkFrame(job: Job, s: State, w: nat)
    requires Enabled(job, s, Work(w))
    ensures var s' := WorkOn(job, s, w);
      && |s'.workers| == |s.workers| && s'.workers == s.workers[w := s'.workers[w]]
      && s'.lock == s.lock && s'.out == s.out && s'.main == s.main && s'.log == s.log
      && s.issued <= s'.issued && !s'.workers[w].phase.Dump?
  {
    hide ItemBytes, Overwrite;
  }

  lemma WorkStep(job: Job, s: State, w: nat)
    requires Inv(job, s) && Enabled(job, s, Work(w))
    ensures Inv(job, Apply(job, s, Work(w)))
  {
    hide Bytes, LinesOf, Mine, Trailer, WorkOn;
    var s' := WorkOn(job, s, w);
    assert WorkerInv(job, s.workers[w], w) && InOrder(job, s.log, s.workers[w], w);
    WorkFrame(job, s, w);
    WorkLocal(job, s, w);
    hide WorkerInv, InOrder;
    assert Partial(s') == Partial(s);
  }

  /** Where a turn leads: on to the attempt to dump after a line of the worker's
      own that has a type, to the end behind the last line or at one of its own
      without a type, else to the next line. */
  lemma TurnLeads(job: Job, s: State, w: nat)
    requires Enabled(job, s, Work(w))
    ensures |WorkOn(job, s, w).workers| == |s.workers|
    ensures var i, v' := s.workers[w].next, WorkOn(job, s, w).workers[w];
      var own := i < |job.lines| && (i + 1) % job.threads == w;
      && (v'.phase == TryDump <==> own && (job.lines[i] == Rejected || job.lines[i].Known?))
      && (v'.phase == Done <==> i >= |job.lines| || (own && job.lines[i] == NoType))
      && (v'.phase == TryDump || v'.phase == Scan ==> v'.next == i + 1)
      && (v'.phase == TryDump || v'.phase == Scan || v'.phase == Done)
  {
    hide ItemBytes, Overwrite;
  }

  // ----- runs

  ghost predicate Steps(job: Job, s: State, s': State) {
    exists a :: Enabled(job, s, a) && s' == Apply(job, s, a)
  }

  /** Any schedule of the threads, any pattern of trylock successes. */
  ghost predicate IsRun(job: Job, run: seq<State>) {
    && run != [] && Init(job, run[0])
    && forall i | 0 <= i < |run| - 1 :: Steps(job, run[i], run[i + 1])
  }

  lemma {:induction false} RunKeepsInv(job: Job, run: seq<State>, i: nat)
    requires job.threads > 0 && IsRun(job, run) && i < |run|
    ensures Inv(job, run[i])
  {
    if i == 0 {
      InvInit(job, run[0]);
    } else {
      RunKeepsInv(job, run, i - 1);
      assert Steps(job, run[i - 1], run[i - 1 + 1]);
      var a :| Enabled(job, run[i - 1], a) && run[i] == Apply(job, run[i - 1], a);
      InvStep(job, run[i - 1], a);
    }
  }

  /** When the program has exited, every worker's lines are in the log, in order. */
  lemma LogIsComplete(job: Job, run: seq<State>, i: nat)
    requires job.threads > 0 && IsRun(job, run) && i < |run| && run[i].main == Exited
    ensures run[i].out == Bytes(job, run[i].log) + Trailer() && Issued(run[i].issued, run[i].log)
    ensures forall w: nat | w < job.threads :: LinesOf(job, run[i].log, w) == Mine(job, w, 0)
  {
    var s := run[i];
    RunKeepsInv(job, run, i);
    forall w: nat | w < job.threads
      ensures LinesOf(job, s.log, w) == Mine(job, w, 0)
    {
      assert InOrder(job, s.log, s.workers[w], w) && s.workers[w].phase == Done && s.workers[w].pending == [];
    }
  }

  /** When the program has exited, its output is the logged records and the
      trailer, decoding it gives the entries of the logged lines, and the logged lines of each worker are the lines it had to
      serialise, in their order. */
  lemma ArchiveIsComplete(job: Job, run: seq<State>, i: nat)
    requires GoodJob(job) && IsRun(job, run) && i < |run| && run[i].main == Exited
    ensures run[i].out == Bytes(job, run[i].log) + Trailer()
    ensures var records := Bytes(job, run[i].log);
      && Decode(records, 0) == Decode(run[i].out, 0) == Some(Entries(job, run[i].log))
      && |records| <= |run[i].out| && IsEnd(run[i].out[|records|..])
    ensures forall w: nat | w < job.threads :: LinesOf(job, run[i].log, w) == Mine(job, w, 0)
  {
    hide Decode, Trailer, Bytes, LinesOf, Mine, Entries, IsRun, IsEnd, Encodable, EncodeAll;
    LogIsComplete(job, run, i);
    BytesAreEncoding(job, run[i].log);
    RoundTrip(Entries(job, run[i].log));
    EndIsWritten(Bytes(job, run[i].log), run[i].out);
  }

  // ----- every run comes to an end

  function Turns(job: Job, v: Worker): nat {
    var left := if v.next < |job.lines| then |job.lines| - v.next else 0;
    match v.phase
    case Done => 0
    case Scan => 4 * left + 1
    case Dump(_) => 4 * left + 2
    case TryDump => 4 * left + 3
  }

  function TotalTurns(job: Job, workers: seq<Worker>): nat {
    if workers == [] then 0 else Turns(job, workers[0]) + TotalTurns(job, workers[1..])
  }

  /** What is left to do apart from emitting bytes: turns of the workers, joins,
      flushes and the trailer. */
  function WorkLeft(job: Job, s: State): nat {
    TotalTurns(job, s.workers) + match s.main
      case Join(t) => if t <= |s.workers| then 2 * (|s.workers| - t) + 1 else 0
      case Flush(t, _) => if t < |s.workers| then 2 * (|s.workers| - t) else 0
      case Exited => 0
  }

  /** The bytes that the dump in progress has not put out yet. */
  function BytesLeft(s: State): nat {
    if s.lock.None? then 0
    else if s.lock.value < |s.workers| then
      var v := s.workers[s.lock.value];
      if v.phase.Dump? && v.phase.sent <= v.pos then v.pos - v.phase.sent else 0
    else if s.main.Flush? && s.main.t < |s.workers| && s.main.sent <= s.workers[s.main.t].pos then
      s.workers[s.main.t].pos - s.main.sent
    else 0
  }

  /** Everything but an attempt to emit that puts out no byte. */
  predicate Productive(a: Action) { a != MainEmit(0) && (a.Emit? ==> a.k > 0) }

  predicate Lower(job: Job, s': State, s: State) {
    WorkLeft(job, s') < WorkLeft(job, s) || (WorkLeft(job, s') == WorkLeft(job, s) && BytesLeft(s') < BytesLeft(s))
  }

  lemma {:induction false} TurnsUpdate(job: Job, workers: seq<Worker>, w: nat, v: Worker)
    requires w < |workers|
    ensures TotalTurns(job, workers[w := v]) + Turns(job, workers[w]) == TotalTurns(job, workers) + Turns(job, v)
  {
    if w > 0 {
      assert workers[w := v][1..] == workers[1..][w - 1 := v];
      TurnsUpdate(job, workers[1..], w - 1, v);
    }
  }

  /** Each productive step of any thread, failed trylocks included, leaves less to do. */
  lemma StepLowers(job: Job, s: State, a: Action)
    requires Inv(job, s) && Enabled(job, s, a) && Productive(a)
    ensures Lower(job, Apply(job, s, a), s)
  {
    hide *;
    match a
    case Work(w) => WorkLowers(job, s, w);
    case Trylock(w, _) => DumpLowers(job, s, w, a);
    case Emit(w, _) => DumpLowers(job, s, w, a);
    case Release(w) => DumpLowers(job, s, w, a);
    case MainRelease => MainReleaseLowers(job, s);
    case _ => MainLowers(job, s, a);
  }

  lemma WorkLowers(job: Job, s: State, w: nat)
    requires Inv(job, s) && Enabled(job, s, Work(w))
    ensures Lower(job, Apply(job, s, Work(w)), s)
  {
    hide WorkerInv, InOrder, Issued, MainInv, Bytes, Trailer, TotalTurns, WorkOn, Turns, Partial;
    var s' := WorkOn(job, s, w);
    WorkFrame(job, s, w);
    TurnLowers(job, s, w);
    TurnsUpdate(job, s.workers, w, s'.workers[w]);
  }

  lemma TurnLowers(job: Job, s: State, w: nat)
    requires Enabled(job, s, Work(w))
    ensures |WorkOn(job, s, w).workers| == |s.workers|
    ensures Turns(job, WorkOn(job, s, w).workers[w]) < Turns(job, s.workers[w])
  {
    hide ItemBytes, Overwrite;
  }

  lemma DumpLowers(job: Job, s: State, w: nat, a: Action)
    requires Inv(job, s) && Enabled(job, s, a) && Productive(a)
    requires (a.Trylock? && a.w == w) || (a.Emit? && a.w == w) || a == Release(w)
    ensures Lower(job, Apply(job, s, a), s)
  {
    hide WorkerInv, InOrder, Issued, MainInv, ItemBytes, Overwrite, Bytes, Trailer, TotalTurns, WorkOn, Partial;
    var s' := Apply(job, s, a);
    assert s'.workers == s.workers[w := s'.workers[w]];
    TurnsUpdate(job, s.workers, w, s'.workers[w]);
  }

  lemma MainReleaseLowers(job: Job, s: State)
    requires Inv(job, s) && Enabled(job, s, MainRelease)
    ensures Lower(job, Apply(job, s, MainRelease), s)
  {
    hide WorkerInv, InOrder, Issued, ItemBytes, Overwrite, Bytes, Trailer, TotalTurns;
    TurnsUpdate(job, s.workers, s.main.t, Apply(job, s, MainRelease).workers[s.main.t]);
  }

  /** The other steps of main leave the workers alone. */
  lemma MainLowers(job: Job, s: State, a: Action)
    requires Inv(job, s) && Enabled(job, s, a) && Productive(a) && (a.MainLock? || a.MainEmit? || a.MainTrailer?)
    ensures Lower(job, Apply(job, s, a), s)
  {
    hide WorkerInv, InOrder, Issued, Bytes, Trailer, TotalTurns;
  }

  /** Until the program exits some thread has a productive step, and if the lock
      is free it is not a failing trylock: the threads cannot block each other. */
  lemma NotStuck(job: Job, s: State) returns (a: Action)
    requires Inv(job, s) && s.main != Exited
    ensures Enabled(job, s, a) && Productive(a) && (a.Trylock? ==> a.success)
  {
    hide InOrder, Issued, Bytes, Trailer, Partial;
    if s.lock.Some? && s.lock.value < |s.workers| {
      var w := s.lock.value;
      var v := s.workers[w];
      assert WorkerInv(job, v, w);
      a := if v.phase.sent < v.pos then Emit(w, v.pos - v.phase.sent) else Release(w);
    } else if s.lock.Some? {
      var v := s.workers[s.main.t];
      assert WorkerInv(job, v, s.main.t);
      a := if s.main.sent < v.pos then MainEmit(v.pos - s.main.sent) else MainRelease;
    } else if w :| 0 <= w < |s.workers| && s.workers[w].phase != Done {
      assert WorkerInv(job, s.workers[w], w);
      a := if s.workers[w].phase == Scan then Work(w) else Trylock(w, true);
    } else {
      a := if s.main.t < |s.workers| then MainLock else MainTrailer;
    }
  }

  /** Every run, at whatever point it has come to, goes on to one that exits. */
  lemma {:induction false} RunExits(job: Job, run: seq<State>) returns (longer: seq<State>)
    requires job.threads > 0 && IsRun(job, run)
    ensures run <= longer && IsRun(job, longer) && longer[|longer| - 1].main == Exited
    decreases WorkLeft(job, run[|run| - 1]), BytesLeft(run[|run| - 1])
  {
    hide Inv, Enabled, Apply, Init, WorkLeft, BytesLeft;
    var s := run[|run| - 1];
    RunKeepsInv(job, run, |run| - 1);
    if s.main == Exited {
      longer := run;
    } else {
      var a := NotStuck(job, s);
      StepLowers(job, s, a);
      var next := run + [Apply(job, s, a)];
      forall i | 0 <= i < |next| - 1
        ensures Steps(job, next[i], next[i + 1])
      {
        if i < |run| - 1 {
          assert Steps(job, run[i], run[i + 1]);
        }
      }
      longer := RunExits(job, next);
    }
  }

  lemma LinesOfAt(job: Job, items: seq<Item>, w: nat, a: nat) returns (k: nat)
    requires job.threads > 0 && a < |items| && Owner(job, items[a].line) == w
    ensures k == |LinesOf(job, items[..a], w)| < |LinesOf(job, items, w)|
    ensures LinesOf(job, items, w)[k] == items[a].line
  {
    assert items == items[..a] + items[a..];
    LinesOfConcat(job, items[..a], items[a..], w);
    k := |LinesOf(job, items[..a], w)|;
  }

  lemma {:induction false} LinesOfMember(job: Job, items: seq<Item>, w: nat, line: nat)
    requires job.threads > 0 && line in LinesOf(job, items, w)
    ensures exists a :: 0 <= a < |items| && items[a].line == line
  {
    if items[0].line != line {
      LinesOfMember(job, items[1..], w, line);
      var a :| 0 <= a < |items[1..]| && items[1..][a].line == line;
      assert items[a + 1].line == line;
    }
  }

  /** No line is logged twice, since each worker's lines only go up. */
  lemma LoggedOnce(job: Job, log: seq<Item>, a: nat, b: nat)
    requires job.threads > 0 && a < b < |log|
    requires forall w: nat | w < job.threads :: LinesOf(job, log, w) == Mine(job, w, 0)
    ensures log[a].line != log[b].line
  {
    if log[a].line == log[b].line {
      var w := Owner(job, log[a].line);
      var j := LinesOfAt(job, log, w, a);
      var k := LinesOfAt(job, log, w, b);
      var i := LinesOfAt(job, log[..b], w, a);
      assert log[..b][..a] == log[..a];
      MineIncreases(job, w, 0);
    }
  }

  /** Each line that had to be serialised is in the archive, no other line is, and
      none is there twice. */
  lemma EachLineOnce(job: Job, run: seq<State>, i: nat, line: nat)
    requires job.threads > 0 && IsRun(job, run) && i < |run| && run[i].main == Exited
    ensures var log := run[i].log;
      && (line in Mine(job, Owner(job, line), 0) <==> exists a :: 0 <= a < |log| && log[a].line == line)
      && (forall a, b | 0 <= a < b < |log| :: log[a].line != log[b].line)
  {
    hide Mine, LinesOf, Owner, IsRun, Trailer, Bytes;
    var log := run[i].log;
    LogIsComplete(job, run, i);
    if line in Mine(job, Owner(job, line), 0) {
      LinesOfMember(job, log, Owner(job, line), line);
    } else if a :| 0 <= a < |log| && log[a].line == line {
      var k := LinesOfAt(job, log, Owner(job, line), a);
    }
    forall a, b | 0 <= a < b < |log|
      ensures log[a].line != log[b].line
    {
      LoggedOnce(job, log, a, b);
    }
  }

  /** The members that stand in the archive for a logged line are those that the
      line asks for, under the inode number that it was given. */
  lemma ItemsDescribed(job: Job, run: seq<State>, i: nat, x: Item)
    requires GoodJob(job) && IsRun(job, run) && i < |run| && run[i].main == Exited && x in run[i].log
    ensures x.line < |job.lines| && job.lines[x.line].Known?
    ensures x.ticket < |run[i].issued| && run[i].issued[x.ticket] == x.line
    ensures Describes(job.lines[x.line].c, (721 + x.ticket) % 0x1_0000_0000, job.mtime, ItemEntries(job, x))
  {
    var log := run[i].log;
    hide IsRun, Trailer, Bytes, Mine, LinesOf, Owner, Describes, EntriesOf, GoodLine;
    LogIsComplete(job, run, i);
    var a :| 0 <= a < |log| && log[a] == x;
    var w := Owner(job, x.line);
    var k := LinesOfAt(job, log, w, a);
    MineMeaning(job, w, 0, x.line);
    var c := job.lines[x.line].c;
    if c.File? {
      GoodNames(c);
    }
    EntriesDescribe(c, ItemInode(x), job.mtime);
  }

  /** Different lines have different inodes modulo 2^32, as long as no more than
      that many were handed out. */
  lemma InodesDiffer(job: Job, run: seq<State>, i: nat, a: nat, b: nat)
    requires job.threads > 0 && IsRun(job, run) && i < |run| && run[i].main == Exited
    requires |run[i].issued| <= U32_LIMIT && a < b < |run[i].log|
    ensures ItemInode(run[i].log[a]) != ItemInode(run[i].log[b])
  {
    hide Mine, LinesOf, Owner, IsRun, Trailer, Bytes;
    var log := run[i].log;
    LogIsComplete(job, run, i);
    LoggedOnce(job, log, a, b);
    assert log[a] in log && log[b] in log;
    DistinctTickets(log[a].ticket, log[b].ticket);
  }

  lemma DistinctTickets(t: nat, u: nat)
    requires t < U32_LIMIT && u < U32_LIMIT && t != u
    ensures (FIRST_INODE + t) % U32_LIMIT != (FIRST_INODE + u) % U32_LIMIT
  {
  }
}
