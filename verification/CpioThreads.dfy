/** The loops of gen_init_cpio.c in their own form: the body of one worker thread
    and what main does once all workers are done. They run on the streams of
    CpioWriter; CpioParallel takes them apart into steps and interleaves them. */
module CpioThreads {
  import opened CpioFormat
  import opened CpioWriter
  import opened CpioParallel

  /** Tickets in the order in which they were taken. */
  predicate Consecutive(items: seq<Item>, first: nat) {
    forall k | 0 <= k < |items| :: items[k].ticket == first + k
  }

  /** The handler call of one line: it appends the bytes of its item, or nothing. */
  method SerialiseLine(job: Job, i: nat, fp: Stream, inodes: InodeCounter, ghost ticket: nat)
    requires GoodJob(job) && i < |job.lines| && job.lines[i].Known?
    requires fp.Valid() && fp.offset % 4 == 0 && inodes.next == (FIRST_INODE + ticket) % U32_LIMIT
    modifies fp, inodes
    ensures fp.Valid() && fp.offset % 4 == 0
    ensures fp.Written() == old(fp.Written()) + if Serialised(job, i) then ItemBytes(job, Item(i, ticket)) else ""
    ensures inodes.next == (FIRST_INODE + ticket + if Serialised(job, i) then 1 else 0) % U32_LIMIT
  {
    hide EncodeAll, EntriesOf, AllEncodable, GoodLine, Accepted, Added, Describes;
    var c := job.lines[i].c;
    assert job.lines[i] in job.lines;
    var rc := Handle(fp, inodes, c, job.mtime);
  }

  /** A line after which worker w tries to dump: one of its own, neither a comment
      nor blank, and no line without a type before. */
  predicate Attempts(job: Job, w: nat, k: nat)
    requires job.threads > 0
  {
    && k < |job.lines| && (k + 1) % job.threads == w
    && job.lines[k] != Comment && job.lines[k] != Blank && job.lines[k] != NoType
    && NoStop(job, w, k)
  }

  /** No line of worker w in front of line n is without a type. */
  predicate NoStop(job: Job, w: nat, n: nat)
    requires job.threads > 0 && n <= |job.lines|
  {
    forall j: nat | j < n && (j + 1) % job.threads == w :: job.lines[j] != NoType
  }

  /** In front of line n some attempt has succeeded since the item was serialised. */
  ghost predicate DumpedBefore(job: Job, w: nat, locked: seq<bool>, x: Item, n: int)
    requires job.threads > 0 && |locked| == |job.lines|
  {
    exists k: nat :: x.line <= k < n && Attempts(job, w, k) && !locked[k]
  }

  ghost predicate DumpState(job: Job, w: nat, locked: seq<bool>, dumped: seq<Item>, pending: seq<Item>, n: int)
    requires job.threads > 0 && |locked| == |job.lines|
  {
    && (forall x | x in dumped :: DumpedBefore(job, w, locked, x, n))
    && (forall x | x in pending :: x.line < n && !DumpedBefore(job, w, locked, x, n))
  }

  lemma NoAttempt(job: Job, w: nat, locked: seq<bool>, dumped: seq<Item>, pending: seq<Item>, i: nat)
    requires job.threads > 0 && |locked| == |job.lines| && DumpState(job, w, locked, dumped, pending, i)
    requires !Attempts(job, w, i)
    ensures DumpState(job, w, locked, dumped, pending, i + 1)
  {
    hide Attempts;
    forall x | x in dumped
      ensures DumpedBefore(job, w, locked, x, i + 1)
    {
      assert DumpedBefore(job, w, locked, x, i);
    }
    forall x | x in pending
      ensures !DumpedBefore(job, w, locked, x, i + 1)
    {
      assert !DumpedBefore(job, w, locked, x, i);
    }
  }

  lemma OneAttempt(job: Job, w: nat, locked: seq<bool>, dumped: seq<Item>, before: seq<Item>, pending: seq<Item>, i: nat)
    requires job.threads > 0 && |locked| == |job.lines| && DumpState(job, w, locked, dumped, before, i)
    requires Attempts(job, w, i) && forall x | x in pending :: x in before || x.line == i
    ensures locked[i] ==> DumpState(job, w, locked, dumped, pending, i + 1)
    ensures !locked[i] ==> DumpState(job, w, locked, dumped + pending, [], i + 1)
  {
    assert i < |job.lines|;
    hide Attempts;
    forall x | x in dumped
      ensures DumpedBefore(job, w, locked, x, i + 1)
    {
      assert DumpedBefore(job, w, locked, x, i);
    }
    forall x | x in pending
      ensures x.line < i + 1 && (DumpedBefore(job, w, locked, x, i + 1) <==> !locked[i])
    {
      if x in before {
        assert x.line < i && !DumpedBefore(job, w, locked, x, i);
      }
    }
  }

  /** At a line without a type the worker stops, so no attempt comes later. */
  lemma Stopped(job: Job, w: nat, locked: seq<bool>, dumped: seq<Item>, pending: seq<Item>, i: nat)
    requires job.threads > 0 && |locked| == |job.lines| && i <= |job.lines|
    requires DumpState(job, w, locked, dumped, pending, i)
    requires i < |job.lines| ==> (i + 1) % job.threads == w && job.lines[i] == NoType
    ensures forall x | x in dumped :: DumpedBefore(job, w, locked, x, |job.lines|)
    ensures forall x | x in pending :: !DumpedBefore(job, w, locked, x, |job.lines|)
  {
    assert forall k: nat | k >= i :: !Attempts(job, w, k);
    hide Attempts;
    forall x | x in dumped
      ensures DumpedBefore(job, w, locked, x, |job.lines|)
    {
      assert DumpedBefore(job, w, locked, x, i);
    }
    forall x | x in pending
      ensures !DumpedBefore(job, w, locked, x, |job.lines|)
    {
      assert !DumpedBefore(job, w, locked, x, i);
    }
  }

  /** A line of the worker's own: its item, if there is one, is pending now. */
  method WorkOnLine(job: Job, myId: nat, i: nat, fp: Stream, inodes: InodeCounter,
                    ghost taken: nat, ghost dumped: seq<Item>, ghost before: seq<Item>)
      returns (ghost pending: seq<Item>)
    requires GoodJob(job) && i < |job.lines| && job.lines[i].Known? && Owner(job, i) == myId
    requires fp.Valid() && fp.offset % 4 == 0 && fp.Written() == Bytes(job, before)
    requires Consecutive(dumped + before, taken)
    requires inodes.next == (FIRST_INODE + taken + |dumped + before|) % U32_LIMIT
    modifies fp, inodes
    ensures fp.Valid() && fp.offset % 4 == 0 && fp.Written() == Bytes(job, pending)
    ensures Consecutive(dumped + pending, taken)
    ensures inodes.next == (FIRST_INODE + taken + |dumped + pending|) % U32_LIMIT
    ensures forall x | x in pending :: x in before || x.line == i
    ensures LinesOf(job, dumped + pending, myId) + Mine(job, myId, i + 1)
         == LinesOf(job, dumped + before, myId) + Mine(job, myId, i)
  {
    hide Bytes, ItemBytes, LinesOf, Mine, GoodLine, Accepted;
    ghost var item := Item(i, taken + |dumped + before|);
    SerialiseLine(job, i, fp, inodes, item.ticket);
    MineUnfold(job, myId, i);
    pending := before;
    if Serialised(job, i) {
      OneMore(job, dumped, before, item, Mine(job, myId, i + 1), myId);
      pending := before + [item];
    }
  }

  /** One worker on its own, taken inode numbers having been handed out before.
      locked says at which lines the trylock fails. What it dumps and what it
      leaves in its file are, one behind the other, the records of its lines; left
      in the file are those since whose line no trylock has succeeded. */
  method WorkerThreadRoutine(job: Job, myId: nat, fp: Stream, out: Stream, inodes: InodeCounter,
                             locked: seq<bool>, ghost taken: nat)
      returns (ghost dumped: seq<Item>, ghost pending: seq<Item>)
    requires GoodJob(job) && myId < job.threads && |locked| == |job.lines|
    requires fp != out && fp.Valid() && out.Valid() && fp.Written() == "" && fp.offset == 0
    requires inodes.next == (FIRST_INODE + taken) % U32_LIMIT
    modifies fp, out, inodes
    ensures fp.Valid() && out.Valid() && fp.offset % 4 == 0
    ensures out.Written() == old(out.Written()) + Bytes(job, dumped) && fp.Written() == Bytes(job, pending)
    ensures LinesOf(job, dumped + pending, myId) == Mine(job, myId, 0)
    ensures forall x | x in dumped :: DumpedBefore(job, myId, locked, x, |job.lines|)
    ensures forall x | x in pending :: !DumpedBefore(job, myId, locked, x, |job.lines|)
    ensures Consecutive(dumped + pending, taken)
    ensures inodes.next == (FIRST_INODE + taken + |dumped + pending|) % U32_LIMIT
  {
    hide Bytes, ItemBytes, LinesOf, Mine, GoodLine, GoodJob, Accepted, DumpState, DumpedBefore;
    dumped, pending := [], [];
    Nothing(job, myId);
    NothingDumped(job, myId, locked);
    var i := 0;
    while i < |job.lines|
      invariant 0 <= i <= |job.lines|
      invariant fp.Valid() && out.Valid() && fp.offset % 4 == 0
      invariant out.Written() == old(out.Written()) + Bytes(job, dumped) && fp.Written() == Bytes(job, pending)
      invariant LinesOf(job, dumped + pending, myId) + Mine(job, myId, i) == Mine(job, myId, 0)
      invariant NoStop(job, myId, i) && DumpState(job, myId, locked, dumped, pending, i)
      invariant Consecutive(dumped + pending, taken)
      invariant inodes.next == (FIRST_INODE + taken + |dumped + pending|) % U32_LIMIT
    {
      MineUnfold(job, myId, i);
      var lineNr := i + 1;
      var line := job.lines[i];
      if lineNr % job.threads != myId || line.Comment? || line.Blank? {
        NoAttempt(job, myId, locked, dumped, pending, i);
        i := i + 1;
        continue;
      }
      if line.NoType? {
        break;
      }
      ghost var before := pending;
      if line.Known? {
        pending := WorkOnLine(job, myId, i, fp, inodes, taken, dumped, pending);
      }
      TryDumpToStdout(fp, out, locked[i]);
      OneAttempt(job, myId, locked, dumped, before, pending, i);
      if !locked[i] {
        Dumped(job, dumped, pending);
        dumped, pending := dumped + pending, [];
      }
      i := i + 1;
    }
    Stopped(job, myId, locked, dumped, pending, i);
    MineUnfold(job, myId, i);
    assert LinesOf(job, dumped + pending, myId) + [] == LinesOf(job, dumped + pending, myId);
  }

  lemma NothingDumped(job: Job, w: nat, locked: seq<bool>)
    requires job.threads > 0 && |locked| == |job.lines|
    ensures DumpState(job, w, locked, [], [], 0)
  {
  }

  lemma Nothing(job: Job, w: nat)
    requires job.threads > 0
    ensures Bytes(job, []) == "" && LinesOf(job, [] + [], w) + Mine(job, w, 0) == Mine(job, w, 0)
  {
  }

  /** A line that is serialised now is behind all that the worker has done before. */
  lemma OneMore(job: Job, dumped: seq<Item>, pending: seq<Item>, item: Item, rest: seq<nat>, w: nat)
    requires job.threads > 0 && Owner(job, item.line) == w
    ensures dumped + (pending + [item]) == dumped + pending + [item]
    ensures Bytes(job, pending + [item]) == Bytes(job, pending) + ItemBytes(job, item)
    ensures LinesOf(job, dumped + (pending + [item]), w) + rest
         == LinesOf(job, dumped + pending, w) + ([item.line] + rest)
  {
    hide Bytes, ItemBytes, LinesOf;
    assert dumped + (pending + [item]) == dumped + pending + [item];
    assert LinesOf(job, dumped + pending, w) + [] == LinesOf(job, dumped + pending, w);
    BytesConcat(job, pending, [item]);
    LinesOfConcat(job, dumped + pending, [item], w);
    SingleItem(job, item, w);
    Regroup(LinesOf(job, dumped + pending, w), [], [item.line], rest);
  }

  lemma Dumped(job: Job, dumped: seq<Item>, pending: seq<Item>)
    ensures Bytes(job, dumped + pending) == Bytes(job, dumped) + Bytes(job, pending) && Bytes(job, []) == ""
    ensures dumped + pending + [] == dumped + pending
  {
    BytesConcat(job, dumped, pending);
  }

  /** What the workers' files still hold, in the order in which main joins them. */
  ghost function Leftovers(states: seq<Stream>): string
    reads states
    requires forall fp | fp in states :: fp.Valid()
  {
    if states == [] then "" else Leftovers(states[..|states| - 1]) + states[|states| - 1].Written()
  }

  /** main after the joins: every file is flushed in turn, then the trailer. */
  method FinishArchive(states: seq<Stream>, out: Stream)
    requires out.Valid() && out !in states && forall fp | fp in states :: fp.Valid()
    modifies out, states
    ensures out.Valid()
    ensures out.Written() == old(out.Written()) + old(Leftovers(states)) + Trailer()
    ensures IsEnd(out.Written()[|old(out.Written()) + old(Leftovers(states))|..])
  {
    var i := 0;
    while i < |states|
      invariant 0 <= i <= |states| && out.Valid()
      invariant forall fp | fp in states :: fp.Valid() && fp.Written() == old(fp.Written())
      invariant out.Written() == old(out.Written()) + old(Leftovers(states[..i]))
    {
      var n := WriteToStdout(states[i], out);
      assert states[..i + 1][..i] == states[..i];
      i := i + 1;
    }
    assert states[..i] == states;
    out.offset := 0;
    out.CpioTrailer();
  }
}
