/** The allocation accounting of malloc_stats.c: a counter pair for each tag, the
    list of tags in the order they were first seen, and the table of tracked
    pointers. */
module MallocStats {

  /** Counters are 64 bits wide and wrap around. */
  const MODULUS := 0x1_0000_0000_0000_0000

  type U64 = x: nat | x < MODULUS

  function Next(x: U64): U64 { (x + 1) % MODULUS }

  /** Addresses; 0 is NULL. */
  type Ptr = nat

  datatype Stat = Stat(nrAllocs: U64, nrFrees: U64)

  datatype Data = Data(tag: string, size: int)

  /** The three tables. */
  datatype Tables = Tables(names: seq<string>, stats: map<string, Stat>, track: map<Ptr, Data>)

  const EMPTY := Tables([], map[], map[])

  // ----- what the operations do to the tables

  function AfterAlloc(t: Tables, ptr: Ptr, size: int, tag: string): Tables {
    var track := t.track[ptr := Data(tag, size)];
    if tag in t.stats then
      Tables(t.names, t.stats[tag := t.stats[tag].(nrAllocs := Next(t.stats[tag].nrAllocs))], track)
    else
      Tables(t.names + [tag], t.stats[tag := Stat(1, 0)], track)
  }

  function AfterFree(t: Tables, ptr: Ptr): Tables {
    if ptr !in t.track then t
    else
      var tag := t.track[ptr].tag;
      Tables(t.names,
             if tag in t.stats then t.stats[tag := t.stats[tag].(nrFrees := Next(t.stats[tag].nrFrees))] else t.stats,
             t.track - {ptr})
  }

  // ----- the accounting

  function Tracked(t: Tables, tag: string): set<Ptr> {
    set p | p in t.track && t.track[p].tag == tag
  }

  /** What print_stats shows for a tag: the difference as an unsigned number. */
  function Live(s: Stat): U64 { (s.nrAllocs - s.nrFrees) % MODULUS }

  /** Each tag that was seen is listed once and has a counter pair; the difference
      of the pair counts the tracked pointers that carry the tag. */
  ghost predicate Balanced(t: Tables) {
    && (forall tag :: tag in t.names <==> tag in t.stats)
    && (forall i, j | 0 <= i < j < |t.names| :: t.names[i] != t.names[j])
    && (forall p | p in t.track :: t.track[p].tag in t.stats)
    && forall tag | tag in t.stats :: Live(t.stats[tag]) == |Tracked(t, tag)| % MODULUS
  }

  lemma CountUp(s: Stat, n: nat)
    requires Live(s) == n % MODULUS
    ensures Live(s.(nrAllocs := Next(s.nrAllocs))) == (n + 1) % MODULUS
    ensures n > 0 ==> Live(s.(nrFrees := Next(s.nrFrees))) == (n - 1) % MODULUS
  {
    StepRemainder(s.nrAllocs, s.nrFrees, n);
  }

  /** Counting one up or down, before or after the reduction, is the same. */
  lemma StepRemainder(a: int, b: int, n: int)
    requires (a - b) % MODULUS == n % MODULUS
    ensures ((a + 1) % MODULUS - b) % MODULUS == (n + 1) % MODULUS
    ensures (a - (b + 1) % MODULUS) % MODULUS == (n - 1) % MODULUS
  {
    var k := (a - b) / MODULUS - n / MODULUS;
    SameRemainder((a + 1) % MODULUS - b, n + 1, k - (a + 1) / MODULUS);
    SameRemainder(a - (b + 1) % MODULUS, n - 1, k + (b + 1) / MODULUS);
  }

  lemma SameRemainder(x: int, y: int, k: int)
    requires x == y + k * MODULUS
    ensures x % MODULUS == y % MODULUS
  {
  }

  /** A pointer that is not tracked yet keeps the balance. */
  lemma AllocKeepsBalance(t: Tables, ptr: Ptr, size: int, tag: string)
    requires Balanced(t) && ptr !in t.track
    ensures Balanced(AfterAlloc(t, ptr, size, tag))
  {
    var t' := AfterAlloc(t, ptr, size, tag);
    AllocTracks(t, ptr, size, tag);
    hide AfterAlloc, Tracked, Live;
    forall other | other in t'.stats
      ensures Live(t'.stats[other]) == |Tracked(t', other)| % MODULUS
    {
      if other == tag && tag in t.stats {
        CountUp(t.stats[tag], |Tracked(t, tag)|);
      }
    }
  }

  lemma AllocTracks(t: Tables, ptr: Ptr, size: int, tag: string)
    requires Balanced(t) && ptr !in t.track
    ensures var t' := AfterAlloc(t, ptr, size, tag);
      && t'.stats == t.stats[tag := if tag in t.stats then t.stats[tag].(nrAllocs := Next(t.stats[tag].nrAllocs)) else Stat(1, 0)]
      && t'.track == t.track[ptr := Data(tag, size)]
      && t'.names == (if tag in t.stats then t.names else t.names + [tag])
      && |Tracked(t', tag)| == |Tracked(t, tag)| + 1
      && (forall other | other != tag :: Tracked(t', other) == Tracked(t, other))
      && (tag !in t.stats ==> Tracked(t, tag) == {} && Live(t'.stats[tag]) == 1)
  {
    hide Tracked;
    TrackedGains(t, AfterAlloc(t, ptr, size, tag), ptr, size, tag);
    if tag !in t.stats {
      NoneTracked(t, tag);
    }
  }

  lemma TrackedGains(t: Tables, t': Tables, ptr: Ptr, size: int, tag: string)
    requires ptr !in t.track && t'.track == t.track[ptr := Data(tag, size)]
    ensures |Tracked(t', tag)| == |Tracked(t, tag)| + 1
    ensures forall other | other != tag :: Tracked(t', other) == Tracked(t, other)
  {
    assert Tracked(t', tag) == Tracked(t, tag) + {ptr};
  }

  lemma TrackedLoses(t: Tables, t': Tables, ptr: Ptr)
    requires ptr in t.track && t'.track == t.track - {ptr}
    ensures |Tracked(t', t.track[ptr].tag)| == |Tracked(t, t.track[ptr].tag)| - 1
    ensures forall other | other != t.track[ptr].tag :: Tracked(t', other) == Tracked(t, other)
  {
    var tag := t.track[ptr].tag;
    assert ptr in Tracked(t, tag) && Tracked(t', tag) == Tracked(t, tag) - {ptr};
  }

  lemma NoneTracked(t: Tables, tag: string)
    requires Balanced(t) && tag !in t.stats
    ensures Tracked(t, tag) == {}
  {
  }

  /** Tracking the same pointer again, as happens when malloc fails twice and NULL
      is recorded, breaks it: so the balance is kept exactly by new pointers. */
  lemma AllocBalanceExact(t: Tables, ptr: Ptr, size: int, tag: string)
    requires Balanced(t)
    ensures Balanced(AfterAlloc(t, ptr, size, tag)) <==> ptr !in t.track
  {
    if ptr !in t.track {
      AllocKeepsBalance(t, ptr, size, tag);
    } else if t.track[ptr].tag == tag {
      TrackedAgain(t, ptr, size, tag);
    } else {
      TagLost(t, ptr, size, tag);
    }
  }

  /** The counters go up and the number of pointers stays. */
  lemma TrackedAgain(t: Tables, ptr: Ptr, size: int, tag: string)
    requires Balanced(t) && ptr in t.track && t.track[ptr].tag == tag
    ensures !Balanced(AfterAlloc(t, ptr, size, tag))
  {
    var t' := AfterAlloc(t, ptr, size, tag);
    assert Tracked(t', tag) == Tracked(t, tag);
    CountUp(t.stats[tag], |Tracked(t, tag)|);
    OneMoreDiffers(|Tracked(t, tag)|);
  }

  /** The tag that the pointer had loses it, and its counters stay. */
  lemma TagLost(t: Tables, ptr: Ptr, size: int, tag: string)
    requires Balanced(t) && ptr in t.track && t.track[ptr].tag != tag
    ensures !Balanced(AfterAlloc(t, ptr, size, tag))
  {
    hide Live;
    var t', was := AfterAlloc(t, ptr, size, tag), t.track[ptr].tag;
    assert t'.stats[was] == t.stats[was] && |Tracked(t, was)| == |Tracked(t', was)| + 1 by {
      assert ptr in Tracked(t, was) && Tracked(t', was) == Tracked(t, was) - {ptr};
    }
    OneMoreDiffers(|Tracked(t', was)|);
  }

  /** The failing case: malloc returns NULL for two allocations of one tag. The
      counters then say 2, while NULL is tracked once. */
  lemma TwoFailuresUnbalance()
    ensures var t := Run([DoAlloc(0, 8, "a"), DoAlloc(0, 8, "a")]);
      t.stats["a"] == Stat(2, 0) && Tracked(t, "a") == {0} && !Balanced(t)
  {
    var op := DoAlloc(0, 8, "a");
    assert [op, op][..1] == [op] && [op][..0] == [];
    assert Run([]) == EMPTY;
    assert Run([op]) == AfterAlloc(EMPTY, 0, 8, "a");
    AllocKeepsBalance(EMPTY, 0, 8, "a");
    AllocBalanceExact(Run([op]), 0, 8, "a");
  }

  lemma OneMoreDiffers(n: nat)
    ensures (n + 1) % MODULUS != n % MODULUS
  {
  }

  lemma FreeKeepsBalance(t: Tables, ptr: Ptr)
    requires Balanced(t)
    ensures Balanced(AfterFree(t, ptr))
  {
    hide Tracked, Live;
    if ptr in t.track {
      var t', tag := AfterFree(t, ptr), t.track[ptr].tag;
      TrackedLoses(t, t', ptr);
      CountUp(t.stats[tag], |Tracked(t, tag)|);
      forall other | other in t'.stats
        ensures Live(t'.stats[other]) == |Tracked(t', other)| % MODULUS
      {
        assert other != tag ==> t'.stats[other] == t.stats[other];
      }
    }
  }

  // ----- sequences of operations

  datatype Op = DoAlloc(ptr: Ptr, size: int, tag: string) | DoFree(ptr: Ptr)

  function Run(ops: seq<Op>): Tables {
    if ops == [] then EMPTY
    else
      var t, op := Run(ops[..|ops| - 1]), ops[|ops| - 1];
      match op
      case DoAlloc(ptr, size, tag) => AfterAlloc(t, ptr, size, tag)
      case DoFree(ptr) => AfterFree(t, ptr)
  }

  /** malloc hands out pointers that are not in use. */
  ghost predicate FreshPointers(ops: seq<Op>) {
    forall i | 0 <= i < |ops| && ops[i].DoAlloc? :: ops[i].ptr !in Run(ops[..i]).track
  }

  /** The tags of the allocations, each at its first appearance. */
  function FirstSeen(ops: seq<Op>): seq<string> {
    if ops == [] then []
    else
      var seen, op := FirstSeen(ops[..|ops| - 1]), ops[|ops| - 1];
      if op.DoAlloc? && op.tag !in seen then seen + [op.tag] else seen
  }

  lemma {:induction false} NamesAreFirstSeen(ops: seq<Op>)
    ensures Run(ops).names == FirstSeen(ops)
    ensures forall tag :: tag in Run(ops).names <==> tag in Run(ops).stats
  {
    if ops != [] {
      NamesAreFirstSeen(ops[..|ops| - 1]);
    }
  }

  /** After any sequence of allocations and frees the counters agree with the
      table of tracked pointers, and the tags are listed in first-seen order. */
  lemma {:induction false} RunIsBalanced(ops: seq<Op>)
    requires FreshPointers(ops)
    ensures Balanced(Run(ops)) && Run(ops).names == FirstSeen(ops)
  {
    NamesAreFirstSeen(ops);
    if ops != [] {
      var n := |ops| - 1;
      forall i | 0 <= i < n && ops[..n][i].DoAlloc?
        ensures ops[..n][i].ptr !in Run(ops[..n][..i]).track
      {
        assert ops[..n][..i] == ops[..i];
      }
      RunIsBalanced(ops[..n]);
      match ops[n]
      case DoAlloc(ptr, size, tag) => AllocKeepsBalance(Run(ops[..n]), ptr, size, tag);
      case DoFree(ptr) => FreeKeepsBalance(Run(ops[..n]), ptr);
    }
  }

  // ----- what the counters count

  /** How many of the operations allocate under the tag. */
  function Allocs(ops: seq<Op>, tag: string): nat {
    if ops == [] then 0
    else
      var op := ops[|ops| - 1];
      Allocs(ops[..|ops| - 1], tag) + if op.DoAlloc? && op.tag == tag then 1 else 0
  }

  datatype Use = Unused | Used(data: Data)

  /** What a pointer was last allocated for, if it was not freed since. */
  function UseOf(ops: seq<Op>, ptr: Ptr): Use {
    if ops == [] then Unused
    else match ops[|ops| - 1]
      case DoAlloc(q, size, tag) => if q == ptr then Used(Data(tag, size)) else UseOf(ops[..|ops| - 1], ptr)
      case DoFree(q) => if q == ptr then Unused else UseOf(ops[..|ops| - 1], ptr)
  }

  /** How many of the operations free a pointer that was in use under the tag. */
  function Frees(ops: seq<Op>, tag: string): nat {
    if ops == [] then 0
    else
      var before, op := ops[..|ops| - 1], ops[|ops| - 1];
      Frees(before, tag) +
        if op.DoFree? && UseOf(before, op.ptr).Used? && UseOf(before, op.ptr).data.tag == tag then 1 else 0
  }

  /** The table of tracked pointers holds the pointers in use. */
  lemma {:induction false} TrackedAreInUse(ops: seq<Op>, ptr: Ptr)
    ensures UseOf(ops, ptr) == if ptr in Run(ops).track then Used(Run(ops).track[ptr]) else Unused
  {
    if ops != [] {
      TrackedAreInUse(ops[..|ops| - 1], ptr);
    }
  }

  lemma {:induction false} UsedWasAllocated(ops: seq<Op>, ptr: Ptr)
    ensures UseOf(ops, ptr).Used? ==> Allocs(ops, UseOf(ops, ptr).data.tag) > 0
  {
    if ops != [] {
      UsedWasAllocated(ops[..|ops| - 1], ptr);
    }
  }

  /** After any sequence of operations, whatever pointers malloc returned, the
      counters of a tag are its allocations and the frees of pointers in use
      under it, modulo 2^64. */
  lemma {:induction false} CountersCount(ops: seq<Op>, tag: string)
    ensures tag in Run(ops).stats <==> Allocs(ops, tag) > 0
    ensures tag in Run(ops).stats ==>
      Run(ops).stats[tag] == Stat(Allocs(ops, tag) % MODULUS, Frees(ops, tag) % MODULUS)
    ensures Allocs(ops, tag) == 0 ==> Frees(ops, tag) == 0
  {
    if ops != [] {
      var before, op := ops[..|ops| - 1], ops[|ops| - 1];
      CountersCount(before, tag);
      NextCounts(Allocs(before, tag));
      NextCounts(Frees(before, tag));
      if op.DoFree? {
        TrackedAreInUse(before, op.ptr);
        UsedWasAllocated(before, op.ptr);
      }
    }
  }

  lemma NextCounts(n: nat)
    ensures Next(n % MODULUS) == (n + 1) % MODULUS
  {
  }

  // ----- the program

  datatype Row = Row(tag: string, nrAllocs: U64, nrFrees: U64, live: U64)

  class AllocStats {
    var names: seq<string>
    var stats: map<string, Stat>
    var track: map<Ptr, Data>

    ghost function Abs(): Tables
      reads this
    {
      Tables(names, stats, track)
    }

    constructor ()
      ensures Abs() == EMPTY && Balanced(Abs())
    {
      names, stats, track := [], map[], map[];
    }

    method DebugAlloc(ptr: Ptr, size: int, s: string)
      modifies this
      ensures Abs() == AfterAlloc(old(Abs()), ptr, size, s)
    {
      if s in stats {
        var st := stats[s];
        stats := stats[s := st.(nrAllocs := (st.nrAllocs + 1) % MODULUS)];
      } else {
        var st := Stat(0, 0);
        st := st.(nrAllocs := (st.nrAllocs + 1) % MODULUS);
        stats := stats[s := st];
        names := names + [s];
      }
      track := track[ptr := Data(s, size)];
    }

    method DebugFree(ptr: Ptr)
      modifies this
      ensures Abs() == AfterFree(old(Abs()), ptr)
    {
      if ptr in track {
        var ad := track[ptr];
        if ad.tag in stats {
          var st := stats[ad.tag];
          stats := stats[ad.tag := st.(nrFrees := (st.nrFrees + 1) % MODULUS)];
        }
        track := track - {ptr};
      }
    }

    /** Replays a sequence of do_alloc and do_free calls. */
    method Execute(ops: seq<Op>)
      requires Abs() == EMPTY
      modifies this
      ensures Abs() == Run(ops)
      ensures FreshPointers(ops) ==> Balanced(Abs())
    {
      var i := 0;
      while i < |ops|
        invariant 0 <= i <= |ops| && Abs() == Run(ops[..i])
      {
        match ops[i] {
          case DoAlloc(ptr, size, tag) => DebugAlloc(ptr, size, tag);
          case DoFree(ptr) => DebugFree(ptr);
        }
        assert ops[..i + 1][..i] == ops[..i];
        i := i + 1;
      }
      assert ops[..i] == ops;
      if FreshPointers(ops) {
        RunIsBalanced(ops);
      }
    }

    /** A row for each listed tag that has counters, in the order of the list. In
        balanced tables that is all tags, and the last column counts the pointers.
        After the operations ops the rows are the tags as they were first seen, each
        with its allocations, its frees and their difference. */
    method PrintStats(ghost ops: seq<Op>) returns (rows: seq<Row>)
      ensures rows == Rows(names, stats)
      ensures Abs() == Run(ops) ==> |rows| == |FirstSeen(ops)|
      ensures Abs() == Run(ops) ==>
        forall i | 0 <= i < |rows| :: IsRow(rows[i], FirstSeen(ops)[i], Allocs(ops, FirstSeen(ops)[i]), Frees(ops, FirstSeen(ops)[i]))
      ensures Balanced(Abs()) ==> |rows| == |names|
      ensures Balanced(Abs()) ==>
        forall i | 0 <= i < |rows| :: rows[i] == RowOf(names[i], stats) && rows[i].live == |Tracked(Abs(), names[i])| % MODULUS
    {
      rows := [];
      var i := 0;
      while i < |names|
        invariant 0 <= i <= |names| && rows == Rows(names[..i], stats)
      {
        var s := names[i];
        assert names[..i + 1][..i] == names[..i];
        if s in stats {
          var st := stats[s];
          rows := rows + [Row(s, st.nrAllocs, st.nrFrees, (st.nrAllocs - st.nrFrees) % MODULUS)];
        }
        i := i + 1;
      }
      assert names[..i] == names;
      if Abs() == Run(ops) {
        RowsOfRun(ops);
      }
      if Balanced(Abs()) {
        assert forall k | 0 <= k < |names| :: names[k] in Abs().names;
        RowsOfAll(names, stats);
      }
    }
  }

  /** One row for each listed tag with counters. */
  function Rows(names: seq<string>, stats: map<string, Stat>): seq<Row> {
    if names == [] then []
    else
      var tag := names[|names| - 1];
      Rows(names[..|names| - 1], stats) + if tag in stats then [RowOf(tag, stats)] else []
  }

  lemma {:induction false} RowsOfAll(names: seq<string>, stats: map<string, Stat>)
    requires forall k | 0 <= k < |names| :: names[k] in stats
    ensures |Rows(names, stats)| == |names|
    ensures forall k | 0 <= k < |names| :: Rows(names, stats)[k] == RowOf(names[k], stats)
  {
    if names != [] {
      RowsOfAll(names[..|names| - 1], stats);
    }
  }

  predicate IsRow(row: Row, tag: string, allocs: nat, frees: nat) {
    && row.tag == tag && row.nrAllocs == allocs % 0x1_0000_0000_0000_0000
    && row.nrFrees == frees % 0x1_0000_0000_0000_0000
    && row.live == (row.nrAllocs - row.nrFrees) % 0x1_0000_0000_0000_0000
  }

  lemma RowsOfRun(ops: seq<Op>)
    ensures var rows, tags := Rows(Run(ops).names, Run(ops).stats), FirstSeen(ops);
      |rows| == |tags| && forall i | 0 <= i < |tags| :: IsRow(rows[i], tags[i], Allocs(ops, tags[i]), Frees(ops, tags[i]))
  {
    hide Run, Allocs, Frees, Rows, RowOf, FirstSeen, IsRow;
    var t := Run(ops);
    NamesAreFirstSeen(ops);
    assert forall k | 0 <= k < |t.names| :: t.names[k] in t.names;
    RowsOfAll(t.names, t.stats);
    forall i | 0 <= i < |t.names|
      ensures IsRow(RowOf(t.names[i], t.stats), t.names[i], Allocs(ops, t.names[i]), Frees(ops, t.names[i]))
    {
      RowCounts(ops, t.names[i]);
    }
  }

  lemma RowCounts(ops: seq<Op>, tag: string)
    requires tag in Run(ops).stats
    ensures IsRow(RowOf(tag, Run(ops).stats), tag, Allocs(ops, tag), Frees(ops, tag))
  {
    hide Run, Allocs, Frees;
    CountersCount(ops, tag);
  }

  /** The counters of a tag as a row; zeros for a tag without any. */
  function RowOf(tag: string, stats: map<string, Stat>): Row {
    if tag in stats then Row(tag, stats[tag].nrAllocs, stats[tag].nrFrees, Live(stats[tag])) else Row(tag, 0, 0, 0)
  }
}
