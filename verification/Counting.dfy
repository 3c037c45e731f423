/** How many elements of a sequence satisfy a predicate. The protocol machines
    use it to count the processes that stand at a given point of a routine. */
module Counting {

  function Bit(b: bool): nat { if b then 1 else 0 }

  function Count<T>(f: T -> bool, xs: seq<T>): nat {
    if xs == [] then 0 else Bit(f(xs[0])) + Count(f, xs[1..])
  }

  /** Two sequences that f tells apart at index p at most. */
  lemma {:induction false} CountChange<T>(f: T -> bool, xs: seq<T>, ys: seq<T>, p: nat)
    requires |xs| == |ys| && p < |xs|
    requires forall i | 0 <= i < |xs| && i != p :: f(xs[i]) == f(ys[i])
    ensures Count(f, ys) + Bit(f(xs[p])) == Count(f, xs) + Bit(f(ys[p]))
  {
    if p == 0 {
      CountSame(f, xs[1..], ys[1..]);
    } else {
      assert f(xs[0]) == f(ys[0]);
      CountChange(f, xs[1..], ys[1..], p - 1);
    }
  }

  lemma {:induction false} CountSame<T>(f: T -> bool, xs: seq<T>, ys: seq<T>)
    requires |xs| == |ys|
    requires forall i | 0 <= i < |xs| :: f(xs[i]) == f(ys[i])
    ensures Count(f, ys) == Count(f, xs)
  {
    if xs != [] {
      CountSame(f, xs[1..], ys[1..]);
    }
  }

  lemma {:induction false} CountMonotone<T>(f: T -> bool, xs: seq<T>, ys: seq<T>)
    requires |xs| == |ys|
    requires forall i | 0 <= i < |xs| :: f(xs[i]) ==> f(ys[i])
    ensures Count(f, xs) <= Count(f, ys)
  {
    if xs != [] {
      CountMonotone(f, xs[1..], ys[1..]);
    }
  }

  /** One element leaves, another one joins, and no other leaves: the count does not drop. */
  lemma CountTrade<T>(f: T -> bool, xs: seq<T>, ys: seq<T>, leaves: nat, joins: nat)
    requires |xs| == |ys| && leaves < |xs| && joins < |xs| && leaves != joins
    requires forall i | 0 <= i < |xs| && i != leaves :: f(xs[i]) ==> f(ys[i])
    requires !f(xs[joins]) && f(ys[joins])
    ensures Count(f, xs) <= Count(f, ys)
  {
    var zs := ys[leaves := xs[leaves]];
    var ws := xs[joins := ys[joins]];
    CountChange(f, zs, ys, leaves);
    CountChange(f, xs, ws, joins);
    CountMonotone(f, ws, zs);
  }

  lemma {:induction false} CountNone<T>(f: T -> bool, xs: seq<T>)
    ensures Count(f, xs) == 0 <==> forall i | 0 <= i < |xs| :: !f(xs[i])
  {
    if xs != [] {
      CountNone(f, xs[1..]);
      assert forall i | 0 <= i < |xs| :: i == 0 || xs[i] == xs[1..][i - 1];
      if forall i | 0 <= i < |xs| :: !f(xs[i]) {
        assert !f(xs[0]);
      } else {
        var i :| 0 <= i < |xs| && f(xs[i]);
        assert i == 0 || f(xs[1..][i - 1]);
      }
    }
  }

  lemma {:induction false} CountAll<T>(f: T -> bool, xs: seq<T>)
    requires forall i | 0 <= i < |xs| :: f(xs[i])
    ensures Count(f, xs) == |xs|
  {
    if xs != [] {
      CountAll(f, xs[1..]);
    }
  }

  /** Two different indices cannot both be marked when at most one is. */
  lemma CountUnique<T>(f: T -> bool, xs: seq<T>, p: nat, q: nat)
    requires p < |xs| && q < |xs| && f(xs[p]) && f(xs[q])
    requires Count(f, xs) <= 1
    ensures p == q
  {
    if p != q {
      var rest := xs[..p] + xs[p + 1..];
      CountSplit(f, xs, p);
      var q' := if q < p then q else q - 1;
      assert rest[q'] == xs[q];
      CountNone(f, rest);
    }
  }

  lemma {:induction false} CountSplit<T>(f: T -> bool, xs: seq<T>, p: nat)
    requires p < |xs|
    ensures Count(f, xs) == Bit(f(xs[p])) + Count(f, xs[..p] + xs[p + 1..])
  {
    if p == 0 {
      assert xs[..p] + xs[p + 1..] == xs[1..];
    } else {
      CountSplit(f, xs[1..], p - 1);
      assert (xs[..p] + xs[p + 1..])[1..] == xs[1..][..p - 1] + xs[1..][p..];
    }
  }

  /** The sum of f over a sequence. The machines use it to measure what is left to do. */
  function Total<T>(f: T -> nat, xs: seq<T>): nat {
    if xs == [] then 0 else f(xs[0]) + Total(f, xs[1..])
  }

  lemma {:induction false} TotalAtMost<T>(f: T -> nat, g: T -> nat, xs: seq<T>, ys: seq<T>)
    requires |xs| == |ys| && forall i | 0 <= i < |xs| :: g(ys[i]) <= f(xs[i])
    ensures Total(g, ys) <= Total(f, xs)
  {
    if xs != [] {
      TotalAtMost(f, g, xs[1..], ys[1..]);
    }
  }

  /** No summand goes up and the one at p goes down. */
  lemma {:induction false} TotalDrops<T>(f: T -> nat, g: T -> nat, xs: seq<T>, ys: seq<T>, p: nat)
    requires |xs| == |ys| && forall i | 0 <= i < |xs| :: g(ys[i]) <= f(xs[i])
    requires p < |xs| && g(ys[p]) < f(xs[p])
    ensures Total(g, ys) < Total(f, xs)
  {
    if p == 0 {
      TotalAtMost(f, g, xs[1..], ys[1..]);
    } else {
      TotalDrops(f, g, xs[1..], ys[1..], p - 1);
    }
  }
}
