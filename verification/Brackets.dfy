/** The generator of balanced brackets of test_brackets.c: one shared buffer that
    all recursive calls overwrite, and a line printed at each leaf. */
module Brackets {

  // ----- what a balanced string is

  function Count(s: string, c: char): nat {
    if s == "" then 0 else (if s[0] == c then 1 else 0) + Count(s[1..], c)
  }

  /** Only brackets, as many of either kind, and no prefix closes more than it opens. */
  predicate Balanced(s: string) {
    && (forall i | 0 <= i < |s| :: s[i] == '(' || s[i] == ')')
    && Count(s, '(') == Count(s, ')')
    && forall k | 0 <= k <= |s| :: Count(s[..k], ')') <= Count(s[..k], '(')
  }

  /** s closes what depth open brackets in front of it left open. */
  predicate Closes(s: string, depth: int) {
    if depth < 0 then false
    else if s == "" then depth == 0
    else (s[0] == '(' && Closes(s[1..], depth + 1)) || (s[0] == ')' && Closes(s[1..], depth - 1))
  }

  // ----- the generator

  /** What the calls below one call print, without the prefix that is in the buffer. */
  function Gen(left: nat, right: nat): seq<string>
    decreases left + right
  {
    if left == 0 then [Fill(right)]
    else
      Prepend('(', Gen(left - 1, right)) + (if left < right then Prepend(')', Gen(left, right - 1)) else [])
  }

  function Fill(n: nat): (s: string)
    ensures |s| == n
  {
    seq(n, i => ')')
  }

  function Prepend(c: char, ts: seq<string>): (r: seq<string>)
    ensures |r| == |ts|
  {
    seq(|ts|, i requires 0 <= i < |ts| => [c] + ts[i])
  }

  function PrependAll(prefix: string, ts: seq<string>): (r: seq<string>)
    ensures |r| == |ts|
  {
    seq(|ts|, i requires 0 <= i < |ts| => prefix + ts[i])
  }

  /** The C string at the start of a buffer. */
  function CString(buf: string): string {
    if buf == "" || buf[0] == '\0' then "" else [buf[0]] + CString(buf[1..])
  }

  lemma {:induction false} CStringStops(s: string, rest: string)
    requires '\0' !in s
    ensures CString(s + ['\0'] + rest) == s
  {
    if s != "" {
      assert (s + ['\0'] + rest)[1..] == s[1..] + ['\0'] + rest;
      CStringStops(s[1..], rest);
    }
  }

  class Output {
    var lines: seq<string>

    constructor ()
      ensures lines == []
    {
      lines := [];
    }

    method Print(buf: array<char>)
      modifies this
      ensures lines == old(lines) + [CString(buf[..])]
    {
      lines := lines + [CString(buf[..])];
    }
  }

  /** Whatever the calls leave behind index i, the lines they print are the prefix
      in front of i followed by Gen, and that prefix is intact at the end. */
  method GenBrackets(out: Output, buf: array<char>, i: nat, left: nat, right: nat)
    requires i + left + right < buf.Length && '\0' !in buf[..i]
    modifies out, buf
    ensures buf[..i] == old(buf[..i])
    ensures out.lines == old(out.lines) + PrependAll(old(buf[..i]), Gen(left, right))
    decreases left + right
  {
    hide Gen, Prepend, PrependAll;
    GenUnfold(left, right);
    ghost var prefix := buf[..i];
    if left != 0 {
      buf[i] := '(';
      assert buf[..i + 1] == prefix + ['('];
      GenBrackets(out, buf, i + 1, left - 1, right);
      assert buf[..i] == buf[..i + 1][..i] == prefix;
      PrependBoth(prefix, '(', Gen(left - 1, right));
      if left < right {
        buf[i] := ')';
        assert buf[..i + 1] == prefix + [')'];
        GenBrackets(out, buf, i + 1, left, right - 1);
        assert buf[..i] == buf[..i + 1][..i] == prefix;
        PrependBoth(prefix, ')', Gen(left, right - 1));
        PrependSplit(prefix, Prepend('(', Gen(left - 1, right)), Prepend(')', Gen(left, right - 1)));
      }
      return;
    }
    var j: nat, nrRight: nat := i, right;
    while nrRight > 0
      invariant i <= j && j + nrRight == i + right && j < buf.Length
      invariant buf[..j] == prefix + Fill(j - i) && out.lines == old(out.lines)
    {
      buf[j] := ')';
      assert buf[..j + 1] == prefix + Fill(j + 1 - i);
      j := j + 1;
      nrRight := nrRight - 1;
    }
    buf[j] := '\0';
    assert buf[..] == prefix + Fill(right) + ['\0'] + buf[j + 1..];
    CStringStops(prefix + Fill(right), buf[j + 1..]);
    out.Print(buf);
    assert buf[..i] == prefix;
    PrependOne(prefix, Fill(right));
  }

  lemma PrependBoth(prefix: string, c: char, ts: seq<string>)
    ensures PrependAll(prefix + [c], ts) == PrependAll(prefix, Prepend(c, ts))
  {
    forall k | 0 <= k < |ts|
      ensures (prefix + [c]) + ts[k] == prefix + ([c] + ts[k])
    {
    }
  }

  lemma PrependOne(prefix: string, t: string)
    ensures PrependAll(prefix, [t]) == [prefix + t]
  {
  }

  lemma PrependSplit(prefix: string, a: seq<string>, b: seq<string>)
    ensures PrependAll(prefix, a + b) == PrependAll(prefix, a) + PrependAll(prefix, b)
  {
  }

  /** main: every line of gen_brackets(buf, 0, n, n). */
  method Run(n: nat) returns (out: Output)
    ensures fresh(out) && out.lines == Gen(n, n)
  {
    var buf := new char[2 * n + 1](_ => '\0');
    out := new Output();
    GenBrackets(out, buf, 0, n, n);
    assert PrependAll("", Gen(n, n)) == Gen(n, n) by {
      assert forall k | 0 <= k < |Gen(n, n)| :: "" + Gen(n, n)[k] == Gen(n, n)[k];
    }
  }

  // ----- exactly the balanced strings

  lemma InPrepend(c: char, ts: seq<string>, t: string)
    ensures t in Prepend(c, ts) <==> t != "" && t[0] == c && t[1..] in ts
  {
    if t in Prepend(c, ts) {
      var k :| 0 <= k < |ts| && Prepend(c, ts)[k] == t;
      assert t[1..] == ts[k];
    }
    if t != "" && t[0] == c && t[1..] in ts {
      var k :| 0 <= k < |ts| && ts[k] == t[1..];
      assert Prepend(c, ts)[k] == [c] + t[1..] == t;
    }
  }

  lemma {:induction false} FillCloses(n: nat, t: string)
    ensures t == Fill(n) <==> Closes(t, n) && Count(t, '(') == 0
    ensures Closes(t, n) && Count(t, '(') == 0 ==> |t| == n
  {
    if n > 0 && t != "" {
      FillCloses(n - 1, t[1..]);
      assert Fill(n) == [')'] + Fill(n - 1);
      if t == Fill(n) {
        assert t[1..] == Fill(n - 1);
      }
      if t[0] == ')' && t[1..] == Fill(n - 1) {
        assert t == [')'] + t[1..];
      }
    }
  }

  /** Gen lists the strings with left opening brackets that close what is open. */
  lemma {:induction false} GenCloses(left: nat, right: nat, t: string)
    requires left <= right
    ensures t in Gen(left, right) <==> Closes(t, right - left) && Count(t, '(') == left
    decreases left + right
  {
    hide Gen, Closes, Count, Fill;
    if left == 0 {
      GenUnfold(left, right);
      FillCloses(right, t);
    } else {
      GenSplit(left, right, t);
      ScanStep(t, right - left);
      if t != "" {
        GenCloses(left - 1, right, t[1..]);
        if left < right {
          GenCloses(left, right - 1, t[1..]);
        }
      }
    }
  }

  lemma ScanStep(t: string, depth: int)
    ensures t == "" ==> Count(t, '(') == 0
    ensures t != "" && t[0] == '(' ==>
      Count(t, '(') == Count(t[1..], '(') + 1 && (depth >= 0 ==> Closes(t, depth) == Closes(t[1..], depth + 1))
    ensures t != "" && t[0] == ')' ==>
      Count(t, '(') == Count(t[1..], '(') && (depth >= 0 ==> Closes(t, depth) == Closes(t[1..], depth - 1))
    ensures t != "" && t[0] != '(' && t[0] != ')' ==> !Closes(t, depth)
    ensures t != "" && t[0] == ')' && depth == 0 ==> !Closes(t, depth)
  {
  }

  lemma GenUnfold(left: nat, right: nat)
    ensures left == 0 ==> Gen(left, right) == [Fill(right)]
    ensures 0 < left < right ==>
      Gen(left, right) == Prepend('(', Gen(left - 1, right)) + Prepend(')', Gen(left, right - 1))
    ensures left > 0 && left >= right ==> Gen(left, right) == Prepend('(', Gen(left - 1, right))
  {
  }

  lemma GenSplit(left: nat, right: nat, t: string)
    requires 0 < left
    ensures t in Gen(left, right) ==> t != "" && (t[0] == '(' || (t[0] == ')' && left < right))
    ensures t != "" && t[0] == '(' ==> (t in Gen(left, right) <==> t[1..] in Gen(left - 1, right))
    ensures t != "" && t[0] == ')' && left < right ==> (t in Gen(left, right) <==> t[1..] in Gen(left, right - 1))
  {
    GenUnfold(left, right);
    hide Gen;
    InPrepend('(', Gen(left - 1, right), t);
    if left < right {
      InPrepend(')', Gen(left, right - 1), t);
    }
  }

  lemma {:induction false} CountConcat(a: string, b: string, c: char)
    ensures Count(a + b, c) == Count(a, c) + Count(b, c)
  {
    if a == "" {
      assert a + b == b;
    } else {
      assert (a + b)[1..] == a[1..] + b;
      CountConcat(a[1..], b, c);
    }
  }

  /** The scan with a depth counter and the count over all prefixes agree. */
  ghost predicate PrefixesClose(s: string, depth: int) {
    && (forall i | 0 <= i < |s| :: s[i] == '(' || s[i] == ')')
    && depth + Count(s, '(') == Count(s, ')')
    && forall k | 0 <= k <= |s| :: Count(s[..k], ')') <= depth + Count(s[..k], '(')
  }

  lemma {:induction false} ClosesMeaning(s: string, depth: int)
    ensures Closes(s, depth) <==> PrefixesClose(s, depth)
    decreases |s|
  {
    assert s[..0] == "";
    if s != "" {
      var d := if s[0] == '(' then depth + 1 else depth - 1;
      ClosesMeaning(s[1..], d);
      if s[0] == '(' || s[0] == ')' {
        PrefixShift(s, depth, d);
      }
    }
  }

  lemma PrefixShift(s: string, depth: int, d: int)
    requires s != "" && (s[0] == '(' || s[0] == ')') && d == if s[0] == '(' then depth + 1 else depth - 1
    ensures PrefixesClose(s, depth) <==> depth >= 0 && PrefixesClose(s[1..], d)
  {
    forall k | 0 <= k < |s|
      ensures forall c :: Count(s[..k + 1], c) == (if s[0] == c then 1 else 0) + Count(s[1..][..k], c)
    {
      assert s[..k + 1][1..] == s[1..][..k];
    }
    assert s[..0] == "";
    if PrefixesClose(s, depth) {
      assert Count(s[..0], ')') <= depth + Count(s[..0], '(');
      forall k | 0 <= k <= |s[1..]|
        ensures Count(s[1..][..k], ')') <= d + Count(s[1..][..k], '(')
      {
        assert Count(s[..k + 1], ')') <= depth + Count(s[..k + 1], '(');
      }
    }
    if depth >= 0 && PrefixesClose(s[1..], d) {
      forall k | 0 <= k <= |s|
        ensures Count(s[..k], ')') <= depth + Count(s[..k], '(')
      {
        if k > 0 {
          assert Count(s[1..][..k - 1], ')') <= d + Count(s[1..][..k - 1], '(');
        }
      }
      forall i | 0 <= i < |s|
        ensures s[i] == '(' || s[i] == ')'
      {
        assert i == 0 || s[i] == s[1..][i - 1];
      }
    }
  }

  lemma {:induction false} BracketsFillLength(s: string)
    requires forall i | 0 <= i < |s| :: s[i] == '(' || s[i] == ')'
    ensures Count(s, '(') + Count(s, ')') == |s|
  {
    if s != "" {
      BracketsFillLength(s[1..]);
    }
  }

  /** gen_brackets(buf, 0, n, n) prints a string if and only if it is a balanced
      string of n pairs. */
  lemma GenIsBalanced(n: nat, t: string)
    ensures t in Gen(n, n) <==> Balanced(t) && |t| == 2 * n
  {
    GenCloses(n, n, t);
    ClosesMeaning(t, 0);
    if forall i | 0 <= i < |t| :: t[i] == '(' || t[i] == ')' {
      BracketsFillLength(t);
    }
  }

  // ----- in increasing order

  /** Lexicographic order, '(' coming before ')'. */
  predicate Less(a: string, b: string) {
    if b == "" then false
    else if a == "" then true
    else a[0] < b[0] || (a[0] == b[0] && Less(a[1..], b[1..]))
  }

  lemma {:induction false} LessIsStrict(a: string)
    ensures !Less(a, a)
  {
    if a != "" {
      LessIsStrict(a[1..]);
    }
  }

  lemma {:induction false} GenIncreases(left: nat, right: nat, j: nat, k: nat)
    requires j < k < |Gen(left, right)|
    ensures Less(Gen(left, right)[j], Gen(left, right)[k])
    decreases left + right
  {
    GenUnfold(left, right);
    hide Gen, Less, Prepend;
    if left > 0 {
      var first := Gen(left - 1, right);
      if k < |first| {
        GenIncreases(left - 1, right, j, k);
        PrependLess('(', first, j, k);
      } else if j >= |first| {
        GenIncreases(left, right - 1, j - |first|, k - |first|);
        PrependLess(')', Gen(left, right - 1), j - |first|, k - |first|);
      } else {
        PrependAcross(first, Gen(left, right - 1), j, k - |first|);
      }
    }
  }

  lemma PrependAcross(a: seq<string>, b: seq<string>, j: nat, k: nat)
    requires j < |a| && k < |b|
    ensures Less(Prepend('(', a)[j], Prepend(')', b)[k])
  {
  }

  lemma PrependLess(c: char, ts: seq<string>, j: nat, k: nat)
    requires j < |ts| && k < |ts| && Less(ts[j], ts[k])
    ensures Less(Prepend(c, ts)[j], Prepend(c, ts)[k])
  {
    assert ([c] + ts[j])[1..] == ts[j] && ([c] + ts[k])[1..] == ts[k];
  }

  lemma NonePrintedTwice(n: nat, j: nat, k: nat)
    requires j < k < |Gen(n, n)|
    ensures Gen(n, n)[j] != Gen(n, n)[k]
  {
    GenIncreases(n, n, j, k);
    LessIsStrict(Gen(n, n)[j]);
  }

  // ----- how many there are

  function Binomial(n: nat, k: nat): nat {
    if k == 0 then 1 else if n == 0 then 0 else Binomial(n - 1, k - 1) + Binomial(n - 1, k)
  }

  lemma {:induction false} BinomialBeyond(n: nat, k: nat)
    requires k > n
    ensures Binomial(n, k) == 0
  {
    if n > 0 {
      BinomialBeyond(n - 1, k - 1);
      BinomialBeyond(n - 1, k);
    }
  }

  lemma {:induction false} BinomialSymmetric(n: nat, k: nat)
    requires k <= n
    ensures Binomial(n, k) == Binomial(n, n - k)
  {
    if k == 0 || k == n {
      BinomialDiagonal(n);
    } else {
      BinomialSymmetric(n - 1, k - 1);
      BinomialSymmetric(n - 1, k);
    }
  }

  lemma {:induction false} BinomialDiagonal(n: nat)
    ensures Binomial(n, n) == 1
  {
    if n > 0 {
      BinomialDiagonal(n - 1);
      BinomialBeyond(n - 1, n);
    }
  }

  /** k * C(n, k) == (n - k + 1) * C(n, k - 1). */
  lemma {:induction false} BinomialNeighbours(n: nat, k: nat)
    requires 0 < k <= n + 1
    ensures k * Binomial(n, k) == (n - k + 1) * Binomial(n, k - 1)
  {
    if n == 0 {
    } else if k == n + 1 {
      BinomialBeyond(n, k);
    } else if k == 1 {
      BinomialNeighbours(n - 1, 1);
    } else {
      BinomialNeighbours(n - 1, k);
      BinomialNeighbours(n - 1, k - 1);
      NeighbourArithmetic(n, k, Binomial(n - 1, k - 2), Binomial(n - 1, k - 1), Binomial(n - 1, k));
    }
  }

  lemma NeighbourArithmetic(n: nat, k: nat, a: nat, b: nat, c: nat)
    requires 1 < k <= n
    requires (k - 1) * b == (n - 1 - (k - 1) + 1) * a && k * c == (n - 1 - k + 1) * b
    ensures k * (b + c) == (n - k + 1) * (a + b)
  {
    var m := n - k;
    assert k * (b + c) == (k - 1) * b + b + k * c;
    assert (m + 1) * (a + b) == (m + 1) * a + m * b + b;
  }

  /** The two recursive branches count like the ballot numbers. */
  lemma {:induction false} GenSize(left: nat, right: nat)
    requires left <= right
    ensures |Gen(left, right)| == Binomial(left + right, left) - (if left == 0 then 0 else Binomial(left + right, left - 1))
    decreases left + right
  {
    GenUnfold(left, right);
    hide Gen;
    if left > 0 {
      var n := left + right;
      GenSize(left - 1, right);
      if left < right {
        GenSize(left, right - 1);
      } else {
        BinomialSymmetric(n - 1, left);
      }
      if left > 1 {
        assert Binomial(n, left - 1) == Binomial(n - 1, left - 2) + Binomial(n - 1, left - 1);
      }
      assert Binomial(n, left) == Binomial(n - 1, left - 1) + Binomial(n - 1, left);
    }
  }

  /** The number of printed lines is the n-th Catalan number. */
  lemma CatalanMany(n: nat)
    ensures (n + 1) * |Gen(n, n)| == Binomial(2 * n, n)
  {
    GenSize(n, n);
    if n > 0 {
      BinomialNeighbours(2 * n, n);
      hide Gen, Binomial;
      Distribute(n, Binomial(2 * n, n), Binomial(2 * n, n - 1));
    }
  }

  lemma Distribute(n: int, b: int, a: int)
    ensures (n + 1) * (b - a) == n * b + b - (n + 1) * a
  {
  }
}
