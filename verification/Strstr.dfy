/** The two substring searches of my_strstr.c: a rolling hash modulo 2^64 and a
    border table. Strings are C strings, sequences of signed char values that end
    at the first 0. */
module Strstr {

  const PRIME := 11
  const MODULUS := 0x1_0000_0000_0000_0000

  /** A character as a signed char. */
  type Char = x: int | -128 <= x < 128

  function StrLen(buf: seq<Char>): (n: nat)
    requires 0 in buf
    ensures n < |buf| && buf[n] == 0 && forall i | 0 <= i < n :: buf[i] != 0
  {
    if buf[0] == 0 then 0 else 1 + StrLen(buf[1..])
  }

  /** The pattern p occurs in s at alignment i. */
  predicate OccursAt(s: seq<Char>, p: seq<Char>, i: int) {
    0 <= i && i + |p| <= |s| && s[i..i + |p|] == p
  }

  /** What strstr returns, as an index: the first occurrence, or -1. */
  ghost predicate IsFirst(s: seq<Char>, p: seq<Char>, r: int) {
    if r == -1 then forall i | 0 <= i <= |s| :: !OccursAt(s, p, i)
    else OccursAt(s, p, r) && forall i | 0 <= i < r :: !OccursAt(s, p, i)
  }

  // ----- the hash

  /** The polynomial hash, before any reduction. */
  function Poly(s: seq<Char>): int {
    if s == [] then 0 else PRIME * Poly(s[..|s| - 1]) + s[|s| - 1]
  }

  /** Unsigned long arithmetic keeps the hash modulo 2^64. */
  function Mod(x: int): (r: int)
    ensures 0 <= r < MODULUS
  {
    x % MODULUS
  }

  function Power(k: nat): int { if k == 0 then 1 else PRIME * Power(k - 1) }

  lemma PolyOne(s: seq<Char>)
    requires s != []
    ensures Poly(s[..1]) == s[0]
  {
    assert s[..1][..0] == [];
  }

  lemma ModStep(a: int, b: int, c: int)
    requires a == Mod(b)
    ensures Mod(a * PRIME) == Mod(b * PRIME) && Mod(a + c) == Mod(b + c) && Mod(c - a) == Mod(c - b)
  {
    SameRemainders(a, b, c);
  }

  lemma SameRemainders(a: int, b: int, c: int)
    requires a == b % MODULUS
    ensures (a * PRIME) % MODULUS == (b * PRIME) % MODULUS
    ensures (a + c) % MODULUS == (b + c) % MODULUS
    ensures (c - a) % MODULUS == (c - b) % MODULUS
  {
    var q := b / MODULUS;
    SameRemainder(a * PRIME, b * PRIME, -PRIME * q);
    SameRemainder(a + c, b + c, -q);
    SameRemainder(c - a, c - b, q);
  }

  lemma SameRemainder(x: int, y: int, k: int)
    requires x == y + k * MODULUS
    ensures x % MODULUS == y % MODULUS
  {
  }

  lemma ModOfChar(c: Char)
    requires c != 0
    ensures Mod(c) != Mod(0)
  {
  }

  /** The hash of the first len characters; one character is read in any case. */
  method HashNew(str: seq<Char>, len: nat) returns (hash: int)
    requires len <= |str| && str != []
    ensures hash == Mod(Poly(str[..if len == 0 then 1 else len]))
  {
    hash := Mod(str[0]);
    PolyOne(str);
    var i := 1;
    while i < len
      invariant 1 <= i && (i <= len || i == 1)
      invariant hash == Mod(Poly(str[..i]))
    {
      ModStep(hash, Poly(str[..i]), 0);
      hash := Mod(hash * PRIME);
      ModStep(hash, PRIME * Poly(str[..i]), str[i]);
      hash := Mod(hash + str[i]);
      assert str[..i + 1][..i] == str[..i];
      i := i + 1;
    }
  }

  /** The unreduced hash after a window of len characters moved by one. */
  function Rolled(prev: int, sub: Char, add: Char, len: nat): int {
    (prev - sub * Power(if len == 0 then 0 else len - 1)) * PRIME + add
  }

  /** Drops the first character of a window and takes in the one behind it. */
  method HashAddSub(prevHash: int, sub: Char, add: Char, len: nat, ghost prev: int) returns (hash: int)
    requires prevHash == Mod(prev)
    ensures hash == Mod(Rolled(prev, sub, add, len))
  {
    var subHash := Mod(sub);
    var i := 0;
    while i < len - 1
      invariant 0 <= i && (i <= len - 1 || i == 0)
      invariant subHash == Mod(sub * Power(i))
    {
      ModStep(subHash, sub * Power(i), 0);
      subHash := Mod(subHash * PRIME);
      assert (sub * Power(i)) * PRIME == sub * Power(i + 1);
      i := i + 1;
    }
    ghost var dropped := sub * Power(i);
    ModStep(subHash, dropped, prevHash);
    hash := Mod(prevHash - subHash);
    ModStep(prevHash, prev, -dropped);
    ModStep(hash, prev - dropped, 0);
    hash := Mod(hash * PRIME);
    ModStep(hash, (prev - dropped) * PRIME, add);
    hash := Mod(hash + add);
  }

  /** Taking the first character off a window takes its highest power off the hash. */
  lemma {:induction false} PolyDropFirst(s: seq<Char>)
    requires s != []
    ensures Poly(s) == s[0] * Power(|s| - 1) + Poly(s[1..])
  {
    if |s| > 1 {
      var init := s[..|s| - 1];
      PolyDropFirst(init);
      assert s[1..][..|s| - 2] == init[1..];
      assert PRIME * (s[0] * Power(|s| - 2)) == s[0] * Power(|s| - 1);
    }
  }

  lemma RollWindow(s: seq<Char>, i: nat, m: nat)
    requires 0 < m && i + m < |s|
    ensures Poly(s[i + 1..i + m + 1]) == Rolled(Poly(s[i..i + m]), s[i], s[i + m], m)
  {
    PolyDropFirst(s[i..i + m]);
    assert s[i..i + m][1..] == s[i + 1..i + m];
    assert s[i + 1..i + m + 1][..m - 1] == s[i + 1..i + m];
  }

  /** What my_strstr_hash computes for a non-empty pattern: the first occurrence
      among the alignments 0 .. |s| - |p| - 1. The last alignment is not examined. */
  ghost predicate IsFirstButLast(s: seq<Char>, p: seq<Char>, r: int) {
    if r == -1 then forall i | 0 <= i < |s| - |p| :: !OccursAt(s, p, i)
    else r < |s| - |p| && OccursAt(s, p, r) && forall i | 0 <= i < r :: !OccursAt(s, p, i)
  }

  /** The unreduced hash that has been rolled along str up to index i. */
  ghost function Whole(str: seq<Char>, m: nat, i: nat): int
    requires str != [] && i + m <= |str|
  {
    if i == 0 then Poly(str[..if m == 0 then 1 else m])
    else Rolled(Whole(str, m, i - 1), str[i - 1], str[i - 1 + m], m)
  }

  /** It is the hash of the window at i, unless the window is empty. */
  lemma {:induction false} WholeIsWindow(str: seq<Char>, m: nat, i: nat)
    requires 0 < m && i + m <= |str|
    ensures Whole(str, m, i) == Poly(str[i..i + m])
  {
    if i > 0 {
      WholeIsWindow(str, m, i - 1);
      RollWindow(str, i - 1, m);
    } else {
      assert str[..m] == str[0..m];
    }
  }

  /** The test of the loop at index i. */
  ghost predicate Hit(str: seq<Char>, sub: seq<Char>, m: nat, i: nat)
    requires str != [] && sub != [] && i + m <= |str| && m <= |sub|
  {
    Mod(Whole(str, m, i)) == Mod(Whole(sub, m, 0)) && str[i..i + m] == sub[..m]
  }

  /** Equal windows have equal hashes, so the comparison of hashes loses no match. */
  lemma HitIsOccurrence(str: seq<Char>, sub: seq<Char>, n: nat, m: nat, i: nat)
    requires str != [] && sub != [] && i + m <= n <= |str| && 0 < m <= |sub|
    ensures Hit(str, sub, m, i) <==> OccursAt(str[..n], sub[..m], i)
  {
    WholeIsWindow(str, m, i);
    assert str[..n][i..i + m] == str[i..i + m];
  }

  lemma NoHitOnEmpty(str: seq<Char>, sub: seq<Char>)
    requires str != [] && sub != [] && sub[0] == 0 && str[0] != 0
    ensures !Hit(str, sub, 0, 0)
  {
    PolyOne(str);
    PolyOne(sub);
    ModOfChar(str[0]);
  }

  /** For the empty pattern, whose hash is 0, it is the hash of str alone that
      decides: as it is rolled along, the first index below n where it is 0. */
  ghost predicate IsFirstZero(str: seq<Char>, n: nat, r: int)
    requires 0 < |str| && n <= |str|
  {
    if r == -1 then forall i: nat | i < n :: Mod(Whole(str, 0, i)) != 0
    else 0 <= r < n && Mod(Whole(str, 0, r)) == 0 && forall i: nat | i < r :: Mod(Whole(str, 0, i)) != 0
  }

  /** str and sub are the buffers; hashing the first window reads as many
      characters of str as the pattern has. */
  method StrstrHash(str: seq<Char>, sub: seq<Char>) returns (r: int)
    requires 0 in str && 0 in sub && StrLen(sub) <= |str|
    ensures var s, p := str[..StrLen(str)], sub[..StrLen(sub)];
      && (p != [] ==> IsFirstButLast(s, p, r))
      && (p == [] ==> r != 0 && IsFirstZero(str, |s|, r))
  {
    var substrLen: int, strLen: int := StrLen(sub), StrLen(str);
    var hsub := HashNew(sub, substrLen);
    var hs := HashNew(str, substrLen);
    if substrLen == 0 && str[0] != 0 {
      NoHitOnEmpty(str, sub);
    }
    assert hsub == Mod(Whole(sub, substrLen, 0)) && hs == Mod(Whole(str, substrLen, 0));
    hide Whole, Mod, StrLen, IsFirstButLast, IsFirstZero, Hit, Rolled, Poly;
    var i: int := 0;
    while i < strLen - substrLen
      invariant 0 <= i && (i + substrLen <= strLen || i == 0)
      invariant i + substrLen <= |str| && hs == Mod(Whole(str, substrLen, i))
      invariant forall j: nat | j < i :: !Hit(str, sub, substrLen, j)
    {
      HitTest(str, sub, substrLen, i);
      if hs == hsub {
        if str[i..i + substrLen] == sub[..substrLen] {
          FirstHit(str, sub, strLen, substrLen, i, i);
          FirstZero(str, sub, strLen, substrLen, i, i);
          return i;
        }
      }
      hs := HashAddSub(hs, str[i], str[i + substrLen], substrLen, Whole(str, substrLen, i));
      WholeRolls(str, substrLen, i);
      i := i + 1;
    }
    FirstHit(str, sub, strLen, substrLen, i, -1);
    FirstZero(str, sub, strLen, substrLen, i, -1);
    r := -1;
  }

  lemma HitTest(str: seq<Char>, sub: seq<Char>, m: nat, i: nat)
    requires str != [] && sub != [] && i + m <= |str| && m <= |sub|
    ensures Hit(str, sub, m, i) <==> Mod(Whole(str, m, i)) == Mod(Whole(sub, m, 0)) && str[i..i + m] == sub[..m]
  {
  }

  lemma WholeRolls(str: seq<Char>, m: nat, i: nat)
    requires str != [] && i + 1 + m <= |str|
    ensures Whole(str, m, i + 1) == Rolled(Whole(str, m, i), str[i], str[i + m], m)
  {
  }

  /** The loop has examined the indices below k, and the one at k if r is k. */
  lemma FirstHit(str: seq<Char>, sub: seq<Char>, n: nat, m: nat, k: nat, r: int)
    requires str != [] && sub != [] && n <= |str| && m <= |sub| && (k == 0 || k + m <= n)
    requires forall j: nat | j < k :: !Hit(str, sub, m, j)
    requires if r == -1 then k >= n - m else r == k < n - m && Hit(str, sub, m, k)
    ensures m > 0 ==> IsFirstButLast(str[..n], sub[..m], r)
  {
    hide Hit, OccursAt;
    if m > 0 {
      forall j: nat | j <= k && j < n - m
        ensures Hit(str, sub, m, j) <==> OccursAt(str[..n], sub[..m], j)
      {
        HitIsOccurrence(str, sub, n, m, j);
      }
    }
  }

  /** The same for an empty pattern. */
  lemma FirstZero(str: seq<Char>, sub: seq<Char>, n: nat, m: nat, k: nat, r: int)
    requires str != [] && sub != [] && n <= |str| && m <= |sub| && (k == 0 || k + m <= n)
    requires forall j: nat | j < k :: !Hit(str, sub, m, j)
    requires if r == -1 then k >= n - m else r == k < n - m && Hit(str, sub, m, k)
    ensures m == 0 && sub[0] == 0 ==> IsFirstZero(str, n, r)
  {
    if m == 0 && sub[0] == 0 {
      PolyOne(sub);
      assert Mod(Whole(sub, 0, 0)) == 0;
      hide Whole, Mod;
      forall j: nat | j <= k && j < n
        ensures Hit(str, sub, 0, j) <==> Mod(Whole(str, 0, j)) == 0
      {
        assert str[j..j] == sub[..0];
      }
    }
  }

  /** When that is what strstr returns: exactly when the pattern is not empty and
      does not have its only occurrence at the very end of the string. */
  lemma AgreesWithStrstr(s: seq<Char>, p: seq<Char>, r: int)
    requires p != [] && IsFirstButLast(s, p, r)
    ensures IsFirst(s, p, r) <==>
      !OccursAt(s, p, |s| - |p|) || exists i :: 0 <= i < |s| - |p| && OccursAt(s, p, i)
  {
    if r == -1 {
      if OccursAt(s, p, |s| - |p|) {
        assert !IsFirst(s, p, r);
      } else {
        forall i | 0 <= i <= |s|
          ensures !OccursAt(s, p, i)
        {
          assert i < |s| - |p| || i == |s| - |p| || i + |p| > |s|;
        }
      }
    }
  }

  /** The smallest disagreement: "b" is the last character of "ab", so -1 is all
      that StrstrHash may return, and strstr returns 1. */
  lemma MissesLastAlignment(r: int)
    ensures var s: seq<Char>, p: seq<Char> := [97, 98], [98];
      IsFirstButLast(s, p, r) ==> r == -1 && IsFirst(s, p, 1)
  {
    var s: seq<Char>, p: seq<Char> := [97, 98], [98];
    assert s[0..1][0] != p[0] && s[1..2] == p;
    assert !OccursAt(s, p, 0) && OccursAt(s, p, 1);
  }

  /** strstr finds the empty pattern at 0, my_strstr_hash never does. */
  lemma EmptyPatternDiffers(s: seq<Char>, r: int)
    requires r == -1 || r > 0
    ensures !IsFirst(s, [], r)
  {
    assert OccursAt(s, [], 0);
  }

  // ----- the border table

  /** The first k characters of p end with their first b, b < k. */
  predicate Border(p: seq<Char>, k: nat, b: nat) {
    b < k <= |p| && p[..b] == p[k - b..k]
  }

  predicate Borders(p: seq<Char>, table: seq<nat>) {
    |table| <= |p| && forall k | 0 <= k < |table| :: Border(p, k + 1, table[k])
  }

  /** The first k cells of the table. Each is the length of a proper border of
      that prefix of the pattern, though not always of the longest one. */
  function Table(p: seq<Char>, k: nat): (table: seq<nat>)
    requires k <= |p|
    ensures |table| == k && Borders(p, table)
  {
    if k == 0 then []
    else if k == 1 then assert p[..0] == p[1..1]; [0]
    else
      var table := Table(p, k - 1);
      var b := table[k - 2];
      BorderGrows(p, k - 1, b);
      table + [if p[k - 1] == p[b] then b + 1 else 0]
  }

  lemma BorderGrows(p: seq<Char>, k: nat, b: nat)
    requires k < |p| && Border(p, k, b)
    ensures Border(p, k + 1, if p[k] == p[b] then b + 1 else 0)
  {
    if p[k] == p[b] {
      assert p[..b + 1] == p[..b] + [p[b]] && p[k - b..k + 1] == p[k - b..k] + [p[k]];
    } else {
      assert p[..0] == p[k + 1..k + 1];
    }
  }

  lemma TableStep(p: seq<Char>, k: nat)
    requires 0 < k < |p|
    ensures var t := Table(p, k);
      t[k - 1] < k && Table(p, k + 1) == t + [if p[k] == p[t[k - 1]] then t[k - 1] + 1 else 0]
  {
    assert Border(p, k, Table(p, k)[k - 1]);
  }

  /** b is the length of the longest proper border of the first k characters. */
  ghost predicate Longest(p: seq<Char>, k: nat, b: nat) {
    Border(p, k, b) && forall c: nat | Border(p, k, c) :: c <= b
  }

  /** The pattern does not go on as the cell before says. */
  predicate Breaks(p: seq<Char>, k: nat)
    requires 1 <= k < |p|
  {
    assert Border(p, k, Table(p, |p|)[k - 1]);
    p[k] != p[Table(p, |p|)[k - 1]]
  }

  predicate Unbordered(p: seq<Char>, k: nat) { forall c: nat | c < k && Border(p, k, c) :: c == 0 }

  /** When the table is what it is meant to be: all its cells are longest borders
      exactly if, wherever the pattern does not go on as the cell before says, the
      prefix has no border at all. */
  lemma LongestExactly(p: seq<Char>)
    ensures var t := Table(p, |p|);
      (forall k | 0 <= k < |p| :: Longest(p, k + 1, t[k])) <==>
      (forall k | 1 <= k < |p| && Breaks(p, k) :: Unbordered(p, k + 1))
  {
    var t := Table(p, |p|);
    hide Table;
    if forall k | 0 <= k < |p| :: Longest(p, k + 1, t[k]) {
      forall k | 1 <= k < |p| && Breaks(p, k)
        ensures Unbordered(p, k + 1)
      {
        CellOf(p, k);
        assert Longest(p, k + 1, t[k]);
      }
    } else if forall k | 1 <= k < |p| && Breaks(p, k) :: Unbordered(p, k + 1) {
      forall k | 0 <= k < |p|
        ensures Longest(p, k + 1, t[k])
      {
        CellIsLongest(p, k);
      }
    }
  }

  /** A cell is one more than the one before, or 0. */
  lemma CellOf(p: seq<Char>, k: nat)
    requires 0 < k < |p|
    ensures var t := Table(p, |p|); t[k - 1] < k && t[k] == if p[k] == p[t[k - 1]] then t[k - 1] + 1 else 0
  {
    hide Table, Border, Borders;
    TableStep(p, k);
    TablePrefix(p, k + 1);
    TablePrefix(p, k);
    var t, u := Table(p, |p|), Table(p, k + 1);
    assert t[k] == t[..k + 1][k] && t[k - 1] == t[..k][k - 1];
  }

  lemma {:induction false} TablePrefix(p: seq<Char>, k: nat)
    requires k <= |p|
    ensures Table(p, |p|)[..k] == Table(p, k)
  {
    TableGrows(p, k, |p|);
  }

  lemma {:induction false} TableGrows(p: seq<Char>, k: nat, n: nat)
    requires k <= n <= |p|
    ensures Table(p, n)[..k] == Table(p, k)
    decreases n
  {
    if k < n {
      TableGrows(p, k, n - 1);
      assert Table(p, n)[..n - 1] == Table(p, n - 1) by {
        if n > 1 {
          TableStep(p, n - 1);
        }
      }
      assert Table(p, n)[..k] == Table(p, n)[..n - 1][..k];
    }
  }

  lemma {:induction false} CellIsLongest(p: seq<Char>, k: nat)
    requires k < |p| && forall j | 1 <= j < |p| && Breaks(p, j) :: Unbordered(p, j + 1)
    ensures Longest(p, k + 1, Table(p, |p|)[k])
  {
    hide Table;
    assert Border(p, k + 1, Table(p, |p|)[k]);
    if k > 0 {
      CellOf(p, k);
      CellIsLongest(p, k - 1);
      LongestGrows(p, k, Table(p, |p|)[k - 1]);
      assert Breaks(p, k) ==> Unbordered(p, k + 1);
    }
  }

  lemma LongestGrows(p: seq<Char>, k: nat, b: nat)
    requires k < |p| && Longest(p, k, b)
    ensures p[k] == p[b] ==> Longest(p, k + 1, b + 1)
    ensures p[k] != p[b] && Unbordered(p, k + 1) ==> Longest(p, k + 1, 0)
  {
    BorderGrows(p, k, b);
    var n := k + 1;
    forall c: nat | Border(p, n, c) && c > 0
      ensures c <= b + 1
    {
      hide Border;
      BorderShrinks(p, k, c);
    }
  }

  lemma BorderShrinks(p: seq<Char>, k: nat, c: nat)
    requires 0 < c && Border(p, k + 1, c)
    ensures Border(p, k, c - 1) && p[k] == p[c - 1]
  {
    assert p[..c][..c - 1] == p[..c - 1] && p[k + 1 - c..k + 1][..c - 1] == p[k + 1 - c..k];
    assert p[..c][c - 1] == p[k + 1 - c..k + 1][c - 1];
  }

  method Overlaps(p: seq<Char>) returns (overlap: array<nat>)
    requires p != []
    ensures fresh(overlap) && overlap[..] == Table(p, |p|)
  {
    overlap := new nat[|p|];
    overlap[0] := 0;
    assert Table(p, 1) == [0];
    hide Table;
    var j: nat := 0;
    var i := 1;
    while i < |p|
      invariant 1 <= i <= |p| && overlap[..i] == Table(p, i) && j == overlap[i - 1]
    {
      ghost var before := Table(p, i);
      TableStep(p, i);
      var same := p[i] == p[j];
      j := j + 1;
      if same {
        overlap[i] := overlap[i - 1] + 1;
      } else {
        overlap[i] := 0;
        j := 0;
      }
      assert overlap[..i + 1] == before + [overlap[i]];
      i := i + 1;
    }
    assert overlap[..i] == overlap[..];
  }

  /** The search with m characters of the pattern matched in front of index i. */
  function Scan(s: seq<Char>, p: seq<Char>, table: seq<nat>, i: nat, m: nat): int
    requires |table| == |p| && Borders(p, table) && m <= i <= |s| && m <= |p|
    decreases 2 * (|s| - i) + m
  {
    if i == |s| then -1
    else if m == |p| then i - m
    else if s[i] == p[m] then Scan(s, p, table, i + 1, m + 1)
    else if m > 1 then
      assert Border(p, m, table[m - 1]);
      Scan(s, p, table, i, table[m - 1])
    else Scan(s, p, table, i + 1, 0)
  }

  /** Falling back to a border keeps what is already matched in front of i. */
  lemma BorderShift(s: seq<Char>, p: seq<Char>, i: nat, k: nat, b: nat)
    requires k <= i <= |s| && Border(p, k, b) && p[..k] == s[i - k..i]
    ensures p[..b] == s[i - b..i]
  {
    assert s[i - b..i] == s[i - k..i][k - b..] == p[..k][k - b..] == p[k - b..k];
  }

  lemma MatchGrows(s: seq<Char>, p: seq<Char>, i: nat, m: nat)
    requires m <= i < |s| && m < |p| && p[..m] == s[i - m..i] && s[i] == p[m]
    ensures p[..m + 1] == s[i - m..i + 1]
  {
    assert p[..m + 1] == p[..m] + [p[m]] && s[i - m..i + 1] == s[i - m..i] + [s[i]];
  }

  lemma FallbackMatches(s: seq<Char>, p: seq<Char>, table: seq<nat>, i: nat, m: nat)
    requires |table| == |p| && Borders(p, table) && m <= i < |s| && m <= |p| && p[..m] == s[i - m..i]
    ensures m > 1 ==> table[m - 1] < m && p[..table[m - 1]] == s[i - table[m - 1]..i]
    ensures p[..0] == s[i + 1..i + 1]
  {
    if m > 1 {
      assert Border(p, m, table[m - 1]);
      BorderShift(s, p, i, m, table[m - 1]);
    }
  }

  /** One turn of the loop. */
  lemma ScanStep(s: seq<Char>, p: seq<Char>, table: seq<nat>, i: nat, m: nat)
    requires |table| == |p| && Borders(p, table) && m <= i < |s| && m <= |p|
    ensures m == |p| ==> Scan(s, p, table, i, m) == i - m
    ensures m < |p| && s[i] == p[m] ==> Scan(s, p, table, i, m) == Scan(s, p, table, i + 1, m + 1)
    ensures m < |p| && s[i] != p[m] && m > 1 ==>
      table[m - 1] < m && Scan(s, p, table, i, m) == Scan(s, p, table, i, table[m - 1])
    ensures m < |p| && s[i] != p[m] && m <= 1 ==> Scan(s, p, table, i, m) == Scan(s, p, table, i + 1, 0)
  {
    assert m > 1 ==> Border(p, m, table[m - 1]);
  }

  /** A result that is not -1 is an occurrence, and never one that ends the string. */
  lemma {:induction false} ScanIsSound(s: seq<Char>, p: seq<Char>, table: seq<nat>, i: nat, m: nat)
    requires |table| == |p| && Borders(p, table) && m <= i <= |s| && m <= |p|
    requires p[..m] == s[i - m..i]
    ensures var r := Scan(s, p, table, i, m); r == -1 || (OccursAt(s, p, r) && r + |p| < |s|)
    decreases 2 * (|s| - i) + m
  {
    hide Borders, Scan;
    if i == |s| {
      ScanEnds(s, p, table, m);
    } else {
      ScanStep(s, p, table, i, m);
      if m == |p| {
        assert p[..m] == p;
      } else if s[i] == p[m] {
        MatchGrows(s, p, i, m);
        ScanIsSound(s, p, table, i + 1, m + 1);
      } else {
        FallbackMatches(s, p, table, i, m);
        if m > 1 {
          ScanIsSound(s, p, table, i, table[m - 1]);
        } else {
          ScanIsSound(s, p, table, i + 1, 0);
        }
      }
    }
  }

  lemma ScanEnds(s: seq<Char>, p: seq<Char>, table: seq<nat>, m: nat)
    requires |table| == |p| && Borders(p, table) && m <= |s| && m <= |p|
    ensures Scan(s, p, table, |s|, m) == -1
  {
  }

  /** What my_strstr returns for a non-empty pattern. */
  function Found(s: seq<Char>, p: seq<Char>): int {
    if |p| > |s| then -1 else Scan(s, p, Table(p, |p|), 0, 0)
  }

  /** On a mismatch behind m matched characters the table falls back past a border
      that goes on differently, and so could still have matched. */
  predicate Skips(p: seq<Char>, m: nat, b: nat)
    requires 0 < m < |p|
  {
    Border(p, m, b) && p[b] != p[m] && b > Table(p, |p|)[m - 1]
  }

  /** The condition on the pattern under which nothing is ever missed. A single
      matched character falls back to none without another look at the mismatching
      one, so the second character must repeat the first. */
  predicate FindsFirst(p: seq<Char>) {
    |p| >= 2 ==> p[0] == p[1] && forall m: nat, b: nat | 2 <= m < |p| && b < m :: !Skips(p, m, b)
  }

  /** No occurrence in front of the current window has been passed over. The last
      alignment does not count, it is never reported. */
  ghost predicate NoneMissed(s: seq<Char>, p: seq<Char>, from: int) {
    forall a: nat | a < from && a + |p| < |s| :: !OccursAt(s, p, a)
  }

  /** An occurrence that starts in the window, behind its first character, begins
      with a border of what is matched and goes on with the mismatching character. */
  lemma OccurrenceIsBorder(s: seq<Char>, p: seq<Char>, i: nat, m: nat, b: nat)
    requires b < m <= i < |s| && m < |p| && p[..m] == s[i - m..i]
    requires OccursAt(s, p, i - b)
    ensures Border(p, m, b) && p[b] == s[i]
  {
    var a := i - b;
    CharOfOccurrence(s, p, i, a);
    assert p[..b] == s[a..a + |p|][..b] == s[a..i];
    assert p[m - b..m] == p[..m][m - b..] == s[i - m..i][m - b..];
  }

  /** A mismatch at s[i] shifts the window to the next position that is still possible. */
  lemma ShiftMissesNone(s: seq<Char>, p: seq<Char>, i: nat, m: nat, a: nat)
    requires FindsFirst(p) && m <= i < |s| && m < |p| && s[i] != p[m]
    requires p[..m] == s[i - m..i] && OccursAt(s, p, a) && i - m <= a
    ensures a >= if m > 1 then i - Table(p, |p|)[m - 1] else i + 1
  {
    hide Table, Border;
    if a <= i {
      CharOfOccurrence(s, p, i, a);
      hide OccursAt;
      if a > i - m {
        OccurrenceIsBorder(s, p, i, m, i - a);
        assert m > 1 ==> !Skips(p, m, i - a);
      }
    }
  }

  lemma CharOfOccurrence(s: seq<Char>, p: seq<Char>, i: nat, a: nat)
    requires OccursAt(s, p, a) && a <= i < a + |p|
    ensures s[i] == p[i - a]
  {
    assert s[a..a + |p|][i - a] == s[i];
  }

  lemma NoneMissedOn(s: seq<Char>, p: seq<Char>, i: nat, m: nat)
    requires FindsFirst(p) && m <= i < |s| && m < |p| && s[i] != p[m]
    requires p[..m] == s[i - m..i] && NoneMissed(s, p, i - m)
    ensures NoneMissed(s, p, if m > 1 then i - Table(p, |p|)[m - 1] else i + 1)
  {
    hide FindsFirst, OccursAt, Table;
    var next := if m > 1 then i - Table(p, |p|)[m - 1] else i + 1;
    forall a: nat | a < next && a + |p| < |s|
      ensures !OccursAt(s, p, a)
    {
      if OccursAt(s, p, a) && a >= i - m {
        ShiftMissesNone(s, p, i, m, a);
      }
    }
  }

  /** When the loop ends, by a match or at the end of the string. */
  lemma NoneMissedAtEnd(s: seq<Char>, p: seq<Char>, table: seq<nat>, i: nat, m: nat)
    requires |table| == |p| && Borders(p, table) && m <= i <= |s| && m <= |p|
    requires p[..m] == s[i - m..i] && NoneMissed(s, p, i - m) && (i == |s| || m == |p|)
    ensures IsFirstButLast(s, p, Scan(s, p, table, i, m))
  {
    if i < |s| {
      assert p[..m] == p;
    }
  }

  lemma {:induction false} ScanFindsFirst(s: seq<Char>, p: seq<Char>, i: nat, m: nat)
    requires FindsFirst(p) && m <= i <= |s| && m <= |p|
    requires p[..m] == s[i - m..i] && NoneMissed(s, p, i - m)
    ensures IsFirstButLast(s, p, Scan(s, p, Table(p, |p|), i, m))
    decreases 2 * (|s| - i) + m
  {
    hide FindsFirst, OccursAt, NoneMissed, IsFirstButLast, Table, Scan, Borders;
    var table := Table(p, |p|);
    if i == |s| || m == |p| {
      NoneMissedAtEnd(s, p, table, i, m);
    } else {
      ScanStep(s, p, table, i, m);
      if s[i] == p[m] {
        MatchGrows(s, p, i, m);
        ScanFindsFirst(s, p, i + 1, m + 1);
      } else {
        NoneMissedOn(s, p, i, m);
        FallbackMatches(s, p, table, i, m);
        if m > 1 {
          ScanFindsFirst(s, p, i, table[m - 1]);
        } else {
          ScanFindsFirst(s, p, i + 1, 0);
        }
      }
    }
  }

  /** The window never moves back. */
  lemma {:induction false} ScanMovesOn(s: seq<Char>, p: seq<Char>, table: seq<nat>, i: nat, m: nat)
    requires |table| == |p| && Borders(p, table) && m <= i <= |s| && m <= |p|
    ensures var r := Scan(s, p, table, i, m); r == -1 || r >= i - m
    decreases 2 * (|s| - i) + m
  {
    if i == |s| || m == |p| {
    } else if s[i] == p[m] {
      ScanMovesOn(s, p, table, i + 1, m + 1);
    } else if m > 1 {
      assert Border(p, m, table[m - 1]);
      ScanMovesOn(s, p, table, i, table[m - 1]);
    } else {
      ScanMovesOn(s, p, table, i + 1, 0);
    }
  }

  /** A string that begins like the pattern is matched without a fallback. */
  lemma {:induction false} ScanPrefix(s: seq<Char>, p: seq<Char>, table: seq<nat>, m: nat)
    requires |table| == |p| && Borders(p, table) && m <= |p| && m <= |s| && s[..m] == p[..m]
    ensures Scan(s, p, table, 0, 0) == Scan(s, p, table, m, m)
  {
    if m > 0 {
      assert s[..m][..m - 1] == s[..m - 1] && p[..m][..m - 1] == p[..m - 1];
      assert s[..m][m - 1] == p[..m][m - 1];
      ScanPrefix(s, p, table, m - 1);
    }
  }

  /** The pattern again, b characters before its first m have ended. */
  function Overlapped(p: seq<Char>, m: nat, b: nat): seq<Char>
    requires b <= m < |p|
  {
    p[..m] + p[b..] + [p[0]]
  }

  lemma OverlappedOccurs(p: seq<Char>, m: nat, b: nat)
    requires m < |p| && Border(p, m, b)
    ensures var s := Overlapped(p, m, b);
      && |s| == m - b + |p| + 1 && s[..m] == p[..m] && s[m] == p[b]
      && OccursAt(s, p, m - b) && forall c | c in s :: c in p
  {
    var s, at := Overlapped(p, m, b), m - b;
    assert s[..m] == p[..m];
    assert p[..m] == p[..at] + p[at..m];
    assert s == p[..at] + (p[..b] + p[b..]) + [p[0]];
    assert p[..b] + p[b..] == p;
    assert s[at..at + |p|] == p;
  }

  /** Falling back past a border that goes on differently misses an occurrence. */
  lemma OverlappedIsMissed(p: seq<Char>, m: nat, b: nat)
    requires m < |p| && Border(p, m, b) && p[b] != p[m] && (m == 1 || Skips(p, m, b))
    ensures var s := Overlapped(p, m, b); !IsFirstButLast(s, p, Found(s, p))
  {
    var s, table := Overlapped(p, m, b), Table(p, |p|);
    OverlappedOccurs(p, m, b);
    hide Table, OccursAt, Overlapped;
    ScanPrefix(s, p, table, m);
    if m > 1 {
      assert Border(p, m, table[m - 1]);
      ScanMovesOn(s, p, table, m, table[m - 1]);
    } else {
      ScanMovesOn(s, p, table, m + 1, 0);
    }
  }

  lemma SkipMeans(p: seq<Char>, m: nat, b: nat)
    requires 0 < m < |p| && (Skips(p, m, b) || (m == 1 && b == 0 && p[0] != p[1]))
    ensures Border(p, m, b) && p[b] != p[m]
  {
    assert p[..0] == p[1..1];
  }

  /** For every other pattern there is a string, made of the pattern's own
      characters, in which the first occurrence is missed. */
  lemma MissedOccurrence(p: seq<Char>) returns (s: seq<Char>)
    requires !FindsFirst(p)
    ensures !IsFirstButLast(s, p, Found(s, p)) && forall c | c in s :: c in p
  {
    hide Skips;
    var m: nat, b: nat := 1, 0;
    if p[0] == p[1] {
      m, b :| 2 <= m < |p| && b < m && Skips(p, m, b);
    }
    SkipMeans(p, m, b);
    hide Border, Overlapped, OccursAt, IsFirstButLast;
    OverlappedOccurs(p, m, b);
    OverlappedIsMissed(p, m, b);
    s := Overlapped(p, m, b);
  }

  /** When the search is complete: the result is the first occurrence among all
      alignments but the last in every string, if and only if the pattern meets
      the condition. */
  lemma CompleteExactly(p: seq<Char>)
    ensures FindsFirst(p) <==> forall s :: IsFirstButLast(s, p, Found(s, p))
  {
    if FindsFirst(p) {
      forall s
        ensures IsFirstButLast(s, p, Found(s, p))
      {
        if |p| <= |s| {
          assert p[..0] == s[0..0];
          ScanFindsFirst(s, p, 0, 0);
        }
      }
    } else {
      var s := MissedOccurrence(p);
    }
  }

  /** A partial match of k characters fails at index j, and a lies inside it. */
  ghost predicate FailsAround(s: seq<Char>, p: seq<Char>, a: int, j: nat, k: nat) {
    1 <= k <= j < |s| && k < |p| && j - k < a <= j && p[..k] == s[j - k..j] && s[j] != p[k]
  }

  lemma {:induction false} ScanPasses(s: seq<Char>, p: seq<Char>, table: seq<nat>, i: nat, m: nat, a: nat)
    requires |table| == |p| && Borders(p, table) && m <= i <= |s| && m <= |p| && p[..m] == s[i - m..i]
    requires OccursAt(s, p, a) && a + |p| < |s| && i - m <= a
    ensures 0 <= Scan(s, p, table, i, m) <= a || exists j, k :: FailsAround(s, p, a, j, k)
    decreases 2 * (|s| - i) + m
  {
    hide Borders, OccursAt, Scan;
    if i < |s| {
      ScanStep(s, p, table, i, m);
      if m < |p| {
        if a <= i {
          CharOfOccurrence(s, p, i, a);
        }
        if s[i] == p[m] {
          MatchGrows(s, p, i, m);
          ScanPasses(s, p, table, i + 1, m + 1, a);
        } else {
          FallbackMatches(s, p, table, i, m);
          if m > 1 && i - table[m - 1] <= a {
            ScanPasses(s, p, table, i, table[m - 1], a);
          } else if m <= 1 && i < a {
            ScanPasses(s, p, table, i + 1, 0, a);
          } else {
            assert FailsAround(s, p, a, i, m);
          }
        }
      }
    } else {
      FitsBehind(s, p, a);
    }
  }

  lemma FitsBehind(s: seq<Char>, p: seq<Char>, a: nat)
    requires OccursAt(s, p, a)
    ensures a + |p| <= |s|
  {
  }

  /** Whatever the pattern, an occurrence is passed over only if it starts inside a
      partial match that fails. */
  lemma PassedOver(s: seq<Char>, p: seq<Char>, a: nat)
    requires OccursAt(s, p, a) && a + |p| < |s|
    ensures 0 <= Found(s, p) <= a || exists j, k :: FailsAround(s, p, a, j, k)
  {
    assert p[..0] == s[0..0];
    ScanPasses(s, p, Table(p, |p|), 0, 0, a);
  }

  /** So the first occurrence is found if the pattern's first character does not
      appear in front of it. */
  lemma FoundIfFresh(s: seq<Char>, p: seq<Char>, a: nat)
    requires p != [] && OccursAt(s, p, a) && a + |p| < |s| && p[0] !in s[..a]
    ensures Found(s, p) == a
  {
    PassedOver(s, p, a);
    FoundIsRight(s, p);
    hide OccursAt, Found, FailsAround;
    if j: nat, k: nat :| FailsAround(s, p, a, j, k) {
      FailureStarts(s, p, a, j, k);
    }
    if Found(s, p) < a {
      OccurrenceStarts(s, p, Found(s, p), a);
    }
  }

  lemma FailureStarts(s: seq<Char>, p: seq<Char>, a: nat, j: nat, k: nat)
    requires FailsAround(s, p, a, j, k)
    ensures a <= |s| && p[0] in s[..a]
  {
    assert p[..k][0] == s[j - k..j][0] == s[..a][j - k];
  }

  lemma OccurrenceStarts(s: seq<Char>, p: seq<Char>, i: nat, a: nat)
    requires p != [] && OccursAt(s, p, i) && i < a <= |s|
    ensures p[0] in s[..a]
  {
    CharOfOccurrence(s, p, i, i);
    assert s[..a][i] == p[0];
  }

  lemma PassedOverAll(s: seq<Char>, p: seq<Char>)
    requires p != []
    ensures forall a: nat | OccursAt(s, p, a) && a + |p| < |s| ::
      0 <= Found(s, p) <= a || exists j, k :: FailsAround(s, p, a, j, k)
    ensures forall a: nat | OccursAt(s, p, a) && a + |p| < |s| && p[0] !in s[..a] :: Found(s, p) == a
  {
    hide OccursAt, Found, FailsAround;
    forall a: nat | OccursAt(s, p, a) && a + |p| < |s|
      ensures 0 <= Found(s, p) <= a || exists j, k :: FailsAround(s, p, a, j, k)
      ensures p[0] !in s[..a] ==> Found(s, p) == a
    {
      PassedOver(s, p, a);
      FitsBehind(s, p, a);
      if p[0] !in s[..a] {
        FoundIfFresh(s, p, a);
      }
    }
  }

  lemma FoundIsRight(s: seq<Char>, p: seq<Char>)
    ensures var r := Found(s, p);
      && (r == -1 || (OccursAt(s, p, r) && r + |p| < |s|))
      && (FindsFirst(p) ==> IsFirstButLast(s, p, r))
  {
    if |p| <= |s| {
      assert p[..0] == s[0..0];
      ScanIsSound(s, p, Table(p, |p|), 0, 0);
      CompleteExactly(p);
    }
  }

  /** From here the scan leads to result r. */
  predicate Leads(s: seq<Char>, p: seq<Char>, i: int, m: int, r: int) {
    0 <= m <= i <= |s| && m <= |p| && Scan(s, p, Table(p, |p|), i, m) == r
  }

  lemma LeadsOn(s: seq<Char>, p: seq<Char>, i: nat, m: nat, r: int)
    requires Leads(s, p, i, m, r)
    ensures i == |s| ==> r == -1
    ensures i < |s| && m == |p| ==> r == i - m
    ensures i < |s| && m < |p| && s[i] == p[m] ==> Leads(s, p, i + 1, m + 1, r)
    ensures i < |s| && m < |p| && s[i] != p[m] && m > 1 ==>
      Table(p, |p|)[m - 1] < m && Leads(s, p, i, Table(p, |p|)[m - 1], r)
    ensures i < |s| && m < |p| && s[i] != p[m] && m <= 1 ==> Leads(s, p, i + 1, 0, r)
  {
    if i < |s| {
      ScanStep(s, p, Table(p, |p|), i, m);
    }
  }

  /** my_strstr: the loop body runs at most 2 * |s| times although i is stepped back. */
  method Search(s: seq<Char>, p: seq<Char>) returns (r: int, iterations: nat)
    requires p != []
    ensures r == Found(s, p)
    ensures r == -1 || (OccursAt(s, p, r) && r + |p| < |s|)
    ensures FindsFirst(p) ==> IsFirstButLast(s, p, r)
    ensures forall a: nat | OccursAt(s, p, a) && a + |p| < |s| ::
      0 <= r <= a || exists j, k :: FailsAround(s, p, a, j, k)
    ensures forall a: nat | OccursAt(s, p, a) && a + |p| < |s| && p[0] !in s[..a] :: r == a
    ensures iterations <= 2 * |s|
  {
    FoundIsRight(s, p);
    PassedOverAll(s, p);
    assert if |p| > |s| then Found(s, p) == -1 else Leads(s, p, 0, 0, Found(s, p));
    hide *;
    iterations := 0;
    if |p| > |s| {
      return -1, 0;
    }
    var overlap := Overlaps(p);
    var j: nat, matched: nat := 0, 0;
    var i: int := 0;
    while i < |s|
      invariant 0 <= i <= |s| && j == matched <= i && matched <= |p|
      invariant overlap[..] == Table(p, |p|)
      invariant Leads(s, p, i, matched, Found(s, p))
      invariant iterations <= 2 * i - matched
      decreases 2 * (|s| - i) + matched
    {
      iterations := iterations + 1;
      LeadsOn(s, p, i, matched, Found(s, p));
      if j == |p| {
        return i - matched, iterations;
      }
      var same := s[i] == p[j];
      j := j + 1;
      if same {
        matched := matched + 1;
      } else {
        j := 0;
        if matched > 1 {
          assert overlap[..][matched - 1] == overlap[matched - 1];
          matched := overlap[matched - 1];
          j := matched;
          i := i - 1;
        } else {
          matched := 0;
        }
      }
      i := i + 1;
    }
    LeadsOn(s, p, i, matched, Found(s, p));
    r := -1;
  }

  /** The search is not complete: after one matched character it does not look at
      the mismatching one again, and so misses "ab" in "aabb". */
  lemma MissesAnOccurrence()
    ensures var s: seq<Char>, p: seq<Char> := [97, 97, 98, 98], [97, 98];
      Scan(s, p, Table(p, 2), 0, 0) == -1 && OccursAt(s, p, 1)
  {
    var s: seq<Char>, p: seq<Char> := [97, 97, 98, 98], [97, 98];
    var table := Table(p, 2);
    assert Scan(s, p, table, 4, 0) == -1;
    assert Scan(s, p, table, 3, 0) == -1;
    assert Scan(s, p, table, 2, 0) == -1;
    assert Scan(s, p, table, 1, 1) == -1;
    assert s[1..3] == p;
  }
}
