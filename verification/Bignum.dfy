/** Schoolbook multiplication of test_large_mult.c, on decimal digits kept in
    signed chars, lowest digit first. */
module Bignum {

  /** A signed char: every store is checked against its range. */
  newtype schar = x: int | -128 <= x < 128

  // ----- what a digit array stands for

  function Value(s: seq<schar>): int {
    if s == [] then 0 else s[0] as int + 10 * Value(s[1..])
  }

  function Pow10(k: nat): (p: int)
    ensures p > 0
  {
    if k == 0 then 1 else 10 * Pow10(k - 1)
  }

  predicate Digits(s: seq<schar>) { forall i | 0 <= i < |s| :: 0 <= s[i] <= 9 }

  lemma {:induction false} Pow10Add(j: nat, k: nat)
    ensures Pow10(j + k) == Pow10(j) * Pow10(k)
  {
    if j > 0 {
      Pow10Add(j - 1, k);
    }
  }

  lemma {:induction false} ValueUpdate(s: seq<schar>, k: nat, v: schar)
    requires k < |s|
    ensures Value(s[k := v]) == Value(s) + (v as int - s[k] as int) * Pow10(k)
  {
    if k > 0 {
      assert s[k := v][1..] == s[1..][k - 1 := v];
      ValueUpdate(s[1..], k - 1, v);
      var d := v as int - s[k] as int;
      assert d * Pow10(k) == 10 * (d * Pow10(k - 1));
    }
  }

  lemma {:induction false} ValueSnoc(s: seq<schar>, k: nat)
    requires k < |s|
    ensures Value(s[..k + 1]) == Value(s[..k]) + s[k] as int * Pow10(k)
  {
    if k == 0 {
      assert s[..1] == [s[0]] && s[..1][1..] == [];
    } else {
      assert s[..k + 1][1..] == s[1..][..k] && s[..k][1..] == s[1..][..k - 1];
      ValueSnoc(s[1..], k - 1);
      assert s[k] as int * Pow10(k) == 10 * (s[k] as int * Pow10(k - 1));
    }
  }

  lemma ValueOfPrefix(s: seq<schar>, t: seq<schar>)
    requires |t| == |s| + 1 && s == t[..|s|]
    ensures Value(t) == Value(s) + t[|s|] as int * Pow10(|s|)
  {
    ValueSnoc(t, |s|);
    assert t[..|s| + 1] == t;
  }

  lemma {:induction false} ValueZeros(s: seq<schar>)
    requires forall i | 0 <= i < |s| :: s[i] == 0
    ensures Value(s) == 0
  {
    if s != [] {
      ValueZeros(s[1..]);
    }
  }

  lemma {:induction false} ValueBounds(s: seq<schar>)
    requires Digits(s)
    ensures 0 <= Value(s) < Pow10(|s|)
  {
    if s != [] {
      ValueBounds(s[1..]);
    }
  }

  /** Digit k of the array is digit k of the number. */
  lemma {:induction false} DigitAt(s: seq<schar>, k: nat)
    requires Digits(s) && k < |s|
    ensures Value(s) / Pow10(k) % 10 == s[k] as int
  {
    ValueBounds(s[1..]);
    if k > 0 {
      DigitAt(s[1..], k - 1);
      DivideTwice(Value(s), Pow10(k - 1));
    }
  }

  lemma DivideTwice(v: int, p: nat)
    requires v >= 0 && p > 0
    ensures v / (10 * p) == (v / 10) / p
  {
    var q := (v / 10) / p;
    var r := (v / 10) % p;
    assert v == (q * p + r) * 10 + v % 10;
    assert v == q * (10 * p) + (r * 10 + v % 10);
    QuotientUnique(v, 10 * p, q, r * 10 + v % 10);
  }

  lemma QuotientUnique(v: int, d: int, q: int, r: int)
    requires d > 0 && 0 <= r < d && v == q * d + r
    ensures v / d == q
  {
    SameQuotient(d, q, r, v / d, v % d);
  }

  lemma SameQuotient(d: int, q: int, r: int, q': int, r': int)
    requires 0 <= r < d && 0 <= r' < d && q * d + r == q' * d + r'
    ensures q == q'
  {
    assert (q - q') * d == r' - r;
    if q > q' {
      AtLeast(q - q', d);
    } else if q < q' {
      AtLeast(q' - q, d);
    }
  }

  lemma AtLeast(e: int, d: int)
    requires e >= 1 && d > 0
    ensures e * d >= d
  {
    assert e * d == (e - 1) * d + d;
  }

  // ----- the operations

  class Bignum {
    const num: array<schar>

    /** bignum_alloc: that many cells, all 0. */
    constructor Alloc(len: nat)
      ensures fresh(num) && num.Length == len
      ensures forall i | 0 <= i < len :: num[i] == 0
    {
      num := new schar[len](_ => 0);
    }
  }

  /** One cell of a row: the carry c is worth 10^k, and comes out worth 10^(k+1). */
  lemma CellArithmetic(v: int, cell: int, a: int, b: int, c: int, t: int, p: int)
    requires t == cell + b * a + c
    ensures v + (t % 10 - cell) * p + (t / 10) * (10 * p) == v + c * p + b * (a * p)
  {
    assert (t / 10) * (10 * p) == (10 * (t / 10)) * p;
    assert (t % 10 - cell) * p + (10 * (t / 10)) * p == (t % 10 - cell + 10 * (t / 10)) * p;
    assert (c + b * a) * p == c * p + b * (a * p);
  }

  method Mult(n1: Bignum, n2: Bignum) returns (res: Bignum)
    requires Digits(n1.num[..]) && Digits(n2.num[..])
    ensures fresh(res) && fresh(res.num)
    ensures res.num.Length == n1.num.Length + n2.num.Length + 1
    ensures Digits(res.num[..])
    ensures Value(res.num[..]) == Value(n1.num[..]) * Value(n2.num[..])
  {
    res := new Bignum.Alloc(n1.num.Length + n2.num.Length + 1);
    ghost var a, b := n1.num[..], n2.num[..];
    ValueZeros(res.num[..]);
    var i := 0;
    while i < n2.num.Length
      invariant 0 <= i <= n2.num.Length
      invariant n1.num[..] == a && n2.num[..] == b
      invariant Digits(res.num[..])
      invariant forall m | n1.num.Length + i <= m < res.num.Length :: res.num[m] == 0
      invariant Value(res.num[..]) == Value(a) * Value(b[..i])
    {
      MultRow(n1, n2, res, i);
      ValueSnoc(b, i);
      RowArithmetic(Value(a), Value(b[..i]), b[i] as int, Pow10(i));
      i := i + 1;
    }
    assert b[..i] == b;
  }

  lemma RowArithmetic(a: int, b: int, d: int, p: int)
    ensures a * b + d * (a * p) == a * (b + d * p)
  {
    assert d * (a * p) == a * (d * p);
  }

  /** What is stored in cell i + j before it is reduced to a digit, in the row that
      adds d times a, shifted by i, to r. */
  function Cell(r: seq<schar>, a: seq<schar>, d: int, i: nat, j: nat): int
    requires j < |a| && i + j < |r|
    decreases j, 1
  {
    r[i + j] as int + d * a[j] as int + Carry(r, a, d, i, j)
  }

  /** The carry into that cell. */
  function Carry(r: seq<schar>, a: seq<schar>, d: int, i: nat, j: nat): int
    requires j <= |a| && i + j <= |r|
    decreases j, 0
  {
    if j == 0 then 0 else Cell(r, a, d, i, j - 1) / 10
  }

  /** No cell of a row ever exceeds 99, so a signed char holds it. */
  lemma {:induction false} CellFits(r: seq<schar>, a: seq<schar>, d: int, i: nat, j: nat)
    requires Digits(r) && Digits(a) && 0 <= d <= 9 && j < |a| && i + j < |r|
    ensures 0 <= Cell(r, a, d, i, j) <= 99 && 0 <= Carry(r, a, d, i, j + 1) <= 9
    ensures Cell(r, a, d, i, j) == r[i + j] as int + d * a[j] as int + Carry(r, a, d, i, j)
    ensures Carry(r, a, d, i, j + 1) == Cell(r, a, d, i, j) / 10
  {
    ProductBound(d, a[j] as int);
    if j > 0 {
      CellFits(r, a, d, i, j - 1);
    }
  }

  /** Each cell of the row was at most 99 and is stored as its low digit. */
  ghost predicate RowStored(r: seq<schar>, a: seq<schar>, d: int, i: nat, stored: seq<schar>)
    requires i + |a| <= |r| == |stored|
  {
    forall j | 0 <= j < |a| ::
      0 <= Cell(r, a, d, i, j) <= 99 && stored[i + j] as int == Cell(r, a, d, i, j) % 10
  }

  /** One turn of the outer loop: adds digit i of n2 times n1, shifted by i. Every
      cell stays below 100 on the way, and the top cell it adds to was still 0. */
  method MultRow(n1: Bignum, n2: Bignum, res: Bignum, i: nat)
    requires i < n2.num.Length && res.num.Length == n1.num.Length + n2.num.Length + 1
    requires res.num != n1.num && res.num != n2.num
    requires Digits(n1.num[..]) && Digits(n2.num[..]) && Digits(res.num[..])
    requires forall m | n1.num.Length + i <= m < res.num.Length :: res.num[m] == 0
    modifies res.num
    ensures Digits(res.num[..])
    ensures forall m | n1.num.Length + i + 1 <= m < res.num.Length :: res.num[m] == 0
    ensures Value(res.num[..]) ==
      old(Value(res.num[..])) + n2.num[i] as int * (Value(n1.num[..]) * Pow10(i))
    ensures RowStored(old(res.num[..]), n1.num[..], n2.num[i] as int, i, res.num[..])
    ensures old(res.num[i + n1.num.Length]) == 0
    ensures res.num[i + n1.num.Length] as int
      == Carry(old(res.num[..]), n1.num[..], n2.num[i] as int, i, n1.num.Length)
  {
    hide Value, Pow10, Cell, Carry;
    ghost var a, r, d := n1.num[..], res.num[..], n2.num[i] as int;
    assert n2.num[..][i] == n2.num[i];
    var k := i;
    var carry: int := 0;
    RowStarts(r, a, d, i);
    var j := 0;
    while j < n1.num.Length
      invariant 0 <= j <= n1.num.Length && 0 <= carry <= 9
      invariant carry == Carry(r, a, d, i, j)
      invariant Digits(res.num[..])
      invariant forall m | k + j <= m < res.num.Length :: res.num[m] == r[m]
      invariant forall m | 0 <= m < j :: res.num[k + m] as int == Cell(r, a, d, i, m) % 10
      invariant forall m | 0 <= m < j :: 0 <= Cell(r, a, d, i, m) <= 99
      invariant Value(res.num[..]) + carry * Pow10(k + j) == Value(r) + d * (Value(a[..j]) * Pow10(i))
    {
      ghost var before, cell := res.num[..], Cell(r, a, d, i, j);
      CellFits(r, a, d, i, j);
      CellValue(before, a, d, i, j, carry, cell, Value(r));
      var lRes := n2.num[i] as int * n1.num[j] as int + carry;
      assert res.num[k + j] as int + lRes == cell;
      res.num[k + j] := (res.num[k + j] as int + lRes) as schar;
      carry := res.num[k + j] as int / 10;
      res.num[k + j] := res.num[k + j] % 10;
      assert res.num[..] == before[k + j := (cell % 10) as schar];
      j := j + 1;
    }
    assert a[..j] == a;
    ghost var before := res.num[..];
    assert res.num[k + j] == 0;
    res.num[k + j] := res.num[k + j] + carry as schar;
    assert res.num[..] == before[k + j := carry as schar];
    ValueUpdate(before, k + j, carry as schar);
  }

  lemma RowStarts(r: seq<schar>, a: seq<schar>, d: int, i: nat)
    requires i <= |r|
    ensures Carry(r, a, d, i, 0) == 0
    ensures Value(r) + 0 * Pow10(i) == Value(r) + d * (Value(a[..0]) * Pow10(i))
  {
    assert Value(a[..0]) == 0;
  }

  lemma ProductBound(x: int, y: int)
    requires 0 <= x <= 9 && 0 <= y <= 9
    ensures 0 <= x * y <= 81
  {
    assert x * y <= 9 * y;
  }

  /** Storing the low digit of a cell and carrying the rest keeps a row's account. */
  lemma CellValue(s: seq<schar>, a: seq<schar>, d: int, i: nat, j: nat, carry: int, cell: int, start: int)
    requires j < |a| && i + j < |s| && cell == s[i + j] as int + d * a[j] as int + carry && 0 <= cell <= 99
    requires Value(s) + carry * Pow10(i + j) == start + d * (Value(a[..j]) * Pow10(i))
    ensures Value(s[i + j := (cell % 10) as schar]) + (cell / 10) * Pow10(i + (j + 1))
      == start + d * (Value(a[..j + 1]) * Pow10(i))
  {
    hide Value;
    ValueUpdate(s, i + j, (cell % 10) as schar);
    CellArithmetic(Value(s), s[i + j] as int, a[j] as int, d, carry, cell, Pow10(i + j));
    ValueSnoc(a, j);
    Pow10Add(j, i);
    ShiftArithmetic(d, Value(a[..j]), a[j] as int, Pow10(j), Pow10(i));
  }

  lemma ShiftArithmetic(d: int, v: int, a: int, pj: int, pi: int)
    ensures d * ((v + a * pj) * pi) == d * (v * pi) + d * (a * (pj * pi))
  {
    assert (v + a * pj) * pi == v * pi + a * (pj * pi);
  }

  // ----- setting a number

  /** Division and remainder as C has them: towards zero. */
  function DivC(a: int): int { if a >= 0 then a / 10 else -((-a) / 10) }

  function ModC(a: int): int { a - 10 * DivC(a) }

  predicate SameSign(s: seq<schar>, num: int) {
    forall i | 0 <= i < |s| :: if num >= 0 then 0 <= s[i] <= 9 else -9 <= s[i] <= 0
  }

  lemma {:induction false} SignedBounds(s: seq<schar>, num: int)
    requires SameSign(s, num)
    ensures if num >= 0 then 0 <= Value(s) < Pow10(|s|) else -Pow10(|s|) < Value(s) <= 0
  {
    if s != [] {
      SignedBounds(s[1..], num);
    }
  }

  lemma {:induction false} Pow10Monotone(j: nat, k: nat)
    requires j <= k
    ensures Pow10(j) <= Pow10(k)
  {
    if j < k {
      Pow10Monotone(j, k - 1);
    }
  }

  /** Succeeds exactly when the number has no more digits than there are cells;
      then the cells stand for it. Else they hold its low digits. */
  method Set(bignum: Bignum, num: int) returns (rc: int)
    modifies bignum.num
    ensures rc == 0 || rc == -1
    ensures SameSign(bignum.num[..], num)
    ensures rc == 0 <==> -Pow10(bignum.num.Length) < num < Pow10(bignum.num.Length)
    ensures rc == 0 ==> Value(bignum.num[..]) == num
    ensures rc == -1 ==> exists q :: q != 0 && num == Value(bignum.num[..]) + q * Pow10(bignum.num.Length)
  {
    var i := 0;
    var n := num;
    while n != 0 && i < bignum.num.Length
      invariant 0 <= i <= bignum.num.Length
      invariant SameSign(bignum.num[..i], num) && (if num >= 0 then n >= 0 else n <= 0)
      invariant Value(bignum.num[..i]) + n * Pow10(i) == num
      decreases bignum.num.Length - i
    {
      bignum.num[i] := ModC(n) as schar;
      ValueOfPrefix(bignum.num[..i], bignum.num[..i + 1]);
      SplitDigit(n, Pow10(i));
      n := DivC(n);
      i := i + 1;
    }
    SignedBounds(bignum.num[..i], num);
    if n != 0 {
      assert bignum.num[..i] == bignum.num[..];
      Outgrown(num, Value(bignum.num[..]), n, Pow10(i));
      return -1;
    }
    Pow10Monotone(i, bignum.num.Length);
    while i < bignum.num.Length
      invariant 0 <= i <= bignum.num.Length
      invariant SameSign(bignum.num[..i], num) && Value(bignum.num[..i]) == num
    {
      bignum.num[i] := 0;
      ValueOfPrefix(bignum.num[..i], bignum.num[..i + 1]);
      i := i + 1;
    }
    assert bignum.num[..i] == bignum.num[..];
    rc := 0;
  }

  lemma SplitDigit(n: int, p: int)
    ensures n * p == ModC(n) * p + DivC(n) * (10 * p)
  {
    assert DivC(n) * (10 * p) == (10 * DivC(n)) * p;
    assert (ModC(n) + 10 * DivC(n)) * p == ModC(n) * p + (10 * DivC(n)) * p;
  }

  lemma Outgrown(num: int, value: int, n: int, p: int)
    requires n != 0 && num == value + n * p && p > 0
    requires if num >= 0 then n >= 0 && value >= 0 else n <= 0 && value <= 0
    ensures num >= p || num <= -p
  {
    if num >= 0 {
      AtLeast(n, p);
    } else {
      AtLeast(-n, p);
      assert n * p == -((-n) * p);
    }
  }

  // ----- the factorial of main

  function Factorial(n: nat): nat { if n == 0 then 1 else n * Factorial(n - 1) }

  /** The sum of the decimal digits of a number. */
  function DigitSum(n: nat): nat { if n == 0 then 0 else n % 10 + DigitSum(n / 10) }

  function Sum(s: seq<schar>): int { if s == [] then 0 else s[0] as int + Sum(s[1..]) }

  lemma {:induction false} SumIsDigitSum(s: seq<schar>)
    requires Digits(s)
    ensures 0 <= Value(s) && DigitSum(Value(s)) == Sum(s)
  {
    if s != [] {
      SumIsDigitSum(s[1..]);
      assert Value(s) % 10 == s[0] as int && Value(s) / 10 == Value(s[1..]);
    }
  }

  lemma {:induction false} SumSnoc(s: seq<schar>, k: nat)
    requires k < |s|
    ensures Sum(s[..k + 1]) == Sum(s[..k]) + s[k] as int
  {
    if k == 0 {
      assert s[..1] == [s[0]] && s[..1][1..] == [];
    } else {
      assert s[..k + 1][1..] == s[1..][..k] && s[..k][1..] == s[1..][..k - 1];
      SumSnoc(s[1..], k - 1);
    }
  }

  /** main with its limit 100 as a parameter: num1 has four digits, so any limit
      below 10^4 will do. */
  method FactorialDigits(limit: nat) returns (num2: Bignum, sumDigits: int)
    requires limit < 10000
    ensures Digits(num2.num[..]) && Value(num2.num[..]) == Factorial(limit)
    ensures sumDigits == DigitSum(Factorial(limit))
  {
    var num1 := new Bignum.Alloc(4);
    num2 := new Bignum.Alloc(4);
    assert Pow10(4) == 10000;
    var rc := Set(num2, 1);
    var i := 2;
    assert Factorial(1) == 1;
    while i <= limit
      invariant 2 <= i && (i <= limit + 1 || i == 2)
      invariant fresh(num1) && fresh(num1.num) && num1.num.Length == 4 && num2.num != num1.num
      invariant Digits(num2.num[..]) && Value(num2.num[..]) == Factorial(i - 1)
    {
      rc := Set(num1, i);
      var num3 := Mult(num1, num2);
      num2 := num3;
      i := i + 1;
    }
    assert Factorial(0) == 1 && Factorial(limit) == Factorial(i - 1);
    ghost var digits := num2.num[..];
    sumDigits := 0;
    i := 0;
    while i < num2.num.Length
      invariant 0 <= i <= num2.num.Length && num2.num[..] == digits && sumDigits == Sum(digits[..i])
    {
      SumSnoc(digits, i);
      sumDigits := sumDigits + num2.num[i] as int;
      i := i + 1;
    }
    assert digits[..i] == digits;
    SumIsDigitSum(digits);
  }
}
