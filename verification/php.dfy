/** The few PHP language and string-library semantics the plugin relies on,
    written out: `empty()` on strings, `trim`, `strtoupper`, decimal
    rendering of integers and `sprintf('%02d')`-style zero padding. */
module Php {

  /** `$data[$key] ?? $default` on a request or argument array. */
  function Coalesce(data: map<string, string>, key: string, default: string): (v: string)
    ensures key in data ==> v == data[key]
    ensures key !in data ==> v == default
  {
    if key in data then data[key] else default
  }

  /** PHP's `empty()` on a string: true for "" and for "0". */
  predicate Empty(s: string) {
    |s| == 0 || (|s| == 1 && s[0] == '0')
  }

  /** The characters PHP's `trim()` strips by default: space, tab, LF, CR, NUL, vertical tab. */
  predicate IsTrimmed(c: char) {
    c == ' ' || c == '\t' || c == '\n' || c == '\r' || c as int == 0 || c as int == 11
  }

  function TrimLeft(s: string): (r: string)
    ensures |r| <= |s| && r == s[|s| - |r|..]
    ensures |r| > 0 ==> !IsTrimmed(r[0])
    ensures forall i :: 0 <= i < |s| - |r| ==> IsTrimmed(s[i])
  {
    if |s| > 0 && IsTrimmed(s[0]) then
      var r := TrimLeft(s[1..]);
      assert s[1..][|s| - 1 - |r|..] == s[|s| - |r|..];
      assert forall i :: 1 <= i < |s| ==> s[i] == s[1..][i - 1];
      r
    else s
  }

  function TrimRight(s: string): (r: string)
    ensures |r| <= |s| && r == s[..|r|]
    ensures |r| > 0 ==> !IsTrimmed(r[|r| - 1])
    ensures forall i :: |r| <= i < |s| ==> IsTrimmed(s[i])
  {
    if |s| > 0 && IsTrimmed(s[|s| - 1]) then
      var r := TrimRight(s[..|s| - 1]);
      assert s[..|s| - 1][..|r|] == s[..|r|];
      assert forall i :: 0 <= i < |s| - 1 ==> s[i] == s[..|s| - 1][i];
      r
    else s
  }

  /** PHP's `trim($s)`. */
  function Trim(s: string): string {
    TrimRight(TrimLeft(s))
  }

  /** PHP's `strtoupper` (ASCII letters only, as in PHP 8.2 and later). */
  function UpperChar(c: char): char {
    if 'a' <= c <= 'z' then (c as int - 32) as char else c
  }

  function ToUpper(s: string): (r: string)
    ensures |r| == |s|
    ensures forall i :: 0 <= i < |s| ==> r[i] == UpperChar(s[i])
  {
    if s == [] then [] else [UpperChar(s[0])] + ToUpper(s[1..])
  }

  predicate IsDigit(c: char) {
    '0' <= c <= '9'
  }

  function Digit(n: nat): (c: char)
    requires n < 10
    ensures IsDigit(c) && c as int - '0' as int == n
  {
    ('0' as int + n) as char
  }

  /** The decimal numeral of `n`, as PHP's string conversion of an integer prints it. */
  function Decimal(n: nat): (r: string)
    ensures |r| > 0 && forall i :: 0 <= i < |r| ==> IsDigit(r[i])
    ensures (n < 10) == (|r| == 1)
  {
    if n < 10 then [Digit(n)] else Decimal(n / 10) + [Digit(n % 10)]
  }

  /** The numeral of a positive id is never "", nor "0": PHP's `empty()` is false on it. */
  lemma {:induction false} DecimalOfPositiveNotEmpty(n: nat)
    requires n > 0
    ensures !Empty(Decimal(n))
  {
    if n >= 10 {
      assert |Decimal(n)| >= 2;
    } else {
      assert Decimal(n) == [Digit(n)];
      assert Decimal(n)[0] != '0';
    }
  }

  /** The value PHP gives a numeric string made only of decimal digits ("007" is 7). */
  function DigitsValue(s: string): nat
    requires forall i :: 0 <= i < |s| ==> IsDigit(s[i])
  {
    if s == [] then 0
    else
      assert IsDigit(s[|s| - 1]);
      10 * DigitsValue(s[..|s| - 1]) + (s[|s| - 1] as int - '0' as int)
  }

  /** Reading back a printed integer gives the integer. */
  lemma {:induction false} DecimalRoundTrip(n: nat)
    ensures DigitsValue(Decimal(n)) == n
  {
    var r := Decimal(n);
    if n < 10 {
      assert r == [Digit(n)] && r[..0] == [];
    } else {
      assert r == Decimal(n / 10) + [Digit(n % 10)];
      assert r[..|r| - 1] == Decimal(n / 10);
      DecimalRoundTrip(n / 10);
    }
  }

  /** `sprintf('%02d', n)` for 0 <= n < 100. */
  function Fixed2(n: nat): (r: string)
    requires n < 100
    ensures |r| == 2 && IsDigit(r[0]) && IsDigit(r[1])
  {
    [Digit(n / 10), Digit(n % 10)]
  }

  /** Four-digit zero-padded year, as `date('Y')` prints years 0 to 9999. */
  function Fixed4(n: nat): (r: string)
    requires n < 10000
    ensures |r| == 4
  {
    Fixed2(n / 100) + Fixed2(n % 100)
  }

  /** Byte-wise string order, as `strcmp` and a binary SQL comparison use it:
      the first differing character decides, and a proper prefix is smaller. */
  predicate LexLess(a: string, b: string) {
    if |a| == 0 then |b| > 0
    else if |b| == 0 then false
    else a[0] < b[0] || (a[0] == b[0] && LexLess(a[1..], b[1..]))
  }

  predicate LexLeq(a: string, b: string) {
    a == b || LexLess(a, b)
  }

  lemma {:induction false} LexLessIrreflexive(a: string)
    ensures !LexLess(a, a)
  {
    if |a| > 0 {
      LexLessIrreflexive(a[1..]);
    }
  }

  /** Comparing two concatenations whose first parts have equal length: the first parts decide,
      and only on a tie do the second parts. */
  lemma {:induction false} LexLessAppend(a1: string, a2: string, b1: string, b2: string)
    requires |a1| == |b1|
    ensures LexLess(a1 + a2, b1 + b2) <==> LexLess(a1, b1) || (a1 == b1 && LexLess(a2, b2))
  {
    if |a1| == 0 {
      assert a1 + a2 == a2 && b1 + b2 == b2;
    } else {
      assert (a1 + a2)[1..] == a1[1..] + a2;
      assert (b1 + b2)[1..] == b1[1..] + b2;
      LexLessAppend(a1[1..], a2, b1[1..], b2);
      if a1[0] == b1[0] && a1[1..] == b1[1..] {
        assert a1 == b1 by {
          assert a1 == [a1[0]] + a1[1..] && b1 == [b1[0]] + b1[1..];
        }
      }
    }
  }

  /** A string is smaller than itself extended by a non-empty suffix. */
  lemma {:induction false} LexLessProperPrefix(a: string, t: string)
    requires |t| > 0
    ensures LexLess(a, a + t)
  {
    if |a| > 0 {
      assert (a + t)[1..] == a[1..] + t;
      LexLessProperPrefix(a[1..], t);
    }
  }

  lemma Fixed2Order(a: nat, b: nat)
    requires a < 100 && b < 100
    ensures LexLess(Fixed2(a), Fixed2(b)) <==> a < b
  {
    var x, y := Fixed2(a), Fixed2(b);
    assert x[1..] == [x[1]] && y[1..] == [y[1]];
    assert [x[1]][1..] == [] && [y[1]][1..] == [];
    assert LexLess([x[1]], [y[1]]) <==> x[1] < y[1];
    assert LexLess(x, y) <==> x[0] < y[0] || (x[0] == y[0] && x[1] < y[1]);
    assert (x[0] < y[0]) == (a / 10 < b / 10) && (x[0] == y[0]) == (a / 10 == b / 10);
    assert (x[1] < y[1]) == (a % 10 < b % 10);
  }

  lemma Fixed2Injective(a: nat, b: nat)
    requires a < 100 && b < 100
    ensures Fixed2(a) == Fixed2(b) <==> a == b
  {
    if Fixed2(a) == Fixed2(b) {
      assert Fixed2(a)[0] == Fixed2(b)[0] && Fixed2(a)[1] == Fixed2(b)[1];
    }
  }

  lemma Fixed4Order(a: nat, b: nat)
    requires a < 10000 && b < 10000
    ensures LexLess(Fixed4(a), Fixed4(b)) <==> a < b
    ensures Fixed4(a) == Fixed4(b) <==> a == b
  {
    LexLessAppend(Fixed2(a / 100), Fixed2(a % 100), Fixed2(b / 100), Fixed2(b % 100));
    Fixed2Order(a / 100, b / 100);
    Fixed2Order(a % 100, b % 100);
    Fixed2Injective(a / 100, b / 100);
    Fixed2Injective(a % 100, b % 100);
    if Fixed4(a) == Fixed4(b) {
      assert Fixed4(a)[..2] == Fixed2(a / 100) && Fixed4(b)[..2] == Fixed2(b / 100);
      assert Fixed4(a)[2..] == Fixed2(a % 100) && Fixed4(b)[2..] == Fixed2(b % 100);
    }
  }
}
