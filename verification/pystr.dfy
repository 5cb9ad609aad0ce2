/** Text primitives with the semantics of Python's `str` methods (and of
    JavaScript's `String.prototype.split`/`Array.prototype.join`, which
    agree with Python's for a one-character separator).

    Characters are compared by code point, as both languages do. Only ASCII
    digits and letters are classified; Unicode digits are not modelled. */
module PyStr {

  // ---------------------------------------------------------------------
  // Digits and decimal numerals

  predicate IsDigit(c: char) { '0' <= c <= '9' }

  predicate IsLetter(c: char) { 'a' <= c <= 'z' || 'A' <= c <= 'Z' }

  predicate AllDigits(s: string) { forall i | 0 <= i < |s| :: IsDigit(s[i]) }

  function DigitValue(c: char): nat
    requires IsDigit(c)
  {
    (c - '0') as nat
  }

  function DigitChar(d: nat): (c: char)
    requires d < 10
    ensures IsDigit(c) && DigitValue(c) == d
  {
    ('0' as int + d) as char
  }

  /** The value of a string of ASCII digits, read most significant first. */
  function DigitsValue(s: string): nat
    requires AllDigits(s)
  {
    if |s| == 0 then 0 else DigitsValue(s[..|s| - 1]) * 10 + DigitValue(s[|s| - 1])
  }

  /** `str(n)` for a natural number: decimal digits without leading zeros. */
  function Decimal(n: nat): (s: string)
    ensures |s| >= 1 && AllDigits(s)
  {
    if n < 10 then [DigitChar(n)] else Decimal(n / 10) + [DigitChar(n % 10)]
  }

  /** Reading back a rendered numeral gives the number. */
  lemma {:induction false} DecimalRoundTrip(n: nat)
    ensures DigitsValue(Decimal(n)) == n
  {
    if n >= 10 {
      var s := Decimal(n);
      assert s[..|s| - 1] == Decimal(n / 10);
      DecimalRoundTrip(n / 10);
    }
  }

  /** The numerals of the years 1000..9999 have exactly four digits. */
  lemma FourDigitDecimal(n: nat)
    requires 1000 <= n <= 9999
    ensures |Decimal(n)| == 4
  {
    var a, b, c := n / 10, n / 10 / 10, n / 10 / 10 / 10;
    assert 1 <= c <= 9 && 10 <= b <= 99 && 100 <= a <= 999;
    assert |Decimal(c)| == 1;
    assert |Decimal(b)| == |Decimal(c)| + 1;
    assert |Decimal(a)| == |Decimal(b)| + 1;
    assert |Decimal(n)| == |Decimal(a)| + 1;
  }

  /** The numerals of the numbers below 1000 have at most three digits. */
  lemma ShortDecimal(n: nat)
    requires n < 1000
    ensures |Decimal(n)| <= 3
  {
    if n >= 10 {
      var a := n / 10;
      assert a < 100;
      if a >= 10 {
        assert a / 10 < 10;
        assert |Decimal(a / 10)| == 1;
        assert |Decimal(a)| == 2;
      }
      assert |Decimal(n)| == |Decimal(a)| + 1;
    }
  }

  lemma {:induction false} DigitsValuePositive(t: string)
    requires |t| >= 1 && AllDigits(t) && t[0] != '0'
    ensures DigitsValue(t) >= 1
  {
    if |t| > 1 {
      DigitsValuePositive(t[..|t| - 1]);
    }
  }

  /** A numeral without a leading zero is what `Decimal` renders for its value. */
  lemma {:induction false} DecimalOfDigits(t: string)
    requires |t| >= 1 && AllDigits(t) && t[0] != '0'
    ensures Decimal(DigitsValue(t)) == t
  {
    var n := DigitsValue(t);
    if |t| > 1 {
      var p := t[..|t| - 1];
      DigitsValuePositive(p);
      DecimalOfDigits(p);
      assert n / 10 == DigitsValue(p) && n % 10 == DigitValue(t[|t| - 1]);
      assert DigitChar(n % 10) == t[|t| - 1];
      assert t == p + [t[|t| - 1]];
    } else {
      assert t[..|t| - 1] == [];
      assert DigitsValue(t[..|t| - 1]) == 0;
      assert n == DigitValue(t[0]);
      assert [DigitChar(n)] == t;
    }
  }

  /** A numeral of `k` digits is below 10^k; four digits make at most 9999. */
  lemma {:induction false} FourDigitsBound(t: string)
    requires |t| == 4 && AllDigits(t)
    ensures DigitsValue(t) <= 9999
  {
    assert t[..1][..0] == [];
    assert t[..2][..1] == t[..1];
    assert t[..3][..2] == t[..2];
    assert DigitsValue(t[..1]) <= 9;
    assert DigitsValue(t[..2]) <= 99;
    assert DigitsValue(t[..3]) <= 999;
  }

  /** JavaScript's `Number.prototype.toString` on an integer. */
  function IntToString(i: int): (s: string)
    ensures |s| >= 1
  {
    if i < 0 then "-" + Decimal(-i) else Decimal(i)
  }

  /** A two-digit, zero-padded field (`%m`, `%d`, `%H`, `%M`, `%S`). */
  function Pad2(n: nat): (s: string)
    requires n < 100
    ensures |s| == 2 && AllDigits(s) && DigitsValue(s) == n
  {
    var s := [DigitChar(n / 10), DigitChar(n % 10)];
    assert s[..1] == [DigitChar(n / 10)];
    assert s[..1][..0] == [];
    assert DigitsValue(s[..1]) == n / 10;
    s
  }

  /** Every two-digit numeral is the padded rendering of its value. */
  lemma Pad2OfDigits(t: string)
    requires |t| == 2 && AllDigits(t)
    ensures DigitsValue(t) < 100 && Pad2(DigitsValue(t)) == t
  {
    assert t[..1][..0] == [];
    assert t[..1] == [t[0]];
    assert DigitsValue(t[..1]) == DigitValue(t[0]);
    var n := DigitsValue(t);
    assert n == DigitValue(t[0]) * 10 + DigitValue(t[1]);
    assert n / 10 == DigitValue(t[0]) && n % 10 == DigitValue(t[1]);
  }

  /** `str.isalnum()` restricted to ASCII: non-empty, letters and digits only. */
  predicate IsAlnum(s: string)
  {
    |s| > 0 && forall i | 0 <= i < |s| :: IsDigit(s[i]) || IsLetter(s[i])
  }

  function ToLowerAscii(c: char): char
  {
    if 'A' <= c <= 'Z' then (c as int + 32) as char else c
  }

  /** ASCII case-insensitive equality, as used for HTTP header names. */
  predicate EqualsIgnoreCase(a: string, b: string)
  {
    |a| == |b| && forall i | 0 <= i < |a| :: ToLowerAscii(a[i]) == ToLowerAscii(b[i])
  }

  // ---------------------------------------------------------------------
  // Counting, stripping

  /** How many times a character occurs in a string: `s.count(c)`. */
  function Count(s: string, c: char): nat
  {
    if |s| == 0 then 0 else (if s[0] == c then 1 else 0) + Count(s[1..], c)
  }

  lemma {:induction false} CountAppend(a: string, b: string, c: char)
    ensures Count(a + b, c) == Count(a, c) + Count(b, c)
  {
    if |a| == 0 {
      assert a + b == b;
    } else {
      assert (a + b)[1..] == a[1..] + b;
      CountAppend(a[1..], b, c);
    }
  }

  lemma {:induction false} CountAbsent(s: string, c: char)
    ensures Count(s, c) == 0 <==> c !in s
  {
    if |s| > 0 {
      CountAbsent(s[1..], c);
      assert s == [s[0]] + s[1..];
    }
  }

  /** `s.lstrip(c)`: drops every leading `c`. */
  function LStrip(s: string, c: char): (r: string)
    ensures |r| <= |s| && r == s[|s| - |r|..]
    ensures |r| > 0 ==> r[0] != c
    ensures forall i | 0 <= i < |s| - |r| :: s[i] == c
  {
    if |s| > 0 && s[0] == c then LStrip(s[1..], c) else s
  }

  /** `s.rstrip(c)`: drops every trailing `c`. */
  function RStrip(s: string, c: char): (r: string)
    ensures |r| <= |s| && r == s[..|r|]
    ensures |r| > 0 ==> r[|r| - 1] != c
    ensures forall i | |r| <= i < |s| :: s[i] == c
  {
    if |s| > 0 && s[|s| - 1] == c then RStrip(s[..|s| - 1], c) else s
  }

  /** A string without the leading and trailing runs of a character:
      `s.strip(c)`. */
  function Strip(s: string, c: char): string
  {
    RStrip(LStrip(s, c), c)
  }

  /** Stripping a string that neither starts nor ends with `c` changes nothing. */
  lemma StripUntouched(s: string, c: char)
    requires |s| == 0 || (s[0] != c && s[|s| - 1] != c)
    ensures LStrip(s, c) == s && RStrip(s, c) == s && Strip(s, c) == s
  {
  }

  /** Stripping looks at one end at a time: a leading `c` goes, and
      stripping stops at the first other character. */
  lemma LStripCons(c: char, t: string)
    ensures LStrip([c] + t, c) == LStrip(t, c)
  {
    assert ([c] + t)[1..] == t;
  }

  lemma RStripSnoc(t: string, c: char)
    ensures RStrip(t + [c], c) == RStrip(t, c)
  {
    assert (t + [c])[..|t|] == t;
  }

  /** Stripping never removes a character other than `c`. */
  lemma LStripKeeps(s: string, c: char, x: char)
    requires x != c
    ensures x in LStrip(s, c) <==> x in s
  {
    var r := LStrip(s, c);
    var k := |s| - |r|;
    assert r == s[k..];
    if x in s {
      var i :| 0 <= i < |s| && s[i] == x;
      assert k <= i;
      assert r[i - k] == x;
    }
    if x in r {
      var j :| 0 <= j < |r| && r[j] == x;
      assert s[k + j] == x;
    }
  }

  lemma RStripKeeps(s: string, c: char, x: char)
    requires x != c
    ensures x in RStrip(s, c) <==> x in s
  {
    var r := RStrip(s, c);
    if x in s {
      var i :| 0 <= i < |s| && s[i] == x;
      assert r[i] == x;
    }
  }

  lemma StripKeeps(s: string, c: char, x: char)
    requires x != c
    ensures x in Strip(s, c) <==> x in s
  {
    LStripKeeps(s, c, x);
    RStripKeeps(LStrip(s, c), c, x);
  }

  // ---------------------------------------------------------------------
  // Splitting and joining on a one-character separator

  /** `s.split(sep)`: the pieces between the separators, empty ones included;
      there is always one more piece than there are separators. */
  function Split(s: string, sep: char): (parts: seq<string>)
    ensures |parts| == Count(s, sep) + 1
    ensures forall i | 0 <= i < |parts| :: sep !in parts[i]
  {
    if |s| == 0 then [""]
    else
      assert s == [s[0]] + s[1..];
      var rest := Split(s[1..], sep);
      if s[0] == sep then [""] + rest
      else [[s[0]] + rest[0]] + rest[1..]
  }

  /** The parts concatenated with the separator between neighbours:
      `sep.join(parts)`. */
  function Join(parts: seq<string>, sep: char): string
  {
    if |parts| == 0 then ""
    else if |parts| == 1 then parts[0]
    else parts[0] + [sep] + Join(parts[1..], sep)
  }

  /** Joining peels off the first piece. */
  lemma JoinCons(p: string, rest: seq<string>, sep: char)
    requires |rest| >= 1
    ensures Join([p] + rest, sep) == p + [sep] + Join(rest, sep)
  {
    assert ([p] + rest)[1..] == rest;
  }

  /** Joining one more piece appends a separator and the piece. */
  lemma {:induction false} JoinSnoc(parts: seq<string>, last: string, sep: char)
    requires |parts| >= 1
    ensures Join(parts + [last], sep) == Join(parts, sep) + [sep] + last
  {
    assert parts + [last] == [parts[0]] + (parts[1..] + [last]);
    if |parts| == 1 {
      assert parts[1..] + [last] == [last];
      JoinCons(parts[0], [last], sep);
    } else {
      JoinCons(parts[0], parts[1..] + [last], sep);
      JoinSnoc(parts[1..], last, sep);
      JoinCons(parts[0], parts[1..], sep);
      assert [parts[0]] + parts[1..] == parts;
    }
  }

  lemma {:induction false} SplitNoSeparator(s: string, sep: char)
    requires sep !in s
    ensures Split(s, sep) == [s]
  {
    if |s| > 0 {
      SplitNoSeparator(s[1..], sep);
      assert [s[0]] + s[1..] == s;
    }
  }

  lemma {:induction false} SplitFirstPiece(p: string, sep: char, rest: string)
    requires sep !in p
    ensures Split(p + [sep] + rest, sep) == [p] + Split(rest, sep)
  {
    var s := p + [sep] + rest;
    if |p| == 0 {
      assert s == [sep] + rest;
      assert s[1..] == rest;
    } else {
      assert s[1..] == p[1..] + [sep] + rest;
      SplitFirstPiece(p[1..], sep, rest);
      assert [p[0]] + p[1..] == p;
    }
  }

  /** Splitting a join gives the pieces back, provided none holds the separator. */
  lemma {:induction false} SplitJoin(parts: seq<string>, sep: char)
    requires |parts| >= 1
    requires forall i | 0 <= i < |parts| :: sep !in parts[i]
    ensures Split(Join(parts, sep), sep) == parts
  {
    if |parts| == 1 {
      SplitNoSeparator(parts[0], sep);
    } else {
      SplitJoin(parts[1..], sep);
      SplitFirstPiece(parts[0], sep, Join(parts[1..], sep));
      assert [parts[0]] + parts[1..] == parts;
    }
  }

  /** Joining the pieces of a split restores the string. */
  lemma {:induction false} JoinSplit(s: string, sep: char)
    ensures Join(Split(s, sep), sep) == s
  {
    if |s| > 0 {
      var rest := Split(s[1..], sep);
      JoinSplit(s[1..], sep);
      if s[0] == sep {
        assert Join([""] + rest, sep) == "" + [sep] + Join(rest, sep);
        assert s == [sep] + s[1..];
      } else {
        var parts := [[s[0]] + rest[0]] + rest[1..];
        if |rest| == 1 {
          assert Join(rest, sep) == rest[0];
          assert Join(parts, sep) == [s[0]] + rest[0];
        } else {
          assert parts[1..] == rest[1..];
          assert Join(rest, sep) == rest[0] + [sep] + Join(rest[1..], sep);
          assert Join(parts, sep) == [s[0]] + rest[0] + [sep] + Join(rest[1..], sep);
        }
        assert s == [s[0]] + s[1..];
      }
    }
  }

  // ---------------------------------------------------------------------
  // Python's ordering of strings

  /** `a < b` on Python strings: at the first differing position the smaller
      code point wins, and a proper prefix is smaller. */
  predicate LexLess(a: string, b: string)
  {
    |b| > 0 && (|a| == 0 || a[0] < b[0] || (a[0] == b[0] && LexLess(a[1..], b[1..])))
  }

  lemma LexLessIrreflexive(a: string)
    ensures !LexLess(a, a)
  {
  }

  lemma {:induction false} LexLessTransitive(a: string, b: string, c: string)
    requires LexLess(a, b) && LexLess(b, c)
    ensures LexLess(a, c)
  {
    if |a| > 0 && a[0] == b[0] && b[0] == c[0] {
      LexLessTransitive(a[1..], b[1..], c[1..]);
    }
  }

  lemma {:induction false} LexLessTotal(a: string, b: string)
    requires a != b
    ensures LexLess(a, b) || LexLess(b, a)
  {
    if |a| > 0 && |b| > 0 && a[0] == b[0] {
      assert a == [a[0]] + a[1..];
      assert b == [b[0]] + b[1..];
      LexLessTotal(a[1..], b[1..]);
    }
  }

  lemma {:induction false} LexLessAsymmetric(a: string, b: string)
    requires LexLess(a, b)
    ensures !LexLess(b, a)
  {
    if |a| > 0 && a[0] == b[0] {
      LexLessAsymmetric(a[1..], b[1..]);
    }
  }

  // ---------------------------------------------------------------------
  // sorted() on strings

  /** Python's string order (code point by code point) is `LexLess`;
      `a <= b` is its reflexive closure. */
  predicate LexLeq(a: string, b: string)
  {
    !LexLess(b, a)
  }

  lemma LexLeqTransitive(a: string, b: string, c: string)
    requires LexLeq(a, b) && LexLeq(b, c)
    ensures LexLeq(a, c)
  {
    if a != b && b != c {
      LexLessTotal(a, b);
      LexLessTotal(b, c);
      LexLessTransitive(a, b, c);
      LexLessAsymmetric(a, c);
    } else if a == b {
    } else {
    }
  }

  predicate SortedStrings(xs: seq<string>)
  {
    forall i, j | 0 <= i < j < |xs| :: LexLeq(xs[i], xs[j])
  }

  /** Insertion into a sorted list, after the entries not greater than `x`. */
  function InsertSorted(x: string, xs: seq<string>): (r: seq<string>)
    requires SortedStrings(xs)
    ensures SortedStrings(r) && multiset(r) == multiset(xs) + multiset{x}
  {
    if |xs| == 0 then [x]
    else if !LexLess(xs[0], x) then
      InsertFront(x, xs);
      [x] + xs
    else
      var t := InsertSorted(x, xs[1..]);
      assert xs == [xs[0]] + xs[1..];
      InsertBehind(x, xs, t);
      [xs[0]] + t
  }

  /** An entry not greater than the head of a sorted list may go first. */
  lemma InsertFront(x: string, xs: seq<string>)
    requires SortedStrings(xs) && |xs| > 0 && LexLeq(x, xs[0])
    ensures SortedStrings([x] + xs)
  {
    var r := [x] + xs;
    forall j | 1 <= j < |xs|
      ensures LexLeq(x, xs[j])
    {
      LexLeqTransitive(x, xs[0], xs[j]);
    }
    assert forall j | 1 <= j < |r| :: r[j] == xs[j - 1];
  }

  /** The head of a sorted list may precede the rest with a greater entry added. */
  lemma InsertBehind(x: string, xs: seq<string>, t: seq<string>)
    requires SortedStrings(xs) && |xs| > 0 && LexLess(xs[0], x)
    requires SortedStrings(t) && multiset(t) == multiset(xs[1..]) + multiset{x}
    ensures SortedStrings([xs[0]] + t)
  {
    var r := [xs[0]] + t;
    forall j | 0 <= j < |t|
      ensures LexLeq(xs[0], t[j])
    {
      assert t[j] in multiset(t);
      if t[j] == x {
        LexLessAsymmetric(xs[0], x);
      } else {
        assert t[j] in multiset(xs[1..]);
        var m :| 0 <= m < |xs[1..]| && xs[1..][m] == t[j];
        assert xs[m + 1] == t[j];
      }
    }
    assert forall j | 1 <= j < |r| :: r[j] == t[j - 1];
  }

  /** `sorted(xs)`: the same strings, in order. */
  function SortStrings(xs: seq<string>): (r: seq<string>)
    ensures SortedStrings(r) && multiset(r) == multiset(xs)
  {
    if |xs| == 0 then []
    else
      assert xs == xs[..|xs| - 1] + [xs[|xs| - 1]];
      InsertSorted(xs[|xs| - 1], SortStrings(xs[..|xs| - 1]))
  }
}
