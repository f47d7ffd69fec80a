/**
 The text JavaScript produces for an integer (`String(n)`, `${n}`) and the
 order in which `Array.prototype.sort` with no comparator places values: by
 their text, compared code unit by code unit.
 */
module DecimalText {
  import opened Sequences

  /** The character of a decimal digit. */
  function DigitChar(d: nat): (c: char)
    requires d < 10
    ensures '0' <= c <= '9'
    ensures c as int - '0' as int == d
  {
    ('0' as int + d) as char
  }

  /** Decimal text of a non-negative integer, without leading zeros. */
  function NatText(n: nat): (t: string)
    ensures |t| >= 1
    ensures forall i :: 0 <= i < |t| ==> '0' <= t[i] <= '9'
    ensures n < 10 <==> |t| == 1
  {
    if n < 10 then [DigitChar(n)] else NatText(n / 10) + [DigitChar(n % 10)]
  }

  /** Decimal text of an integer, with a leading minus sign when negative. */
  function IntText(n: int): (t: string)
    ensures |t| >= 1
    ensures t[0] == '-' <==> n < 0
  {
    if n < 0 then "-" + NatText(-n) else NatText(n)
  }

  /** Code-unit lexicographic order on strings: a proper prefix comes first. */
  predicate LexLess(a: string, b: string)
  {
    if a == [] then b != []
    else if b == [] then false
    else a[0] < b[0] || (a[0] == b[0] && LexLess(a[1..], b[1..]))
  }

  lemma {:induction false} LexLessIrreflexive(a: string)
    ensures !LexLess(a, a)
  {
    if a != [] {
      LexLessIrreflexive(a[1..]);
    }
  }

  lemma {:induction false} LexLessTransitive(a: string, b: string, c: string)
    requires LexLess(a, b) && LexLess(b, c)
    ensures LexLess(a, c)
  {
    if a != [] && b != [] && c != [] && a[0] == b[0] && b[0] == c[0] {
      LexLessTransitive(a[1..], b[1..], c[1..]);
    }
  }

  lemma {:induction false} LexLessTotal(a: string, b: string)
    requires a != b
    ensures LexLess(a, b) || LexLess(b, a)
  {
    if a != [] && b != [] && a[0] == b[0] {
      assert a == [a[0]] + a[1..];
      assert b == [b[0]] + b[1..];
      LexLessTotal(a[1..], b[1..]);
    }
  }

  /** Between equal-length strings, a common last character defers to the prefixes and otherwise the prefixes decide first. */
  lemma {:induction false} LexLessAppend(x: string, y: string, c: char, e: char)
    requires |x| == |y|
    ensures LexLess(x + [c], y + [e]) <==> LexLess(x, y) || (x == y && c < e)
    decreases |x|
  {
    if x == [] {
      assert (x + [c])[1..] == [];
      assert (y + [e])[1..] == [];
    } else {
      assert (x + [c])[1..] == x[1..] + [c];
      assert (y + [e])[1..] == y[1..] + [e];
      LexLessAppend(x[1..], y[1..], c, e);
      if x[0] == y[0] && x[1..] == y[1..] {
        assert x == [x[0]] + x[1..];
        assert y == [y[0]] + y[1..];
      }
    }
  }

  /** Different numbers have different decimal texts. */
  lemma {:induction false} NatTextInjective(a: nat, b: nat)
    requires NatText(a) == NatText(b)
    ensures a == b
  {
    if a >= 10 && b >= 10 {
      var ta, tb := NatText(a / 10), NatText(b / 10);
      assert NatText(a) == ta + [DigitChar(a % 10)];
      assert NatText(b) == tb + [DigitChar(b % 10)];
      assert ta == NatText(a)[..|NatText(a)| - 1];
      assert tb == NatText(b)[..|NatText(b)| - 1];
      NatTextInjective(a / 10, b / 10);
    }
  }

  lemma IntTextInjective(a: int, b: int)
    requires IntText(a) == IntText(b)
    ensures a == b
  {
    if a < 0 && b < 0 {
      assert NatText(-a) == IntText(a)[1..];
      assert NatText(-b) == IntText(b)[1..];
      NatTextInjective(-a, -b);
    } else if a >= 0 && b >= 0 {
      NatTextInjective(a, b);
    }
  }

  /** Decimal texts of equal length compare like the numbers they denote. */
  lemma {:induction false} SameLengthTextOrder(a: nat, b: nat)
    requires |NatText(a)| == |NatText(b)|
    ensures LexLess(NatText(a), NatText(b)) <==> a < b
  {
    if a < 10 {
      assert b < 10;
      assert NatText(a)[1..] == [] && NatText(b)[1..] == [];
    } else {
      assert b >= 10;
      var ta, tb := NatText(a / 10), NatText(b / 10);
      assert NatText(a) == ta + [DigitChar(a % 10)];
      assert NatText(b) == tb + [DigitChar(b % 10)];
      SameLengthTextOrder(a / 10, b / 10);
      LexLessAppend(ta, tb, DigitChar(a % 10), DigitChar(b % 10));
      if ta == tb {
        NatTextInjective(a / 10, b / 10);
      }
      assert a == 10 * (a / 10) + a % 10;
      assert b == 10 * (b / 10) + b % 10;
    }
  }

  /** `x` comes before `y` under JavaScript's default sort of numbers. */
  predicate TextBefore(x: int, y: int)
  {
    LexLess(IntText(x), IntText(y))
  }

  /** Text order on numbers is a strict total order, because the text of a number determines it. */
  lemma TextBeforeIsStrictTotalOrder()
    ensures StrictTotalOrder(TextBefore)
  {
    forall x: int ensures !TextBefore(x, x) {
      LexLessIrreflexive(IntText(x));
    }
    forall x: int, y: int, z: int | TextBefore(x, y) && TextBefore(y, z) ensures TextBefore(x, z) {
      LexLessTransitive(IntText(x), IntText(y), IntText(z));
    }
    forall x: int, y: int | x != y ensures TextBefore(x, y) || TextBefore(y, x) {
      if IntText(x) == IntText(y) {
        IntTextInjective(x, y);
      }
      LexLessTotal(IntText(x), IntText(y));
    }
  }

  /** `s` is strictly ascending in text order. */
  predicate TextSorted(s: seq<int>)
  {
    SortedBy(s, TextBefore)
  }

  /** `Array.prototype.sort()` on distinct numbers: the same numbers in text order. */
  function TextSort(s: seq<int>): (r: seq<int>)
    requires NoDuplicates(s)
    ensures TextSorted(r)
    ensures |r| == |s|
    ensures forall y :: y in r <==> y in s
  {
    TextBeforeIsStrictTotalOrder();
    SortBy(s, TextBefore)
  }

  /** A text-sorted sequence of non-negative numbers that share a digit count is numerically ascending. */
  lemma TextSortedIsAscending(s: seq<int>)
    requires TextSorted(s)
    requires forall i :: 0 <= i < |s| ==> s[i] >= 0
    requires forall i, j :: 0 <= i < j < |s| ==> |NatText(s[i])| == |NatText(s[j])|
    ensures forall i, j :: 0 <= i < j < |s| ==> s[i] < s[j]
  {
    forall i, j | 0 <= i < j < |s| ensures s[i] < s[j] {
      SameLengthTextOrder(s[i], s[j]);
    }
  }
}
