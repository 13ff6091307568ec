/** Python string operations used by the host-splitting tool, on `seq<char>`. */
module Text {

  /** Python's `a < b` on `str`: code points compared left to right, and a
      proper prefix sorts before the longer string. */
  predicate StrLess(a: string, b: string): (r: bool)
    ensures r <==> FirstDifferenceLess(a, b)
  {
    if b == [] then false
    else if a == [] then true
    else if a[0] != b[0] then
      assert a[..0] == b[..0];
      a[0] < b[0]
    else
      FirstDifferenceStep(a, b);
      StrLess(a[1..], b[1..])
  }

  /** The order as a closed formula: `a` is a proper prefix of `b`, or at
      the first position where they differ `a` has the smaller character. */
  predicate FirstDifferenceLess(a: string, b: string)
  {
    || (|a| < |b| && a == b[..|a|])
    || exists k :: 0 <= k < |a| && k < |b| && a[..k] == b[..k] && a[k] < b[k]
  }

  /** Dropping an equal first character does not change the comparison. */
  lemma FirstDifferenceStep(a: string, b: string)
    requires a != [] && b != [] && a[0] == b[0]
    ensures FirstDifferenceLess(a, b) <==> FirstDifferenceLess(a[1..], b[1..])
  {
    forall k | 0 <= k < |a| - 1 && k < |b| - 1
      ensures a[1..][..k] == b[1..][..k] <==> a[..k + 1] == b[..k + 1]
    {
      assert a[..k + 1] == [a[0]] + a[1..][..k];
      assert b[..k + 1] == [b[0]] + b[1..][..k];
    }
    if FirstDifferenceLess(a, b) && !(|a| < |b| && a == b[..|a|]) {
      var k :| 0 <= k < |a| && k < |b| && a[..k] == b[..k] && a[k] < b[k];
      assert k != 0;
      assert a[1..][k - 1] == a[k] && b[1..][k - 1] == b[k];
    }
    if |a| < |b| && a == b[..|a|] {
      assert a[1..] == b[1..][..|a| - 1];
    }
    if |a[1..]| < |b[1..]| && a[1..] == b[1..][..|a| - 1] {
      assert a == [a[0]] + a[1..] && b[..|a|] == [b[0]] + b[1..][..|a| - 1];
    }
  }

  lemma {:induction false} StrLessIrreflexive(a: string)
    ensures !StrLess(a, a)
  {
    if a != [] {
      StrLessIrreflexive(a[1..]);
    }
  }

  /** Exactly one of `a < b`, `b < a`, `a == b` holds. */
  lemma {:induction false} StrLessTrichotomy(a: string, b: string)
    ensures StrLess(a, b) || StrLess(b, a) || a == b
    ensures StrLess(a, b) ==> !StrLess(b, a) && a != b
  {
    if a == [] || b == [] {
      StrLessIrreflexive(a);
    } else if a[0] == b[0] {
      StrLessTrichotomy(a[1..], b[1..]);
      if a[1..] == b[1..] {
        assert a == [a[0]] + a[1..] && b == [b[0]] + b[1..];
      }
      StrLessIrreflexive(a);
    }
  }

  lemma {:induction false} StrLessTransitive(a: string, b: string, c: string)
    requires StrLess(a, b) && StrLess(b, c)
    ensures StrLess(a, c)
  {
    if a != [] && a[0] == b[0] && b[0] == c[0] {
      StrLessTransitive(a[1..], b[1..], c[1..]);
    }
  }

  /** Python's `s in t` on strings: `s` occurs in `t` as a contiguous substring. */
  predicate Contains(t: string, s: string): (r: bool)
    ensures s == [] ==> r
    ensures r ==> |s| <= |t|
    ensures s <= t ==> r
  {
    assert s <= t ==> OccursAt(t, s, 0);
    exists i | 0 <= i <= |t| :: OccursAt(t, s, i)
  }

  /** `s` occurs in `t` starting at index `i`. */
  predicate OccursAt(t: string, s: string, i: int)
  {
    0 <= i <= |t| - |s| && t[i..i + |s|] == s
  }

  /** Python's `s.replace(from, to)` for one-character `from` and `to`. */
  function ReplaceChar(s: string, from: char, to: char): (r: string)
    ensures |r| == |s|
    ensures forall i :: 0 <= i < |s| ==> r[i] == (if s[i] == from then to else s[i])
  {
    if s == [] then []
    else [if s[0] == from then to else s[0]] + ReplaceChar(s[1..], from, to)
  }

  /** Replacing `from` by `to` and back again restores a string that did not contain `to`. */
  lemma ReplaceCharRoundTrip(s: string, from: char, to: char)
    requires to !in s
    ensures ReplaceChar(ReplaceChar(s, from, to), to, from) == s
  {
  }

  /** The index of the last occurrence of `c` in `s`, if any. */
  function LastIndexOf(s: string, c: char): (r: int)
    ensures -1 <= r < |s|
    ensures r >= 0 ==> s[r] == c
    ensures forall i :: r < i < |s| ==> s[i] != c
  {
    if s == [] then -1
    else if s[|s| - 1] == c then |s| - 1
    else LastIndexOf(s[..|s| - 1], c)
  }

  /** Decimal text of a natural number, as `str(n)` or an f-string prints it. */
  function DecimalString(n: nat): (r: string)
    ensures r != []
    ensures forall i :: 0 <= i < |r| ==> '0' <= r[i] <= '9'
  {
    var d := "0123456789"[n % 10];
    if n < 10 then [d] else DecimalString(n / 10) + [d]
  }

  /** The value of a non-empty all-digit string, as `int(s)` reads it; `-1` for any other text. */
  function ParseCount(s: string): (r: int)
    ensures r >= -1
    ensures s != [] && (forall i :: 0 <= i < |s| ==> '0' <= s[i] <= '9') ==> r >= 0
  {
    if s == [] || exists i :: 0 <= i < |s| && !('0' <= s[i] <= '9') then -1
    else DigitsValue(s)
  }

  function DigitsValue(s: string): nat
    requires forall i :: 0 <= i < |s| ==> '0' <= s[i] <= '9'
  {
    if s == [] then 0
    else DigitsValue(s[..|s| - 1]) * 10 + (s[|s| - 1] as int - '0' as int)
  }

  /** Parsing the decimal text of `n` gives `n` back. */
  lemma {:induction false} ParseDecimalString(n: nat)
    ensures ParseCount(DecimalString(n)) == n
  {
    DigitsOfDecimal(n);
  }

  lemma {:induction false} DigitsOfDecimal(n: nat)
    ensures DigitsValue(DecimalString(n)) == n
  {
    var r := DecimalString(n);
    DigitValue(n % 10);
    if n >= 10 {
      DigitsOfDecimal(n / 10);
      assert r[..|r| - 1] == DecimalString(n / 10);
    }
  }

  lemma DigitValue(k: int)
    requires 0 <= k < 10
    ensures "0123456789"[k] as int - '0' as int == k
  {
  }
}
