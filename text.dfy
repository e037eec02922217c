/**
 * The few Python string operations the catalog relies on: substring test
 * (`in`), `str.lower()` used as a sort key, string ordering, and `int()` on
 * the decimal numbers that Steam writes into its files.
 *
 * `Lower` maps only ASCII letters and `ParseInt` accepts only ASCII
 * whitespace, an optional sign and ASCII digits: Python's Unicode case
 * mapping and its wider `int()` syntax (underscores, non-ASCII digits) are
 * approximated by these.
 */
module Text {
  import opened Wrappers

  // ---------------------------------------------------------------------------
  // Substrings
  // ---------------------------------------------------------------------------

  predicate StartsWith(s: string, prefix: string) {
    |prefix| <= |s| && s[..|prefix|] == prefix
  }

  /** `sub` occurs in `s` starting at index `i`. */
  predicate OccursAt(s: string, sub: string, i: int) {
    0 <= i <= |s| - |sub| && s[i..i + |sub|] == sub
  }

  /** `sub in s` for strings. */
  function Contains(s: string, sub: string): (r: bool)
    ensures r <==> exists i :: OccursAt(s, sub, i)
  {
    if StartsWith(s, sub) then
      assert OccursAt(s, sub, 0);
      true
    else if s == [] then false
    else
      var r := Contains(s[1..], sub);
      assert forall i :: OccursAt(s, sub, i) <==> OccursAt(s[1..], sub, i - 1) by {
        forall i ensures OccursAt(s, sub, i) <==> OccursAt(s[1..], sub, i - 1) {
          if 1 <= i <= |s| - |sub| {
            var here, there := s[i..i + |sub|], s[1..][i - 1..i - 1 + |sub|];
            forall k | 0 <= k < |sub| ensures here[k] == there[k] {
              assert here[k] == s[i + k];
            }
            assert here == there;
          }
        }
      }
      if r then
        var i :| OccursAt(s[1..], sub, i);
        assert OccursAt(s, sub, i + 1);
        r
      else
        r
  }

  // ---------------------------------------------------------------------------
  // Lower case and ordering
  // ---------------------------------------------------------------------------

  function LowerChar(c: char): char {
    if 'A' <= c <= 'Z' then (c as int + 32) as char else c
  }

  /** `s.lower()` on ASCII letters. */
  function Lower(s: string): (r: string)
    ensures |r| == |s|
    ensures forall i :: 0 <= i < |s| ==> r[i] == LowerChar(s[i])
    ensures forall i :: 0 <= i < |r| ==> !('A' <= r[i] <= 'Z')
  {
    seq(|s|, i requires 0 <= i < |s| => LowerChar(s[i]))
  }

  /** Lower-casing works character by character, so it distributes over concatenation. */
  lemma LowerAppend(a: string, b: string)
    ensures Lower(a + b) == Lower(a) + Lower(b)
  {
    var l, r := Lower(a + b), Lower(a) + Lower(b);
    forall i | 0 <= i < |l| ensures l[i] == r[i] {
      if i < |a| {
        assert (a + b)[i] == a[i];
      } else {
        assert (a + b)[i] == b[i - |a|];
      }
    }
  }

  /** Lower-casing twice is lower-casing once. */
  lemma LowerIdempotent(s: string)
    ensures Lower(Lower(s)) == Lower(s)
  {
    var l, r := Lower(Lower(s)), Lower(s);
    forall i | 0 <= i < |l| ensures l[i] == r[i] {
      assert l[i] == LowerChar(r[i]);
    }
  }

  /** Python's `a <= b` on strings: lexicographic by code point. */
  predicate LexLe(a: string, b: string) {
    |a| == 0 || (|b| > 0 && (a[0] < b[0] || (a[0] == b[0] && LexLe(a[1..], b[1..]))))
  }

  lemma {:induction false} LexLeReflexive(a: string)
    ensures LexLe(a, a)
  {
    if |a| > 0 {
      LexLeReflexive(a[1..]);
    }
  }

  lemma {:induction false} LexLeTotal(a: string, b: string)
    ensures LexLe(a, b) || LexLe(b, a)
  {
    if |a| > 0 && |b| > 0 && a[0] == b[0] {
      LexLeTotal(a[1..], b[1..]);
    }
  }

  lemma {:induction false} LexLeTransitive(a: string, b: string, c: string)
    requires LexLe(a, b) && LexLe(b, c)
    ensures LexLe(a, c)
  {
    if |a| > 0 && a[0] == b[0] && b[0] == c[0] {
      LexLeTransitive(a[1..], b[1..], c[1..]);
    }
  }

  // ---------------------------------------------------------------------------
  // Decimal integers
  // ---------------------------------------------------------------------------

  predicate IsSpace(c: char) {
    c == ' ' || c == '\t' || c == '\n' || c == '\r' || c == 11 as char || c == 12 as char
      || 28 as char <= c <= 31 as char
  }

  predicate AllSpace(w: string) {
    forall i :: 0 <= i < |w| ==> IsSpace(w[i])
  }

  predicate IsDigit(c: char) {
    '0' <= c <= '9'
  }

  predicate AllDigits(s: string) {
    forall i :: 0 <= i < |s| ==> IsDigit(s[i])
  }

  /** The text without leading and trailing whitespace (`str.strip()`). */
  function Strip(s: string): (r: string)
    ensures |r| <= |s|
    ensures r != [] ==> !IsSpace(r[0]) && !IsSpace(r[|r| - 1])
    decreases |s|
  {
    if s == [] then s
    else if IsSpace(s[0]) then Strip(s[1..])
    else if IsSpace(s[|s| - 1]) then Strip(s[..|s| - 1])
    else s
  }

  /** The value of a string of decimal digits. */
  function DigitsValue(s: string): (n: nat)
    requires AllDigits(s)
  {
    if s == [] then 0 else 10 * DigitsValue(s[..|s| - 1]) + (s[|s| - 1] as int - '0' as int)
  }

  /** `int(s)`: optional surrounding whitespace, an optional sign and at least one digit. */
  function ParseInt(s: string): Option<int> {
    var t := Strip(s);
    if |t| > 1 && (t[0] == '-' || t[0] == '+') && AllDigits(t[1..]) then
      var v: int := DigitsValue(t[1..]);
      Some(if t[0] == '-' then -v else v)
    else if |t| > 0 && AllDigits(t) then Some(DigitsValue(t))
    else None
  }

  /** The decimal text of a natural number, as `str(n)` writes it. */
  function ShowNat(n: nat): (s: string)
    ensures |s| > 0 && AllDigits(s)
  {
    if n < 10 then [('0' as int + n) as char]
    else ShowNat(n / 10) + [('0' as int + n % 10) as char]
  }

  /** The decimal text of an integer, as `str(n)` writes it. */
  function Show(n: int): string {
    if n < 0 then "-" + ShowNat(-n) else ShowNat(n)
  }

  lemma {:induction false} ShowNatValue(n: nat)
    ensures DigitsValue(ShowNat(n)) == n
  {
    if n >= 10 {
      var s := ShowNat(n);
      assert s[..|s| - 1] == ShowNat(n / 10);
      ShowNatValue(n / 10);
    }
  }

  lemma StripNoSpace(s: string)
    requires s != [] && !IsSpace(s[0]) && !IsSpace(s[|s| - 1])
    ensures Strip(s) == s
  {
  }

  /** `int(str(n)) == n`: reading back a written integer gives it back. */
  lemma ParseShow(n: int)
    ensures ParseInt(Show(n)) == Some(n)
  {
    var s := Show(n);
    if n < 0 {
      ShowNatValue(-n);
      StripNoSpace(s);
      assert s[1..] == ShowNat(-n);
    } else {
      ShowNatValue(n);
      StripNoSpace(s);
    }
  }

  /**
   * `int(s)` gives `v` exactly when `s`, stripped, is a run of digits with
   * value `v`, optionally after a '+', or after a '-' with value `-v`.
   */
  lemma ParseIntValue(s: string, v: int)
    ensures ParseInt(s) == Some(v) <==> var t := Strip(s);
      || (|t| > 0 && AllDigits(t) && v == DigitsValue(t))
      || (|t| > 1 && t[0] == '+' && AllDigits(t[1..]) && v == DigitsValue(t[1..]))
      || (|t| > 1 && t[0] == '-' && AllDigits(t[1..]) && -v == DigitsValue(t[1..]))
  {
    var t := Strip(s);
    if |t| > 0 && AllDigits(t) {
      assert !(t[0] == '+' || t[0] == '-');
    }
  }

  /** Leading whitespace is stripped away. */
  lemma {:induction false} StripLeft(w: string, s: string)
    requires AllSpace(w)
    ensures Strip(w + s) == Strip(s)
    decreases |w|
  {
    if w != [] {
      assert (w + s)[1..] == w[1..] + s;
      StripLeft(w[1..], s);
    } else {
      assert w + s == s;
    }
  }

  /** Trailing whitespace is stripped away. */
  lemma {:induction false} StripRight(s: string, w: string)
    requires AllSpace(w)
    ensures Strip(s + w) == Strip(s)
    decreases |s| + |w|
  {
    var x := s + w;
    if x == [] {
    } else if IsSpace(x[0]) {
      if s == [] {
        assert x == w && w[1..] == [] + w[1..];
        StripRight([], w[1..]);
      } else {
        assert x[1..] == s[1..] + w;
        StripRight(s[1..], w);
      }
    } else if w != [] {
      assert IsSpace(x[|x| - 1]);
      assert x[..|x| - 1] == s + w[..|w| - 1];
      StripRight(s, w[..|w| - 1]);
    } else {
      assert x == s;
    }
  }

  /** `int()` ignores whitespace around the number: `int(" 42\n") == int("42")`. */
  lemma ParsePadded(before: string, s: string, after: string)
    requires AllSpace(before) && AllSpace(after)
    ensures ParseInt(before + s + after) == ParseInt(s)
  {
    StripLeft(before, s + after);
    StripRight(s, after);
    assert before + s + after == before + (s + after);
  }
}
