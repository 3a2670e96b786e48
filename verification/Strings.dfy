/**
 * Python `str` operations used by the scraper's text handling, over
 * `string` (a sequence of Unicode scalar values, as Python's `str` is).
 */
module Wrappers {
  datatype Option<+T> = None | Some(value: T)
}

module Strings {

  /** Python's `str.isspace()` character set, which is what `strip()` removes. */
  predicate IsSpace(c: char) {
    || c == ' '
    || ('\t' <= c <= '\r')
    || ('\U{1c}' <= c <= '\U{1f}')
    || c == '\U{85}' || c == '\U{a0}' || c == '\U{1680}'
    || ('\U{2000}' <= c <= '\U{200a}')
    || c == '\U{2028}' || c == '\U{2029}' || c == '\U{202f}' || c == '\U{205f}'
    || c == '\U{3000}'
  }

  predicate NoSpaceAtEnds(s: string) {
    s == [] || (!IsSpace(s[0]) && !IsSpace(s[|s| - 1]))
  }

  /** `s.strip()`: `s` without its leading and trailing whitespace. */
  function Strip(s: string): (r: string)
    ensures |r| <= |s|
    ensures NoSpaceAtEnds(r)
    decreases |s|
  {
    if |s| > 0 && IsSpace(s[0]) then Strip(s[1..])
    else if |s| > 0 && IsSpace(s[|s| - 1]) then Strip(s[..|s| - 1])
    else s
  }

  /**
   * `strip` returns the slice of `s` between its leading and its trailing
   * whitespace.
   */
  lemma {:induction false} StripIsSlice(s: string) returns (lo: nat, hi: nat)
    ensures lo <= hi <= |s| && Strip(s) == s[lo..hi]
    ensures forall i :: 0 <= i < lo ==> IsSpace(s[i])
    ensures forall i :: hi <= i < |s| ==> IsSpace(s[i])
    decreases |s|
  {
    if |s| > 0 && IsSpace(s[0]) {
      var l, h := StripIsSlice(s[1..]);
      DropFirstSlice(s, l, h);
      lo, hi := l + 1, h + 1;
    } else if |s| > 0 && IsSpace(s[|s| - 1]) {
      lo, hi := StripIsSlice(s[..|s| - 1]);
      DropLastSlice(s, lo, hi);
    } else {
      lo, hi := 0, |s|;
    }
  }

  lemma DropFirstSlice(s: string, l: nat, h: nat)
    requires l <= h <= |s| - 1
    ensures s[1..][l..h] == s[l + 1..h + 1]
    ensures forall i :: 1 <= i < |s| ==> s[i] == s[1..][i - 1]
  {
  }

  lemma DropLastSlice(s: string, l: nat, h: nat)
    requires l <= h <= |s| - 1
    ensures s[..|s| - 1][l..h] == s[l..h]
    ensures forall i :: 0 <= i < |s| - 1 ==> s[i] == s[..|s| - 1][i]
  {
  }

  /** Every character of `strip(s)` comes from `s`. */
  lemma StripChars(s: string)
    ensures forall c :: c in Strip(s) ==> c in s
  {
    var lo, hi := StripIsSlice(s);
    assert forall i :: 0 <= i < hi - lo ==> Strip(s)[i] == s[lo + i];
  }

  /** A text without whitespace is its own `strip`. */
  lemma StripWithoutSpace(s: string)
    requires forall i :: 0 <= i < |s| ==> !IsSpace(s[i])
    ensures Strip(s) == s
  {
    StripOfStripped(s);
  }

  /** Leading whitespace makes no difference to `strip`. */
  lemma {:induction false} StripLeading(p: string, q: string)
    requires forall i :: 0 <= i < |p| ==> IsSpace(p[i])
    ensures Strip(p + q) == Strip(q)
    decreases |p|
  {
    if p != [] {
      assert (p + q)[1..] == p[1..] + q;
      StripLeading(p[1..], q);
    } else {
      assert p + q == q;
    }
  }

  /** One trailing whitespace character after a stripped text is dropped by `strip`. */
  lemma StripTrailingSpace(t: string, c: char)
    requires t != [] && NoSpaceAtEnds(t) && IsSpace(c)
    ensures Strip(t + [c]) == t
  {
    var u := t + [c];
    assert !IsSpace(u[0]) && IsSpace(u[|u| - 1]);
    assert u[..|u| - 1] == t;
    StripOfStripped(t);
  }

  /** Blanks cut from the front of `x` make no difference to its `strip`. */
  lemma StripAfterBlanks(x: string, lo: nat)
    requires lo <= |x| && forall i :: 0 <= i < lo ==> IsSpace(x[i])
    ensures Strip(x[lo..]) == Strip(x)
  {
    var p, q := x[..lo], x[lo..];
    assert forall i :: 0 <= i < |p| ==> IsSpace(p[i]) by {
      assert forall i :: 0 <= i < |p| ==> p[i] == x[i];
    }
    StripLeading(p, q);
    assert p + q == x;
  }

  lemma {:induction false} StripOfStripped(s: string)
    requires NoSpaceAtEnds(s)
    ensures Strip(s) == s
  {
    if s == [] {
    } else {
      assert !IsSpace(s[0]) && !IsSpace(s[|s| - 1]);
    }
  }

  /** A text of whitespace only strips to "". */
  lemma {:induction false} StripBlank(s: string)
    requires forall i :: 0 <= i < |s| ==> IsSpace(s[i])
    ensures Strip(s) == []
    decreases |s|
  {
    if s != [] {
      assert IsSpace(s[0]);
      assert forall i :: 0 <= i < |s| - 1 ==> s[1..][i] == s[i + 1];
      StripBlank(s[1..]);
    }
  }

  /** Trailing whitespace after a stripped text is dropped by `strip`. */
  lemma {:induction false} StripTrailing(m: string, q: string)
    requires NoSpaceAtEnds(m)
    requires forall i :: 0 <= i < |q| ==> IsSpace(q[i])
    ensures Strip(m + q) == m
    decreases |q|
  {
    if q == [] {
      assert m + q == m;
      StripOfStripped(m);
    } else if m == [] {
      assert m + q == q;
      StripBlank(q);
    } else {
      var u := m + q;
      assert u[0] == m[0] && u[|u| - 1] == q[|q| - 1];
      assert u[..|u| - 1] == m + q[..|q| - 1];
      assert forall i :: 0 <= i < |q| - 1 ==> q[..|q| - 1][i] == q[i];
      StripTrailing(m, q[..|q| - 1]);
    }
  }

  /** Whitespace around a stripped text is exactly what `strip` removes. */
  lemma StripFramed(p: string, m: string, q: string)
    requires NoSpaceAtEnds(m)
    requires forall i :: 0 <= i < |p| ==> IsSpace(p[i])
    requires forall i :: 0 <= i < |q| ==> IsSpace(q[i])
    ensures Strip(p + m + q) == m
  {
    var u := m + q;
    calc {
      Strip(p + m + q);
      { ConcatAssoc(p, m, q); }
      Strip(p + u);
      { StripLeading(p, u); }
      Strip(u);
      { StripTrailing(m, q); }
      m;
    }
  }

  /** Concatenation is associative. */
  lemma ConcatAssoc(p: string, m: string, q: string)
    ensures p + m + q == p + (m + q)
  {
  }

  /** Trailing whitespace makes no difference to `strip`. */
  lemma StripTrailingBlanks(s: string, q: string)
    requires forall i :: 0 <= i < |q| ==> IsSpace(q[i])
    ensures Strip(s + q) == Strip(s)
  {
    var lo, hi := StripIsSlice(s);
    var p, m, t := s[..lo], s[lo..hi], s[hi..] + q;
    assert s + q == p + m + t;
    assert forall i :: 0 <= i < |p| ==> p[i] == s[i];
    assert forall i :: 0 <= i < |t| ==> IsSpace(t[i]) by {
      assert forall i :: 0 <= i < |t| ==> t[i] == if i < |s| - hi then s[hi + i] else q[i - (|s| - hi)];
    }
    StripFramed(p, m, t);
  }

  /** Blanks cut from the back of `c` make no difference to `strip(u + c)`. */
  lemma StripDropTrailing(u: string, c: string, k: nat)
    requires k <= |c| && forall i :: k <= i < |c| ==> IsSpace(c[i])
    ensures Strip(u + c[..k]) == Strip(u + c)
  {
    var c1, c2 := c[..k], c[k..];
    assert forall i :: 0 <= i < |c2| ==> c2[i] == c[k + i];
    StripTrailingBlanks(u + c1, c2);
    assert c1 + c2 == c;
    ConcatAssoc(u, c1, c2);
  }

  /** Blanks cut from the front of `a` make no difference to `strip(a + v)`. */
  lemma StripDropLeading(a: string, lo: nat, v: string)
    requires lo <= |a| && forall i :: 0 <= i < lo ==> IsSpace(a[i])
    ensures Strip(a[lo..] + v) == Strip(a + v)
  {
    var p, a1 := a[..lo], a[lo..];
    assert p + a1 == a;
    ConcatAssoc(p, a1, v);
    assert forall i :: 0 <= i < lo ==> p[i] == a[i];
    StripLeading(p, a1 + v);
  }

  /** `needle in s` (substring test). */
  predicate Contains(s: string, needle: string)
    decreases |s|
  {
    needle <= s || (|s| > 0 && Contains(s[1..], needle))
  }

  /** `needle` occurs in `s` starting at position `i`. */
  predicate OccursAt(s: string, needle: string, i: int) {
    0 <= i <= |s| - |needle| && s[i..i + |needle|] == needle
  }

  /** `Contains` holds exactly when the needle occurs at some position. */
  lemma {:induction false} ContainsIff(s: string, needle: string)
    ensures Contains(s, needle) <==> exists i :: OccursAt(s, needle, i)
    decreases |s|
  {
    if needle <= s {
      assert OccursAt(s, needle, 0);
    } else if |s| > 0 {
      ContainsIff(s[1..], needle);
      if Contains(s[1..], needle) {
        var i :| OccursAt(s[1..], needle, i);
        OccursShift(s, needle, i);
      }
      if exists i :: OccursAt(s, needle, i) {
        var i :| OccursAt(s, needle, i);
        if i == 0 {
          assert false;
        } else {
          OccursUnshift(s, needle, i);
        }
      }
    }
  }

  lemma OccursShift(s: string, needle: string, i: int)
    requires |s| > 0 && OccursAt(s[1..], needle, i)
    ensures OccursAt(s, needle, i + 1)
  {
    assert s[i + 1..i + 1 + |needle|] == s[1..][i..i + |needle|];
  }

  lemma OccursUnshift(s: string, needle: string, i: int)
    requires i >= 1 && OccursAt(s, needle, i)
    ensures OccursAt(s[1..], needle, i - 1)
  {
    assert s[1..][i - 1..i - 1 + |needle|] == s[i..i + |needle|];
  }

  /** A one-character needle is contained exactly when it is an element. */
  lemma {:induction false} ContainsChar(s: string, c: char)
    ensures Contains(s, [c]) <==> c in s
    decreases |s|
  {
    if |s| > 0 {
      ContainsChar(s[1..], c);
      assert c in s <==> s[0] == c || c in s[1..];
    }
  }

  /** A needle whose first character never occurs is not contained. */
  lemma {:induction false} NotContainsWithoutFirstChar(s: string, needle: string)
    requires |needle| > 0 && needle[0] !in s
    ensures !Contains(s, needle)
    decreases |s|
  {
    if |s| > 0 {
      assert s[0] != needle[0];
      NotContainsWithoutFirstChar(s[1..], needle);
    }
  }

  predicate EndsWith(s: string, suffix: string) {
    |suffix| <= |s| && s[|s| - |suffix|..] == suffix
  }

  /**
   * `s.split(sep)[0]`: the text before the first occurrence of `sep`,
   * or all of `s` when `sep` does not occur.
   */
  function Before(s: string, sep: string): (r: string)
    requires |sep| > 0
    ensures r <= s
    ensures forall i :: 0 <= i < |r| ==> !(sep <= s[i..])
    ensures |r| == |s| || sep <= s[|r|..]
    decreases |s|
  {
    if sep <= s then []
    else if s == [] then []
    else
      var t := Before(s[1..], sep);
      BeforeCons(s, sep, t);
      [s[0]] + t
  }

  /** The inductive step of `Before`: its contract carries over from `s[1..]` to `s`. */
  lemma BeforeCons(s: string, sep: string, t: string)
    requires |sep| > 0 && s != [] && !(sep <= s)
    requires t <= s[1..]
    requires forall i :: 0 <= i < |t| ==> !(sep <= s[1..][i..])
    requires |t| == |s| - 1 || sep <= s[1..][|t|..]
    ensures [s[0]] + t <= s
    ensures forall i :: 0 <= i < |t| + 1 ==> !(sep <= s[i..])
    ensures |t| + 1 == |s| || sep <= s[|t| + 1..]
  {
    assert s == [s[0]] + s[1..];
    forall i | 1 <= i <= |t| + 1
      ensures s[i..] == s[1..][i - 1..]
    {
    }
  }

  /** A text that does not contain the separator is returned whole. */
  lemma {:induction false} BeforeAbsent(s: string, sep: string)
    requires |sep| > 0 && !Contains(s, sep)
    ensures Before(s, sep) == s
    decreases |s|
  {
    if s != [] {
      BeforeAbsent(s[1..], sep);
    }
  }

  /** Text before the first occurrence of a one-character separator passes through `split` unchanged. */
  lemma {:induction false} BeforePrefix(x: string, s: string, c: char)
    requires c !in x
    ensures Before(x + s, [c]) == x + Before(s, [c])
    decreases |x|
  {
    if x != [] {
      assert x[0] != c by {
        assert x[0] in x;
      }
      assert c !in x[1..] by {
        assert forall i :: 0 <= i < |x[1..]| ==> x[1..][i] == x[i + 1];
      }
      calc {
        Before(x + s, [c]);
        { ConsAppend(x, s); }
        Before([x[0]] + (x[1..] + s), [c]);
        { BeforeStep(x[0], x[1..] + s, c); }
        [x[0]] + Before(x[1..] + s, [c]);
        { BeforePrefix(x[1..], s, c); }
        [x[0]] + (x[1..] + Before(s, [c]));
        { ConsAppend(x, Before(s, [c])); }
        x + Before(s, [c]);
      }
    } else {
      assert x + s == s;
    }
  }

  /** A first character other than the separator is kept by `split`. */
  lemma BeforeStep(x: char, rest: string, c: char)
    requires x != c
    ensures Before([x] + rest, [c]) == [x] + Before(rest, [c])
  {
    assert ([x] + rest)[0] == x;
    assert ([x] + rest)[1..] == rest;
  }

  /** The text before a one-character separator does not contain it. */
  lemma {:induction false} BeforeCharExcludes(s: string, c: char)
    ensures c !in Before(s, [c])
  {
    var r := Before(s, [c]);
    forall i | 0 <= i < |r|
      ensures r[i] != c
    {
      assert !([c] <= s[i..]);
      assert s[i..][0] == s[i] == r[i];
    }
  }

  /**
   * `s.replace(pat, rep)`: leftmost, non-overlapping occurrences of `pat`
   * replaced, scanning left to right.
   */
  function ReplaceAll(s: string, pat: string, rep: string): (r: string)
    requires |pat| > 0
    ensures rep == [] ==> |r| <= |s|
    ensures !Contains(s, pat) ==> r == s
    decreases |s|
  {
    if s == [] then []
    else if pat <= s then rep + ReplaceAll(s[|pat|..], pat, rep)
    else [s[0]] + ReplaceAll(s[1..], pat, rep)
  }

  /**
   * Removing a one-character pattern deletes exactly that character:
   * every other character is kept, and the character itself is gone.
   */
  lemma {:induction false} RemoveCharExact(s: string, c: char)
    ensures var r := ReplaceAll(s, [c], []);
      c !in r && forall x :: x != c ==> (x in r <==> x in s)
    decreases |s|
  {
    if s != [] {
      RemoveCharExact(s[1..], c);
      var t := ReplaceAll(s[1..], [c], []);
      if [c] <= s {
        assert ReplaceAll(s, [c], []) == t;
        assert s[|[c]|..] == s[1..];
      } else {
        assert ReplaceAll(s, [c], []) == [s[0]] + t;
      }
      assert forall x :: x in s <==> x == s[0] || x in s[1..];
    }
  }

  /** `a` starts and `b` ends their concatenation. */
  lemma ConcatEnds(a: string, b: string)
    ensures a <= a + b && EndsWith(a + b, b)
  {
    assert (a + b)[|a|..] == b;
  }

  /** Removing a character works piece by piece: it distributes over concatenation. */
  lemma {:induction false} RemoveCharAppend(x: string, y: string, c: char)
    ensures ReplaceAll(x + y, [c], []) == ReplaceAll(x, [c], []) + ReplaceAll(y, [c], [])
    decreases |x|
  {
    if x == [] {
      assert x + y == y;
    } else {
      assert (x + y)[1..] == x[1..] + y;
      RemoveCharAppend(x[1..], y, c);
    }
  }

  /** A first character that cannot start the pattern is copied by `replace`. */
  lemma ReplaceAllStep(x: char, rest: string, pat: string, rep: string)
    requires |pat| > 0 && x != pat[0]
    ensures ReplaceAll([x] + rest, pat, rep) == [x] + ReplaceAll(rest, pat, rep)
  {
    assert ([x] + rest)[0] == x;
    assert ([x] + rest)[1..] == rest;
  }

  /** Splitting off the first element of a non-empty left operand. */
  lemma ConsAppend(a: string, r: string)
    requires a != []
    ensures [a[0]] + (a[1..] + r) == a + r
  {
    assert a == [a[0]] + a[1..];
  }

  /**
   * `replace` substitutes the first occurrence of the pattern, found where
   * its first character first appears, and carries on after it.
   */
  lemma {:induction false} ReplaceAllSkip(a: string, pat: string, c: string, rep: string)
    requires |pat| > 0 && pat[0] !in a
    ensures ReplaceAll(a + pat + c, pat, rep) == a + rep + ReplaceAll(c, pat, rep)
    decreases |a|
  {
    if a == [] {
      var s := a + pat + c;
      assert s == pat + c && pat <= s;
      assert s[|pat|..] == c;
    } else {
      assert pat[0] !in a[1..] by {
        assert forall i :: 0 <= i < |a[1..]| ==> a[1..][i] == a[i + 1];
      }
      assert a[0] != pat[0] by {
        assert a[0] in a;
      }
      calc {
        ReplaceAll(a + pat + c, pat, rep);
        { ConsAppend(a, pat + c); assert a + pat + c == a + (pat + c);
          assert a[1..] + (pat + c) == a[1..] + pat + c; }
        ReplaceAll([a[0]] + (a[1..] + pat + c), pat, rep);
        { ReplaceAllStep(a[0], a[1..] + pat + c, pat, rep); }
        [a[0]] + ReplaceAll(a[1..] + pat + c, pat, rep);
        { ReplaceAllSkip(a[1..], pat, c, rep); }
        [a[0]] + (a[1..] + rep + ReplaceAll(c, pat, rep));
        { ConsAppend(a, rep + ReplaceAll(c, pat, rep));
          assert a[1..] + rep + ReplaceAll(c, pat, rep) == a[1..] + (rep + ReplaceAll(c, pat, rep));
          assert a + rep + ReplaceAll(c, pat, rep) == a + (rep + ReplaceAll(c, pat, rep)); }
        a + rep + ReplaceAll(c, pat, rep);
      }
    }
  }

  /** Removing a character preserves the absence of any other character. */
  lemma RemoveCharKeepsAbsent(s: string, c: char, x: char)
    requires x !in s
    ensures x !in ReplaceAll(s, [c], [])
  {
    RemoveCharExact(s, c);
  }

  // ---------------------------------------------------------------------
  // Decimal digits and Python's `str(int)`

  predicate IsDigit(c: char) {
    '0' <= c <= '9'
  }

  predicate AllDigits(s: string) {
    forall i :: 0 <= i < |s| ==> IsDigit(s[i])
  }

  function DigitValue(c: char): (d: nat)
    requires IsDigit(c)
    ensures d < 10
  {
    (c as int) - ('0' as int)
  }

  function DigitChar(d: nat): (c: char)
    requires d < 10
    ensures IsDigit(c) && DigitValue(c) == d
  {
    (('0' as int) + d) as char
  }

  /** The number a string of decimal digits denotes (the empty string denotes 0). */
  function DigitsValue(s: string): nat
    requires AllDigits(s)
  {
    if s == [] then 0 else DigitsValue(s[..|s| - 1]) * 10 + DigitValue(s[|s| - 1])
  }

  /** Python's `str(n)` for `n >= 0`: digits, no leading zero except for 0 itself. */
  function NatToString(n: nat): (r: string)
    ensures |r| >= 1 && AllDigits(r)
    ensures |r| > 1 ==> r[0] != '0'
    ensures DigitsValue(r) == n
  {
    if n < 10 then [DigitChar(n)]
    else
      var p := NatToString(n / 10);
      var r := p + [DigitChar(n % 10)];
      assert r[..|r| - 1] == p;
      r
  }

  /** Python's `str(n)` (also `f"{n}"`) for any integer. */
  function IntToString(n: int): (r: string)
    ensures |r| >= 1
    ensures forall i :: 0 <= i < |r| ==> IsDigit(r[i]) || (i == 0 && r[i] == '-')
    ensures n >= 0 ==> r == NatToString(n)
    ensures n < 0 ==> r == "-" + NatToString(-n)
  {
    if n < 0 then "-" + NatToString(-n) else NatToString(n)
  }

  /** Neither a digit string nor `str(n)` contains a whitespace character. */
  lemma IntToStringHasNoSpace(n: int)
    ensures forall i :: 0 <= i < |IntToString(n)| ==> !IsSpace(IntToString(n)[i])
  {
  }

  /** Equal concatenations whose first parts are equally long have equal parts. */
  lemma ConcatCancel(a1: string, b1: string, a2: string, b2: string)
    requires |a1| == |a2| && a1 + b1 == a2 + b2
    ensures a1 == a2 && b1 == b2
  {
    assert a1 == (a1 + b1)[..|a1|] && a2 == (a2 + b2)[..|a2|];
    assert b1 == (a1 + b1)[|a1|..] && b2 == (a2 + b2)[|a2|..];
  }
}
