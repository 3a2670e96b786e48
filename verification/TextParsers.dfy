/**
 * The text normalisers of the scraper (src/infra/adapters/parsing/text/parsers.py):
 * total functions from raw cell text to typed values.
 *
 * Python's `float()` is modelled over an exact decimal grammar:
 * an optional sign, decimal digits, and an optional fraction, with at least
 * one digit. `int(float(x))` is truncation toward zero and `round(float(x))`
 * is round-half-to-even, both stated here over the exact decimal value.
 */
module TextParsers {
  import opened Wrappers
  import opened Strings

  // ---------------------------------------------------------------------
  // Decimal numbers as Python's `float()` reads them

  /** A decimal literal: sign, integer digits and fraction digits. */
  datatype Decimal = Decimal(negative: bool, intDigits: string, fracDigits: string)

  predicate WellFormed(d: Decimal) {
    AllDigits(d.intDigits) && AllDigits(d.fracDigits) && |d.intDigits| + |d.fracDigits| >= 1
  }

  /** The number of leading ASCII digits of `s`. */
  function LeadingDigits(s: string): (k: nat)
    ensures k <= |s| && AllDigits(s[..k])
    ensures k == |s| || !IsDigit(s[k])
  {
    if s == [] || !IsDigit(s[0]) then 0
    else
      var k := 1 + LeadingDigits(s[1..]);
      assert s[..k] == [s[0]] + s[1..][..k - 1];
      k
  }

  /**
   * Reads `[+-]? digits* ('.' digits*)?` with at least one digit and nothing
   * else; any other text is not a number.
   */
  function ParseDecimal(t: string): (r: Option<Decimal>)
    ensures r.Some? ==> WellFormed(r.value)
    ensures r.Some? ==> r.value.negative == (|t| > 0 && t[0] == '-')
  {
    var neg := |t| > 0 && t[0] == '-';
    var body := if |t| > 0 && (t[0] == '-' || t[0] == '+') then t[1..] else t;
    var k := LeadingDigits(body);
    var rest := body[k..];
    if rest == [] then
      if k > 0 then Some(Decimal(neg, body[..k], "")) else None
    else if rest[0] == '.' && AllDigits(rest[1..]) && k + |rest| >= 2 then
      Some(Decimal(neg, body[..k], rest[1..]))
    else None
  }

  /** `float(s)`, which ignores surrounding whitespace. */
  function ParseFloat(s: string): Option<Decimal> {
    ParseDecimal(Strip(s))
  }

  /** `float` of a text without whitespace parses the text itself. */
  lemma ParseFloatWithoutSpace(t: string)
    requires forall i :: 0 <= i < |t| ==> !IsSpace(t[i])
    ensures ParseFloat(t) == ParseDecimal(t)
  {
    StripWithoutSpace(t);
  }

  /** The value of the fraction digits `0.d1 d2 ...`: always in [0, 1). */
  function FracValue(f: string): (v: real)
    requires AllDigits(f)
    ensures 0.0 <= v < 1.0
  {
    if f == [] then 0.0
    else (DigitValue(f[0]) as real + FracValue(f[1..])) / 10.0
  }

  /** The exact value of a decimal literal. */
  function Value(d: Decimal): real
    requires WellFormed(d)
  {
    var m := DigitsValue(d.intDigits) as real + FracValue(d.fracDigits);
    if d.negative then -m else m
  }

  /** `n` is `v` with its fractional part cut off (rounded toward zero). */
  predicate TruncatesTowardZero(v: real, n: int) {
    (v >= 0.0 ==> n as real <= v < n as real + 1.0) &&
    (v < 0.0 ==> n as real - 1.0 < v <= n as real)
  }

  /** `int(float(s))`. */
  function Truncate(d: Decimal): (n: int)
    requires WellFormed(d)
    ensures TruncatesTowardZero(Value(d), n)
  {
    var m: int := DigitsValue(d.intDigits);
    if d.negative then -m else m
  }

  /** Rounds a non-negative `m + f` (`f` in [0, 1)) half to even. */
  function RoundMagnitude(m: nat, f: real): (up: nat)
    requires 0.0 <= f < 1.0
    ensures up as real - 0.5 <= m as real + f <= up as real + 0.5
    ensures (m as real + f == up as real - 0.5 || m as real + f == up as real + 0.5) ==> up % 2 == 0
  {
    var v := m as real + f;
    if f < 0.5 then
      assert m as real <= v < m as real + 0.5;
      m
    else if f > 0.5 then
      assert (m + 1) as real - 0.5 < v < (m + 1) as real;
      m + 1
    else
      assert v == m as real + 0.5 == (m + 1) as real - 0.5;
      if m % 2 == 0 then m
      else m + 1
  }

  /** `round(float(s))`: nearest integer, ties to the even neighbour. */
  function RoundHalfEven(d: Decimal): (n: int)
    requires WellFormed(d)
    ensures n as real - 0.5 <= Value(d) <= n as real + 0.5
    ensures (Value(d) == n as real - 0.5 || Value(d) == n as real + 0.5) ==> n % 2 == 0
  {
    var m := DigitsValue(d.intDigits);
    var f := FracValue(d.fracDigits);
    var up: int := RoundMagnitude(m, f);
    if d.negative then
      RoundNegated(up, m as real + f);
      -up
    else up
  }

  /** Rounding half to even commutes with negation. */
  lemma RoundNegated(up: int, v: real)
    requires up as real - 0.5 <= v <= up as real + 0.5
    requires (v == up as real - 0.5 || v == up as real + 0.5) ==> up % 2 == 0
    ensures (-up) as real - 0.5 <= -v <= (-up) as real + 0.5
    ensures (-v == (-up) as real - 0.5 || -v == (-up) as real + 0.5) ==> (-up) % 2 == 0
  {
    if up % 2 == 0 {
      assert -up == 2 * (-(up / 2));
    }
  }

  /** `str(n)` reads back as the decimal literal with value `n` and no fraction. */
  lemma IntToStringParses(n: int)
    ensures ParseFloat(IntToString(n)) == Some(Decimal(n < 0, NatToString(if n < 0 then -n else n), ""))
  {
    var t := IntToString(n);
    IntToStringHasNoSpace(n);
    ParseFloatWithoutSpace(t);
    var body := NatToString(if n < 0 then -n else n);
    assert n < 0 ==> t[1..] == body;
    assert LeadingDigits(body) == |body|;
    assert body[..|body|] == body;
  }

  /** The leading digits of `d + rest` are `d` when `rest` does not start with a digit. */
  lemma {:induction false} LeadingDigitsOf(d: string, rest: string)
    requires AllDigits(d) && (rest == [] || !IsDigit(rest[0]))
    ensures LeadingDigits(d + rest) == |d|
    decreases |d|
  {
    if d == [] {
      assert d + rest == rest;
    } else {
      assert (d + rest)[1..] == d[1..] + rest;
      LeadingDigitsOf(d[1..], rest);
    }
  }

  /** `float()` accepts "d.f" and "-d.f" for digit strings with at least one digit between them. */
  lemma ParseDecimalPoint(d: string, f: string)
    requires AllDigits(d) && AllDigits(f) && |d| + |f| >= 1
    ensures ParseDecimal(d + "." + f) == Some(Decimal(false, d, f))
    ensures ParseDecimal("-" + d + "." + f) == Some(Decimal(true, d, f))
  {
    var t := d + "." + f;
    assert t == d + ("." + f);
    LeadingDigitsOf(d, "." + f);
    assert t[..|d|] == d && t[|d|..] == "." + f;
    assert t != [] ==> t[0] != '-' && t[0] != '+' by {
      if d != [] { assert t[0] == d[0]; }
    }
    var u := "-" + d + "." + f;
    assert u[1..] == t;
  }

  /** `float()` accepts a plain digit string, with or without a "-" sign. */
  lemma ParseDecimalDigits(d: string)
    requires AllDigits(d) && |d| >= 1
    ensures ParseDecimal(d) == Some(Decimal(false, d, ""))
    ensures ParseDecimal("-" + d) == Some(Decimal(true, d, ""))
  {
    LeadingDigitsOf(d, "");
    assert d + "" == d && d[..|d|] == d;
    assert ("-" + d)[1..] == d;
  }

  // ---------------------------------------------------------------------
  // parse_to_int

  /** Every ",", "주" and "원" removed; every other character kept. */
  function RemoveUnits(t: string): (r: string)
    ensures ',' !in r && '주' !in r && '원' !in r
    ensures forall x :: x != ',' && x != '주' && x != '원' ==> (x in r <==> x in t)
  {
    var a := ReplaceAll(t, ",", "");
    RemoveCharExact(t, ',');
    var b := ReplaceAll(a, "주", "");
    RemoveCharExact(a, '주');
    RemoveCharExact(b, '원');
    ReplaceAll(b, "원", "")
  }

  /** Removing the units works piece by piece. */
  lemma RemoveUnitsAppend(x: string, y: string)
    ensures RemoveUnits(x + y) == RemoveUnits(x) + RemoveUnits(y)
  {
    RemoveCharAppend(x, y, ',');
    var x1, y1 := ReplaceAll(x, ",", ""), ReplaceAll(y, ",", "");
    RemoveCharAppend(x1, y1, '주');
    RemoveCharAppend(ReplaceAll(x1, "주", ""), ReplaceAll(y1, "주", ""), '원');
  }

  /** The text before the first "(", with every ",", "주" and "원" removed, trimmed. */
  function StripUnits(text: string): (r: string)
    ensures NoSpaceAtEnds(r)
    ensures '(' !in r && ',' !in r && '주' !in r && '원' !in r
  {
    var noParens := Before(text, "(");
    BeforeCharExcludes(text, '(');
    var c := RemoveUnits(noParens);
    StripChars(c);
    Strip(c)
  }

  /** Everything from the first "(" on is ignored. */
  lemma StripUnitsCutAtParen(a: string, b: string)
    requires '(' !in a
    ensures StripUnits(a + "(" + b) == StripUnits(a)
  {
    assert a + "(" + b == a + ("(" + b);
    BeforePrefix(a, "(" + b, '(');
    BeforePrefix(a, [], '(');
    assert a + [] == a;
  }

  /** A ",", "주" or "원" before the first "(" is deleted, wherever it stands. */
  lemma StripUnitsDropsMark(x: string, m: char, y: string)
    requires m == ',' || m == '주' || m == '원'
    requires '(' !in x
    ensures StripUnits(x + [m] + y) == StripUnits(x + y)
  {
    assert '(' !in x + [m];
    BeforePrefix(x + [m], y, '(');
    BeforePrefix(x, y, '(');
    var rest := Before(y, "(");
    RemoveUnitsAppend(x + [m], rest);
    RemoveUnitsAppend(x, [m]);
    RemoveUnitsAppend(x, rest);
    assert RemoveUnits([m]) == [] by {
      RemoveCharExact([m], ',');
      RemoveCharExact(ReplaceAll([m], ",", ""), '주');
    }
    assert RemoveUnits(x) + [] == RemoveUnits(x);
  }

  /** A text without "(", ",", "주" or "원" is only trimmed. */
  lemma StripUnitsOfBare(t: string)
    requires '(' !in t && ',' !in t && '주' !in t && '원' !in t
    ensures StripUnits(t) == Strip(t)
  {
    ContainsChar(t, '(');
    BeforeAbsent(t, "(");
    ContainsChar(t, ',');
    var a := ReplaceAll(t, ",", "");
    ContainsChar(a, '주');
    var b := ReplaceAll(a, "주", "");
    ContainsChar(b, '원');
  }

  /** Keeps only the trimmed part left of separator `c`, when `c` occurs. */
  function KeepLeftOf(s: string, c: char): (r: string)
    requires NoSpaceAtEnds(s)
    ensures NoSpaceAtEnds(r) && c !in r
    ensures forall x :: x in r ==> x in s
  {
    ContainsChar(s, c);
    if Contains(s, [c]) then
      var b := Before(s, [c]);
      BeforeCharExcludes(s, c);
      assert forall x :: x in b ==> x in s;
      StripChars(b);
      Strip(b)
    else s
  }

  /**
   * The residue `parse_to_int` hands to `float()`: the text before the first
   * "(", with every ",", "주" and "원" removed, trimmed, and then cut to the
   * part left of "~" and left of ":" (each trimmed).
   */
  function CleanNumber(text: string): (r: string)
    ensures NoSpaceAtEnds(r)
    ensures '(' !in r && ',' !in r && '주' !in r && '원' !in r && '~' !in r && ':' !in r
  {
    KeepLeftOf(KeepLeftOf(StripUnits(text), '~'), ':')
  }

  /**
   * `parse_to_int`: None for "", "N/A", "-" and for a residue that is not a
   * number; otherwise the residue's value truncated toward zero.
   */
  function ParseToInt(text: string): (r: Option<int>)
    ensures text == "" || text == "N/A" || text == "-" ==> r == None
    ensures r.Some? <==> text != "" && text != "N/A" && text != "-" && ParseFloat(CleanNumber(text)).Some?
    ensures r.Some? ==> TruncatesTowardZero(Value(ParseFloat(CleanNumber(text)).value), r.value)
  {
    if text == "" || text == "N/A" || text == "-" then None
    else
      match ParseFloat(CleanNumber(text))
      case None => None
      case Some(d) => Some(Truncate(d))
  }

  /** A text without any of the characters that are cut or removed is only trimmed. */
  lemma CleanNumberOfPlain(t: string)
    requires '(' !in t && ',' !in t && '주' !in t && '원' !in t && '~' !in t && ':' !in t
    ensures CleanNumber(t) == Strip(t)
  {
    StripUnitsOfBare(t);
    StripChars(t);
    ContainsChar(Strip(t), '~');
    ContainsChar(Strip(t), ':');
  }

  /**
   * Stripping `x + [c] + y` around a non-blank `c` cuts only leading blanks
   * of `x`: the result is `x[lo..] + [c] + z`.
   */
  lemma StripAround(x: string, c: char, y: string) returns (lo: nat, z: string)
    requires !IsSpace(c)
    ensures lo <= |x| && forall i :: 0 <= i < lo ==> IsSpace(x[i])
    ensures Strip(x + [c] + y) == x[lo..] + ([c] + z)
  {
    var s := x + [c] + y;
    var l, hi := StripIsSlice(s);
    assert s[|x|] == c;
    assert l <= |x| < hi;
    lo, z := l, s[|x| + 1..hi];
    assert s[lo..hi] == x[lo..] + ([c] + z);
    assert forall i :: 0 <= i < lo ==> x[i] == s[i];
  }

  /** When `c` occurs, `KeepLeftOf` trims the text before its first occurrence. */
  lemma KeepLeftOfPresent(t: string, c: char)
    requires NoSpaceAtEnds(t) && c in t
    ensures KeepLeftOf(t, c) == Strip(Before(t, [c]))
  {
    ContainsChar(t, c);
  }

  /** The text before the first `c` of `u + [c] + z` is `u` when `c` does not occur in `u`. */
  lemma BeforeFirst(u: string, c: char, z: string)
    requires c !in u
    ensures Before(u + ([c] + z), [c]) == u
  {
    BeforePrefix(u, [c] + z, c);
    assert Before([c] + z, [c]) == [];
    assert u + [] == u;
  }

  /** `KeepLeftOf` of a stripped `u + [c] + z`, with no `c` in `u`, is the stripped `u`. */
  lemma KeepLeftOfJoined(u: string, c: char, z: string)
    requires c !in u && NoSpaceAtEnds(u + ([c] + z))
    ensures KeepLeftOf(u + ([c] + z), c) == Strip(u)
  {
    var t := u + ([c] + z);
    assert c in t by {
      assert t[|u|] == c;
    }
    KeepLeftOfPresent(t, c);
    BeforeFirst(u, c, z);
  }

  /** The trimmed text left of `c` in a stripped `x + [c] + y` is the stripped `x`. */
  lemma KeepLeftOfStripped(x: string, c: char, y: string)
    requires c !in x && !IsSpace(c)
    ensures KeepLeftOf(Strip(x + [c] + y), c) == Strip(x)
  {
    var lo, z := StripAround(x, c, y);
    assert c !in x[lo..] by {
      assert forall i :: 0 <= i < |x[lo..]| ==> x[lo..][i] == x[lo + i];
    }
    KeepLeftOfJoined(x[lo..], c, z);
    StripAfterBlanks(x, lo);
  }

  /** Everything from the first "(" on is ignored by `parse_to_int`. */
  lemma CleanNumberCutAtParen(a: string, b: string)
    requires '(' !in a
    ensures CleanNumber(a + "(" + b) == CleanNumber(a)
  {
    StripUnitsCutAtParen(a, b);
  }

  /** A ",", "주" or "원" before the first "(" is ignored by `parse_to_int`. */
  lemma CleanNumberDropsMark(x: string, m: char, y: string)
    requires m == ',' || m == '주' || m == '원'
    requires '(' !in x
    ensures CleanNumber(x + [m] + y) == CleanNumber(x + y)
  {
    StripUnitsDropsMark(x, m, y);
  }

  /** A character other than ",", "주" and "원" survives the removal of units. */
  lemma RemoveUnitsKeeps(m: char)
    requires m != ',' && m != '주' && m != '원'
    ensures RemoveUnits([m]) == [m]
  {
    assert m in RemoveUnits([m]);
    assert |RemoveUnits([m])| <= 1 by {
      var a := ReplaceAll([m], ",", "");
      var b := ReplaceAll(a, "주", "");
      assert |b| <= |a| <= 1;
    }
  }

  /** Before the first "(", a separator `m` other than the units splits the unit-free text in two. */
  lemma StripUnitsAtSeparator(a: string, m: char, b: string)
    requires m != '(' && m != ',' && m != '주' && m != '원'
    requires '(' !in a
    ensures StripUnits(a + [m] + b) == Strip(RemoveUnits(a) + [m] + RemoveUnits(Before(b, "(")))
  {
    assert '(' !in a + [m];
    BeforePrefix(a + [m], b, '(');
    var rest := Before(b, "(");
    RemoveUnitsAppend(a + [m], rest);
    RemoveUnitsAppend(a, [m]);
    RemoveUnitsKeeps(m);
  }

  /** Of a range "a ~ b", `parse_to_int` reads only the lower end `a`. */
  lemma CleanNumberCutAtTilde(a: string, b: string)
    requires '(' !in a && '~' !in a
    ensures CleanNumber(a + "~" + b) == CleanNumber(a)
  {
    assert a + "~" + b == a + ['~'] + b;
    StripUnitsAtSeparator(a, '~', b);
    var x := RemoveUnits(a);
    assert '~' !in x;
    KeepLeftOfStripped(x, '~', RemoveUnits(Before(b, "(")));
    assert StripUnits(a) == Strip(x) by {
      BeforePrefix(a, [], '(');
      assert a + [] == a;
    }
    StripChars(x);
    ContainsChar(Strip(x), '~');
  }

  /**
   * The "~" cut of a stripped `x + ":" + y`, with neither "~" nor ":" in `x`,
   * leaves a stripped `u + ":" + w` where `u` strips like `x`.
   */
  lemma TildeCutKeepsColon(x: string, y: string) returns (u: string, w: string)
    requires '~' !in x && ':' !in x
    ensures '~' !in u && ':' !in u && Strip(u) == Strip(x)
    ensures KeepLeftOf(Strip(x + [':'] + y), '~') == Strip(u + [':'] + w)
  {
    var lo, z := StripAround(x, ':', y);
    u := x[lo..];
    assert forall i :: 0 <= i < |u| ==> u[i] == x[lo + i];
    StripAfterBlanks(x, lo);
    var s := Strip(x + [':'] + y);
    ContainsChar(s, '~');
    ConcatAssoc(u, [':'], z);
    assert '~' !in u + [':'];
    if '~' in s {
      KeepLeftOfPresent(s, '~');
      BeforePrefix(u + [':'], z, '~');
      w := Before(z, "~");
    } else {
      w := z;
      StripOfStripped(s);
    }
  }

  /** Of a ratio "a : b", `parse_to_int` reads only the left operand `a`. */
  lemma CleanNumberCutAtColon(a: string, b: string)
    requires '(' !in a && '~' !in a && ':' !in a
    ensures CleanNumber(a + ":" + b) == CleanNumber(a)
  {
    assert a + ":" + b == a + [':'] + b;
    StripUnitsAtSeparator(a, ':', b);
    var x := RemoveUnits(a);
    assert '~' !in x && ':' !in x;
    var u, w := TildeCutKeepsColon(x, RemoveUnits(Before(b, "(")));
    KeepLeftOfStripped(u, ':', w);
    assert StripUnits(a) == Strip(x) by {
      BeforePrefix(a, [], '(');
      assert a + [] == a;
    }
    StripChars(x);
    ContainsChar(Strip(x), '~');
    ContainsChar(Strip(x), ':');
  }

  /** `parse_to_int` of "<d>:<b>", with `d` a digit string, is the value of `d`. */
  lemma ParseToIntOfRatioAt(r: string, d: string, b: string, n: nat)
    requires r == d + ":" + b && AllDigits(d) && |d| >= 1 && DigitsValue(d) == n
    ensures ParseToInt(r) == Some(n)
  {
    assert '(' !in d && '~' !in d && ':' !in d by {
      assert forall i :: 0 <= i < |d| ==> IsDigit(d[i]);
    }
    CleanNumberCutAtColon(d, b);
    assert IsNumeral(d);
    NumeralIsClean(d);
    ParseDecimalDigits(d);
    assert r != "" && r != "N/A" && r != "-" by { assert r[|d|] == ':'; }
    ParseToIntOfResidue(r, Decimal(false, d, ""));
  }

  /** An example of `parse_to_int`: "100:200" reads as 100, the left operand. */
  lemma ParseToIntExampleRatio()
    ensures ParseToInt("100:200") == Some(100)
  {
    assert NatToString(100) == "100";
    ParseToIntOfRatioAt("100:200", "100", "200", 100);
  }

  /** `parse_to_int` truncates whatever number its residue denotes. */
  lemma ParseToIntOfResidue(text: string, dec: Decimal)
    requires text != "" && text != "N/A" && text != "-"
    requires ParseFloat(CleanNumber(text)) == Some(dec)
    ensures ParseToInt(text) == Some(Truncate(dec))
  {
  }

  /** A text made of digits, "." and "-" only. */
  predicate IsNumeral(t: string) {
    forall i :: 0 <= i < |t| ==> IsDigit(t[i]) || t[i] == '.' || t[i] == '-'
  }

  /** A numeral is its own residue and its own `strip`. */
  lemma NumeralIsClean(t: string)
    requires IsNumeral(t)
    ensures ParseFloat(CleanNumber(t)) == ParseDecimal(t)
  {
    CleanNumberOfPlain(t);
    StripWithoutSpace(t);
  }

  /** "d.f" and "-d.f" are numerals. */
  lemma PointIsNumeral(d: string, f: string)
    requires AllDigits(d) && AllDigits(f)
    ensures IsNumeral(d + "." + f) && IsNumeral("-" + d + "." + f)
  {
    var t := d + "." + f;
    forall i | 0 <= i < |t|
      ensures IsDigit(t[i]) || t[i] == '.' || t[i] == '-'
    {
      if i < |d| { assert t[i] == d[i]; }
      else if i > |d| { assert t[i] == f[i - |d| - 1]; }
    }
    assert "-" + d + "." + f == "-" + t;
  }

  /** When the residue is a digit string, `parse_to_int` gives its value. */
  lemma ParseToIntOfDigits(text: string, d: string)
    requires text != "" && text != "N/A" && text != "-"
    requires CleanNumber(text) == d && AllDigits(d) && |d| >= 1
    ensures ParseToInt(text) == Some(DigitsValue(d))
  {
    NumeralIsClean(d);
    ParseDecimalDigits(d);
    ParseToIntOfResidue(text, Decimal(false, d, ""));
  }

  /** `parse_to_int` of "d.f" truncates: the fraction is dropped. */
  lemma ParseToIntOfPoint(d: string, f: string)
    requires AllDigits(d) && AllDigits(f) && |d| >= 1
    ensures ParseToInt(d + "." + f) == Some(DigitsValue(d))
  {
    ParseDecimalPoint(d, f);
    PointIsNumeral(d, f);
    var t := d + "." + f;
    NumeralIsClean(t);
    assert t != "" && t != "N/A" && t != "-" by { assert t[0] == d[0]; }
    ParseToIntOfResidue(t, Decimal(false, d, f));
  }

  /** `parse_to_int` of a decimal literal "<d>.<f>" is the value of its integer digits. */
  lemma ParseToIntOfPointAt(t: string, d: string, f: string, n: nat)
    requires t == d + "." + f && AllDigits(d) && AllDigits(f) && |d| >= 1 && DigitsValue(d) == n
    ensures ParseToInt(t) == Some(n)
  {
    ParseToIntOfPoint(d, f);
  }

  /** An example of `parse_to_int`: "100.5" reads as 100, the fraction cut off. */
  lemma ParseToIntExampleHalf()
    ensures ParseToInt("100.5") == Some(100)
  {
    assert NatToString(100) == "100";
    ParseToIntOfPointAt("100.5", "100", "5", 100);
  }

  /** An example of `parse_to_int`: "99.9" reads as 99, not rounded up. */
  lemma ParseToIntExampleNines()
    ensures ParseToInt("99.9") == Some(99)
  {
    assert NatToString(99) == "99";
    ParseToIntOfPointAt("99.9", "99", "9", 99);
  }

  /** A range with a thousands comma in its lower end cleans to that end without the comma. */
  lemma CleanNumberOfRange(x: string, y: string, b: string)
    requires '(' !in x + y && '~' !in x + y && ',' !in x + y
    requires '주' !in x + y && '원' !in x + y && ':' !in x + y
    ensures CleanNumber(x + "," + y + "~" + b) == Strip(x + y)
  {
    assert x + "," + y + "~" + b == (x + "," + y) + "~" + b;
    assert '(' !in x + "," + y && '~' !in x + "," + y by {
      assert forall c :: c in x + "," + y ==> c in x + y || c == ',';
    }
    CleanNumberCutAtTilde(x + "," + y, b);
    assert x + "," + y == x + [','] + y;
    assert '(' !in x by { assert forall c :: c in x ==> c in x + y; }
    CleanNumberDropsMark(x, ',', y);
    CleanNumberOfPlain(x + y);
  }

  /** Digits and a blank contain none of the characters `clean_number` cuts or removes. */
  lemma DigitsAndBlankArePlain(d: string)
    requires AllDigits(d)
    ensures var p := d + " ";
      '(' !in p && '~' !in p && ',' !in p && '주' !in p && '원' !in p && ':' !in p
  {
    var p := d + " ";
    assert forall i :: 0 <= i < |p| ==> IsDigit(p[i]) || p[i] == ' ' by {
      assert forall i :: 0 <= i < |p| ==> p[i] == if i < |d| then d[i] else ' ';
    }
  }

  /** A range "5,000 ~ 8,000원" is read as its lower end, 5000. */
  lemma ParseToIntOfRange()
    ensures ParseToInt("5,000 ~ 8,000원") == Some(5000)
  {
    assert NatToString(5000) == "5000";
    ParseToIntOfRangeAt("5,000 ~ 8,000원", "5", "000 ", " 8,000원", "5000", 5000);
  }

  /** `parse_to_int` of "<x>,<y>~<b>", where `x + y` is digits and a blank, is the value of those digits. */
  lemma ParseToIntOfRangeAt(r: string, x: string, y: string, b: string, d: string, n: nat)
    requires r == x + "," + y + "~" + b
    requires x + y == d + " " && AllDigits(d) && |d| >= 1 && DigitsValue(d) == n
    ensures ParseToInt(r) == Some(n)
  {
    assert CleanNumber(r) == d by {
      calc {
        CleanNumber(r);
        { DigitsAndBlankArePlain(d);
          CleanNumberOfRange(x, y, b); }
        Strip(x + y);
        { StripTrailingSpace(d, ' '); }
        d;
      }
    }
    assert r != "" && r != "N/A" && r != "-" by { assert r[|x|] == ','; }
    ParseToIntOfDigits(r, d);
  }

  /** `parse_to_int(str(n)) == n` for every integer. */
  lemma ParseToIntOfIntToString(n: int)
    ensures ParseToInt(IntToString(n)) == Some(n)
  {
    var t := IntToString(n);
    var dec := Decimal(n < 0, NatToString(if n < 0 then -n else n), "");
    assert t != "" && t != "N/A" && t != "-" by {
      assert t[0] == '-' || IsDigit(t[0]);
      assert "N/A"[0] == 'N';
      if n < 0 { assert |t| >= 2; } else { assert IsDigit(t[0]); }
    }
    assert CleanNumber(t) == t by {
      assert forall i :: 0 <= i < |t| ==> IsDigit(t[i]) || t[i] == '-';
      IntToStringHasNoSpace(n);
      CleanNumberOfPlain(t);
      StripWithoutSpace(t);
    }
    assert ParseFloat(t) == Some(dec) by {
      IntToStringParses(n);
    }
    ParseToIntOfResidue(t, dec);
  }

  /** `str(n)` is injective: the integer can be read back. */
  lemma IntToStringInjective(x: int, y: int)
    requires IntToString(x) == IntToString(y)
    ensures x == y
  {
    ParseToIntOfIntToString(x);
    ParseToIntOfIntToString(y);
  }

  // ---------------------------------------------------------------------
  // clean_stock_name

  /**
   * For the text following "(구.": the index of the ")" that closes the
   * shortest match of `.*?\)`, where `.` does not match a newline.
   */
  function FormerNameEnd(s: string): (r: Option<nat>)
    ensures r.Some? ==> r.value < |s| && s[r.value] == ')'
    ensures r.Some? ==> forall j :: 0 <= j < r.value ==> s[j] != ')' && s[j] != '\n'
    ensures r.None? ==> forall j :: 0 <= j < |s| ==> s[j] != ')' || exists k :: 0 <= k < j && s[k] == '\n'
  {
    if s == [] then None
    else if s[0] == ')' then Some(0)
    else if s[0] == '\n' then None
    else match FormerNameEnd(s[1..])
      case Some(k) => Some(k + 1)
      case None =>
        assert forall j :: 1 <= j < |s| ==> s[j] == s[1..][j - 1];
        None
  }

  /** `re.sub(r"\(구\..*?\)", "", s)`: every former-name annotation removed, scanning left to right. */
  function RemoveFormerNames(s: string): (r: string)
    ensures |r| <= |s|
    ensures '(' !in s ==> r == s
    decreases |s|
  {
    if s == [] then []
    else if |s| >= 3 && s[0] == '(' && s[1] == '구' && s[2] == '.' then
      match FormerNameEnd(s[3..])
      case Some(k) => RemoveFormerNames(s[3 + k + 1..])
      case None => [s[0]] + RemoveFormerNames(s[1..])
    else [s[0]] + RemoveFormerNames(s[1..])
  }

  /**
   * `clean_stock_name`: drop former-name annotations, trim, drop every
   * "(상장)" marker, trim again. The result is never longer and has no
   * whitespace at either end.
   */
  function CleanStockName(nameRaw: string): (r: string)
    ensures NoSpaceAtEnds(r)
    ensures |r| <= |nameRaw|
  {
    Strip(ReplaceAll(Strip(RemoveFormerNames(nameRaw)), "(상장)", ""))
  }

  /** A name with no "(" at all is only trimmed. */
  lemma CleanStockNameWithoutParens(nameRaw: string)
    requires '(' !in nameRaw
    ensures CleanStockName(nameRaw) == Strip(nameRaw)
  {
    var s := Strip(nameRaw);
    StripChars(nameRaw);
    assert '(' !in s;
    NotContainsWithoutFirstChar(s, "(상장)");
    StripOfStripped(s);
  }

  /** The lazy `.*?)` stops at the first ")" on the line. */
  lemma {:induction false} FormerNameEndAt(b: string, c: string)
    requires ')' !in b && '\n' !in b
    ensures FormerNameEnd(b + ")" + c) == Some(|b|)
    decreases |b|
  {
    var s := b + ")" + c;
    if b == [] {
      assert s[0] == ')';
    } else {
      assert s[0] == b[0] && b[0] != ')' && b[0] != '\n';
      assert s[1..] == b[1..] + ")" + c;
      FormerNameEndAt(b[1..], c);
    }
  }

  /** When "(구." does not start the text, its first character is copied. */
  lemma RemoveFormerNamesStep(x: char, rest: string)
    requires x != '(' || rest == [] || rest[0] != '구'
    ensures RemoveFormerNames([x] + rest) == [x] + RemoveFormerNames(rest)
  {
    assert ([x] + rest)[1..] == rest;
  }

  /** Text before the first "(" is kept as it is. */
  lemma {:induction false} RemoveFormerNamesPrefix(a: string, s: string)
    requires '(' !in a
    ensures RemoveFormerNames(a + s) == a + RemoveFormerNames(s)
    decreases |a|
  {
    if a == [] {
      assert a + s == s;
    } else {
      assert '(' !in a[1..] by {
        assert forall i :: 0 <= i < |a[1..]| ==> a[1..][i] == a[i + 1];
      }
      RemoveFormerNamesPrefix(a[1..], s);
      RemoveFormerNamesCons(a, s);
    }
  }

  /** The inductive step of `RemoveFormerNamesPrefix`. */
  lemma RemoveFormerNamesCons(a: string, s: string)
    requires a != [] && a[0] != '('
    requires RemoveFormerNames(a[1..] + s) == a[1..] + RemoveFormerNames(s)
    ensures RemoveFormerNames(a + s) == a + RemoveFormerNames(s)
  {
    calc {
      RemoveFormerNames(a + s);
      { ConsAppend(a, s); }
      RemoveFormerNames([a[0]] + (a[1..] + s));
      { RemoveFormerNamesStep(a[0], a[1..] + s); }
      [a[0]] + RemoveFormerNames(a[1..] + s);
      [a[0]] + (a[1..] + RemoveFormerNames(s));
      { ConsAppend(a, RemoveFormerNames(s)); }
      a + RemoveFormerNames(s);
    }
  }

  /** An annotation "(구.<old name>)" at the front is removed whole. */
  lemma RemoveFormerNamesDrops(b: string, c: string)
    requires ')' !in b && '\n' !in b
    ensures RemoveFormerNames("(구." + b + ")" + c) == RemoveFormerNames(c)
  {
    var s := "(구." + b + ")" + c;
    assert s[0] == '(' && s[1] == '구' && s[2] == '.';
    assert s[3..] == b + ")" + c;
    FormerNameEndAt(b, c);
    assert s[3 + |b| + 1..] == c;
  }

  /** `re.sub` deletes the first annotation and keeps the text around it. */
  lemma RemoveFormerNamesSkip(a: string, b: string, c: string)
    requires '(' !in a && ')' !in b && '\n' !in b
    ensures RemoveFormerNames(a + "(구." + b + ")" + c) == a + RemoveFormerNames(c)
  {
    var x := "(구." + b + ")" + c;
    assert RemoveFormerNames(a + x) == a + RemoveFormerNames(c) by {
      RemoveFormerNamesDrops(b, c);
      RemoveFormerNamesPrefix(a, x);
    }
    assert a + "(구." + b + ")" + c == a + x;
  }

  /** A former-name annotation makes no difference to the cleaned name. */
  lemma FormerNameDropped(a: string, b: string, c: string)
    requires '(' !in a && ')' !in b && '\n' !in b
    ensures CleanStockName(a + "(구." + b + ")" + c) == CleanStockName(a + c)
  {
    RemoveFormerNamesSkip(a, b, c);
    RemoveFormerNamesPrefix(a, c);
  }

  /** A name with no annotation of its own passes `re.sub` unchanged. */
  lemma RemoveFormerNamesOfListingMarker(a: string, c: string)
    requires '(' !in a && '(' !in c
    ensures RemoveFormerNames(a + "(상장)" + c) == a + "(상장)" + c
  {
    var u := "상장)" + c;
    assert '(' !in u by {
      assert forall i :: 0 <= i < |u| ==> u[i] == (if i < 3 then "상장)"[i] else c[i - 3]);
    }
    calc {
      RemoveFormerNames(a + "(상장)" + c);
      { assert a + "(상장)" + c == a + (['('] + u); }
      RemoveFormerNames(a + (['('] + u));
      { RemoveFormerNamesPrefix(a, ['('] + u); }
      a + RemoveFormerNames(['('] + u);
      { RemoveFormerNamesStep('(', u); }
      a + (['('] + RemoveFormerNames(u));
      a + (['('] + u);
      { assert a + "(상장)" + c == a + (['('] + u); }
      a + "(상장)" + c;
    }
  }

  /** Two stripped pieces, the first non-empty, make a stripped text. */
  lemma StrippedConcat(a: string, c: string)
    requires a != [] && NoSpaceAtEnds(a) && NoSpaceAtEnds(c)
    ensures Strip(a + c) == a + c
  {
    assert NoSpaceAtEnds(a + c) by {
      assert (a + c)[0] == a[0];
      assert (a + c)[|a + c| - 1] == if c == [] then a[|a| - 1] else c[|c| - 1];
    }
    StripOfStripped(a + c);
  }

  /** The first two steps of `clean_stock_name` leave a name with a "(상장)" marker as it is. */
  lemma ListingMarkerKept(a: string, c: string)
    requires a != [] && NoSpaceAtEnds(a) && NoSpaceAtEnds(c)
    requires '(' !in a && '(' !in c
    ensures Strip(RemoveFormerNames(a + "(상장)" + c)) == a + "(상장)" + c
  {
    var m := "(상장)" + c;
    assert NoSpaceAtEnds(m) by {
      assert m[0] == '(';
      assert m[|m| - 1] == if c == [] then ')' else c[|c| - 1];
    }
    calc {
      Strip(RemoveFormerNames(a + "(상장)" + c));
      { RemoveFormerNamesOfListingMarker(a, c); }
      Strip(a + "(상장)" + c);
      { assert a + "(상장)" + c == a + m; }
      Strip(a + m);
      { StrippedConcat(a, m); }
      a + m;
      { assert a + "(상장)" + c == a + m; }
      a + "(상장)" + c;
    }
  }

  /**
   * Stripping a name around its "(상장)" marker cuts only leading blanks of
   * the part before it and trailing blanks of the part after it.
   */
  lemma StripAroundListingMarker(a: string, c: string) returns (lo: nat, k: nat)
    ensures lo <= |a| && k <= |c|
    ensures forall i :: 0 <= i < lo ==> IsSpace(a[i])
    ensures forall i :: k <= i < |c| ==> IsSpace(c[i])
    ensures Strip(a + "(상장)" + c) == a[lo..] + "(상장)" + c[..k]
  {
    var x := a + "(상장)" + c;
    var l, h := StripIsSlice(x);
    assert x[|a|] == '(' && x[|a| + 3] == ')';
    assert l <= |a|;
    assert h >= |a| + 4;
    lo, k := l, h - |a| - 4;
    assert forall i :: 0 <= i < lo ==> a[i] == x[i];
    assert forall i :: k <= i < |c| ==> c[i] == x[|a| + 4 + i];
    assert x[l..h] == a[lo..] + "(상장)" + c[..k];
  }

  /** `replace("(상장)", "")` of a marker between two parts without "(" joins the parts. */
  lemma ListingMarkerReplaced(a: string, c: string)
    requires '(' !in a && '(' !in c
    ensures ReplaceAll(a + "(상장)" + c, "(상장)", "") == a + c
  {
    ReplaceAllSkip(a, "(상장)", c, "");
    NotContainsWithoutFirstChar(c, "(상장)");
    assert a + "" == a;
  }

  /** Blanks cut from the front of `a` and the back of `c` make no difference to `strip(a + c)`. */
  lemma StripOfTrimmedParts(a: string, c: string, lo: nat, k: nat)
    requires lo <= |a| && k <= |c|
    requires forall i :: 0 <= i < lo ==> IsSpace(a[i])
    requires forall i :: k <= i < |c| ==> IsSpace(c[i])
    ensures Strip(a[lo..] + c[..k]) == Strip(a + c)
  {
    StripDropTrailing(a[lo..], c, k);
    StripDropLeading(a, lo, c);
  }

  /** The "(상장)" marker is deleted and the name around it joined and stripped. */
  lemma ListingMarkerDropped(a: string, c: string)
    requires '(' !in a && '(' !in c
    ensures CleanStockName(a + "(상장)" + c) == Strip(a + c)
  {
    var x := a + "(상장)" + c;
    RemoveFormerNamesOfListingMarker(a, c);
    var lo, k := StripAroundListingMarker(a, c);
    assert '(' !in a[lo..] && '(' !in c[..k];
    calc {
      CleanStockName(x);
      Strip(ReplaceAll(Strip(x), "(상장)", ""));
      Strip(ReplaceAll(a[lo..] + "(상장)" + c[..k], "(상장)", ""));
      { ListingMarkerReplaced(a[lo..], c[..k]); }
      Strip(a[lo..] + c[..k]);
      { StripOfTrimmedParts(a, c, lo, k); }
      Strip(a + c);
    }
  }

  /** A name of two stripped parts around the marker is those parts joined. */
  lemma ListingMarkerDroppedJoined(a: string, c: string)
    requires a != [] && NoSpaceAtEnds(a) && NoSpaceAtEnds(c)
    requires '(' !in a && '(' !in c
    ensures CleanStockName(a + "(상장)" + c) == a + c
  {
    ListingMarkerDropped(a, c);
    StrippedConcat(a, c);
  }

  /** A name followed by a blank and the marker cleans to the name. */
  lemma CleanStockNameOfBlankMarker(t: string, a: string)
    requires t == a + " " + "(상장)" && a != [] && NoSpaceAtEnds(a) && '(' !in a
    ensures CleanStockName(t) == a
  {
    var a1 := a + [' '];
    assert '(' !in a1;
    assert t == a1 + "(상장)" + [];
    ListingMarkerDropped(a1, []);
    assert a1 + [] == a1;
    StripTrailingSpace(a, ' ');
  }

  /** The example of `clean_stock_name` with a blank before the marker: "샘플 (상장)" is "샘플". */
  lemma CleanStockNameExampleBlank()
    ensures CleanStockName("샘플 (상장)") == "샘플"
  {
    CleanStockNameOfBlankMarker("샘플 (상장)", "샘플");
  }

  /** A name with one former-name annotation and no other "(" cleans to the name without it. */
  lemma CleanStockNameOfAnnotated(t: string, a: string, b: string, c: string)
    requires t == a + "(구." + b + ")" + c
    requires '(' !in a && ')' !in b && '\n' !in b && '(' !in c && NoSpaceAtEnds(a + c)
    ensures CleanStockName(t) == a + c
  {
    FormerNameDropped(a, b, c);
    assert '(' !in a + c by {
      assert forall x :: x in a + c ==> x in a || x in c;
    }
    CleanStockNameWithoutParens(a + c);
    StripOfStripped(a + c);
  }

  /** A name with a former-name annotation followed by the listing marker cleans to the bare name. */
  lemma CleanStockNameOfAnnotatedListed(t: string, a: string, b: string)
    requires t == a + "(구." + b + ")" + "(상장)"
    requires a != [] && NoSpaceAtEnds(a) && '(' !in a && ')' !in b && '\n' !in b
    ensures CleanStockName(t) == a
  {
    FormerNameDropped(a, b, "(상장)");
    assert a + "(상장)" == a + "(상장)" + "";
    ListingMarkerDroppedJoined(a, "");
    assert a + "" == a;
  }

  /** The examples of `clean_stock_name`: an annotation inside the name. */
  lemma CleanStockNameExampleInside()
    ensures CleanStockName("회사(구.ABC)명") == "회사명"
  {
    CleanStockNameOfAnnotated("회사(구.ABC)명", "회사", "ABC", "명");
  }

  /** The examples of `clean_stock_name`: an annotation followed by the listing marker. */
  lemma CleanStockNameExampleMarker()
    ensures CleanStockName("테스트(구.옛이름)(상장)") == "테스트"
  {
    CleanStockNameOfAnnotatedListed("테스트(구.옛이름)(상장)", "테스트", "옛이름");
  }

  // ---------------------------------------------------------------------
  // is_spac_stock

  /** `is_spac_stock`: the literal "스팩" occurs somewhere in the name. */
  function IsSpacStock(name: string): (r: bool)
    ensures r <==> exists i :: OccursAt(name, "스팩", i)
  {
    ContainsIff(name, "스팩");
    Contains(name, "스팩")
  }

  // ---------------------------------------------------------------------
  // format_competition_rate

  /** The text `format_competition_rate` hands to `float()`. */
  function RatePart(rateStr: string): string {
    ReplaceAll(Strip(Before(rateStr, ":")), ",", "")
  }

  /**
   * `format_competition_rate`: "<round(left operand)>:1", or the input
   * unchanged when the left operand is not a number.
   */
  function FormatCompetitionRate(rateStr: string): (r: string)
    ensures ParseFloat(RatePart(rateStr)).None? ==> r == rateStr
    ensures ParseFloat(RatePart(rateStr)).Some? ==>
      exists n :: r == IntToString(n) + ":1" &&
        n as real - 0.5 <= Value(ParseFloat(RatePart(rateStr)).value) <= n as real + 0.5 &&
        ((Value(ParseFloat(RatePart(rateStr)).value) == n as real - 0.5 ||
          Value(ParseFloat(RatePart(rateStr)).value) == n as real + 0.5) ==> n % 2 == 0)
  {
    match ParseFloat(RatePart(rateStr))
    case None => rateStr
    case Some(d) => IntToString(RoundHalfEven(d)) + ":1"
  }

  /** The left operand of "<n>:1" is `str(n)` itself. */
  lemma RatePartOfIntRate(n: int)
    ensures RatePart(IntToString(n) + ":1") == IntToString(n)
  {
    var t := IntToString(n);
    assert ':' !in t && ',' !in t by {
      assert forall i :: 0 <= i < |t| ==> t[i] != ':' && t[i] != ',';
    }
    assert Before(t + ":1", ":") == t by {
      BeforePrefix(t, ":1", ':');
      assert Before(":1", [':']) == [];
      assert t + [] == t;
    }
    assert Strip(t) == t by {
      IntToStringHasNoSpace(n);
      StripWithoutSpace(t);
    }
    ContainsChar(t, ',');
  }

  /** A rate already in the form "<n>:1" is a fixed point. */
  lemma FormatCompetitionRateFixedPoint(n: int)
    ensures FormatCompetitionRate(IntToString(n) + ":1") == IntToString(n) + ":1"
  {
    RatePartOfIntRate(n);
    IntToStringParses(n);
    var d := Decimal(n < 0, NatToString(if n < 0 then -n else n), "");
    assert RoundHalfEven(d) == n;
  }

  /**
   * A left operand halfway between two integers goes to the even one: the
   * rate "1234.5" is rounded to 1234 and "1235.5" to 1236.
   */
  lemma RoundTieToEven(m: nat)
    ensures RoundHalfEven(Decimal(false, NatToString(m), "5")) == if m % 2 == 0 then m else m + 1
  {
    assert FracValue("5") == 0.5 by {
      assert FracValue("5"[1..]) == FracValue("") == 0.0;
    }
  }

  /** The left operand of "<t>:1" is `t` when `t` holds no ":", "," or whitespace. */
  lemma RatePartOfPlain(t: string)
    requires ':' !in t && ',' !in t
    requires forall i :: 0 <= i < |t| ==> !IsSpace(t[i])
    ensures RatePart(t + ":1") == t
  {
    assert Before(t + ":1", ":") == t by {
      BeforePrefix(t, ":1", ':');
      assert Before(":1", [':']) == [];
      assert t + [] == t;
    }
    StripWithoutSpace(t);
    ContainsChar(t, ',');
  }

  /** "<m>.5" is a plain decimal literal. */
  lemma TieLiteral(m: nat, t: string)
    requires t == NatToString(m) + "." + "5"
    ensures forall i :: 0 <= i < |t| ==> IsDigit(t[i]) || t[i] == '.'
  {
    var d := NatToString(m);
    forall i | 0 <= i < |t|
      ensures IsDigit(t[i]) || t[i] == '.'
    {
      if i < |d| {
        assert t[i] == d[i];
      } else {
        assert t[i] == ".5"[i - |d|];
      }
    }
  }

  /** `format_competition_rate` of a rate whose left operand parses as `d` is "<round(d)>:1". */
  lemma FormatCompetitionRateOfParsed(rateStr: string, d: Decimal)
    requires ParseFloat(RatePart(rateStr)) == Some(d)
    ensures FormatCompetitionRate(rateStr) == IntToString(RoundHalfEven(d)) + ":1"
  {
  }

  /** The rate "<m>.5:1" becomes "<m>:1" for even `m` and "<m + 1>:1" for odd `m`. */
  lemma FormatCompetitionRateOfTie(m: nat)
    ensures FormatCompetitionRate(NatToString(m) + "." + "5" + ":1") == NatToString(if m % 2 == 0 then m else m + 1) + ":1"
  {
    var t := NatToString(m) + "." + "5";
    TieLiteral(m, t);
    assert ':' !in t && ',' !in t && forall i :: 0 <= i < |t| ==> !IsSpace(t[i]);
    ParseDecimalPoint(NatToString(m), "5");
    RatePartOfPlain(t);
    ParseFloatWithoutSpace(t);
    FormatCompetitionRateOfParsed(t + ":1", Decimal(false, NatToString(m), "5"));
    RoundTieToEven(m);
  }

  /** `format_competition_rate` is idempotent. */
  lemma FormatCompetitionRateIdempotent(rateStr: string)
    ensures FormatCompetitionRate(FormatCompetitionRate(rateStr)) == FormatCompetitionRate(rateStr)
  {
    match ParseFloat(RatePart(rateStr))
    case None =>
    case Some(d) => FormatCompetitionRateFixedPoint(RoundHalfEven(d));
  }

  // ---------------------------------------------------------------------
  // extract_share_count

  /**
   * `extract_share_count`: the text before the first "주", commas removed
   * and trimmed; `default` when that is empty.
   */
  function ExtractShareCount(rawValue: string, default: string): (r: string)
    ensures r == default || (r != "" && NoSpaceAtEnds(r) && ',' !in r && '주' !in r)
    ensures (forall i :: 0 <= i < |rawValue| ==> IsSpace(rawValue[i]) || rawValue[i] == ',') ==> r == default
  {
    var before := Before(rawValue, "주");
    BeforeCharExcludes(rawValue, '주');
    var noCommas := ReplaceAll(before, ",", "");
    RemoveCharExact(before, ',');
    var result := Strip(noCommas);
    StripChars(noCommas);
    if result == "" then default
    else
      assert exists i :: 0 <= i < |rawValue| && !IsSpace(rawValue[i]) && rawValue[i] != ',' by {
        var c := result[0];
        assert c in noCommas && c in before && c != ',';
        var j :| 0 <= j < |before| && before[j] == c;
        assert rawValue[j] == c;
      }
      result
  }

  /** Everything from the first "주" on is ignored. */
  lemma ShareCountAtUnit(a: string, rest: string, default: string)
    requires '주' !in a
    ensures ExtractShareCount(a + "주" + rest, default) == ExtractShareCount(a, default)
  {
    assert Before(a + "주" + rest, "주") == Before(a, "주") by {
      assert a + "주" + rest == a + ("주" + rest);
      BeforePrefix(a, "주" + rest, '주');
      assert Before("주" + rest, "주") == [];
      assert a + [] == a;
      NotContainsWithoutFirstChar(a, "주");
      BeforeAbsent(a, "주");
    }
  }

  /** A thousands comma before the unit makes no difference. */
  lemma ShareCountCommaIgnored(x: string, y: string, default: string)
    requires '주' !in x
    ensures ExtractShareCount(x + "," + y, default) == ExtractShareCount(x + y, default)
  {
    var b := Before(y, "주");
    assert Before(x + "," + y, "주") == x + "," + b by {
      assert '주' !in x + "," by {
        assert forall c :: c in x + "," ==> c in x || c == ',';
      }
      BeforePrefix(x + ",", y, '주');
    }
    assert Before(x + y, "주") == x + b by {
      BeforePrefix(x, y, '주');
    }
    assert ReplaceAll(x + "," + b, ",", "") == ReplaceAll(x + b, ",", "") by {
      RemoveCharAppend(x + ",", b, ',');
      RemoveCharAppend(x, ",", ',');
      RemoveCharAppend(x, b, ',');
      assert ReplaceAll(",", ",", "") == [];
      assert ReplaceAll(x, ",", "") + [] == ReplaceAll(x, ",", "");
    }
  }

  /** Without the unit and commas, the count is the trimmed text, unless that is empty. */
  lemma ShareCountWithoutMarks(t: string, default: string)
    requires '주' !in t && ',' !in t && Strip(t) != ""
    ensures ExtractShareCount(t, default) == Strip(t)
  {
    NotContainsWithoutFirstChar(t, "주");
    BeforeAbsent(t, "주");
    NotContainsWithoutFirstChar(t, ",");
  }

  /** `extract_share_count(str(n) + "주" + ...)` is `str(n)`. */
  lemma ShareCountOfNat(n: nat, rest: string, default: string)
    ensures ExtractShareCount(NatToString(n) + "주" + rest, default) == NatToString(n)
  {
    var t := NatToString(n);
    assert forall i :: 0 <= i < |t| ==> IsDigit(t[i]);
    assert '주' !in t && ',' !in t;
    ShareCountAtUnit(t, rest, default);
    StripWithoutSpace(t);
    ShareCountWithoutMarks(t, default);
  }

  /** Digits, maybe followed by one blank, hold neither the unit nor a comma and trim to the digits. */
  lemma DigitsWithBlank(p: string, r: string)
    requires AllDigits(r) && |r| >= 1 && (p == r || p == r + " ")
    ensures '주' !in p && ',' !in p && Strip(p) == r
  {
    assert forall i :: 0 <= i < |p| ==> IsDigit(p[i]) || p[i] == ' ' by {
      assert forall i :: 0 <= i < |p| ==> p[i] == if i < |r| then r[i] else ' ';
    }
    StripWithoutSpace(r);
    if p != r {
      StripTrailingSpace(r, ' ');
    }
  }

  /** `extract_share_count` of "<x>,<y>주<rest>", where `x + y` is digits and maybe a blank, is those digits. */
  lemma ShareCountOfGroupedAt(t: string, x: string, y: string, rest: string, r: string, default: string)
    requires t == x + "," + y + "주" + rest
    requires AllDigits(r) && |r| >= 1 && (x + y == r || x + y == r + " ")
    ensures ExtractShareCount(t, default) == r
  {
    DigitsWithBlank(x + y, r);
    assert '주' !in x by {
      assert forall i :: 0 <= i < |x| ==> x[i] == (x + y)[i];
    }
    assert '주' !in x + "," + y by {
      assert forall c :: c in x + "," + y ==> c in x + y || c == ',';
    }
    calc {
      ExtractShareCount(t, default);
      { ShareCountAtUnit(x + "," + y, rest, default); }
      ExtractShareCount(x + "," + y, default);
      { ShareCountCommaIgnored(x, y, default); }
      ExtractShareCount(x + y, default);
      { ShareCountWithoutMarks(x + y, default); }
      r;
    }
  }

  /** The examples of `extract_share_count`: "10,000주" gives "10000". */
  lemma ShareCountExampleUnit()
    ensures ExtractShareCount("10,000주", "0") == "10000"
  {
    ShareCountOfGroupedAt("10,000주", "10", "000", "", "10000", "0");
  }

  /** The examples of `extract_share_count`: "5,000 주" gives "5000". */
  lemma ShareCountExampleBlank()
    ensures ExtractShareCount("5,000 주", "0") == "5000"
  {
    ShareCountOfGroupedAt("5,000 주", "5", "000 ", "", "5000", "0");
  }

  /** The examples of `extract_share_count`: "주" alone gives the default. */
  lemma ShareCountExampleNoDigits()
    ensures ExtractShareCount("주", "0") == "0"
  {
    ShareCountAtUnit("", "", "0");
    assert "" + "주" + "" == "주";
  }

  // ---------------------------------------------------------------------
  // clean_tradable_values

  /** The count column maps "-", "" and the ideographic space to "N/A". */
  function CountOrNA(count: string): string {
    if count == "-" || count == "" || count == "\U{3000}" then "N/A" else count
  }

  /** The percent column maps "-", "" and "S" to "N/A". */
  function PercentOrNA(percent: string): string {
    if percent == "-" || percent == "" || percent == "S" then "N/A" else percent
  }

  /**
   * `clean_tradable_values`: the sentinel-mapped pair, swapped exactly when
   * the count ends in "%" and the percent does not.
   */
  function CleanTradableValues(count: string, percent: string): (r: (string, string))
    ensures var c, p := CountOrNA(count), PercentOrNA(percent);
      (r == (c, p) || r == (p, c)) &&
      (EndsWith(c, "%") && !EndsWith(p, "%") ==> r == (p, c)) &&
      (!EndsWith(c, "%") || EndsWith(p, "%") ==> r == (c, p))
    ensures EndsWith(r.0, "%") ==> EndsWith(r.1, "%")
  {
    var c := CountOrNA(count);
    var p := PercentOrNA(percent);
    if EndsWith(c, "%") && !EndsWith(p, "%") then (p, c) else (c, p)
  }
}
