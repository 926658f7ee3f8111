/** The text helpers of `src/parse.js`: character classes, whitespace stripping, `insertInStr` and number runs. */
module Chars {

  /** `sy._isAlpha` on one character: `/^[a-z]+$/i`, an ASCII letter. */
  predicate IsAlpha(c: char)
  {
    'a' <= c <= 'z' || 'A' <= c <= 'Z'
  }

  predicate IsDigit(c: char)
  {
    '0' <= c <= '9'
  }

  /** `sy._isDigitOrDecPoint` on one character: no non-digit (`\D`) in it, or it is `.`. */
  predicate IsDigitOrDecPoint(c: char)
  {
    IsDigit(c) || c == '.'
  }

  /** A character of JavaScript's `\s` class. */
  predicate IsWhitespace(c: char)
  {
    c == ' ' || c == '\t' || c == '\n' || c == '\r' || c as int == 0x0B || c as int == 0x0C
    || c as int == 0xA0 || c as int == 0x1680 || 0x2000 <= c as int <= 0x200A
    || c as int == 0x2028 || c as int == 0x2029 || c as int == 0x202F || c as int == 0x205F
    || c as int == 0x3000 || c as int == 0xFEFF
  }

  /** `exprStr.replace(/\s+/g, '')`: every whitespace character removed, the rest kept in order. */
  function StripWhitespace(s: string): (r: string)
    ensures |r| <= |s|
    ensures forall i | 0 <= i < |r| :: !IsWhitespace(r[i])
    ensures multiset(r) <= multiset(s)
  {
    if s == [] then []
    else
      assert s == [s[0]] + s[1..];
      if IsWhitespace(s[0]) then StripWhitespace(s[1..])
      else [s[0]] + StripWhitespace(s[1..])
  }

  /** Stripping keeps every non-whitespace character as often as it occurs. */
  lemma {:induction false} StripWhitespaceKeepsOthers(s: string)
    ensures forall c | !IsWhitespace(c) :: multiset(StripWhitespace(s))[c] == multiset(s)[c]
  {
    if s != [] {
      StripWhitespaceKeepsOthers(s[1..]);
      assert s == [s[0]] + s[1..];
      var kept := if IsWhitespace(s[0]) then [] else [s[0]];
      assert StripWhitespace(s) == kept + StripWhitespace(s[1..]);
      assert multiset(StripWhitespace(s)) == multiset(kept) + multiset(StripWhitespace(s[1..]));
      forall c | !IsWhitespace(c)
        ensures multiset(StripWhitespace(s))[c] == multiset(s)[c]
      {
        assert multiset(kept)[c] == multiset([s[0]])[c];
      }
    }
  }

  /** A text without whitespace is left alone. */
  lemma {:induction false} StripWhitespaceIdle(s: string)
    requires forall i | 0 <= i < |s| :: !IsWhitespace(s[i])
    ensures StripWhitespace(s) == s
  {
    if s != [] {
      StripWhitespaceIdle(s[1..]);
    }
  }

  /**
   * `sy.insertInStr(str, index, substr)`: `str.slice(0, index) + substr +
   * str.slice(index)`, where `slice` clamps an index past the end.
   */
  function InsertInStr(s: string, index: nat, t: string): (r: string)
    ensures |r| == |s| + |t|
    ensures index <= |s| ==> r[..index] == s[..index] && r[index..index + |t|] == t && r[index + |t|..] == s[index..]
    ensures index > |s| ==> r == s + t
  {
    var k := if index <= |s| then index else |s|;
    s[..k] + t + s[k..]
  }

  /** The end of the run of digits and `.` that starts at `i`: the inner `while` of the number branch. */
  function RunEnd(s: string, i: nat): (j: nat)
    requires i <= |s|
    ensures i <= j <= |s|
    ensures forall k | i <= k < j :: IsDigitOrDecPoint(s[k])
    ensures j == |s| || !IsDigitOrDecPoint(s[j])
    decreases |s| - i
  {
    if i < |s| && IsDigitOrDecPoint(s[i]) then RunEnd(s, i + 1) else i
  }

  /** The end of a maximal run is determined by the run's two defining properties. */
  lemma RunEndUnique(s: string, i: nat, j: nat)
    requires i <= j <= |s|
    requires forall k | i <= k < j :: IsDigitOrDecPoint(s[k])
    requires j == |s| || !IsDigitOrDecPoint(s[j])
    ensures RunEnd(s, i) == j
  {
  }

  predicate AllDigits(s: string)
  {
    forall i | 0 <= i < |s| :: IsDigit(s[i])
  }

  /**
   * A run of digits and `.` that `Number()` reads as a number, following the
   * decimal-literal grammar of ECMAScript's `StringToNumber`: digits, or
   * digits, a point and digits, with at least one digit in all.
   */
  predicate IsNumeral(run: string)
  {
    (run != [] && AllDigits(run))
    || exists k | 0 <= k < |run| :: run[k] == '.' && AllDigits(run[..k]) && AllDigits(run[k + 1..]) && |run| >= 2
  }

  function DotCount(s: string): nat
  {
    if s == [] then 0 else (if s[0] == '.' then 1 else 0) + DotCount(s[1..])
  }

  predicate HasDigit(s: string)
  {
    exists i | 0 <= i < |s| :: IsDigit(s[i])
  }

  /**
   * `isNaN(numString)` on a run of digits and points fails exactly when the
   * run has no digit or more than one point.
   */
  lemma NumeralIff(run: string)
    requires forall i | 0 <= i < |run| :: IsDigitOrDecPoint(run[i])
    ensures IsNumeral(run) <==> HasDigit(run) && DotCount(run) <= 1
  {
    if DotCount(run) == 0 {
      NoDotsAllDigits(run);
    } else if DotCount(run) == 1 {
      var k := FirstDot(run);
      DotSplit(run, k);
      NoDotsAllDigits(run[..k]);
      NoDotsAllDigits(run[k + 1..]);
      if HasDigit(run) {
        var i :| 0 <= i < |run| && IsDigit(run[i]);
        assert i != k;
        assert |run| >= 2;
      }
      if IsNumeral(run) && !(run != [] && AllDigits(run)) {
        var k' :| 0 <= k' < |run| && run[k'] == '.' && AllDigits(run[..k']) && AllDigits(run[k' + 1..]) && |run| >= 2;
        assert run[if k' > 0 then 0 else 1] == (if k' > 0 then run[..k'][0] else run[k' + 1..][0]);
      }
    } else {
      if IsNumeral(run) {
        if run != [] && AllDigits(run) {
          AllDigitsNoDots(run);
        } else {
          var k :| 0 <= k < |run| && run[k] == '.' && AllDigits(run[..k]) && AllDigits(run[k + 1..]) && |run| >= 2;
          DotSplit(run, k);
          AllDigitsNoDots(run[..k]);
          AllDigitsNoDots(run[k + 1..]);
        }
      }
    }
  }

  lemma {:induction false} DotCountAppend(a: string, b: string)
    ensures DotCount(a + b) == DotCount(a) + DotCount(b)
  {
    if a == [] {
      assert a + b == b;
    } else {
      assert (a + b)[0] == a[0] && (a + b)[1..] == a[1..] + b;
      DotCountAppend(a[1..], b);
    }
  }

  lemma DotSplit(s: string, k: nat)
    requires k < |s| && s[k] == '.'
    ensures DotCount(s) == DotCount(s[..k]) + 1 + DotCount(s[k + 1..])
  {
    assert s == s[..k] + ([s[k]] + s[k + 1..]);
    DotCountAppend(s[..k], [s[k]] + s[k + 1..]);
    DotCountAppend([s[k]], s[k + 1..]);
  }

  lemma {:induction false} AllDigitsNoDots(s: string)
    requires AllDigits(s)
    ensures DotCount(s) == 0
  {
    if s != [] {
      AllDigitsNoDots(s[1..]);
    }
  }

  lemma {:induction false} NoDotsAllDigits(s: string)
    requires forall i | 0 <= i < |s| :: IsDigitOrDecPoint(s[i])
    requires DotCount(s) == 0
    ensures AllDigits(s)
  {
    if s != [] {
      NoDotsAllDigits(s[1..]);
    }
  }

  /** The position of the first `.` in a string that has one. */
  function FirstDot(s: string): (k: nat)
    requires DotCount(s) > 0
    ensures k < |s| && s[k] == '.' && DotCount(s[..k]) == 0
  {
    if s[0] == '.' then 0
    else
      var k := FirstDot(s[1..]) + 1;
      assert s[..k] == [s[0]] + s[1..][..k - 1];
      DotCountAppend([s[0]], s[1..][..k - 1]);
      k
  }

  /** The value of a string of decimal digits. */
  function DigitsValue(s: string): nat
    requires AllDigits(s)
  {
    if s == [] then 0 else DigitsValue(s[..|s| - 1]) * 10 + (s[|s| - 1] as int - '0' as int)
  }

  function Pow10(n: nat): (p: nat)
    ensures p >= 1
  {
    if n == 0 then 1 else 10 * Pow10(n - 1)
  }

  /**
   * `Number(numString)` on a numeral, as an exact decimal: the digits before
   * the point plus the digits after it scaled down. A missing part is 0, so
   * `.48` is 0.48 and `5.` is 5.
   */
  function NumberValue(run: string): real
    requires IsNumeral(run)
  {
    if AllDigits(run) then DigitsValue(run) as real
    else
      NumeralPoint(run);
      var k := FirstDot(run);
      DigitsValue(run[..k]) as real + DigitsValue(run[k + 1..]) as real / Pow10(|run| - k - 1) as real
  }

  /** A numeral that is not all digits has its single point where the grammar puts it. */
  lemma NumeralPoint(run: string)
    requires IsNumeral(run) && !AllDigits(run)
    ensures DotCount(run) > 0
    ensures AllDigits(run[..FirstDot(run)]) && AllDigits(run[FirstDot(run) + 1..])
  {
    var k :| 0 <= k < |run| && run[k] == '.' && AllDigits(run[..k]) && AllDigits(run[k + 1..]) && |run| >= 2;
    DotSplit(run, k);
    AllDigitsNoDots(run[..k]);
    FirstDotUnique(run, k);
  }

  /** The first point is the one with no point before it. */
  lemma FirstDotUnique(s: string, k: nat)
    requires k < |s| && s[k] == '.' && DotCount(s[..k]) == 0 && DotCount(s) > 0
    ensures FirstDot(s) == k
  {
    var f := FirstDot(s);
    if f < k {
      DotSplit(s[..k], f);
      assert false;
    } else if f > k {
      DotSplit(s[..f], k);
      assert false;
    }
  }
}
