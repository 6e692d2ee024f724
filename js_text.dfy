/**
  The few pieces of JavaScript's string and number semantics that the page
  relies on: the whitespace class shared by `\s` and `String.prototype.trim`,
  decimal digits, `a || b` on strings, `parseInt(s, 10)` and the decimal
  rendering of an integer inside a template literal.

  Numbers are unbounded integers here; JavaScript's doubles lose precision
  above 2^53, which the page never reaches.
*/
module JsText {
  import opened Wrappers

  /** ECMAScript WhiteSpace and LineTerminator code points: the class `\s` matches and `trim` strips. */
  predicate IsJsSpace(c: char) {
    c == '\t' || c == '\n' || c == '\U{B}' || c == '\U{C}' || c == '\r' || c == ' '
    || c == '\U{A0}' || c == '\U{1680}' || ('\U{2000}' <= c <= '\U{200A}')
    || c == '\U{2028}' || c == '\U{2029}' || c == '\U{202F}' || c == '\U{205F}'
    || c == '\U{3000}' || c == '\U{FEFF}'
  }

  /** The class `\d`: ASCII decimal digits only. */
  predicate IsDigit(c: char) {
    '0' <= c <= '9'
  }

  predicate AllDigits(s: string) {
    forall i | 0 <= i < |s| :: IsDigit(s[i])
  }

  predicate AllSpaces(s: string) {
    forall i | 0 <= i < |s| :: IsJsSpace(s[i])
  }

  /** End of the run of digits that starts at `i`: the greedy reach of `\d*` from `i`. */
  function DigitRunEnd(s: string, i: nat): (j: nat)
    requires i <= |s|
    ensures i <= j <= |s|
    ensures AllDigits(s[i..j])
    ensures j < |s| ==> !IsDigit(s[j])
    decreases |s| - i
  {
    if i < |s| && IsDigit(s[i]) then DigitRunEnd(s, i + 1) else i
  }

  /** End of the run of whitespace that starts at `i`: the greedy reach of `\s*` from `i`. */
  function SpaceRunEnd(s: string, i: nat): (j: nat)
    requires i <= |s|
    ensures i <= j <= |s|
    ensures AllSpaces(s[i..j])
    ensures j < |s| ==> !IsJsSpace(s[j])
    decreases |s| - i
  {
    if i < |s| && IsJsSpace(s[i]) then SpaceRunEnd(s, i + 1) else i
  }

  /** Start of the run of whitespace that ends at `j`, not going below `lo`. */
  function SpaceRunStart(s: string, lo: nat, j: nat): (i: nat)
    requires lo <= j <= |s|
    ensures lo <= i <= j
    ensures AllSpaces(s[i..j])
    ensures lo < i ==> !IsJsSpace(s[i - 1])
    decreases j
  {
    if lo < j && IsJsSpace(s[j - 1]) then
      var i := SpaceRunStart(s, lo, j - 1);
      assert s[i..j] == s[i..j - 1] + [s[j - 1]];
      i
    else j
  }

  /** A digit run ends exactly where the digits stop. */
  lemma DigitRunEndIs(s: string, i: nat, j: nat)
    requires i <= j <= |s|
    requires AllDigits(s[i..j])
    requires j < |s| ==> !IsDigit(s[j])
    ensures DigitRunEnd(s, i) == j
    decreases j - i
  {
    if i < j {
      assert IsDigit(s[i..j][0]);
      assert s[i + 1..j] == s[i..j][1..];
      DigitRunEndIs(s, i + 1, j);
    }
  }

  /** A whitespace run ends exactly where the whitespace stops. */
  lemma SpaceRunEndIs(s: string, i: nat, j: nat)
    requires i <= j <= |s|
    requires AllSpaces(s[i..j])
    requires j < |s| ==> !IsJsSpace(s[j])
    ensures SpaceRunEnd(s, i) == j
    decreases j - i
  {
    if i < j {
      assert IsJsSpace(s[i..j][0]);
      assert s[i + 1..j] == s[i..j][1..];
      SpaceRunEndIs(s, i + 1, j);
    }
  }

  /** `String.prototype.trim`: drop whitespace at both ends. */
  function Trim(s: string): (r: string)
    ensures |r| <= |s|
    ensures r != [] ==> !IsJsSpace(r[0]) && !IsJsSpace(r[|r| - 1])
    ensures r == [] <==> AllSpaces(s)
    ensures exists i, j | 0 <= i <= j <= |s| :: r == s[i..j] && AllSpaces(s[..i]) && AllSpaces(s[j..])
  {
    var i := SpaceRunEnd(s, 0);
    var j := SpaceRunStart(s, i, |s|);
    assert i == |s| ==> s[0..i] == s;
    assert forall k | j <= k < |s| :: IsJsSpace(s[k]) by {
      forall k | j <= k < |s| ensures IsJsSpace(s[k]) {
        assert s[k] == s[j..|s|][k - j];
      }
    }
    assert i < |s| ==> !AllSpaces(s);
    assert AllSpaces(s[..i]) && AllSpaces(s[j..]);
    s[i..j]
  }

  /** A string with no whitespace at either end is its own trim. */
  lemma TrimUnpadded(s: string)
    requires s != [] && !IsJsSpace(s[0]) && !IsJsSpace(s[|s| - 1])
    ensures Trim(s) == s
  {
    SpaceRunEndIs(s, 0, 0);
    assert s[0..|s|] == s;
  }

  /** Trimming twice is trimming once. */
  lemma TrimIdempotent(s: string)
    ensures Trim(Trim(s)) == Trim(s)
  {
    if Trim(s) != [] {
      TrimUnpadded(Trim(s));
    }
  }

  /** `a || b` on two strings: the empty string is falsy. */
  function Or(a: string, b: string): string {
    if a != "" then a else b
  }

  function DigitChar(d: nat): (c: char)
    requires d < 10
    ensures IsDigit(c)
  {
    ['0', '1', '2', '3', '4', '5', '6', '7', '8', '9'][d]
  }

  function DigitValue(c: char): (d: nat)
    requires IsDigit(c)
    ensures d < 10
  {
    (c as int - '0' as int) as nat
  }

  /** Value of a string of decimal digits, most significant first. */
  function DigitsValue(s: string): nat
    requires AllDigits(s)
  {
    if s == [] then 0 else DigitsValue(s[..|s| - 1]) * 10 + DigitValue(s[|s| - 1])
  }

  /** Decimal rendering of a non-negative integer, as in `${n}`: digits only, no leading zero. */
  function NatToString(n: nat): (s: string)
    ensures s != [] && AllDigits(s)
    ensures |s| > 1 ==> s[0] != '0'
  {
    if n < 10 then [DigitChar(n)] else NatToString(n / 10) + [DigitChar(n % 10)]
  }

  /** Decimal rendering of any integer, as in `${n}`. */
  function IntToString(n: int): string {
    if n < 0 then "-" + NatToString(-n) else NatToString(n)
  }

  lemma {:induction false} NatToStringValue(n: nat)
    ensures DigitsValue(NatToString(n)) == n
  {
    var s := NatToString(n);
    if n < 10 {
      assert s[..|s| - 1] == [];
    } else {
      assert s[..|s| - 1] == NatToString(n / 10);
      NatToStringValue(n / 10);
      assert DigitValue(DigitChar(n % 10)) == n % 10;
    }
  }

  /**
    `parseInt(s, 10)`: skip leading whitespace, take an optional sign, then the
    longest run of decimal digits; `None` stands for `NaN` (no digits at all).
  */
  function ParseInt(s: string): (r: Option<int>)
    ensures r.None? <==> (var i := SpaceRunEnd(s, 0);
                          var j := if i < |s| && (s[i] == '-' || s[i] == '+') then i + 1 else i;
                          j == |s| || !IsDigit(s[j]))
  {
    var i := SpaceRunEnd(s, 0);
    var negative := i < |s| && s[i] == '-';
    var j := if i < |s| && (s[i] == '-' || s[i] == '+') then i + 1 else i;
    var k := DigitRunEnd(s, j);
    if k == j then None
    else
      var v: int := DigitsValue(s[j..k]);
      Some(if negative then -v else v)
  }

  /** `parseInt(x, 10) || 0`: `NaN` (and zero) become 0. */
  function ParseIntOrZero(s: string): (r: int)
    ensures ParseInt(s).None? ==> r == 0
    ensures ParseInt(s).Some? ==> r == ParseInt(s).value
    ensures r != 0 ==> ParseInt(s) == Some(r)
  {
    match ParseInt(s)
    case None => 0
    case Some(v) => v
  }

  /** `parseInt` reads a plain digit string as its decimal value. */
  lemma ParseIntOfDigits(s: string)
    requires s != [] && AllDigits(s)
    ensures ParseInt(s) == Some(DigitsValue(s))
  {
    assert !IsJsSpace(s[0]);
    SpaceRunEndIs(s, 0, 0);
    assert s[0..|s|] == s;
    DigitRunEndIs(s, 0, |s|);
  }

  /** `parseInt(String(n), 10) || 0 === n` for every non-negative integer `n`. */
  lemma ParseIntOfNatToString(n: nat)
    ensures ParseInt(NatToString(n)) == Some(n)
    ensures ParseIntOrZero(NatToString(n)) == n
  {
    ParseIntOfDigits(NatToString(n));
    NatToStringValue(n);
  }
}
