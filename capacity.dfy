/**
  The capacity line of an activity card, `Capacity: <current>/<max>`: how the
  page writes it and how the unregister handler reads it back with the
  regular expression `/(\d+)\s*\/\s*(\d+)/`.
*/
module Capacity {
  import opened Wrappers
  import opened JsText

  const Label := "Capacity: "

  /** The text written by the template literal `Capacity: ${current}/${max}`. */
  function FormatCapacity(current: nat, max: int): (r: string)
    ensures |Label| + 3 <= |r| && r[..|Label|] == Label
  {
    Label + NatToString(current) + "/" + IntToString(max)
  }

  /**
    After the label the text has the current count's digits, a `/` right after
    them, and the maximum: its digits, after a minus sign when it is negative.
  */
  lemma FormatCapacityShape(current: nat, max: int)
    ensures var r, k := FormatCapacity(current, max), |Label| + |NatToString(current)|;
      && k + 1 < |r|
      && r[|Label|..k] == NatToString(current) && r[k] == '/' && r[k + 1..] == IntToString(max)
      && AllDigits(r[|Label|..k]) && IsDigit(r[|Label|])
      && (max >= 0 ==> AllDigits(r[k + 1..]))
      && (max < 0 ==> r[k + 1] == '-' && AllDigits(r[k + 2..]))
  {
    var a, b := NatToString(current), IntToString(max);
    var r := FormatCapacity(current, max);
    var k := |Label| + |a|;
    assert r[|Label|..k] == a && r[k] == '/' && r[k + 1..] == b by {
      assert r == Label + a + "/" + b;
    }
    if max < 0 {
      assert r[k + 2..] == b[1..];
    }
  }

  /**
    One attempt of `/(\d+)\s*\/\s*(\d+)/` anchored at position `i`, giving the two
    captured groups. Greedy `\d+` and `\s*` never need to backtrack here: giving
    back a digit or a blank leaves a digit or a blank where `\s`, `/` or `\d` fails.
  */
  function MatchAt(s: string, i: nat): (r: Option<(string, string)>)
    requires i <= |s|
    ensures r.Some? ==> r.value.0 != [] && AllDigits(r.value.0) && r.value.1 != [] && AllDigits(r.value.1)
  {
    var j := DigitRunEnd(s, i);
    if j == i then None
    else
      var k := SpaceRunEnd(s, j);
      if k == |s| || s[k] != '/' then None
      else
        var l := SpaceRunEnd(s, k + 1);
        var m := DigitRunEnd(s, l);
        if m == l then None else Some((s[i..j], s[l..m]))
  }

  /** The unanchored search `text.match(re)` from position `i`: the first attempt that succeeds. */
  function MatchFrom(s: string, i: nat): (r: Option<(string, string)>)
    requires i <= |s|
    ensures r.Some? ==> r.value.0 != [] && AllDigits(r.value.0) && r.value.1 != [] && AllDigits(r.value.1)
    decreases |s| - i
  {
    if i == |s| then None
    else
      match MatchAt(s, i)
      case Some(g) => Some(g)
      case None => MatchFrom(s, i + 1)
  }

  /** `text.match(/(\d+)\s*\/\s*(\d+)/)`, reduced to its two groups. */
  function MatchCapacity(text: string): (r: Option<(string, string)>)
    ensures r.Some? ==> r.value.0 != [] && AllDigits(r.value.0) && r.value.1 != [] && AllDigits(r.value.1)
  {
    MatchFrom(text, 0)
  }

  /**
    The two numbers `parseInt(match[1], 10)` and `parseInt(match[2], 10)`, when
    the text matches. The groups are plain digit strings, so `parseInt` reads
    each as its decimal value (`ParseIntOfDigits`).
  */
  function CapacityNumbers(text: string): (r: Option<(nat, nat)>)
    ensures r.Some? <==> MatchCapacity(text).Some?
    ensures r.Some? ==> ParseInt(MatchCapacity(text).value.0) == Some(r.value.0 as int)
                        && ParseInt(MatchCapacity(text).value.1) == Some(r.value.1 as int)
  {
    match MatchCapacity(text)
    case None => None
    case Some((g1, g2)) =>
      ParseIntOfDigits(g1);
      ParseIntOfDigits(g2);
      Some((DigitsValue(g1), DigitsValue(g2)))
  }

  /** The text yields no numbers exactly when the pattern matches at no position. */
  lemma CapacityNumbersNone(text: string)
    ensures CapacityNumbers(text).None? <==> forall q | 0 <= q <= |text| :: MatchAt(text, q).None?
  {
    MatchFromLeftmost(text, 0);
  }

  /**
    The unregister handler's rewrite of the capacity text: `max(0, N - 1)/M`
    when the text matches, the text untouched otherwise.
  */
  function DecrementCapacity(text: string): (r: string)
    ensures CapacityNumbers(text).None? ==> r == text
    ensures CapacityNumbers(text).Some? ==> |Label| <= |r| && r[..|Label|] == Label
    ensures CapacityNumbers(text).Some? ==>
              var (current, max) := CapacityNumbers(text).value;
              CapacityNumbers(r) == Some((if current == 0 then 0 else current - 1, max))
    ensures CapacityNumbers(text).Some? ==>
              var (current, max) := CapacityNumbers(text).value;
              r == FormatCapacity(if current == 0 then 0 else current - 1, max)
  {
    match CapacityNumbers(text)
    case None => text
    case Some((current, max)) =>
      var next := if current == 0 then 0 else current - 1;
      CapacityRoundTrip(next, max);
      FormatCapacity(next, max)
  }

  /** What `DecrementCapacity` promises, for a text already known to be its result. */
  lemma DecrementedNumbers(text: string, r: string)
    requires r == DecrementCapacity(text)
    ensures CapacityNumbers(text).None? ==> r == text
    ensures CapacityNumbers(text).Some? ==>
              var (current, max) := CapacityNumbers(text).value;
              CapacityNumbers(r) == Some((if current == 0 then 0 else current - 1, max))
  {
  }

  /**
    The search finds the leftmost match: when it succeeds, some position at
    or after `i` matches with those groups and none before it does; when it
    fails, no position at or after `i` matches.
  */
  lemma {:induction false} MatchFromLeftmost(s: string, i: nat)
    requires i <= |s|
    ensures MatchFrom(s, i).Some? ==>
              exists p | i <= p < |s| :: MatchAt(s, p) == MatchFrom(s, i) && forall q | i <= q < p :: MatchAt(s, q).None?
    ensures MatchFrom(s, i).None? ==> forall q | i <= q <= |s| :: MatchAt(s, q).None?
    decreases |s| - i
  {
    if i == |s| {
      assert MatchAt(s, i).None? by { DigitRunEndIs(s, i, i); }
    } else if MatchAt(s, i).None? {
      MatchFromLeftmost(s, i + 1);
      if MatchFrom(s, i).Some? {
        var p :| i + 1 <= p < |s| && MatchAt(s, p) == MatchFrom(s, i + 1) && forall q | i + 1 <= q < p :: MatchAt(s, q).None?;
        assert forall q | i <= q < p :: MatchAt(s, q).None?;
      }
    }
  }

  /** A failed attempt at `q` and later positions leaves the search where it was. */
  lemma {:induction false} MatchFromSkips(s: string, i: nat, p: nat)
    requires i <= p <= |s|
    requires forall q :: i <= q < p ==> MatchAt(s, q).None?
    ensures MatchFrom(s, i) == MatchFrom(s, p)
    decreases p - i
  {
    if i < p {
      MatchFromSkips(s, i + 1, p);
    }
  }

  /** No attempt can start on a character that is not a digit. */
  lemma NoMatchAtNonDigit(s: string, q: nat)
    requires q < |s| && !IsDigit(s[q])
    ensures MatchAt(s, q).None?
  {
    DigitRunEndIs(s, q, q);
  }

  lemma LabelHasNoDigit()
    ensures forall q | 0 <= q < |Label| :: !IsDigit(Label[q])
  {
  }

  /** The label `Capacity: ` holds no digit, so the search moves past it. */
  lemma SearchSkipsLabel(s: string)
    requires |Label| <= |s| && s[..|Label|] == Label
    ensures MatchFrom(s, 0) == MatchFrom(s, |Label|)
  {
    LabelHasNoDigit();
    forall q | 0 <= q < |Label| ensures MatchAt(s, q).None? {
      assert s[q] == s[..|Label|][q];
      NoMatchAtNonDigit(s, q);
    }
    MatchFromSkips(s, 0, |Label|);
  }

  /**
    One attempt at `i` succeeds when the text from `i` on is `a`, blanks, `/`,
    blanks, `b`, and a rest that does not start with a digit, with `a` and `b`
    non-empty digit runs: the pattern captures `a` and `b`.
  */
  lemma MatchAtFraction(s: string, i: nat, a: string, w1: string, w2: string, b: string, rest: string)
    requires i <= |s| && s[i..] == a + w1 + "/" + w2 + b + rest
    requires a != [] && AllDigits(a) && b != [] && AllDigits(b)
    requires AllSpaces(w1) && AllSpaces(w2)
    requires rest != [] ==> !IsDigit(rest[0])
    ensures MatchAt(s, i) == Some((a, b))
  {
    var j := i + |a|;
    var k := j + |w1|;
    var l := k + 1 + |w2|;
    FractionPieces(s, i, a, w1, w2, b, rest);
    MatchAtPositions(s, i, j, k, l, l + |b|, a, b);
  }

  /** Where the pieces of `a + w1 + "/" + w2 + b + rest` sit in `s`, and what they hold. */
  lemma FractionPieces(s: string, i: nat, a: string, w1: string, w2: string, b: string, rest: string)
    requires i <= |s| && s[i..] == a + w1 + "/" + w2 + b + rest
    requires a != [] && AllDigits(a) && b != [] && AllDigits(b)
    requires AllSpaces(w1) && AllSpaces(w2)
    requires rest != [] ==> !IsDigit(rest[0])
    ensures var j := i + |a|; var k := j + |w1|; var l := k + 1 + |w2|; var m := l + |b|;
      && i < j <= k < l < m <= |s| && s[i..j] == a && s[l..m] == b
      && AllDigits(s[i..j]) && AllSpaces(s[j..k]) && s[k] == '/'
      && AllSpaces(s[k + 1..l]) && AllDigits(s[l..m]) && (m < |s| ==> !IsDigit(s[m]))
  {
    var t := s[i..];
    var j := |a|; var k := j + |w1|; var l := k + 1 + |w2|; var m := l + |b|;
    assert t[..j] == a && t[j..k] == w1 && t[k] == '/' && t[k + 1..l] == w2 && t[l..m] == b && t[m..] == rest;
    assert s[i..i + j] == t[..j];
    assert s[i + j..i + k] == t[j..k];
    assert s[i + k + 1..i + l] == t[k + 1..l];
    assert s[i + l..i + m] == t[l..m];
    assert i + m < |s| ==> s[i + m] == rest[0];
  }

  /** The same attempt, with the pieces given by their positions in `s`. */
  lemma MatchAtPositions(s: string, i: nat, j: nat, k: nat, l: nat, m: nat, a: string, b: string)
    requires i < j <= k < l < m <= |s| && s[i..j] == a && s[l..m] == b
    requires AllDigits(s[i..j]) && AllSpaces(s[j..k]) && s[k] == '/'
    requires AllSpaces(s[k + 1..l]) && AllDigits(s[l..m]) && (m < |s| ==> !IsDigit(s[m]))
    ensures MatchAt(s, i) == Some((a, b))
  {
    assert DigitRunEnd(s, i) == j by {
      assert !IsDigit(s[j]) by {
        if j < k { assert s[j] == s[j..k][0]; }
      }
      DigitRunEndIs(s, i, j);
    }
    assert SpaceRunEnd(s, j) == k by {
      SpaceRunEndIs(s, j, k);
    }
    assert SpaceRunEnd(s, k + 1) == l by {
      assert !IsJsSpace(s[l]) by { assert s[l] == s[l..m][0]; }
      SpaceRunEndIs(s, k + 1, l);
    }
    assert DigitRunEnd(s, l) == m by {
      DigitRunEndIs(s, l, m);
    }
  }

  /** `\d` cannot match at the start of `t`: the digit run before `t` ends there. */
  predicate NoLeadingDigit(t: string) {
    t == [] || !IsDigit(t[0])
  }

  /**
    From `i` on, `s` is `a`, blanks, `/`, blanks, `b`, and a rest that does not
    start with a digit.
  */
  ghost predicate FractionAt(s: string, i: nat, a: string, b: string)
    requires i <= |s|
  {
    exists w1, w2, rest :: s[i..] == a + w1 + "/" + w2 + b + rest
      && AllSpaces(w1) && AllSpaces(w2) && NoLeadingDigit(rest)
  }

  /** Conversely, an attempt succeeds only on that shape, and its groups are the two digit runs. */
  lemma MatchAtParts(s: string, i: nat)
    requires i <= |s| && MatchAt(s, i).Some?
    ensures FractionAt(s, i, MatchAt(s, i).value.0, MatchAt(s, i).value.1)
  {
    var j := DigitRunEnd(s, i);
    var k := SpaceRunEnd(s, j);
    var l := SpaceRunEnd(s, k + 1);
    var m := DigitRunEnd(s, l);
    assert MatchAt(s, i).value == (s[i..j], s[l..m]);
    ShapeAt(s, i, j, k, l, m);
  }

  lemma ShapeAt(s: string, i: nat, j: nat, k: nat, l: nat, m: nat)
    requires i <= j <= k < l <= m <= |s| && s[k] == '/'
    requires AllSpaces(s[j..k]) && AllSpaces(s[k + 1..l]) && (m < |s| ==> !IsDigit(s[m]))
    ensures FractionAt(s, i, s[i..j], s[l..m])
  {
    var rest := s[m..];
    assert rest != [] ==> rest[0] == s[m];
    var w1, w2 := s[j..k], s[k + 1..l];
    SplitAt(s, i, j, k, l, m);
    assert s[i..] == s[i..j] + w1 + "/" + w2 + s[l..m] + rest
      && AllSpaces(w1) && AllSpaces(w2) && NoLeadingDigit(rest);
  }

  /** The text from an attempt's start, cut at its positions, is the concatenation of its pieces. */
  lemma SplitAt(s: string, i: nat, j: nat, k: nat, l: nat, m: nat)
    requires i <= j <= k < l <= m <= |s| && s[k] == '/'
    ensures s[i..] == s[i..j] + s[j..k] + "/" + s[k + 1..l] + s[l..m] + s[m..]
  {
    assert s[i..k] == s[i..j] + s[j..k];
    assert s[i..k + 1] == s[i..k] + "/";
    assert s[i..l] == s[i..k + 1] + s[k + 1..l];
    assert s[i..m] == s[i..l] + s[l..m];
    assert s[i..] == s[i..m] + s[m..];
  }

  /**
    One attempt at `i` captures `a` and `b` exactly when both are non-empty
    digit runs and the text from `i` on has the shape `a`, blanks, `/`,
    blanks, `b`, then something that is not a digit.
  */
  lemma MatchAtIff(s: string, i: nat, a: string, b: string)
    requires i <= |s|
    ensures MatchAt(s, i) == Some((a, b)) <==>
              a != [] && AllDigits(a) && b != [] && AllDigits(b) && FractionAt(s, i, a, b)
  {
    if MatchAt(s, i) == Some((a, b)) {
      MatchAtParts(s, i);
    }
    if a != [] && AllDigits(a) && b != [] && AllDigits(b) && FractionAt(s, i, a, b) {
      var w1, w2, rest :| s[i..] == a + w1 + "/" + w2 + b + rest
        && AllSpaces(w1) && AllSpaces(w2) && NoLeadingDigit(rest);
      MatchAtFraction(s, i, a, w1, w2, b, rest);
    }
  }

  /**
    Round trip: every text `Capacity: N/M` written by the page matches the
    pattern, and its groups read back as exactly `N` and `M`.
  */
  lemma CapacityRoundTrip(current: nat, max: nat)
    ensures MatchCapacity(FormatCapacity(current, max)) == Some((NatToString(current), NatToString(max)))
    ensures CapacityNumbers(FormatCapacity(current, max)) == Some((current, max))
  {
    var s := FormatCapacity(current, max);
    assert s[..|Label|] == Label;
    SearchSkipsLabel(s);
    FractionAfterLabel(current, max);
    assert MatchFrom(s, |Label|) == Some((NatToString(current), NatToString(max)));
    NatToStringValue(current);
    NatToStringValue(max);
  }

  /** Right after the label, the attempt captures the two numbers as written. */
  lemma FractionAfterLabel(current: nat, max: nat)
    ensures MatchAt(FormatCapacity(current, max), |Label|) == Some((NatToString(current), NatToString(max)))
  {
    var a, b := NatToString(current), NatToString(max);
    var s := FormatCapacity(current, max);
    FractionParts(s, Label, a, b);
    var i, j := |Label|, |Label| + |a|;
    assert s[j..j] == [] && s[j + 1..j + 1] == [];
    assert s[j + 1..|s|] == b;
    MatchAtPositions(s, i, j, j, j + 1, |s|, a, b);
  }

  /** Where the parts of `pre + a + "/" + b` sit. */
  lemma FractionParts(s: string, pre: string, a: string, b: string)
    requires s == pre + a + "/" + b
    ensures s[..|pre|] == pre && s[|pre|..|pre| + |a|] == a && s[|pre| + |a|] == '/' && s[|pre| + |a| + 1..] == b
  {
  }
}
