/** Text handling shared by both pages: the optional value used for pandas'
    NaN/None, Python's str.strip and str.replace, decimal digit strings and the
    numeric parse that pandas' float conversions perform. */
module Text {

  /** A cell that may be missing: None stands for NaN / None in pandas and Python. */
  datatype Option<+T> = None | Some(value: T) {
    predicate IsFailure() { None? }
    function PropagateFailure<U>(): Option<U>
      requires None?
    {
      None
    }
    function Extract(): T
      requires Some?
    {
      value
    }
  }

  /** An outcome that may be an error, for conversions that raise in pandas. */
  datatype Result<+T, +E> = Success(value: T) | Failure(error: E) {
    predicate IsFailure() { Failure? }
    function PropagateFailure<U>(): Result<U, E>
      requires Failure?
    {
      Failure(error)
    }
    function Extract(): T
      requires Success?
    {
      value
    }
  }

  /** `lo <= v <= hi` on a cell: a comparison against NaN is false, so a
      null cell is never in range. */
  predicate InRange(v: Option<real>, lo: real, hi: real) {
    v.Some? && lo <= v.value <= hi
  }

  // ---------------------------------------------------------------------------
  // Characters

  predicate IsDigit(c: char) { '0' <= c <= '9' }

  function DigitValue(c: char): (d: nat)
    requires IsDigit(c)
    ensures d < 10
  {
    c as int - '0' as int
  }

  function DigitChar(d: nat): (c: char)
    requires d < 10
    ensures IsDigit(c) && DigitValue(c) == d
  {
    ('0' as int + d) as char
  }

  /** The ASCII characters Python's str.isspace accepts: tab, line feed,
      vertical tab, form feed, carriage return, the four information
      separators 0x1C-0x1F and the space. */
  predicate IsSpace(c: char) {
    (9 <= c as int <= 13) || (28 <= c as int <= 32)
  }

  predicate AllDigits(s: string) {
    forall i :: 0 <= i < |s| ==> IsDigit(s[i])
  }

  // ---------------------------------------------------------------------------
  // Stripping

  /** Removes the leading characters that satisfy `drop`. */
  function TrimLeft(s: string, drop: char -> bool): string {
    if s != [] && drop(s[0]) then TrimLeft(s[1..], drop) else s
  }

  /** Removes the trailing characters that satisfy `drop`. */
  function TrimRight(s: string, drop: char -> bool): string {
    if s != [] && drop(s[|s| - 1]) then TrimRight(s[..|s| - 1], drop) else s
  }

  /** Python's `s.strip(chars)`: both ends trimmed. */
  function StripBy(s: string, drop: char -> bool): string {
    TrimRight(TrimLeft(s, drop), drop)
  }

  /** Python's `s.strip()` on ASCII whitespace. */
  function Strip(s: string): string {
    StripBy(s, IsSpace)
  }

  lemma {:induction false} TrimLeftShape(s: string, drop: char -> bool)
    ensures var r := TrimLeft(s, drop);
      |r| <= |s| && r == s[|s| - |r|..] && (r == [] || !drop(r[0]))
      && forall i :: 0 <= i < |s| - |r| ==> drop(s[i])
  {
    TrimLeftSuffix(s, drop);
    TrimLeftDropped(s, drop);
  }

  lemma {:induction false} TrimLeftSuffix(s: string, drop: char -> bool)
    ensures var r := TrimLeft(s, drop);
      |r| <= |s| && r == s[|s| - |r|..] && (r == [] || !drop(r[0]))
  {
    if s != [] && drop(s[0]) {
      TrimLeftSuffix(s[1..], drop);
    }
  }

  lemma {:induction false} TrimLeftDropped(s: string, drop: char -> bool)
    ensures forall i :: 0 <= i < |s| - |TrimLeft(s, drop)| ==> drop(s[i])
  {
    if s != [] && drop(s[0]) {
      var t := s[1..];
      TrimLeftDropped(t, drop);
      forall i | 1 <= i < |s| - |TrimLeft(s, drop)| ensures drop(s[i]) {
        assert s[i] == t[i - 1];
      }
    }
  }

  lemma {:induction false} TrimRightShape(s: string, drop: char -> bool)
    ensures var r := TrimRight(s, drop);
      |r| <= |s| && r == s[..|r|] && (r == [] || !drop(r[|r| - 1]))
      && forall i :: |r| <= i < |s| ==> drop(s[i])
  {
    if s != [] && drop(s[|s| - 1]) {
      TrimRightShape(s[..|s| - 1], drop);
    }
  }

  /** What a strip keeps: an infix of `s` that begins and ends with a kept
      character, where everything cut off on either side is dropped. */
  lemma StripShape(s: string, drop: char -> bool)
    ensures var r := StripBy(s, drop);
      exists lo, hi :: 0 <= lo <= hi <= |s| && r == s[lo..hi]
        && (forall i :: 0 <= i < lo ==> drop(s[i]))
        && (forall i :: hi <= i < |s| ==> drop(s[i]))
        && (r == [] || (!drop(r[0]) && !drop(r[|r| - 1])))
  {
    var l := TrimLeft(s, drop);
    var r := TrimRight(l, drop);
    TrimLeftShape(s, drop);
    TrimRightShape(l, drop);
    var lo := |s| - |l|;
    var hi := lo + |r|;
    assert r == s[lo..hi];
    forall i | hi <= i < |s| ensures drop(s[i]) {
      assert l[i - lo] == s[i];
    }
    if r != [] {
      assert r[0] == l[0];
    }
  }

  /** Stripping is idempotent: a header stripped once is unchanged by the
      second strip the de-duplication loop applies. */
  lemma StripIdempotent(s: string, drop: char -> bool)
    ensures StripBy(StripBy(s, drop), drop) == StripBy(s, drop)
  {
    var r := StripBy(s, drop);
    StripShape(s, drop);
    assert TrimLeft(r, drop) == r;
    assert TrimRight(r, drop) == r;
  }

  // ---------------------------------------------------------------------------
  // Replacing

  /** True iff `pat` occurs in `s` starting at position `i`. */
  predicate OccursAt(s: string, pat: string, i: nat) {
    i + |pat| <= |s| && s[i..i + |pat|] == pat
  }

  /** Python's `s.replace(pat, rep)`: every non-overlapping occurrence of
      `pat`, scanning left to right, replaced by `rep`. */
  function ReplaceAll(s: string, pat: string, rep: string): string
    requires pat != []
    decreases |s|
  {
    if |s| < |pat| then s
    else if s[..|pat|] == pat then rep + ReplaceAll(s[|pat|..], pat, rep)
    else [s[0]] + ReplaceAll(s[1..], pat, rep)
  }

  /** A string in which the pattern never occurs is left unchanged. */
  lemma {:induction false} ReplaceAbsent(s: string, pat: string, rep: string)
    requires pat != []
    requires forall i :: 0 <= i < |s| ==> !OccursAt(s, pat, i)
    ensures ReplaceAll(s, pat, rep) == s
    decreases |s|
  {
    if |s| >= |pat| {
      assert !OccursAt(s, pat, 0);
      assert s[..|pat|] != pat;
      forall i | 0 <= i < |s[1..]| ensures !OccursAt(s[1..], pat, i) {
        assert !OccursAt(s, pat, i + 1);
      }
      ReplaceAbsent(s[1..], pat, rep);
    }
  }

  /** No character of `s` is a decimal digit. */
  predicate NoDigits(s: string) {
    forall i :: 0 <= i < |s| ==> !IsDigit(s[i])
  }

  /** Replacing text by digit-free text never brings a digit in. */
  lemma {:induction false} ReplaceKeepsNoDigits(s: string, pat: string, rep: string)
    requires pat != [] && NoDigits(s) && NoDigits(rep)
    ensures NoDigits(ReplaceAll(s, pat, rep))
    decreases |s|
  {
    if |s| >= |pat| {
      if s[..|pat|] == pat {
        ReplaceKeepsNoDigits(s[|pat|..], pat, rep);
        var t := ReplaceAll(s[|pat|..], pat, rep);
        assert forall i :: |rep| <= i < |rep + t| ==> (rep + t)[i] == t[i - |rep|];
      } else {
        ReplaceKeepsNoDigits(s[1..], pat, rep);
        var t := ReplaceAll(s[1..], pat, rep);
        assert forall i :: 1 <= i < |[s[0]] + t| ==> ([s[0]] + t)[i] == t[i - 1];
      }
    }
  }

  /** A one-character replacement leaves no occurrence of that character
      behind, as long as the replacement does not contain it. */
  lemma {:induction false} ReplaceCharRemovesIt(s: string, c: char, rep: string)
    requires c !in rep
    ensures c !in ReplaceAll(s, [c], rep)
    decreases |s|
  {
    if |s| >= 1 {
      ReplaceCharRemovesIt(s[1..], c, rep);
    }
  }

  /** Replacing one character keeps every other character that occurs. */
  lemma {:induction false} ReplaceCharKeepsOthers(s: string, c: char, rep: string, x: char)
    requires x in s && x != c
    ensures x in ReplaceAll(s, [c], rep)
    decreases |s|
  {
    assert s[..1] == [s[0]];
    if s[0] != x {
      assert x in s[1..];
      ReplaceCharKeepsOthers(s[1..], c, rep, x);
    }
  }

  /** A character that does not occur is never replaced. */
  lemma {:induction false} ReplaceCharAbsent(s: string, c: char, rep: string)
    requires c !in s
    ensures ReplaceAll(s, [c], rep) == s
    decreases |s|
  {
    if s != [] {
      assert s[..1] == [s[0]];
      ReplaceCharAbsent(s[1..], c, rep);
    }
  }

  /** Replacing a single character works piecewise: the replacement of a
      concatenation is the concatenation of the replacements. */
  lemma {:induction false} ReplaceCharConcat(a: string, b: string, c: char, rep: string)
    ensures ReplaceAll(a + b, [c], rep) == ReplaceAll(a, [c], rep) + ReplaceAll(b, [c], rep)
    decreases |a|
  {
    if a == [] {
      assert a + b == b;
    } else {
      var s := a + b;
      assert s[..1] == a[..1];
      assert s[1..] == a[1..] + b;
      ReplaceCharConcat(a[1..], b, c, rep);
    }
  }

  /** A prefix character that does not start the pattern passes through. */
  lemma ReplaceAfterPrefix(c: char, s: string, pat: string, rep: string)
    requires pat != [] && pat[0] != c
    ensures ReplaceAll([c] + s, pat, rep) == [c] + ReplaceAll(s, pat, rep)
  {
    var t := [c] + s;
    assert t[1..] == s;
    if |t| >= |pat| {
      assert t[..|pat|][0] == c;
    }
  }

  /** Removing a suffix that follows a run of digits: a pattern that starts
      with a non-digit cannot occur inside the digits, so exactly the final
      occurrence is replaced. */
  lemma {:induction false} ReplaceTrailingUnit(digits: string, pat: string, rep: string)
    requires pat != [] && !IsDigit(pat[0]) && AllDigits(digits)
    ensures ReplaceAll(digits + pat, pat, rep) == digits + rep
    decreases |digits|
  {
    var s := digits + pat;
    if digits == [] {
      assert s == pat;
      assert s[..|pat|] == pat && s[|pat|..] == [];
    } else {
      var t := digits[1..];
      assert s[..|pat|] != pat by {
        assert s[..|pat|][0] == digits[0];
      }
      assert s[1..] == t + pat;
      ReplaceTrailingUnit(t, pat, rep);
      calc {
        ReplaceAll(s, pat, rep);
        [s[0]] + ReplaceAll(t + pat, pat, rep);
        [digits[0]] + (t + rep);
        digits + rep;
      }
    }
  }

  // ---------------------------------------------------------------------------
  // Digit strings

  /** The value of a string of decimal digits, most significant first. */
  function DigitsValue(s: string): nat
    requires AllDigits(s)
  {
    if s == [] then 0 else DigitsValue(s[..|s| - 1]) * 10 + DigitValue(s[|s| - 1])
  }

  /** Python's `str(n)` for a natural number. */
  function NatToString(n: nat): (r: string)
    ensures |r| >= 1 && AllDigits(r)
  {
    if n < 10 then [DigitChar(n)] else NatToString(n / 10) + [DigitChar(n % 10)]
  }

  /** Writing a number in decimal and reading it back gives the number. */
  lemma {:induction false} NatToStringRoundTrip(n: nat)
    ensures DigitsValue(NatToString(n)) == n
  {
    if n >= 10 {
      var r := NatToString(n);
      assert r[..|r| - 1] == NatToString(n / 10);
      NatToStringRoundTrip(n / 10);
    }
  }

  /** Distinct numbers have distinct decimal spellings. */
  lemma NatToStringInjective(a: nat, b: nat)
    requires NatToString(a) == NatToString(b)
    ensures a == b
  {
    NatToStringRoundTrip(a);
    NatToStringRoundTrip(b);
  }

  /** The length of the leading run of digits of `s`. */
  function DigitPrefix(s: string): (k: nat)
    ensures k <= |s| && AllDigits(s[..k])
    ensures k < |s| ==> !IsDigit(s[k])
  {
    if s != [] && IsDigit(s[0]) then
      var k := 1 + DigitPrefix(s[1..]);
      assert s[..k] == [s[0]] + s[1..][..k - 1];
      k
    else 0
  }

  function Pow10(n: nat): (p: nat)
    ensures p >= 1
  {
    if n == 0 then 1 else 10 * Pow10(n - 1)
  }

  /** The value of the digits after a decimal point. */
  function FractionValue(s: string): real
    requires AllDigits(s)
  {
    DigitsValue(s) as real / Pow10(|s|) as real
  }

  /** An unsigned decimal literal: digits, optionally followed by a point and
      more digits, or a point followed by at least one digit. */
  function ParseUnsigned(s: string): (r: Option<real>)
    ensures r.Some? ==> r.value >= 0.0
  {
    var k := DigitPrefix(s);
    var rest := s[k..];
    if rest == [] then
      if k > 0 then Some(DigitsValue(s[..k]) as real) else None
    else if rest[0] == '.' && AllDigits(rest[1..]) && (k > 0 || |rest| > 1) then
      Some(DigitsValue(s[..k]) as real + FractionValue(rest[1..]))
    else None
  }

  /** The numeric text a pandas float conversion accepts (in the subset this
      model covers): an optional sign and an unsigned decimal literal. */
  function ParseDecimal(s: string): Option<real> {
    if s != [] && (s[0] == '-' || s[0] == '+') then
      match ParseUnsigned(s[1..])
      case None => None
      case Some(v) => Some(if s[0] == '-' then -v else v)
    else ParseUnsigned(s)
  }

  /** A number written out in decimal parses back to itself. */
  lemma ParseNatToString(n: nat)
    ensures ParseDecimal(NatToString(n)) == Some(n as real)
  {
    var s := NatToString(n);
    DigitsPrefixAll(s);
    assert s[..|s|] == s;
    NatToStringRoundTrip(n);
  }

  lemma {:induction false} DigitsPrefixAll(s: string)
    requires AllDigits(s)
    ensures DigitPrefix(s) == |s|
  {
    if s != [] {
      DigitsPrefixAll(s[1..]);
    }
  }

  /** A leading minus negates the value of an unsigned literal, and makes any
      text that is not an unsigned literal (including one that already
      carries a sign) unparseable. */
  lemma ParseNegated(u: string)
    ensures ParseDecimal("-" + u) ==
      match ParseUnsigned(u) case None => None case Some(v) => Some(-v)
  {
    assert ("-" + u)[1..] == u;
  }

  /** Whatever text follows a minus sign, the parsed value is never positive. */
  lemma NegatedNeverPositive(u: string)
    ensures ParseDecimal("-" + u).Some? ==> ParseDecimal("-" + u).value <= 0.0
  {
    ParseNegated(u);
  }

  /** Text without a digit is never a number, signed or not. */
  lemma NoDigitsUnparseable(s: string)
    requires NoDigits(s)
    ensures ParseUnsigned(s) == None && ParseDecimal(s) == None
  {
    UnsignedNeedsDigit(s);
    if s != [] {
      UnsignedNeedsDigit(s[1..]);
    }
  }

  lemma UnsignedNeedsDigit(s: string)
    requires NoDigits(s)
    ensures ParseUnsigned(s) == None
  {
    if s != [] {
      assert !IsDigit(s[0]);
      assert s[0..] == s;
      if |s| > 1 {
        assert !IsDigit(s[1..][0]);
      }
    }
  }
}
