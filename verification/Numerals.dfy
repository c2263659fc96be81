/**
 Python's str(n), and int(s) on ASCII text.

 The reference is decimal notation by position: each digit counts its value times the power of ten of
 its place.  `StrIsDecimal` and `DecimalIsDigits` say that str writes the one decimal without leading
 zeros, `IntIffSpells` which texts int accepts and what they are worth.
 */
module Numerals {

  import opened Prelude

  // ---------------------------------------------------------------- the reference

  predicate IsDecimalDigit(c: char) { c in "0123456789" }

  function ValueOf(c: char): nat
  {
    match c
    case '1' => 1
    case '2' => 2
    case '3' => 3
    case '4' => 4
    case '5' => 5
    case '6' => 6
    case '7' => 7
    case '8' => 8
    case '9' => 9
    case _ => 0
  }

  function Power(n: nat): nat
  {
    if n == 0 then 1 else 10 * Power(n - 1)
  }

  /** The digits from position `i` on, each times the power of ten of its place. */
  function PlaceValue(s: string, i: nat): nat
    requires i <= |s|
    decreases |s| - i
  {
    if i == |s| then 0 else ValueOf(s[i]) * Power(|s| - 1 - i) + PlaceValue(s, i + 1)
  }

  /** `s` is `n` in decimal, without leading zeros. */
  ghost predicate IsDecimal(s: string, n: nat)
  {
    && s != "" && (forall k :: 0 <= k < |s| ==> IsDecimalDigit(s[k]))
    && (s[0] == '0' ==> |s| == 1)
    && PlaceValue(s, 0) == n
  }

  /** A digit, or an underscore between two digits. */
  ghost predicate FitsGroup(s: string, k: nat)
    requires k < |s|
  {
    || IsDecimalDigit(s[k])
    || (s[k] == '_' && 0 < k < |s| - 1 && IsDecimalDigit(s[k - 1]) && IsDecimalDigit(s[k + 1]))
  }

  ghost predicate IsGrouped(s: string)
  {
    s != "" && forall k :: 0 <= k < |s| ==> FitsGroup(s, k)
  }

  function Ungrouped(s: string): string
  {
    if s == "" then ""
    else if s[|s| - 1] == '_' then Ungrouped(s[..|s| - 1])
    else Ungrouped(s[..|s| - 1]) + [s[|s| - 1]]
  }

  /** An optional sign and a numeral, worth `v`. */
  ghost predicate IsSigned(s: string, v: int)
  {
    && s != ""
    && if s[0] == '-' then IsGrouped(s[1..]) && -v == PlaceValue(Ungrouped(s[1..]), 0)
       else if s[0] == '+' then IsGrouped(s[1..]) && v == PlaceValue(Ungrouped(s[1..]), 0)
       else IsGrouped(s) && v == PlaceValue(Ungrouped(s), 0)
  }

  /** Tab to carriage return, the four separators, and space. */
  ghost predicate AllBlank(s: string)
  {
    forall k :: 0 <= k < |s| ==> s[k] as int in {9, 10, 11, 12, 13, 28, 29, 30, 31, 32}
  }

  ghost predicate SpellsAt(s: string, i: nat, j: nat, v: int)
  {
    i <= j <= |s| && AllBlank(s[..i]) && IsSigned(s[i..j], v) && AllBlank(s[j..])
  }

  /** A signed numeral worth `v` with blanks around it. */
  ghost predicate Spells(s: string, v: int)
  {
    exists i: nat, j: nat :: SpellsAt(s, i, j, v)
  }

  // ---------------------------------------------------------------- str

  predicate IsDigit(c: char) { '0' <= c <= '9' }

  function DigitChar(d: nat): (c: char)
    requires d < 10
    ensures IsDigit(c)
  {
    (d + '0' as int) as char
  }

  predicate AllDigits(s: string)
  {
    forall k :: 0 <= k < |s| ==> IsDigit(s[k])
  }

  function Digits(n: nat): (s: string)
    ensures s != "" && AllDigits(s)
  {
    if n < 10 then [DigitChar(n)] else Digits(n / 10) + [DigitChar(n % 10)]
  }

  /** str(n) */
  function Str(n: int): string
  {
    if n < 0 then "-" + Digits(-n) else Digits(n)
  }

  lemma DigitIff(c: char)
    ensures IsDigit(c) <==> IsDecimalDigit(c)
    ensures IsDigit(c) ==> ValueOf(c) == c as int - '0' as int
  {
    var ds := "0123456789";
    assert ds[0] == '0' && ds[1] == '1' && ds[2] == '2' && ds[3] == '3' && ds[4] == '4';
    assert ds[5] == '5' && ds[6] == '6' && ds[7] == '7' && ds[8] == '8' && ds[9] == '9';
    if IsDigit(c) { assert ds[c as int - '0' as int] == c; }
  }

  lemma {:induction false} PlaceValueSnoc(s: string, c: char, i: nat)
    requires i <= |s|
    ensures PlaceValue(s + [c], i) == 10 * PlaceValue(s, i) + ValueOf(c)
    decreases |s| - i
  {
    hide ValueOf;
    var t := s + [c];
    if i == |s| {
      assert PlaceValue(t, i + 1) == 0 && Power(0) == 1;
    } else {
      PlaceValueSnoc(s, c, i + 1);
      assert t[i] == s[i] && Power(|s| - i) == 10 * Power(|s| - 1 - i);
    }
  }

  lemma PlaceValueOne(c: char)
    ensures PlaceValue([c], 0) == ValueOf(c)
  {
    hide ValueOf;
    assert PlaceValue([c], 1) == 0 && Power(0) == 1;
  }

  lemma DigitCharDigit(d: nat)
    requires d < 10
    ensures IsDecimalDigit(DigitChar(d)) && ValueOf(DigitChar(d)) == d && (DigitChar(d) == '0' <==> d == 0)
  {
    DigitIff(DigitChar(d));
  }

  lemma {:induction false} DigitsAreDecimal(n: nat)
    ensures IsDecimal(Digits(n), n)
    ensures n > 0 ==> Digits(n)[0] != '0'
    decreases n
  {
    hide ValueOf, PlaceValue, DigitChar, IsDecimalDigit;
    if n < 10 {
      DigitCharDigit(n);
      PlaceValueOne(DigitChar(n));
    } else {
      DigitsAreDecimal(n / 10);
      DigitCharDigit(n % 10);
      PlaceValueSnoc(Digits(n / 10), DigitChar(n % 10), 0);
    }
  }

  /** What str writes: digits without leading zeros whose value by position is the number, after a
      minus sign if it is negative. */
  lemma StrIsDecimal(n: int)
    ensures if n >= 0 then IsDecimal(Str(n), n)
            else Str(n) != "" && Str(n)[0] == '-' && IsDecimal(Str(n)[1..], -n)
  {
    hide IsDecimal, Digits;
    if n >= 0 {
      DigitsAreDecimal(n);
    } else {
      DigitsAreDecimal(-n);
      assert Str(n)[1..] == Digits(-n);
    }
  }

  lemma PositiveDigit(c: char)
    requires IsDecimalDigit(c)
    ensures ValueOf(c) < 10 && DigitChar(ValueOf(c)) == c && (c != '0' ==> ValueOf(c) > 0)
  {
    DigitIff(c);
  }

  lemma {:induction false} NoLeadingZero(s: string)
    requires s != "" && (forall k :: 0 <= k < |s| ==> IsDecimalDigit(s[k])) && s[0] != '0'
    ensures PlaceValue(s, 0) > 0
    decreases |s|
  {
    hide PlaceValue, ValueOf, IsDecimalDigit;
    var s', c := s[..|s| - 1], s[|s| - 1];
    assert s == s' + [c];
    if s' == "" {
      PositiveDigit(c);
      PlaceValueOne(c);
    } else {
      NoLeadingZero(s');
      PlaceValueSnoc(s', c, 0);
    }
  }

  /** There is only one such text. */
  lemma {:induction false} DecimalIsDigits(s: string, n: nat)
    requires IsDecimal(s, n)
    ensures s == Digits(n)
    decreases |s|
  {
    hide PlaceValue, ValueOf, IsDecimalDigit, DigitChar;
    var s', c := s[..|s| - 1], s[|s| - 1];
    assert s == s' + [c];
    PositiveDigit(c);
    if s' == "" {
      PlaceValueOne(c);
    } else {
      PlaceValueSnoc(s', c, 0);
      NoLeadingZero(s');
      DecimalIsDigits(s', PlaceValue(s', 0));
      assert n / 10 == PlaceValue(s', 0) && n % 10 == ValueOf(c);
    }
  }

  // ---------------------------------------------------------------- int

  /** ASCII white space as int() strips it. */
  predicate IsBlank(c: char)
  {
    9 <= c as int <= 13 || 28 <= c as int <= 32
  }

  function Strip(s: string): string
    decreases |s|
  {
    if s != "" && IsBlank(s[0]) then Strip(s[1..])
    else if s != "" && IsBlank(s[|s| - 1]) then Strip(s[..|s| - 1])
    else s
  }

  /** Digits, with single underscores allowed between them. */
  predicate IsNumeral(s: string)
  {
    && s != "" && IsDigit(s[0]) && IsDigit(s[|s| - 1])
    && (forall k :: 0 <= k < |s| ==> IsDigit(s[k]) || s[k] == '_')
    && (forall k :: 0 < k < |s| && s[k] == '_' ==> s[k - 1] != '_')
  }

  function Numeral(s: string): nat
    requires forall k :: 0 <= k < |s| ==> IsDigit(s[k]) || s[k] == '_'
  {
    if s == "" then 0
    else if s[|s| - 1] == '_' then Numeral(s[..|s| - 1])
    else
      assert IsDigit(s[|s| - 1]);
      10 * Numeral(s[..|s| - 1]) + (s[|s| - 1] as int - '0' as int)
  }

  /** int(s) for ASCII text; None where int raises ValueError. */
  function ParseInt(s: string): Option<int>
  {
    var t := Strip(s);
    var negative := t != "" && t[0] == '-';
    var body := if t != "" && (t[0] == '-' || t[0] == '+') then t[1..] else t;
    if !IsNumeral(body) then None
    else
      var v: int := Numeral(body);
      Some(if negative then -v else v)
  }

  lemma UnderscoreIsNoDigit()
    ensures !IsDecimalDigit('_')
  {
    DigitIff('_');
  }

  lemma NumeralIffGrouped(s: string)
    ensures IsNumeral(s) <==> IsGrouped(s)
  {
    hide IsDecimalDigit;
    forall k | 0 <= k < |s| ensures IsDigit(s[k]) <==> IsDecimalDigit(s[k]) { DigitIff(s[k]); }
    if IsGrouped(s) {
      UnderscoreIsNoDigit();
      assert FitsGroup(s, 0) && FitsGroup(s, |s| - 1);
      forall k | 0 <= k < |s| ensures IsDigit(s[k]) || (s[k] == '_' && k > 0 && s[k - 1] != '_') {
        assert FitsGroup(s, k);
      }
    }
    if IsNumeral(s) {
      forall k | 0 <= k < |s| ensures FitsGroup(s, k) {
        assert k + 1 < |s| ==> IsDigit(s[k + 1]) || s[k + 1] == '_';
      }
    }
  }

  lemma NoDigits()
    ensures PlaceValue("", 0) == 0
  {
  }

  lemma {:induction false} NumeralIsPlaceValue(s: string)
    requires forall k :: 0 <= k < |s| ==> IsDigit(s[k]) || s[k] == '_'
    ensures Numeral(s) == PlaceValue(Ungrouped(s), 0)
    decreases |s|
  {
    hide PlaceValue, ValueOf;
    if s == "" {
      NoDigits();
    } else {
      var s', c := s[..|s| - 1], s[|s| - 1];
      NumeralIsPlaceValue(s');
      if c != '_' {
        DigitIff(c);
        PlaceValueSnoc(Ungrouped(s'), c, 0);
      }
    }
  }

  ghost predicate BlankAround(s: string, i: nat, j: nat)
  {
    && (forall k :: 0 <= k < i && k < |s| ==> IsBlank(s[k]))
    && (forall k :: j <= k < |s| ==> IsBlank(s[k]))
  }

  lemma BlankAroundIff(s: string, i: nat, j: nat)
    requires i <= j <= |s|
    ensures BlankAround(s, i, j) <==> AllBlank(s[..i]) && AllBlank(s[j..])
  {
    if AllBlank(s[..i]) && AllBlank(s[j..]) {
      forall k | 0 <= k < i ensures IsBlank(s[k]) { assert s[..i][k] == s[k]; }
      forall k | j <= k < |s| ensures IsBlank(s[k]) { assert s[j..][k - j] == s[k]; }
    }
  }

  lemma StripNothing(s: string)
    requires s != "" && !IsBlank(s[0]) && !IsBlank(s[|s| - 1])
    ensures Strip(s) == s
  {
  }

  /** Strip cuts blanks off both ends. */
  lemma {:induction false} StripCuts(s: string) returns (i: nat, j: nat)
    ensures i <= j <= |s| && Strip(s) == s[i..j] && BlankAround(s, i, j)
    decreases |s|
  {
    if s != "" && IsBlank(s[0]) {
      i, j := StripCuts(s[1..]);
      assert s[1..][i..j] == s[i + 1..j + 1];
      assert forall k :: 0 < k < |s| ==> s[k] == s[1..][k - 1];
      i, j := i + 1, j + 1;
    } else if s != "" && IsBlank(s[|s| - 1]) {
      i, j := StripCuts(s[..|s| - 1]);
      assert s[..|s| - 1][i..j] == s[i..j];
    } else {
      i, j := 0, |s|;
      assert s[0..|s|] == s;
    }
  }

  lemma StripFirst(s: string)
    requires s != "" && IsBlank(s[0])
    ensures Strip(s) == Strip(s[1..])
  {
  }

  lemma StripLast(s: string)
    requires s != "" && !IsBlank(s[0]) && IsBlank(s[|s| - 1])
    ensures Strip(s) == Strip(s[..|s| - 1])
  {
  }

  /** It stops at the first character from either end that is no blank. */
  lemma {:induction false} StripFinds(s: string, i: nat, j: nat)
    requires i < j <= |s| && BlankAround(s, i, j) && !IsBlank(s[i]) && !IsBlank(s[j - 1])
    ensures Strip(s) == s[i..j]
    decreases |s|
  {
    hide Strip, IsBlank;
    if i > 0 {
      StripFirst(s);
      StripFinds(s[1..], i - 1, j - 1);
      assert s[1..][i - 1..j - 1] == s[i..j];
    } else if j < |s| {
      StripLast(s);
      StripFinds(s[..|s| - 1], i, j);
      assert s[..|s| - 1][i..j] == s[i..j];
    } else {
      StripNothing(s);
      assert s[0..|s|] == s;
    }
  }

  /** A signed numeral neither starts nor ends with a blank. */
  lemma SignedIsBare(s: string, v: int)
    requires IsSigned(s, v)
    ensures s != "" && !IsBlank(s[0]) && !IsBlank(s[|s| - 1])
  {
    hide IsDecimalDigit, PlaceValue;
    DigitIff(s[0]);
    DigitIff(s[|s| - 1]);
    UnderscoreIsNoDigit();
    var body := if s[0] == '-' || s[0] == '+' then s[1..] else s;
    assert FitsGroup(body, 0) && FitsGroup(body, |body| - 1);
    assert body[|body| - 1] == s[|s| - 1];
  }

  lemma NumeralChars(s: string)
    requires IsNumeral(s)
    ensures forall k :: 0 <= k < |s| ==> IsDigit(s[k]) || s[k] == '_'
  {
  }

  lemma NothingGrouped()
    ensures !IsGrouped("")
  {
  }

  /** int(s) after stripping. */
  lemma SignedIff(s: string, v: int)
    requires Strip(s) == s
    ensures ParseInt(s) == Some(v) <==> IsSigned(s, v)
  {
    hide Strip, Numeral, PlaceValue, Ungrouped, IsNumeral, IsGrouped, IsDecimalDigit;
    var body := if s != "" && (s[0] == '-' || s[0] == '+') then s[1..] else s;
    NumeralIffGrouped(body);
    if IsNumeral(body) {
      NumeralChars(body);
      NumeralIsPlaceValue(body);
    }
    NothingGrouped();
  }

  lemma {:induction false} StripTwice(s: string)
    ensures Strip(Strip(s)) == Strip(s)
    decreases |s|
  {
    if s != "" && IsBlank(s[0]) {
      StripTwice(s[1..]);
    } else if s != "" && IsBlank(s[|s| - 1]) {
      StripTwice(s[..|s| - 1]);
    }
  }

  /** int accepts exactly the signed numerals with blanks around them, and returns what they spell. */
  lemma IntIffSpells(s: string, v: int)
    ensures ParseInt(s) == Some(v) <==> Spells(s, v)
  {
    hide IsSigned, IsNumeral, Numeral, Strip, AllBlank;
    StripTwice(s);
    SignedIff(Strip(s), v);
    if ParseInt(s) == Some(v) {
      var i, j := StripCuts(s);
      BlankAroundIff(s, i, j);
      assert SpellsAt(s, i, j, v);
    }
    if Spells(s, v) {
      var i: nat, j: nat :| SpellsAt(s, i, j, v);
      SignedIsBare(s[i..j], v);
      BlankAroundIff(s, i, j);
      StripFinds(s, i, j);
    }
  }

  // ---------------------------------------------------------------- int after str

  lemma {:induction false} NumeralOfDigits(n: nat)
    ensures Numeral(Digits(n)) == n
    decreases n
  {
    if n < 10 {
      assert Digits(n)[..0] == "";
    } else {
      var s := Digits(n / 10);
      NumeralOfDigits(n / 10);
      assert Digits(n)[..|s|] == s;
    }
  }

  lemma DigitsAreNumeral(s: string)
    requires s != "" && AllDigits(s)
    ensures IsNumeral(s) && !IsBlank(s[0]) && !IsBlank(s[|s| - 1])
    ensures s[0] != '-' && s[0] != '+' && s[0] != '#' && ',' !in s
  {
  }

  lemma IntOfStr(n: int)
    ensures ParseInt(Str(n)) == Some(n)
    ensures Str(n) != "#" && ',' !in Str(n)
  {
    hide Strip, Digits, Numeral;
    var s := Str(n);
    var d := Digits(if n < 0 then -n else n);
    NumeralOfDigits(if n < 0 then -n else n);
    DigitsAreNumeral(d);
    assert s == if n < 0 then "-" + d else d;
    if n < 0 { assert s[1..] == d; }
    StripNothing(s);
  }
}
