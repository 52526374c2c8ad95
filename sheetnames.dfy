/**
 * Decoding a sheet name into a series code and a year
 * (scripts/build_json_from_xlsx.py:99-101): `re.match(r"([A-Za-z]+)(\d{4})", sheet)`,
 * anchored at the start of the name, with ASCII letters and ASCII digits.
 */
module SheetNames {

  import opened Wrappers
  import opened Text

  /** The `series` and `year` the script derives from a sheet name. */
  datatype SeriesCode = SeriesCode(series: string, year: Option<int>)

  predicate AllLetters(s: string)
  {
    forall i :: 0 <= i < |s| ==> IsAsciiLetter(s[i])
  }

  predicate AllDigits(s: string)
  {
    forall i :: 0 <= i < |s| ==> IsAsciiDigit(s[i])
  }

  /** Length of the run of ASCII letters at the front of `s` (what the greedy `[A-Za-z]+` takes). */
  function LeadingLetters(s: string): (n: nat)
    ensures n <= |s|
    ensures forall i :: 0 <= i < n ==> IsAsciiLetter(s[i])
    ensures n < |s| ==> !IsAsciiLetter(s[n])
  {
    if s != [] && IsAsciiLetter(s[0]) then
      var k := LeadingLetters(s[1..]);
      assert forall i :: 1 <= i < k + 1 ==> s[i] == s[1..][i - 1];
      1 + k
    else 0
  }

  /** Python's `int()` of a string of ASCII digits. */
  function DecimalValue(s: string): (v: nat)
    requires AllDigits(s)
  {
    if s == [] then 0
    else DecimalValue(s[..|s| - 1]) * 10 + (s[|s| - 1] as int - '0' as int)
  }

  function DigitChar(d: nat): (c: char)
    requires d < 10
    ensures IsAsciiDigit(c)
  {
    ('0' as int + d) as char
  }

  function Pow10(n: nat): (p: nat)
    ensures p >= 1
  {
    if n == 0 then 1 else 10 * Pow10(n - 1)
  }

  /** The last `n` decimal digits of `y`, zero-padded to exactly `n` characters. */
  function Digits(y: nat, n: nat): (s: string)
    ensures |s| == n && AllDigits(s)
  {
    if n == 0 then [] else Digits(y / 10, n - 1) + [DigitChar(y % 10)]
  }

  /** The four-digit, zero-padded decimal rendering of a year. */
  function FourDigits(y: nat): (s: string)
    requires y < 10000
    ensures |s| == 4 && AllDigits(s)
  {
    Digits(y, 4)
  }

  /** The regular expression matches when the letters end exactly `n` characters in. */
  predicate MatchesAt(name: string, n: int)
  {
    1 <= n && n + 4 <= |name| && AllLetters(name[..n]) && AllDigits(name[n..n + 4])
  }

  /**
   * `code = m.group(1).upper() if m else sheet.upper()` and
   * `year = int(m.group(2)) if m else None`.
   */
  function DecodeSheetName(name: string): (r: SeriesCode)
    ensures r.year.Some? ==> 0 <= r.year.value < 10000 && 1 <= |r.series| <= |name| - 4
    ensures r.year.None? ==> r.series == Upper(name)
  {
    var n := LeadingLetters(name);
    if MatchesAt(name, n) then
      FourDigitsRenderBack(name[n..n + 4]);
      SeriesCode(Upper(name[..n]), Some(DecimalValue(name[n..n + 4])))
    else
      SeriesCode(Upper(name), None)
  }

  /** `n` digits read back as the number they render, when it has no more than `n` digits. */
  lemma {:induction false} DigitsValue(y: nat, n: nat)
    requires y < Pow10(n)
    ensures DecimalValue(Digits(y, n)) == y
  {
    if n > 0 {
      DigitsValue(y / 10, n - 1);
      var s := Digits(y, n);
      assert s[..|s| - 1] == Digits(y / 10, n - 1);
    }
  }

  /** A string of digits is the zero-padded rendering of its own value. */
  lemma {:induction false} DigitsRenderBack(s: string)
    requires AllDigits(s)
    ensures DecimalValue(s) < Pow10(|s|) && Digits(DecimalValue(s), |s|) == s
  {
    if s != [] {
      var init := s[..|s| - 1];
      assert forall i :: 0 <= i < |init| ==> init[i] == s[i];
      DigitsRenderBack(init);
      var d := s[|s| - 1] as int - '0' as int;
      var v := DecimalValue(s);
      assert v == DecimalValue(init) * 10 + d;
      assert v / 10 == DecimalValue(init) && v % 10 == d;
      assert DigitChar(d) == s[|s| - 1];
      assert s == init + [s[|s| - 1]];
    }
  }

  /** Four digits read back as the year they render. */
  lemma FourDigitsValue(y: nat)
    requires y < 10000
    ensures DecimalValue(FourDigits(y)) == y
  {
    assert Pow10(4) == 10000;
    DigitsValue(y, 4);
  }

  /** Four digits are the rendering of the year they spell. */
  lemma FourDigitsRenderBack(s: string)
    requires |s| == 4 && AllDigits(s)
    ensures DecimalValue(s) < 10000 && FourDigits(DecimalValue(s)) == s
  {
    assert Pow10(4) == 10000;
    DigitsRenderBack(s);
  }

  /**
   * The name a workbook author writes, letters then a four-digit year then
   * anything, decodes back to the upper-cased letters and that year.
   */
  lemma DecodeRoundTrip(letters: string, y: nat, rest: string)
    requires letters != [] && AllLetters(letters) && y < 10000
    ensures DecodeSheetName(letters + FourDigits(y) + rest) == SeriesCode(Upper(letters), Some(y))
  {
    var name := letters + FourDigits(y) + rest;
    var n := |letters|;
    assert name[..n] == letters;
    assert name[n..n + 4] == FourDigits(y);
    LeadingLettersOf(name, n);
    FourDigitsValue(y);
  }

  /** When the first `n` characters are letters and the next is not, the letter run is `n` long. */
  lemma {:induction false} LeadingLettersOf(s: string, n: nat)
    requires n <= |s| && AllLetters(s[..n]) && (n < |s| ==> !IsAsciiLetter(s[n]))
    ensures LeadingLetters(s) == n
  {
    if n > 0 {
      assert s[1..][..n - 1] == s[1..n];
      LeadingLettersOf(s[1..], n - 1);
    }
  }

  /**
   * The decoding agrees with the regular expression read as a search for a
   * split: a year is found exactly when SOME split point has letters before
   * it and four digits after it, and then the code and year come from that split.
   */
  lemma DecodeAgreesWithRegex(name: string)
    ensures DecodeSheetName(name).year.Some? <==> exists n :: MatchesAt(name, n)
    ensures forall n :: MatchesAt(name, n) ==>
      DecodeSheetName(name) == SeriesCode(Upper(name[..n]), Some(DecimalValue(name[n..n + 4])))
  {
    forall n | MatchesAt(name, n)
      ensures LeadingLetters(name) == n
    {
      assert !IsAsciiLetter(name[n]) by { assert name[n..n + 4][0] == name[n]; }
      LeadingLettersOf(name, n);
    }
  }

  /** A sheet named after a race and its year. */
  lemma DecodeExampleUtmb()
    ensures DecodeSheetName("UTMB2024") == SeriesCode("UTMB", Some(2024))
  {
    assert FourDigits(2024) == "2024";
    assert Upper("UTMB") == "UTMB";
    DecodeRoundTrip("UTMB", 2024, "");
    assert "UTMB" + "2024" + "" == "UTMB2024";
  }

  /** Lower-case letters are upper-cased and whatever follows the year is ignored. */
  lemma DecodeExampleSuffix()
    ensures DecodeSheetName("ws2025b") == SeriesCode("WS", Some(2025))
  {
    assert FourDigits(2025) == "2025";
    assert Upper("ws") == "WS";
    DecodeRoundTrip("ws", 2025, "b");
    assert "ws" + "2025" + "b" == "ws2025b";
  }
}
