/**
 * Cell values and the two tolerant converters `safe_float` and `safe_int`
 * (scripts/build_json_from_xlsx.py:23-38).
 */
module Cells {

  import opened Wrappers
  import opened Text

  /** A value Python's `float()` can return: finite, an infinity, or NaN. */
  datatype Float = Finite(value: real) | Infinite(positive: bool) | NaN

  /**
   * One cell as pandas delivers it: absent (`pd.isna` holds) or present,
   * in which case `text` is its Python `str()` rendering.
   */
  datatype Cell = Missing | Present(text: string)

  /**
   * The library behaviour the model takes as given.
   * `float(s)` is Python's `float` on a string (`None` when it raises);
   * `numeric(s)` says whether `pd.to_numeric(s, errors="coerce")` is not NaN.
   */
  datatype Parsers = Parsers(float: string -> Option<Float>, numeric: string -> bool)

  /** Python's `int(x)` on a finite float: truncation toward zero. */
  function TruncateTowardZero(x: real): (n: int)
    ensures 0.0 <= x ==> 0 <= n && n as real <= x < n as real + 1.0
    ensures x < 0.0 ==> n <= 0 && n as real - 1.0 < x <= n as real
  {
    if x >= 0.0 then x.Floor else -((-x).Floor)
  }

  /**
   * The text `safe_float` hands to `float()`: stripped, every space deleted,
   * every comma turned into a dot.
   */
  function NumberText(s: string): (r: string)
    ensures r == ReplaceChar(DeleteChar(Strip(s), ' '), ',', '.')
    ensures ' ' !in r && ',' !in r
    ensures |r| <= |s|
  {
    var t := DeleteChar(Strip(s), ' ');
    var r := ReplaceChar(t, ',', '.');
    assert forall i :: 0 <= i < |r| ==> r[i] != ' ' && r[i] != ',';
    r
  }

  /** `safe_float(x)`: `None` for an absent cell, otherwise `float()` of the normalised text. */
  function SafeFloat(c: Cell, p: Parsers): (r: Option<Float>)
    ensures r.Some? <==> c.Present? && p.float(NumberText(c.text)).Some?
    ensures r.Some? ==> r.value == p.float(NumberText(c.text)).value
  {
    match c
    case Missing => None
    case Present(t) => p.float(NumberText(t))
  }

  /**
   * `safe_int(x)`: `int(float(x))`. The raw text goes to `float()` without the
   * normalisation of `safe_float`; `int()` raises on NaN and the infinities,
   * so only a finite parse yields a value, truncated toward zero.
   */
  function SafeInt(c: Cell, p: Parsers): (r: Option<int>)
    ensures r.Some? <==> c.Present? && p.float(c.text).Some? && p.float(c.text).value.Finite?
  {
    match c
    case Missing => None
    case Present(t) =>
      match p.float(t)
      case Some(Finite(x)) => Some(TruncateTowardZero(x))
      case _ => None
  }

  /** What `safe_int` yields is the parsed value truncated toward zero. */
  lemma SafeIntTruncates(c: Cell, p: Parsers)
    requires SafeInt(c, p).Some?
    ensures var n, x := SafeInt(c, p).value, p.float(c.text).value.value;
      if 0.0 <= x then 0 <= n && n as real <= x < n as real + 1.0
      else n <= 0 && n as real - 1.0 < x <= n as real
  {
  }

  /** The rendering of a number (no surrounding whitespace, no space, no comma) reaches `float()` unchanged. */
  lemma NumberTextPlain(s: string)
    requires Trimmed(s) && ' ' !in s && ',' !in s
    ensures NumberText(s) == s
  {
    StripTrimmed(s);
    DeleteAbsent(s, ' ');
  }

  /** Normalising twice is normalising once. */
  lemma NumberTextIdempotent(s: string)
    ensures NumberText(NumberText(s)) == NumberText(s)
  {
    var t := DeleteChar(Strip(s), ' ');
    var r := NumberText(s);
    var u := Strip(s);
    if u != [] {
      assert !IsSpace(u[0]) && !IsSpace(u[|u| - 1]);
      DeleteKeepsEnds(u, ' ');
    }
    assert Trimmed(t);
    assert Trimmed(r);
    NumberTextPlain(r);
  }

  /** A cell and the cell holding its normalised text parse to the same value. */
  lemma SafeFloatNormalised(t: string, p: Parsers)
    ensures SafeFloat(Present(t), p) == SafeFloat(Present(NumberText(t)), p)
  {
    NumberTextIdempotent(t);
  }

  /** Blanks, a thousands space and a decimal comma are all absorbed before parsing. */
  lemma NumberTextExample()
    ensures NumberText(" 1 234,5 ") == "1234.5"
  {
    StripExample();
    DeleteExample();
    var t := "1234,5";
    assert ReplaceChar(t, ',', '.') == "1234.5";
  }

  lemma StripExample()
    ensures Strip(" 1 234,5 ") == "1 234,5"
  {
    var s := " 1 234,5 ";
    assert LeadingSpace(s[1..]) == 0;
    assert LeadingSpace(s) == 1;
    assert TrailingSpace(s[..|s| - 1]) == 0;
    assert TrailingSpace(s) == 1;
  }

  lemma DeleteExample()
    ensures DeleteChar("1 234,5", ' ') == "1234,5"
  {
    var u := "1 234,5";
    DeleteAbsent(u[2..], ' ');
    assert u[1..][1..] == u[2..];
    assert DeleteChar(u[1..], ' ') == u[2..];
  }
}
