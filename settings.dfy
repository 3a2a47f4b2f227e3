/** `_to_bool` of lyricsync_pro/app.py (lines 287-293): how a stored setting
    is read as a flag. */
module Settings {
  import opened Strings

  /** What the settings store hands back: nothing, a boolean, a number or a
      text. */
  datatype SettingValue = Missing | Flag(b: bool) | Number(n: int) | Text(s: string)

  /** `str(n)` of an integer. */
  function IntText(n: int): string {
    if n < 0 then "-" + Decimal(-n) else Decimal(n)
  }

  /** `str.lower()` on the letters it can turn into a word `_to_bool`
      accepts: ASCII capitals become small letters, and every other
      character is kept. */
  function Lower(c: char): char {
    if 'A' <= c <= 'Z' then (c as int + 32) as char else c
  }

  function LowerAll(s: string): string {
    seq(|s|, i requires 0 <= i < |s| => Lower(s[i]))
  }

  /** The five words that read as true. */
  predicate IsTrueWord(w: string) {
    w == "true" || w == "1" || w == "yes" || w == "y" || w == "t"
  }

  /** `str(v).strip().lower()`. */
  function Word(s: string): string {
    LowerAll(Strip(s))
  }

  /** `_to_bool(v, default)`: the default answers only for a missing value,
      and a text whose core is longer than every word that reads as true is
      false. */
  function ToBool(v: SettingValue, default: bool): (r: bool)
    ensures v.Missing? ==> r == default
    ensures v.Text? && |Strip(v.s)| > 4 ==> !r
  {
    match v
    case Missing => default
    case Flag(b) => b
    case Number(n) => IsTrueWord(Word(IntText(n)))
    case Text(s) => IsTrueWord(Word(s))
  }

  /** The default decides only a missing value. */
  lemma DefaultOnlyForMissing(v: SettingValue)
    ensures ToBool(v, true) != ToBool(v, false) <==> v.Missing?
  {
  }

  /** Letter case and surrounding whitespace do not matter: a text is true
      exactly when its core, lower-cased, is one of the five words. */
  lemma TextIgnoresCaseAndPadding(pre: string, core: string, post: string, default: bool)
    requires AllSpace(pre) && AllSpace(post)
    requires core == [] || (!IsSpace(core[0]) && !IsSpace(core[|core| - 1]))
    ensures ToBool(Text(pre + core + post), default) == IsTrueWord(LowerAll(core))
  {
    StripPadded(pre, core, post);
  }

  /** A text with no whitespace at its ends is read as it is, lower-cased. */
  lemma UnpaddedWord(s: string)
    requires s == [] || (!IsSpace(s[0]) && !IsSpace(s[|s| - 1]))
    ensures Word(s) == LowerAll(s)
  {
    StripKeepsUnpadded(s);
  }

  /** Of the five words, only `1` is made of digits. */
  lemma DigitWord(s: string)
    requires AllDigits(s)
    ensures IsTrueWord(s) <==> s == "1"
  {
    assert s == [] || (s[0] != 't' && s[0] != 'y');
    assert "true"[0] == 't' && "t"[0] == 't' && "yes"[0] == 'y' && "y"[0] == 'y';
  }

  /** `str(n)` is `1` only for 1. */
  lemma DecimalIsOneOnlyForOne(n: nat)
    ensures Decimal(n) == "1" <==> n == 1
  {
    DecimalValue(n);
    if Decimal(n) == "1" {
      assert Value("1") == 1 by { assert "1"[..0] == []; }
    }
  }

  /** Lower-casing leaves digits alone. */
  lemma DigitsAreLower(s: string)
    requires AllDigits(s)
    ensures LowerAll(s) == s
  {
  }

  /** A negative number reads as false: its text starts with `-`. */
  lemma NegativeNumberIsFalse(n: int, default: bool)
    requires n < 0
    ensures !ToBool(Number(n), default)
  {
    var s := IntText(n);
    assert s[0] == '-' && IsDigit(s[|s| - 1]);
    UnpaddedWord(s);
    var w := LowerAll(s);
    assert w[0] == '-';
    assert "true"[0] == 't' && "1"[0] == '1' && "yes"[0] == 'y' && "y"[0] == 'y' && "t"[0] == 't';
  }

  lemma NaturalNumberIsTrueOnlyForOne(n: nat, default: bool)
    ensures ToBool(Number(n), default) <==> n == 1
  {
    var s := Decimal(n);
    assert !IsSpace(s[0]) && !IsSpace(s[|s| - 1]);
    UnpaddedWord(s);
    DigitsAreLower(s);
    DigitWord(s);
    DecimalIsOneOnlyForOne(n);
  }

  /** A number is true exactly when it is 1. */
  lemma NumberIsTrueOnlyForOne(n: int, default: bool)
    ensures ToBool(Number(n), default) <==> n == 1
  {
    if n < 0 {
      NegativeNumberIsFalse(n, default);
    } else {
      NaturalNumberIsTrueOnlyForOne(n, default);
    }
  }
}
