/** Turning the text of a price button into a number: the three textual
    substitutions of the crawler followed by Python's `float()`, restricted
    to plain decimal notation. */
module Price {
  import opened Wrappers
  import opened Text

  /** The euro sign U+20AC after its UTF-8 bytes were decoded as cp1252:
      "â‚¬". */
  const Mojibake: string := "\U{E2}\U{201A}\U{AC}"

  /** The genuine euro sign, which the cleaning does not remove. */
  const EuroSign: char := '\U{20AC}'

  /** Remove the mojibake euro, turn decimal commas into dots, drop spaces. */
  function CleanPrice(text: string): (r: string)
    ensures ',' !in r && ' ' !in r
  {
    var commas := Replace(Replace(text, Mojibake, ""), ",", ".");
    ReplaceRemovesChar(Replace(text, Mojibake, ""), ',', ".");
    ReplaceKeepsAbsent(commas, " ", "", ',');
    ReplaceRemovesChar(commas, ' ', "");
    Replace(Replace(Replace(text, Mojibake, ""), ",", "."), " ", "")
  }

  /** Every character of the cleaned text is a dot or was already in the
      price text. */
  lemma CleanPriceCharacters(text: string)
    ensures forall c :: c in CleanPrice(text) ==> c in text || c == '.'
  {
    var a := Replace(text, Mojibake, "");
    var b := Replace(a, ",", ".");
    forall c | c in CleanPrice(text) ensures c in text || c == '.' {
      ReplaceIntroducesOnlyRep(b, " ", "", c);
      ReplaceIntroducesOnlyRep(a, ",", ".", c);
      if c != '.' {
        ReplaceIntroducesOnlyRep(text, Mojibake, "", c);
      }
    }
  }

  /** Replacement is a single left-to-right pass, so removing one mojibake
      euro can join its neighbours into another: the cleaned text may still
      hold "â‚¬". Such a text never parses as a number (see
      `MojibakeUnparseable`), so the card is dropped all the same. */
  lemma CleanPriceCanLeaveMojibake()
    ensures Contains(CleanPrice("\U{E2}" + Mojibake + "\U{201A}\U{AC}"), Mojibake)
  {
    var t := "\U{E2}" + Mojibake + "\U{201A}\U{AC}";
    RemovalJoinsNeighbours();
    MojibakeSurvivesOtherSteps();
    assert CleanPrice(t) == Mojibake;
    assert Mojibake <= CleanPrice(t)[0..];
  }

  /** Removing the mojibake from "â" + "â‚¬" + "‚¬" joins the outer
      characters into a new one. */
  lemma RemovalJoinsNeighbours()
    ensures Replace("\U{E2}" + Mojibake + "\U{201A}\U{AC}", Mojibake, "") == Mojibake
  {
    var t := "\U{E2}" + Mojibake + "\U{201A}\U{AC}";
    assert !(Mojibake <= t) by { assert t[1] != Mojibake[1]; }
    assert t[1..] == Mojibake + "\U{201A}\U{AC}";
    assert Mojibake <= t[1..];
    assert t[1..][3..] == "\U{201A}\U{AC}";
    assert Replace(t[1..], Mojibake, "") == "\U{201A}\U{AC}";
  }

  /** The comma and space steps leave the mojibake alone. */
  lemma MojibakeSurvivesOtherSteps()
    ensures Replace(Replace(Mojibake, ",", "."), " ", "") == Mojibake
  {
    ReplaceSkipsPrefix(Mojibake, "", ",", ".");
    ReplaceSkipsPrefix(Mojibake, "", " ", "");
    assert Mojibake + "" == Mojibake;
  }

  predicate IsDigit(c: char) { '0' <= c <= '9' }

  predicate AllDigits(s: string) { forall c :: c in s ==> IsDigit(c) }

  function DigitValue(c: char): (d: nat)
    requires IsDigit(c)
    ensures d < 10
  {
    c as int - '0' as int
  }

  /** The value of a string of decimal digits, most significant first; the
      empty string is worth 0. */
  function DigitsValue(ds: string): nat
    requires AllDigits(ds)
    decreases |ds|
  {
    if ds == [] then 0
    else
      assert forall c :: c in ds[..|ds| - 1] ==> c in ds;
      10 * DigitsValue(ds[..|ds| - 1]) + DigitValue(ds[|ds| - 1])
  }

  /** The position of the first `x` in `s`, or `|s|` when there is none. */
  function IndexOf(s: string, x: char): (i: nat)
    ensures i <= |s|
    ensures i < |s| ==> s[i] == x
    decreases |s|
  {
    if s == [] then 0 else if s[0] == x then 0 else 1 + IndexOf(s[1..], x)
  }

  /** The first `x` in `a + [x] + b` is the one after `a` when `a` holds
      none. */
  lemma {:induction false} IndexOfFirst(a: string, b: string, x: char)
    requires x !in a
    ensures IndexOf(a + [x] + b, x) == |a|
    decreases |a|
  {
    var s := a + [x] + b;
    if a != [] {
      assert s[1..] == a[1..] + [x] + b;
      IndexOfFirst(a[1..], b, x);
    }
  }

  /** An unsigned decimal numeral: digits with at most one dot and at least
      one digit, so "12", "12.5", ".5" and "12." are numbers and ".", "" and
      "1.2.3" are not. */
  function ParseUnsigned(t: string): (r: Option<real>)
    ensures r.Some? ==> forall c :: c in t ==> IsDigit(c) || c == '.'
    ensures r.Some? ==> r.value >= 0.0
  {
    var i := IndexOf(t, '.');
    var whole := t[..i];
    var frac := if i < |t| then t[i + 1..] else [];
    if AllDigits(whole) && AllDigits(frac) && |whole| + |frac| > 0 then
      assert forall j :: 0 <= j < |t| ==> IsDigit(t[j]) || t[j] == '.' by {
        forall j | 0 <= j < |t|
          ensures IsDigit(t[j]) || t[j] == '.'
        {
          if j < i {
            assert t[j] == whole[j];
          } else if j > i {
            assert t[j] == frac[j - i - 1];
          }
        }
      }
      Some(Decimal(DigitsValue(whole), DigitsValue(frac), |frac|))
    else None
  }

  /** `whole.frac` where `frac` has `places` digits. */
  function Decimal(whole: nat, frac: nat, places: nat): (x: real)
    ensures x >= 0.0
  {
    whole as real + frac as real * Tenths(places)
  }

  /** With two places, the fraction counts hundredths. */
  lemma Hundredths(whole: nat, frac: nat)
    ensures Decimal(whole, frac, 2) == whole as real + frac as real / 100.0
  {
    assert Tenths(2) == 0.01;
  }

  /** `10^-k`. */
  function Tenths(k: nat): (t: real)
    ensures 0.0 < t <= 1.0
  {
    if k == 0 then 1.0 else Tenths(k - 1) / 10.0
  }

  /** The characters a decimal numeral is written with. */
  predicate IsNumeralChar(c: char) { IsDigit(c) || c == '.' || c == '+' || c == '-' }

  /** Python's `float(s)` on plain decimal notation: surrounding whitespace is
      ignored and one leading sign is allowed. `None` is the `ValueError`. */
  function ParseFloat(s: string): (r: Option<real>)
    ensures r.Some? ==> forall c :: c in Strip(s, Whitespace) ==> IsNumeralChar(c)
  {
    var t := Strip(s, Whitespace);
    StripKeepsOthers(s, Whitespace);
    if |t| > 0 && (t[0] == '+' || t[0] == '-') then
      match ParseUnsigned(t[1..])
      case None => None
      case Some(v) =>
        assert forall c :: c in t ==> c == t[0] || c in t[1..];
        Some(if t[0] == '-' then -v else v)
    else ParseUnsigned(t)
  }

  /** A character that is neither part of a number, nor one that the
      cleaning or `float()` removes, makes the price unparseable; this is the
      fate of a correctly decoded euro sign. */
  lemma ForeignCharacterRejected(text: string, c: char)
    requires c in text && !IsDigit(c) && c !in ".,+-" && c !in Mojibake && c !in Whitespace
    ensures ParseFloat(CleanPrice(text)).None?
  {
    assert c in CleanPrice(text) by {
      var a := Replace(text, Mojibake, "");
      ReplaceKeepsOthers(text, Mojibake, "", c);
      ReplaceKeepsOthers(a, ",", ".", c);
      ReplaceKeepsOthers(Replace(a, ",", "."), " ", "", c);
    }
    UnparseableCharacter(CleanPrice(text), c);
  }

  /** `float()` fails on a text holding a character foreign to numerals and
      to whitespace. */
  lemma UnparseableCharacter(s: string, c: char)
    requires c in s && !IsNumeralChar(c) && c !in Whitespace
    ensures ParseFloat(s).None?
  {
    StripKeepsOthers(s, Whitespace);
  }

  /** A correctly decoded euro sign survives the cleaning and makes the
      price unparseable. */
  lemma RealEuroSignRejected(text: string)
    requires EuroSign in text
    ensures ParseFloat(CleanPrice(text)).None?
  {
    ForeignCharacterRejected(text, EuroSign);
  }

  /** A text holding a mojibake euro is no number. Since the cleaning can
      leave one behind (see `CleanPriceCanLeaveMojibake`), such a card is
      dropped rather than accepted with a damaged price. */
  lemma MojibakeUnparseable(s: string)
    requires Contains(s, Mojibake)
    ensures ParseFloat(s).None?
  {
    var i :| 0 <= i <= |s| && Mojibake <= s[i..];
    assert s[i..][0] == Mojibake[0];
    UnparseableCharacter(s, Mojibake[0]);
  }

  /** An unsigned numeral holds at most one dot. */
  lemma SecondDotRejected(t: string, i: nat, j: nat)
    requires i < j < |t| && t[i] == '.' && t[j] == '.'
    ensures ParseUnsigned(t).None?
  {
    var k := IndexOf(t, '.');
    IndexOfBefore(t, '.', i);
    var frac := t[k + 1..];
    assert frac[j - k - 1] == '.' && frac[j - k - 1] in frac;
  }

  /** The first `x` comes no later than any `x`. */
  lemma {:induction false} IndexOfBefore(s: string, x: char, i: nat)
    requires i < |s| && s[i] == x
    ensures IndexOf(s, x) <= i
    decreases |s|
  {
    if s[0] != x {
      IndexOfBefore(s[1..], x, i - 1);
    }
  }

  /** A price written with a thousands dot and a decimal comma, such as
      "1.234,56", is cleaned into a numeral with two dots ... */
  lemma ThousandsSeparatorCleaned(a: string, b: string, c: string)
    requires AllDigits(a) && AllDigits(b) && AllDigits(c)
    ensures CleanPrice(a + "." + b + "," + c) == a + "." + b + "." + c
  {
    var p := a + "." + b;
    var x := p + "," + c;
    var y := p + "." + c;
    NonDigitAbsent(a, b, c, '.', ',', Mojibake[0]);
    ReplaceAbsent(x, Mojibake, "");
    CommaBecomesDot(p, c);
    NonDigitAbsent(a, b, c, '.', '.', ' ');
    ReplaceAbsent(y, " ", "");
  }

  /** The one comma after `p` becomes a dot. */
  lemma CommaBecomesDot(p: string, c: string)
    requires ',' !in p && AllDigits(c)
    ensures Replace(p + "," + c, ",", ".") == p + "." + c
  {
    assert p + "," + c == p + ("," + c);
    ReplaceSkipsPrefix(p, "," + c, ",", ".");
    assert ("," + c)[1..] == c;
    ReplaceAbsent(c, ",", ".");
    assert p + ("." + c) == p + "." + c;
  }

  /** A character that is not a digit and not one of the separators is
      absent from digits joined by those separators. */
  lemma NonDigitAbsent(a: string, b: string, c: string, s1: char, s2: char, ch: char)
    requires AllDigits(a) && AllDigits(b) && AllDigits(c) && !IsDigit(ch) && ch != s1 && ch != s2
    ensures ch !in a + [s1] + b && ch !in a + [s1] + b + [s2] + c
  {
  }

  /** ... which `float()` rejects, so such a card is dropped. */
  lemma ThousandsSeparatorRejected(a: string, b: string, c: string)
    requires AllDigits(a) && AllDigits(b) && AllDigits(c) && |a| > 0 && |c| > 0
    ensures ParseFloat(CleanPrice(a + "." + b + "," + c)).None?
  {
    ThousandsSeparatorCleaned(a, b, c);
    var t := a + "." + b + "." + c;
    assert t[0] == a[0] && t[|t| - 1] == c[|c| - 1];
    assert t[|a|] == '.' && t[|a| + 1 + |b|] == '.';
    UnsignedNumeral(t);
    SecondDotRejected(t, |a|, |a| + 1 + |b|);
  }

  /** The canonical decimal numeral of `n`. */
  function Show(n: nat): (s: string)
    ensures |s| > 0 && AllDigits(s)
  {
    if n < 10 then [DigitChar(n)] else Show(n / 10) + [DigitChar(n % 10)]
  }

  function DigitChar(d: nat): (c: char)
    requires d < 10
    ensures IsDigit(c) && DigitValue(c) == d
  {
    ('0' as int + d) as char
  }

  lemma {:induction false} ShowValue(n: nat)
    ensures DigitsValue(Show(n)) == n
  {
    if n >= 10 {
      var s := Show(n);
      assert s[..|s| - 1] == Show(n / 10);
      ShowValue(n / 10);
    }
  }

  /** How the site shows a price with the euro sign mangled: "999,00 â‚¬". */
  function EuroText(units: nat, cents: nat): string
    requires cents < 100
  {
    Show(units) + "," + [DigitChar(cents / 10), DigitChar(cents % 10)] + " " + Mojibake
  }

  /** Cleaning a mangled euro price leaves "units.cents". */
  lemma CleanEuroText(units: nat, cents: nat)
    requires cents < 100
    ensures CleanPrice(EuroText(units, cents))
         == Show(units) + "." + [DigitChar(cents / 10), DigitChar(cents % 10)]
  {
    var w := Show(units);
    var cc := [DigitChar(cents / 10), DigitChar(cents % 10)];
    assert AllDigits(cc);
    var a := w + "," + cc + " ";
    TrailingMojibakeRemoved(a);
    DecimalCommaBecomesDot(w, cc);
    TrailingSpaceDropped(w + "." + cc);
  }

  lemma TrailingMojibakeRemoved(a: string)
    requires Mojibake[0] !in a
    ensures Replace(a + Mojibake, Mojibake, "") == a
  {
    ReplaceSkipsPrefix(a, Mojibake, Mojibake, "");
    assert Replace(Mojibake, Mojibake, "") == "";
    assert a + "" == a;
  }

  lemma DecimalCommaBecomesDot(w: string, cc: string)
    requires AllDigits(w) && AllDigits(cc)
    ensures Replace(w + "," + cc + " ", ",", ".") == w + "." + cc + " "
  {
    var tail := cc + " ";
    assert w + "," + cc + " " == w + ("," + tail);
    ReplaceSkipsPrefix(w, "," + tail, ",", ".");
    assert ("," + tail)[1..] == tail;
    ReplaceSkipsPrefix(cc, " ", ",", ".");
    assert Replace(" ", ",", ".") == " ";
    assert w + ("." + tail) == w + "." + cc + " ";
  }

  lemma TrailingSpaceDropped(x: string)
    requires ' ' !in x
    ensures Replace(x + " ", " ", "") == x
  {
    ReplaceSkipsPrefix(x, " ", " ", "");
    assert Replace(" ", " ", "") == "";
    assert x + "" == x;
  }

  /** Parsing "units.cents" gives back the amount. */
  lemma ParseShownAmount(units: nat, cents: nat)
    requires cents < 100
    ensures ParseFloat(Show(units) + "." + [DigitChar(cents / 10), DigitChar(cents % 10)])
         == Some(Decimal(units, cents, 2))
  {
    var w := Show(units);
    var cc := [DigitChar(cents / 10), DigitChar(cents % 10)];
    var t := w + "." + cc;
    assert t[0] == w[0] && t[|t| - 1] == cc[1];
    UnsignedNumeral(t);
    assert ParseUnsigned(t) == Some(Decimal(DigitsValue(w), DigitsValue(cc), |cc|)) by {
      ParseDecimalNumeral(w, cc);
    }
    assert DigitsValue(w) == units by { ShowValue(units); }
    assert DigitsValue(cc) == cents by { TwoDigitsValue(cents); }
    assert |cc| == 2;
  }

  /** A text that starts and ends with a digit is parsed as it stands. */
  lemma UnsignedNumeral(t: string)
    requires |t| > 0 && IsDigit(t[0]) && IsDigit(t[|t| - 1])
    ensures ParseFloat(t) == ParseUnsigned(t)
  {
    assert t[0] !in Whitespace && t[|t| - 1] !in Whitespace;
    StripUnchanged(t, Whitespace);
  }

  /** "whole.frac" with both parts made of digits parses to its value. */
  lemma ParseDecimalNumeral(whole: string, frac: string)
    requires AllDigits(whole) && AllDigits(frac) && |whole| > 0
    ensures ParseUnsigned(whole + "." + frac)
         == Some(Decimal(DigitsValue(whole), DigitsValue(frac), |frac|))
  {
    var t := whole + "." + frac;
    IndexOfFirst(whole, frac, '.');
    var i := IndexOf(t, '.');
    assert i == |whole| < |t|;
    assert t[..i] == whole;
    assert t[i + 1..] == frac;
  }

  lemma TwoDigitsValue(cents: nat)
    requires cents < 100
    ensures DigitsValue([DigitChar(cents / 10), DigitChar(cents % 10)]) == cents
  {
    var cc := [DigitChar(cents / 10), DigitChar(cents % 10)];
    assert cc[..1] == [cc[0]];
    assert [cc[0]][..0] == [];
    assert DigitsValue([cc[0]]) == cents / 10;
  }

  /** Cleaning and parsing a mangled euro price gives back its amount. */
  lemma EuroTextRoundTrip(units: nat, cents: nat)
    requires cents < 100
    ensures ParseFloat(CleanPrice(EuroText(units, cents))) == Some(Decimal(units, cents, 2))
  {
    CleanEuroText(units, cents);
    ParseShownAmount(units, cents);
  }
}
