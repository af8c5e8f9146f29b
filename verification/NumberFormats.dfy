/** Numbers as a language writes them: rounding, grouping, and reading the text back. Amounts are exact
    decimals (`real`), so only the rounding the source asks for is modelled. */
module NumberFormats {
  import opened Prelude
  import opened Decimals

  // ----- the locale table

  datatype LocaleFormat = LocaleFormat(decimal: char, group: Option<char>)

  const ISO := LocaleFormat('.', None)
  const CONTINENTAL := LocaleFormat(',', Some('.'))
  const ENGLISH := LocaleFormat('.', Some(','))
  const SWISS := LocaleFormat('.', Some('\''))
  const SPACED := LocaleFormat(',', Some(' '))

  /** The part before the first `-` or `_`. */
  function Primary(tag: string): (p: string)
    ensures '-' !in p && '_' !in p
  {
    if tag == [] || tag[0] == '-' || tag[0] == '_' then [] else [tag[0]] + Primary(tag[1..])
  }

  /** The marks for a trimmed, lower-cased language tag: the full tag first, then its primary subtag. */
  function ForLang(tag: string): LocaleFormat {
    if tag == "en-us" then ENGLISH
    else if tag == "de-ch" || tag == "it-ch" then SWISS
    else ForPrimary(Primary(tag))
  }

  function ForPrimary(primary: string): LocaleFormat {
    if primary in {"de", "at", "cs", "da", "et", "fi", "is", "nb", "nn", "no", "pl", "ro", "ru", "sk", "sl", "sr",
        "tr", "uk"} then
      CONTINENTAL
    else if primary in {"es", "fr", "id", "it", "nl", "pt", "vi"} then CONTINENTAL
    else if primary == "en" then ENGLISH
    else if primary in {"ja", "ko", "zh", "sv", "hu", "lt"} then SPACED
    else ISO
  }

  lemma {:induction false} PrimaryOfPrimary(tag: string)
    ensures Primary(Primary(tag)) == Primary(tag)
  {
    if tag != [] && tag[0] != '-' && tag[0] != '_' {
      PrimaryOfPrimary(tag[1..]);
      assert Primary(tag)[1..] == Primary(tag[1..]);
    }
  }

  /** A regional tag without an entry of its own is written like its language. */
  lemma RegionFallsBack(tag: string)
    ensures tag != "en-us" && tag != "de-ch" && tag != "it-ch" ==> ForLang(tag) == ForLang(Primary(tag))
  {
    PrimaryOfPrimary(tag);
    var p := Primary(tag);
    assert "en-us"[2] == '-' && "de-ch"[2] == '-' && "it-ch"[2] == '-';
  }

  /** The languages that write a comma for the decimal mark, and a dot or a space between groups. */
  predicate WithDots(p: string) {
    p in {"de", "at", "cs", "da", "et", "fi", "is", "nb", "nn", "no", "pl", "ro", "ru", "sk", "sl", "sr", "tr", "uk",
          "es", "fr", "id", "it", "nl", "pt", "vi"}
  }

  predicate WithSpaces(p: string) {
    p in {"ja", "ko", "zh", "sv", "hu", "lt"}
  }

  lemma LanguagesApart(p: string)
    ensures !(WithDots(p) && WithSpaces(p)) && (p == "en" ==> !WithDots(p) && !WithSpaces(p))
    ensures WithDots("de") && WithDots("it")
  {
  }

  lemma PrimaryMarks(p: string)
    ensures ForPrimary(p) ==
            if WithDots(p) then LocaleFormat(',', Some('.'))
            else if WithSpaces(p) then LocaleFormat(',', Some(' '))
            else if p == "en" then LocaleFormat('.', Some(',')) else LocaleFormat('.', None)
  {
    LanguagesApart(p);
  }

  /** Which tags use which mark. */
  lemma MarksExactly(tag: string)
    ensures var p, swiss, fmt := Primary(tag), tag == "de-ch" || tag == "it-ch", ForLang(tag);
            && (fmt.decimal == ',' <==> !swiss && (WithDots(p) || WithSpaces(p))) && (fmt.decimal in {',', '.'})
            && (fmt.group == Some('\'') <==> swiss)
            && (fmt.group == Some('.') <==> !swiss && WithDots(p))
            && (fmt.group == Some(' ') <==> WithSpaces(p))
            && (fmt.group == Some(',') <==> p == "en")
            && (fmt.group == None <==> !WithDots(p) && !WithSpaces(p) && p != "en")
  {
    PrimaryIs("en-us", 2);
    PrimaryIs("de-ch", 2);
    PrimaryIs("it-ch", 2);
    PrimaryMarks(Primary(tag));
    LanguagesApart(Primary(tag));
    assert "en-us"[..2] == "en" && "de-ch"[..2] == "de" && "it-ch"[..2] == "it";
  }

  lemma {:induction false} PrimaryIs(tag: string, n: nat)
    requires n < |tag| && (tag[n] == '-' || tag[n] == '_')
    requires forall i | 0 <= i < n :: tag[i] != '-' && tag[i] != '_'
    ensures Primary(tag) == tag[..n]
  {
    if n > 0 {
      PrimaryIs(tag[1..], n - 1);
      assert tag[1..][..n - 1] == tag[1..n];
    }
  }

  /** The marks a number can be read back with: no digit, no sign, and never the same twice. */
  predicate Readable(fmt: LocaleFormat) {
    && !IsDigit(fmt.decimal) && fmt.decimal != '-'
    && (fmt.group.Some? ==> !IsDigit(fmt.group.value) && fmt.group.value != '-' && fmt.group.value != fmt.decimal)
  }

  lemma EveryEntryReadable(tag: string)
    ensures Readable(ForLang(tag))
  {
    assert forall c | c in DIGITS :: '0' <= c <= '9';
  }

  // ----- rounding

  const EPSILON: real := 1.0 / 4503599627370496.0

  function Pow10(p: nat): (n: nat)
    ensures n >= 1
  {
    if p == 0 then 1 else 10 * Pow10(p - 1)
  }

  function Abs(x: real): real {
    if x < 0.0 then -x else x
  }

  /** Towards zero. */
  function Trunc(x: real): int {
    if x < 0.0 then -((-x).Floor) else x.Floor
  }

  function Fract(x: real): real {
    x - Trunc(x) as real
  }

  function Ceil(x: real): int {
    if x == x.Floor as real then x.Floor else x.Floor + 1
  }

  predicate IsTie(scaled: real) {
    Abs(Abs(Fract(scaled)) - 0.5) < EPSILON
  }

  function Signed(negative: bool, x: real): real {
    if negative then -x else x
  }

  /** Moves a tie, or what is within `EPSILON` of one, to the unit away from zero; a unit is `1 / factor`. */
  function RoundHalfAway(number: real, factor: real): real
    requires factor > 0.0
  {
    var scaled := number * factor;
    if IsTie(scaled) then Signed(number < 0.0, Ceil(Abs(scaled)) as real) / factor else number
  }

  /** Half to even, as the formatter rounds. */
  function HalfEven(x: real): (n: nat)
    requires x >= 0.0
  {
    var down := x.Floor;
    var rest := x - down as real;
    if rest < 0.5 || (rest == 0.5 && down % 2 == 0) then down else down + 1
  }

  /** The magnitude in units. */
  function Scaled(number: real, factor: real): (x: real)
    requires factor > 0.0
    ensures x >= 0.0
  {
    Abs(number) * factor
  }

  /** How many units are printed for `number`, without its sign. */
  function Units(number: real, factor: real): nat
    requires factor > 0.0
  {
    HalfEven(Scaled(RoundHalfAway(number, factor), factor))
  }

  /** The unit printed for a magnitude of `x` units: the lower one below the middle, the upper one from
      just below it on. */
  function Nearest(x: real): nat
    requires x >= 0.0
  {
    if x - x.Floor as real <= 0.5 - EPSILON then x.Floor else x.Floor + 1
  }

  lemma AbsTimes(x: real, f: real)
    requires f > 0.0
    ensures Abs(x * f) == Abs(x) * f
  {
    if x < 0.0 { assert x * f < 0.0; } else { assert x * f >= 0.0; }
  }

  lemma FractOfAbs(x: real)
    ensures Abs(Fract(x)) == Abs(x) - Abs(x).Floor as real
  {
  }

  lemma TieUp(scaled: real, x: real)
    requires IsTie(scaled) && x == Abs(scaled)
    ensures Ceil(Abs(scaled)) == Nearest(x) >= 1 && HalfEven(Nearest(x) as real) == Nearest(x)
  {
    FractOfAbs(scaled);
  }

  lemma NoTie(scaled: real, x: real)
    requires !IsTie(scaled) && x == Abs(scaled)
    ensures HalfEven(x) == Nearest(x)
  {
    FractOfAbs(scaled);
  }

  lemma SignedQuotient(negative: bool, u: real, f: real)
    requires u > 0.0 && f > 0.0
    ensures Abs(Signed(negative, u) / f) * f == u
    ensures Signed(negative, u) / f < 0.0 <==> negative
  {
    assert u / f * f == u && u / f > 0.0;
    assert -u / f == -(u / f);
  }

  /** A tie is moved to the unit `u` away from zero, and keeps its sign. */
  lemma RoundedTie(number: real, factor: real, u: nat)
    requires factor > 0.0 && IsTie(number * factor) && u == Ceil(Abs(number * factor)) > 0
    ensures Scaled(RoundHalfAway(number, factor), factor) == u as real
    ensures RoundHalfAway(number, factor) < 0.0 <==> number < 0.0
  {
    SignedQuotient(number < 0.0, u as real, factor);
    var rounded := RoundHalfAway(number, factor);
    assert rounded == Signed(number < 0.0, u as real) / factor;
  }

  lemma UnitsOfRounded(number: real, factor: real, x: real)
    requires factor > 0.0 && x == Scaled(RoundHalfAway(number, factor), factor)
    ensures Units(number, factor) == HalfEven(x)
  {
  }

  lemma UnitsExactly(number: real, factor: real)
    requires factor > 0.0
    ensures Units(number, factor) == Nearest(Scaled(number, factor))
    ensures RoundHalfAway(number, factor) < 0.0 <==> number < 0.0
  {
    var scaled := number * factor;
    var x := Scaled(number, factor);
    AbsTimes(number, factor);
    if IsTie(scaled) {
      TieUp(scaled, x);
      RoundedTie(number, factor, Nearest(x));
      UnitsOfRounded(number, factor, Nearest(x) as real);
    } else {
      NoTie(scaled, x);
      UnitsOfRounded(number, factor, x);
    }
  }

  lemma NearestError(x: real)
    requires x >= 0.0
    ensures Abs(Nearest(x) as real - x) <= 0.5 <==> !(0.5 - EPSILON < x - x.Floor as real < 0.5)
    ensures Abs(Nearest(x) as real - x) < 0.5 + EPSILON
  {
  }

  /** Rounding errs by at most half a unit, except on numbers just below a tie, which go up; even those
      err by less than half a unit plus 2^-52. */
  lemma HalfUnitExactly(number: real, factor: real)
    requires factor > 0.0
    ensures var scaled := Scaled(number, factor);
            && (Abs(Units(number, factor) as real - scaled) <= 0.5 <==>
                !(0.5 - 1.0 / 4503599627370496.0 < scaled - scaled.Floor as real < 0.5))
            && Abs(Units(number, factor) as real - scaled) < 0.5 + 1.0 / 4503599627370496.0
  {
    UnitsExactly(number, factor);
    NearestError(Scaled(number, factor));
  }

  /** The double just below one half, 2^-54 away, is printed as 1. */
  lemma BelowHalfRoundsUp()
    ensures var number := 9007199254740991.0 / 18014398509481984.0;
            number < 0.5 && Units(number, 1.0) == 1 && Units(number, 1.0) as real - number > 0.5
  {
    var number := 9007199254740991.0 / 18014398509481984.0;
    UnitsExactly(number, 1.0);
    assert Scaled(number, 1.0) == number;
    assert number.Floor == 0;
  }

  /** Rounding is symmetric about zero. */
  lemma Symmetric(number: real, factor: real)
    requires factor > 0.0
    ensures Units(-number, factor) == Units(number, factor)
  {
    UnitsExactly(number, factor);
    UnitsExactly(-number, factor);
    SameScale(number, factor);
  }

  lemma SameScale(number: real, factor: real)
    requires factor > 0.0
    ensures Scaled(-number, factor) == Scaled(number, factor)
  {
    assert Abs(-number) == Abs(number);
  }

  /** A tie goes away from zero. */
  lemma TieGoesAway(number: real, factor: real, n: nat)
    requires factor > 0.0 && Scaled(number, factor) == n as real + 0.5
    ensures Units(number, factor) == n + 1
  {
    UnitsExactly(number, factor);
    assert (n as real + 0.5).Floor == n;
  }

  // ----- printing

  /** `n` in exactly `width` digits. */
  function Padded(n: nat, width: nat): (s: string)
    ensures |s| == width && forall c | c in s :: IsDigit(c)
  {
    if width == 0 then "" else Padded(n / 10, width - 1) + [DigitChar(n % 10)]
  }

  lemma TenthBelow(n: nat, p: nat)
    requires n < 10 * p
    ensures n / 10 < p
  {
  }

  lemma {:induction false} PaddedValue(n: nat, width: nat)
    requires n < Pow10(width)
    ensures NumeralValue(Padded(n, width)) == n
  {
    if width > 0 {
      TenthBelow(n, Pow10(width - 1));
      PaddedValue(n / 10, width - 1);
      OneMoreDigit(Padded(n / 10, width - 1), n % 10);
      Tens(n);
    }
  }

  function Whole(units: nat, precision: nat): nat {
    Quotient(units, Pow10(precision))
  }

  function Part(units: nat, precision: nat): nat {
    Remainder(units, Pow10(precision))
  }

  function Quotient(n: nat, d: nat): nat
    requires d >= 1
  {
    n / d
  }

  function Remainder(n: nat, d: nat): (r: nat)
    requires d >= 1
    ensures r < d
  {
    n % d
  }

  /** What `{:.precision$}` prints for a number of so many units. */
  function Rendered(negative: bool, units: nat, precision: nat): string {
    (if negative then "-" else "") + Plain(units, precision)
  }

  /** Groups of three from the right; the first group may be shorter. */
  function Grouped(digits: string, sep: char): string {
    if |digits| <= 3 then digits
    else Grouped(digits[..|digits| - 3], sep) + [sep] + digits[|digits| - 3..]
  }

  /** The text before the first `mark`, and after it if there is one. */
  function SplitOnce(s: string, mark: char): (string, string) {
    if s == [] then ("", "")
    else if s[0] == mark then ("", s[1..])
    else
      var (before, after) := SplitOnce(s[1..], mark);
      ([s[0]] + before, after)
  }

  lemma {:induction false} SplitAt(before: string, mark: char, after: string)
    requires mark !in before
    ensures SplitOnce(before + [mark] + after, mark) == (before, after)
    ensures SplitOnce(before, mark) == (before, "")
  {
    var s := before + [mark] + after;
    if before == [] {
      assert s[1..] == after;
    } else {
      SplitAt(before[1..], mark, after);
      assert s[1..] == before[1..] + [mark] + after;
      assert before == [before[0]] + before[1..];
      assert SplitOnce(before, mark) == ([before[0]] + before[1..], "");
    }
  }

  /** The grouping loop: a separator before each digit with a multiple of three digits left. */
  method Group(digits: string, sep: char) returns (grouped: string)
    ensures grouped == Grouped(digits, sep)
  {
    grouped := "";
    for i := 0 to |digits|
      invariant grouped == GroupedUpTo(digits, sep, i)
    {
      if i > 0 && (|digits| - i) % 3 == 0 {
        grouped := grouped + [sep];
      }
      grouped := grouped + [digits[i]];
    }
    assert digits[..|digits|] == digits;
    UpToIsGrouped(digits, sep, |digits|);
    assert grouped == GroupedUpTo(digits, sep, |digits|);
    assert GroupedUpTo(digits, sep, |digits|) == Grouped(digits[..|digits|], sep);
  }

  /** The loop's text after `i` digits. */
  function GroupedUpTo(digits: string, sep: char, i: nat): string
    requires i <= |digits|
  {
    if i == 0 then ""
    else
      GroupedUpTo(digits, sep, i - 1) + (if i > 1 && (|digits| - (i - 1)) % 3 == 0 then [sep] else [])
      + [digits[i - 1]]
  }

  lemma LoopStep(digits: string, sep: char, i: nat)
    requires 1 <= i <= |digits|
    ensures GroupedUpTo(digits, sep, i) ==
            GroupedUpTo(digits, sep, i - 1) + (if i > 1 && (|digits| - i + 1) % 3 == 0 then [sep] else [])
                + [digits[i - 1]]
  {
  }

  lemma OneGroup(digits: string, sep: char, i: nat)
    requires 3 < i <= |digits| && (|digits| - i) % 3 == 0
    ensures GroupedUpTo(digits, sep, i) == GroupedUpTo(digits, sep, i - 3) + [sep] + digits[i - 3..i]
  {
    LoopStep(digits, sep, i);
    LoopStep(digits, sep, i - 1);
    LoopStep(digits, sep, i - 2);
    assert digits[i - 3..i] == [digits[i - 3]] + [digits[i - 2]] + [digits[i - 1]];
  }

  lemma FirstGroup(digits: string, sep: char, i: nat)
    requires i <= 3 && i <= |digits| && (|digits| - i) % 3 == 0
    ensures GroupedUpTo(digits, sep, i) == digits[..i]
  {
    if i >= 1 { LoopStep(digits, sep, 1); }
    if i >= 2 { LoopStep(digits, sep, 2); }
    if i >= 3 { LoopStep(digits, sep, 3); }
  }

  /** With a multiple of three digits still to come, the loop has grouped what it has seen. */
  lemma {:induction false} UpToIsGrouped(digits: string, sep: char, i: nat)
    requires i <= |digits| && (|digits| - i) % 3 == 0
    ensures GroupedUpTo(digits, sep, i) == Grouped(digits[..i], sep)
  {
    if i <= 3 {
      FirstGroup(digits, sep, i);
    } else {
      UpToIsGrouped(digits, sep, i - 3);
      OneGroup(digits, sep, i);
      var seen := digits[..i];
      assert seen[..i - 3] == digits[..i - 3] && seen[i - 3..] == digits[i - 3..i];
    }
  }

  /** The number without its sign. */
  function Body(units: nat, precision: nat, fmt: LocaleFormat): string {
    var digits := Numeral(Whole(units, precision));
    (if fmt.group.Some? then Grouped(digits, fmt.group.value) else digits)
    + (if precision == 0 then "" else [fmt.decimal] + Padded(Part(units, precision), precision))
  }

  /** The number as the language writes it. */
  function Written(negative: bool, units: nat, precision: nat, fmt: LocaleFormat): string {
    (if negative then "-" else "") + Body(units, precision, fmt)
  }

  /** The text before the sign and the language's marks. */
  function Plain(units: nat, precision: nat): string {
    Numeral(Whole(units, precision)) + (if precision == 0 then "" else "." + Padded(Part(units, precision), precision))
  }

  lemma PlainSplits(units: nat, precision: nat)
    ensures SplitOnce(Plain(units, precision), '.') ==
            (Numeral(Whole(units, precision)), Padded(Part(units, precision), precision))
    ensures Plain(units, precision) != [] && Plain(units, precision)[0] != '-'
  {
    var whole := Numeral(Whole(units, precision));
    var part := Padded(Part(units, precision), precision);
    NoMarks(whole);
    SplitAt(whole, '.', part);
    assert whole + ['.'] + part == whole + ("." + part);
    assert whole + "" == whole;
  }

  lemma NoMarks(digits: string)
    requires forall c | c in digits :: IsDigit(c)
    ensures '-' !in digits && '.' !in digits
  {
    assert '-' !in DIGITS && '.' !in DIGITS;
  }

  function Factor(precision: nat): (f: real)
    ensures f > 0.0
  {
    Pow10(precision) as real
  }

  /** Rounds, renders, takes the sign off, groups the whole part, and puts the language's marks in. */
  method FormatNumber(number: real, precision: nat, fmt: LocaleFormat) returns (text: string)
    ensures text == Written(number < 0.0, Units(number, Factor(precision)), precision, fmt)
  {
    var factor := Factor(precision);
    var rounded := RoundHalfAway(number, factor);
    UnitsExactly(number, factor);
    var units := HalfEven(Scaled(rounded, factor));
    UnitsOfRounded(number, factor, Scaled(rounded, factor));
    text := FormatRendered(rounded < 0.0, units, precision, fmt);
  }

  method FormatRendered(negative: bool, units: nat, precision: nat, fmt: LocaleFormat) returns (text: string)
    ensures text == Written(negative, units, precision, fmt)
  {
    var rendered := Rendered(negative, units, precision);
    PlainSplits(units, precision);
    assert ("-" + Plain(units, precision))[1..] == Plain(units, precision) == "" + Plain(units, precision);
    var sign, digits := "", rendered;
    if rendered[0] == '-' {
      sign, digits := "-", rendered[1..];
    }
    var (intPart, fracPart) := SplitOnce(digits, '.');
    var grouped := intPart;
    if fmt.group.Some? {
      grouped := Group(intPart, fmt.group.value);
    }
    WrittenIs(sign, negative, units, precision, fmt, grouped, fracPart);
    if |fracPart| == 0 {
      text := sign + grouped;
    } else {
      text := sign + (grouped + ([fmt.decimal] + fracPart));
    }
  }

  lemma WrittenIs(sign: string, negative: bool, units: nat, precision: nat, fmt: LocaleFormat, grouped: string,
      fracPart: string)
    requires var digits := Numeral(Whole(units, precision));
             grouped == if fmt.group.Some? then Grouped(digits, fmt.group.value) else digits
    requires fracPart == Padded(Part(units, precision), precision) && sign == if negative then "-" else ""
    ensures |fracPart| == 0 ==> Written(negative, units, precision, fmt) == sign + grouped
    ensures |fracPart| != 0 ==>
              Written(negative, units, precision, fmt) == sign + (grouped + ([fmt.decimal] + fracPart))
  {
    assert grouped + "" == grouped;
    assert |fracPart| == precision;
  }

  // ----- reading back

  function Without(s: string, c: char): string {
    if s == [] then [] else (if s[0] == c then [] else [s[0]]) + Without(s[1..], c)
  }

  lemma {:induction false} WithoutJoin(a: string, b: string, c: char)
    ensures Without(a + b, c) == Without(a, c) + Without(b, c)
  {
    if a == [] {
      assert a + b == b;
    } else {
      assert (a + b)[1..] == a[1..] + b;
      WithoutJoin(a[1..], b, c);
    }
  }

  lemma {:induction false} WithoutNone(s: string, c: char)
    requires c !in s
    ensures Without(s, c) == s
  {
    if s != [] { WithoutNone(s[1..], c); }
  }

  /** Dropping the separators gives the digits back. */
  lemma {:induction false} Ungrouped(digits: string, sep: char)
    requires sep !in digits
    ensures Without(Grouped(digits, sep), sep) == digits
  {
    if |digits| <= 3 {
      WithoutNone(digits, sep);
    } else {
      var cut := |digits| - 3;
      Ungrouped(digits[..cut], sep);
      WithoutOneGroup(Grouped(digits[..cut], sep), digits[cut..], sep);
      assert digits == digits[..cut] + digits[cut..];
    }
  }

  lemma WithoutOneGroup(before: string, three: string, sep: char)
    requires sep !in three
    ensures Without(before + [sep] + three, sep) == Without(before, sep) + three
  {
    WithoutJoin(before + [sep], three, sep);
    WithoutEnd(before, sep);
    WithoutNone(three, sep);
  }

  lemma WithoutEnd(before: string, sep: char)
    ensures Without(before + [sep], sep) == Without(before, sep)
  {
    WithoutJoin(before, [sep], sep);
    assert [sep][1..] == [];
    assert Without([sep], sep) == [];
  }

  /** Separators stand exactly where three, six, … digits follow. */
  lemma {:induction false} GroupsOfThree(digits: string, sep: char, k: nat)
    requires sep !in digits && k < |Grouped(digits, sep)|
    ensures Grouped(digits, sep)[k] == sep <==> k > 0 && (|Grouped(digits, sep)| - k) % 4 == 0
    decreases |digits|
  {
    var g := Grouped(digits, sep);
    if |digits| > 3 {
      var cut := |digits| - 3;
      var lower := Grouped(digits[..cut], sep);
      GroupedNotEmpty(digits[..cut], sep);
      assert |g| == |lower| + 4;
      if k < |lower| {
        GroupsOfThree(digits[..cut], sep, k);
      } else if k > |lower| {
        assert g[k] == digits[cut..][k - |lower| - 1];
        assert g[k] in digits;
      }
    } else {
      assert g[k] in digits;
    }
  }

  lemma GroupedNotEmpty(digits: string, sep: char)
    requires digits != []
    ensures Grouped(digits, sep) != []
  {
  }

  /** Reads a printed number: sign, units, and how many places follow the decimal mark. */
  function Read(text: string, fmt: LocaleFormat): (bool, nat, nat) {
    var negative := text != [] && text[0] == '-';
    var (units, places) := ReadUnits(if negative then text[1..] else text, fmt);
    (negative, units, places)
  }

  function ReadUnits(body: string, fmt: LocaleFormat): (nat, nat) {
    var (whole, part) := SplitOnce(body, fmt.decimal);
    (Joined(NumeralValue(if fmt.group.Some? then Without(whole, fmt.group.value) else whole), NumeralValue(part),
        |part|), |part|)
  }

  function Joined(whole: nat, part: nat, places: nat): nat {
    whole * Pow10(places) + part
  }

  lemma {:induction false} GroupedMarks(digits: string, sep: char, c: char)
    requires c !in digits && c != sep
    ensures c !in Grouped(digits, sep)
  {
    if |digits| > 3 { GroupedMarks(digits[..|digits| - 3], sep, c); }
  }

  lemma JoinUnits(units: nat, precision: nat)
    ensures Joined(Whole(units, precision), Part(units, precision), precision) == units
  {
    var scale := Pow10(precision);
    assert units / scale * scale + units % scale == units;
  }

  lemma BodyReads(units: nat, precision: nat, fmt: LocaleFormat)
    requires Readable(fmt)
    ensures ReadUnits(Body(units, precision, fmt), fmt) == (units, precision)
    ensures Body(units, precision, fmt) != [] && Body(units, precision, fmt)[0] != '-'
  {
    var digits := Numeral(Whole(units, precision));
    var part := Padded(Part(units, precision), precision);
    var grouped := if fmt.group.Some? then Grouped(digits, fmt.group.value) else digits;
    JoinUnits(units, precision);
    PaddedValue(Part(units, precision), precision);
    NumeralRoundTrip(Whole(units, precision));
    NotSigned(digits, fmt, grouped);
    if fmt.group.Some? { Ungrouped(digits, fmt.group.value); }
    SplitAt(grouped, fmt.decimal, part);
    assert grouped + ([fmt.decimal] + part) == grouped + [fmt.decimal] + part;
    assert grouped + "" == grouped;
  }

  /** Every number reads back as what was printed, for marks that differ. */
  lemma ReadsBack(negative: bool, units: nat, precision: nat, fmt: LocaleFormat)
    requires Readable(fmt)
    ensures Read(Written(negative, units, precision, fmt), fmt) == (negative, units, precision)
  {
    var body := Body(units, precision, fmt);
    BodyReads(units, precision, fmt);
    assert ("-" + body)[1..] == body && "" + body == body;
  }

  lemma NotSigned(digits: string, fmt: LocaleFormat, grouped: string)
    requires Readable(fmt) && digits != [] && (forall c | c in digits :: IsDigit(c))
    requires grouped == if fmt.group.Some? then Grouped(digits, fmt.group.value) else digits
    ensures grouped != [] && '-' !in grouped && fmt.decimal !in grouped
  {
    assert '-' !in DIGITS;
    if fmt.group.Some? {
      GroupedMarks(digits, fmt.group.value, '-');
      GroupedMarks(digits, fmt.group.value, fmt.decimal);
      GroupedNotEmpty(digits, fmt.group.value);
    }
  }

  /** For every language, different printed values have different texts. */
  lemma TextTellsValue(tag: string, n1: bool, u1: nat, n2: bool, u2: nat, precision: nat)
    ensures Written(n1, u1, precision, ForLang(tag)) == Written(n2, u2, precision, ForLang(tag)) ==>
            n1 == n2 && u1 == u2
  {
    EveryEntryReadable(tag);
    ReadsBack(n1, u1, precision, ForLang(tag));
    ReadsBack(n2, u2, precision, ForLang(tag));
  }
}
