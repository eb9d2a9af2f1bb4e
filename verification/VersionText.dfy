/**
 Version texts (tools/version_util.py) and their meaning. The translator compares versions by
 `version_as_numeric`, the C preprocessor by the value of the text that `version_as_variable`
 emits into an `#if`. Texts are taken to be ASCII.
 */
module VersionText {
  import opened Options

  const EXP_VERSION: string := "999999"
  const EXP_NAME: string := "EXPERIMENTAL"
  const NEXT_VERSION: string := "999998"
  const NEXT_NAME: string := "NEXT"

  predicate IsDigit(c: char) {
    '0' <= c <= '9'
  }

  /** `s.isnumeric()` for ASCII text of positive length. */
  predicate AllDigits(s: string) {
    forall i :: 0 <= i < |s| ==> IsDigit(s[i])
  }

  function DigitValue(c: char): nat
    requires IsDigit(c)
  {
    c as int - '0' as int
  }

  /** The number written by the digits of `s` in the given base. */
  function ValueIn(base: nat, s: string): nat
    requires AllDigits(s)
  {
    if s == [] then 0 else ValueIn(base, s[..|s| - 1]) * base + DigitValue(s[|s| - 1])
  }

  function UpperChar(c: char): char {
    if 'a' <= c <= 'z' then (c as int - 32) as char else c
  }

  function Upper(s: string): string {
    seq(|s|, i requires 0 <= i < |s| => UpperChar(s[i]))
  }

  predicate Tracked(s: string) {
    (|s| == 5 || |s| == 6) && AllDigits(s) && s != EXP_VERSION && s != NEXT_VERSION
  }

  predicate ValidVersion(s: string) {
    s == EXP_NAME || s == NEXT_NAME || Tracked(s)
  }

  /** `version_parse`; None where it asserts. */
  function Parse(s: string): Option<(nat, nat)> {
    if !Tracked(s) then None else
      var split := if |s| == 5 then 3 else 4;
      Some((ValueIn(10, s[..split]), ValueIn(10, s[split..])))
  }

  /** `version_as_numeric` */
  function AsNumeric(text: string): Option<nat> {
    var s := Upper(text);
    if !ValidVersion(s) then None
    else if s == EXP_NAME then Some(ValueIn(10, EXP_VERSION))
    else if s == NEXT_NAME then Some(ValueIn(10, NEXT_VERSION))
    else Some(ValueIn(10, s))
  }

  /** `version_as_variable` */
  function AsVariable(text: string): Option<string> {
    var s := Upper(text);
    if !ValidVersion(s) then None
    else if s == EXP_NAME || s == NEXT_NAME then Some("CEF_" + s)
    else Some(s)
  }

  // ----- The value of an emitted variable in an #if -----

  predicate IsOctal(s: string) {
    AllDigits(s) && forall i :: 0 <= i < |s| ==> s[i] < '8'
  }

  /** CEF_NEXT and CEF_EXPERIMENTAL are macros; digits after a leading 0 are octal in C. */
  function CValue(variable: string): Option<nat> {
    if variable == "CEF_" + NEXT_NAME then Some(999998)
    else if variable == "CEF_" + EXP_NAME then Some(999999)
    else if variable == [] || !AllDigits(variable) then None
    else if variable[0] != '0' then Some(ValueIn(10, variable))
    else if IsOctal(variable) then Some(ValueIn(8, variable))
    else None
  }

  lemma {:induction false} OctalBelowDecimal(s: string)
    requires IsOctal(s)
    ensures ValueIn(8, s) <= ValueIn(10, s)
    ensures ValueIn(8, s) == ValueIn(10, s) <==> ValueIn(10, s) < 8
  {
    if s == [] {
    } else {
      OctalBelowDecimal(s[..|s| - 1]);
    }
  }

  lemma {:induction false} SmallIsOctal(s: string)
    requires AllDigits(s) && ValueIn(10, s) < 8
    ensures IsOctal(s)
  {
    if s == [] {
    } else {
      SmallIsOctal(s[..|s| - 1]);
      forall i | 0 <= i < |s|
        ensures s[i] < '8'
      {
        assert i < |s| - 1 ==> s[i] == s[..|s| - 1][i];
      }
    }
  }

  /** A literal whose C value is the number the tool works with. */
  predicate Faithful(text: string) {
    AsNumeric(text).Some? && AsVariable(text).Some? && CValue(AsVariable(text).value) == AsNumeric(text)
  }

  lemma {:induction false} NamedValues()
    ensures ValueIn(10, EXP_VERSION) == 999999
    ensures ValueIn(10, NEXT_VERSION) == 999998
  {
    NineValues(5);
    assert EXP_VERSION == Nines(5) + "9";
    assert NEXT_VERSION == Nines(5) + "8";
    assert EXP_VERSION[..5] == Nines(5) == NEXT_VERSION[..5];
    assert 99999 == Power10(5) - 1;
  }

  function Nines(n: nat): string {
    seq(n, _ => '9')
  }

  function Power10(n: nat): nat {
    if n == 0 then 1 else 10 * Power10(n - 1)
  }

  lemma {:induction false} NineValues(n: nat)
    ensures AllDigits(Nines(n)) && ValueIn(10, Nines(n)) == Power10(n) - 1
  {
    if n == 0 {
    } else {
      NineValues(n - 1);
      assert Nines(n)[..n - 1] == Nines(n - 1);
    }
  }

  /** Exactly which valid version texts mean the same to the tool and to the C preprocessor. */
  lemma {:induction false} FaithfulIff(text: string)
    requires ValidVersion(Upper(text))
    ensures Faithful(text) <==>
            var s := Upper(text);
            s == EXP_NAME || s == NEXT_NAME || s[0] != '0' || AsNumeric(text).value < 8
  {
    var s := Upper(text);
    NamedValues();
    assert |"CEF_" + EXP_NAME| != |"CEF_" + NEXT_NAME|;
    if s != EXP_NAME && s != NEXT_NAME {
      assert !IsDigit(("CEF_" + NEXT_NAME)[0]) && !IsDigit(("CEF_" + EXP_NAME)[0]);
      assert IsDigit(s[0]);
      if s[0] == '0' {
        if IsOctal(s) {
          OctalBelowDecimal(s);
        } else if ValueIn(10, s) < 8 {
          SmallIsOctal(s);
        }
      }
    }
  }

  /** The text spells a word in capitals, in small letters, or mixed. */
  predicate Spells(text: string, word: string) {
    |text| == |word|
    && forall i :: 0 <= i < |word| ==>
                     || text[i] == word[i]
                     || ('A' <= word[i] <= 'Z' && text[i] as int == word[i] as int + 32)
  }

  lemma {:induction false} UpperIff(text: string, word: string)
    requires forall i :: 0 <= i < |word| ==> 'A' <= word[i] <= 'Z'
    ensures Upper(text) == word <==> Spells(text, word)
  {
    if Spells(text, word) {
      assert forall i :: 0 <= i < |word| ==> Upper(text)[i] == word[i];
    }
    if Upper(text) == word {
      assert forall i :: 0 <= i < |word| ==> Upper(text)[i] == word[i];
    }
  }

  lemma {:induction false} UpperDigits(text: string)
    ensures AllDigits(text) ==> Upper(text) == text
    ensures AllDigits(Upper(text)) ==> AllDigits(text)
  {
    assert forall i :: 0 <= i < |text| ==> Upper(text)[i] == UpperChar(text[i]);
  }

  /** Exactly which texts are versions, and which number each has. */
  lemma {:induction false} NumericMeaning(text: string)
    ensures AsNumeric(text)
            == if Spells(text, "EXPERIMENTAL") then Some(999999)
               else if Spells(text, "NEXT") then Some(999998)
               else if (|text| == 5 || |text| == 6) && AllDigits(text) && text != "999999" && text != "999998"
               then Some(ValueIn(10, text))
               else None
  {
    UpperIff(text, "EXPERIMENTAL");
    UpperIff(text, "NEXT");
    UpperDigits(text);
    NamedValues();
    hide ValueIn, Spells;
    assert |Upper(text)| == |text|;
  }

  /** The two names are emitted as the macros CEF_EXPERIMENTAL and CEF_NEXT, numbers as they are. */
  lemma {:induction false} VariableMeaning(text: string)
    requires AsNumeric(text).Some?
    ensures AsVariable(text)
            == if Spells(text, "EXPERIMENTAL") then Some("CEF_EXPERIMENTAL")
               else if Spells(text, "NEXT") then Some("CEF_NEXT")
               else Some(text)
  {
    NumericMeaning(text);
    UpperIff(text, "EXPERIMENTAL");
    UpperIff(text, "NEXT");
    UpperDigits(text);
    hide ValueIn, Spells;
    assert "CEF_" + "EXPERIMENTAL" == "CEF_EXPERIMENTAL" && "CEF_" + "NEXT" == "CEF_NEXT";
  }

  // ----- Decimal numerals -----

  /** `'%d' % n` */
  function Decimal(n: nat): (r: string)
    ensures r != "" && AllDigits(r)
  {
    (if n < 10 then "" else Decimal(n / 10)) + [('0' as int + n % 10) as char]
  }

  lemma {:induction false} DecimalValue(n: nat)
    ensures ValueIn(10, Decimal(n)) == n
  {
    var d := Decimal(n);
    if n >= 10 {
      DecimalValue(n / 10);
      assert d[..|d| - 1] == Decimal(n / 10);
    } else {
      assert d[..|d| - 1] == "" && ValueIn(10, "") == 0;
    }
  }

  lemma {:induction false} DecimalInjective(m: nat, n: nat)
    requires Decimal(m) == Decimal(n)
    ensures m == n
  {
    DecimalValue(m);
    DecimalValue(n);
  }

  /** A numeral of more than one digit does not begin with a zero. */
  lemma {:induction false} DecimalLeads(n: nat)
    ensures |Decimal(n)| > 1 ==> Decimal(n)[0] != '0'
    ensures n > 0 ==> Decimal(n)[0] != '0'
  {
    if n >= 10 {
      DecimalLeads(n / 10);
      assert Decimal(n)[0] == Decimal(n / 10)[0];
    }
  }

  lemma {:induction false} LeadingNonZero(s: string)
    requires s != "" && AllDigits(s) && s[0] != '0'
    ensures ValueIn(10, s) > 0
  {
    if |s| > 1 {
      LeadingNonZero(s[..|s| - 1]);
    }
  }

  /** Reading a numeral without leading zeros and writing it again gives it back. */
  lemma {:induction false} DecimalOfValue(s: string)
    requires s != "" && AllDigits(s) && (|s| == 1 || s[0] != '0')
    ensures Decimal(ValueIn(10, s)) == s
  {
    var init, last := s[..|s| - 1], s[|s| - 1];
    var v, d := ValueIn(10, init), DigitValue(last);
    assert ('0' as int + d) as char == last;
    assert ValueIn(10, s) == v * 10 + d;
    if |s| == 1 {
      assert init == "" && v == 0;
    } else {
      LeadingNonZero(init);
      DecimalOfValue(init);
      assert (v * 10 + d) / 10 == v && (v * 10 + d) % 10 == d;
    }
    assert s == init + [last];
  }

  lemma {:induction false} ValueLast(base: nat, s: string, c: char)
    requires AllDigits(s) && IsDigit(c)
    ensures AllDigits(s + [c]) && ValueIn(base, s + [c]) == ValueIn(base, s) * base + DigitValue(c)
  {
    assert (s + [c])[..|s|] == s;
  }

  /** The value of five digits. */
  lemma {:induction false} FiveDigits(base: nat, s: string)
    requires |s| == 5 && AllDigits(s)
    ensures ValueIn(base, s)
            == (((DigitValue(s[0]) * base + DigitValue(s[1])) * base + DigitValue(s[2])) * base
                + DigitValue(s[3])) * base + DigitValue(s[4])
  {
    assert s[..1] == "" + [s[0]];
    ValueLast(base, "", s[0]);
    assert s[..2] == s[..1] + [s[1]];
    ValueLast(base, s[..1], s[1]);
    assert s[..3] == s[..2] + [s[2]];
    ValueLast(base, s[..2], s[2]);
    assert s[..4] == s[..3] + [s[3]];
    ValueLast(base, s[..3], s[3]);
    assert s == s[..4] + [s[4]];
    ValueLast(base, s[..4], s[4]);
  }

  /** A five-digit version without a leading zero is read alike. */
  lemma {:induction false} VersionNumeral(s: string, n: nat)
    requires |s| == 5 && AllDigits(s) && s[0] != '0'
    requires n == DigitValue(s[0]) * 10000 + DigitValue(s[1]) * 1000 + DigitValue(s[2]) * 100
                  + DigitValue(s[3]) * 10 + DigitValue(s[4])
    ensures Faithful(s) && AsNumeric(s) == Some(n)
  {
    FiveDigits(10, s);
    assert Upper(s) == s;
    assert Tracked(s);
    assert !IsDigit(EXP_NAME[0]) && !IsDigit(NEXT_NAME[0]);
    FaithfulIff(s);
  }

  // ----- version_make -----

  /** `n` in decimal, padded with zeros to `w` digits. */
  function Padded(n: nat, w: nat): (r: string)
    ensures |r| == w && AllDigits(r)
  {
    if w == 0 then "" else Padded(n / 10, w - 1) + [('0' as int + n % 10) as char]
  }

  /** `version_make`; None where it asserts. */
  function Make(major: int, revision: int): Option<string> {
    if !(0 < major < 9999 && 0 <= revision <= 99) then None
    else if major < 1000 then Some(Padded(major, 3) + Padded(revision, 2))
    else Some(Padded(major, 4) + Padded(revision, 2))
  }

  lemma {:induction false} PaddedValue(n: nat, w: nat)
    requires n < Power10(w)
    ensures ValueIn(10, Padded(n, w)) == n
  {
    if w == 0 {
    } else {
      PaddedValue(n / 10, w - 1);
      assert Padded(n, w)[..w - 1] == Padded(n / 10, w - 1);
    }
  }

  /** Two more digits. */
  lemma {:induction false} PaddedJoin(major: nat, w: nat, revision: nat)
    requires revision <= 99
    ensures Padded(major * 100 + revision, w + 2) == Padded(major, w) + Padded(revision, 2)
  {
    var n := major * 100 + revision;
    assert n / 10 == major * 10 + revision / 10 && n % 10 == revision % 10;
    assert n / 10 / 10 == major && (n / 10) % 10 == revision / 10;
    assert revision / 10 % 10 == revision / 10;
    var tens := [('0' as int + revision / 10) as char];
    var ones := [('0' as int + revision % 10) as char];
    assert Padded(revision, 1) == Padded(revision / 10, 0) + [('0' as int + revision % 10) as char] == ones;
    assert Padded(revision / 10, 1) == Padded(revision / 100, 0) + tens == tens;
    assert Padded(revision, 2) == tens + ones;
    assert Padded(n, w + 2) == Padded(major, w) + tens + ones;
  }

  lemma {:induction false} PowerFacts()
    ensures Power10(2) == 100 && Power10(3) == 1000 && Power10(4) == 10000
    ensures Power10(5) == 100000 && Power10(6) == 1000000
  {
    assert Power10(1) == 10 && Power10(2) == 100;
    assert Power10(3) == 1000 && Power10(4) == 10000 && Power10(5) == 100000;
  }

  /** Making a version and parsing it, or taking its number, loses nothing. */
  lemma {:induction false} MakeRoundTrip(major: int, revision: int)
    requires Make(major, revision).Some?
    ensures Parse(Make(major, revision).value) == Some((major, revision))
    ensures AsNumeric(Make(major, revision).value) == Some(major * 100 + revision)
  {
    var s := Make(major, revision).value;
    var w := if major < 1000 then 3 else 4;
    PowerFacts();
    PaddedValue(major, w);
    PaddedValue(revision, 2);
    PaddedJoin(major, w, revision);
    PaddedValue(major * 100 + revision, w + 2);
    assert s[..w] == Padded(major, w) && s[w..] == Padded(revision, 2);
    NamedValues();
    assert ValueIn(10, s) == major * 100 + revision;
    assert Tracked(s);
    assert Upper(s) == s;
    assert !IsDigit(EXP_NAME[0]) && !IsDigit(NEXT_NAME[0]) && IsDigit(s[0]);
  }

  /** The numbers of made versions compare as major and revision do. */
  lemma {:induction false} MadeVersionsOrdered(major: int, revision: int, major': int, revision': int)
    requires Make(major, revision).Some? && Make(major', revision').Some?
    ensures AsNumeric(Make(major, revision).value).Some? && AsNumeric(Make(major', revision').value).Some?
    ensures AsNumeric(Make(major, revision).value).value < AsNumeric(Make(major', revision').value).value
            <==> major < major' || (major == major' && revision < revision')
  {
    MakeRoundTrip(major, revision);
    MakeRoundTrip(major', revision');
    hide *;
  }

  /** A version the tool makes is read correctly by the preprocessor exactly from major 100 on. */
  lemma {:induction false} MadeVersionFaithfulIff(major: int, revision: int)
    requires Make(major, revision).Some?
    ensures Faithful(Make(major, revision).value) <==> major >= 100
  {
    var s := Make(major, revision).value;
    MakeRoundTrip(major, revision);
    assert Upper(s) == s;
    FaithfulIff(s);
    assert !IsDigit(EXP_NAME[0]) && !IsDigit(NEXT_NAME[0]) && IsDigit(s[0]);
    if major < 1000 {
      assert major / 10 / 10 < 10;
      assert Padded(major, 3) == Padded(major / 10, 2) + [('0' as int + major % 10) as char];
      assert Padded(major / 10, 2)
          == Padded(major / 10 / 10, 1) + [('0' as int + major / 10 % 10) as char];
      assert Padded(major / 10 / 10, 1)
          == Padded(major / 10 / 10 / 10, 0) + [('0' as int + major / 10 / 10 % 10) as char];
      assert s[0] == ('0' as int + major / 10 / 10) as char;
    } else {
      LeadingDigit(major, 4);
    }
  }

  lemma {:induction false} LeadingDigit(n: nat, w: nat)
    requires w > 0 && Power10(w - 1) <= n < Power10(w)
    ensures Padded(n, w)[0] != '0'
  {
    if w == 1 {
      assert Padded(n, 1) == Padded(n / 10, 0) + [('0' as int + n % 10) as char];
      assert Power10(1) == 10 * Power10(0) == 10;
    } else {
      LeadingDigit(n / 10, w - 1);
    }
  }
}
