/** Text helpers the trivia game relies on: the upper-casing used for the
    case-insensitive answer check, and the decimal rendering of a natural
    number that Python's `str` gives question numbers and CSV cells. */
module Text {

  datatype Option<T> = None | Some(value: T)

  /* ---------------------------------------------------------------------
     Case folding (ASCII subset of `str.upper`)
     --------------------------------------------------------------------- */

  predicate IsLowerLetter(c: char) { 'a' <= c <= 'z' }

  /** `c.upper()` restricted to ASCII: a lower-case letter moves to its
      upper-case partner, every other character is kept. */
  function UpperChar(c: char): char
  {
    if IsLowerLetter(c) then (c as int - 32) as char else c
  }

  /** `s.upper()` restricted to ASCII. */
  function Upper(s: string): string
  {
    seq(|s|, i requires 0 <= i < |s| => UpperChar(s[i]))
  }

  /** Reference definition of "the same character up to letter case":
      equal, or one is a lower-case letter and the other its upper-case form. */
  predicate SameIgnoringCase(x: char, y: char)
  {
    || x == y
    || (IsLowerLetter(x) && y as int == x as int - 32)
    || (IsLowerLetter(y) && x as int == y as int - 32)
  }

  /** Two strings that differ at most in the letter case of their characters. */
  predicate EqualIgnoringCase(a: string, b: string)
  {
    |a| == |b| && forall i :: 0 <= i < |a| ==> SameIgnoringCase(a[i], b[i])
  }

  lemma UpperCharEqual(x: char, y: char)
    ensures UpperChar(x) == UpperChar(y) <==> SameIgnoringCase(x, y)
  {
  }

  /** Comparing upper-cased strings is exactly equality up to letter case. */
  lemma UpperEqualIff(a: string, b: string)
    ensures Upper(a) == Upper(b) <==> EqualIgnoringCase(a, b)
  {
    if Upper(a) == Upper(b) {
      assert |a| == |Upper(a)| == |Upper(b)| == |b|;
      forall i | 0 <= i < |a| ensures SameIgnoringCase(a[i], b[i]) {
        assert Upper(a)[i] == Upper(b)[i];
        UpperCharEqual(a[i], b[i]);
      }
    }
    if EqualIgnoringCase(a, b) {
      forall i | 0 <= i < |a| ensures Upper(a)[i] == Upper(b)[i] {
        UpperCharEqual(a[i], b[i]);
      }
    }
  }

  /* ---------------------------------------------------------------------
     Decimal numerals (`str(n)` and reading it back)
     --------------------------------------------------------------------- */

  predicate IsDigit(c: char) { '0' <= c <= '9' }

  predicate AllDigits(s: string) { forall i :: 0 <= i < |s| ==> IsDigit(s[i]) }

  function DigitChar(d: nat): (c: char)
    requires d < 10
    ensures IsDigit(c) && c as int - '0' as int == d
  {
    ('0' as int + d) as char
  }

  /** `str(n)` for a non-negative integer: its decimal digits, no sign and
      no leading zero. */
  function NatToString(n: nat): (s: string)
    ensures |s| >= 1 && AllDigits(s)
    ensures |s| > 1 ==> s[0] != '0'
    decreases n
  {
    if n < 10 then [DigitChar(n)] else NatToString(n / 10) + [DigitChar(n % 10)]
  }

  /** The value of a string of decimal digits, most significant first. */
  function DigitsValue(s: string): nat
    requires AllDigits(s)
  {
    if |s| == 0 then 0
    else DigitsValue(s[..|s| - 1]) * 10 + (s[|s| - 1] as int - '0' as int)
  }

  /** Reads a CSV cell back as a natural number: a non-empty string of
      decimal digits, and nothing else, is a number. */
  function ParseNat(s: string): (r: Option<nat>)
    ensures r.Some? <==> |s| > 0 && AllDigits(s)
  {
    if |s| > 0 && AllDigits(s) then Some(DigitsValue(s)) else None
  }

  /** Writing a number and reading it back gives the number. */
  lemma {:induction false} ParseNatToString(n: nat)
    ensures ParseNat(NatToString(n)) == Some(n)
    decreases n
  {
    var s := NatToString(n);
    if n >= 10 {
      ParseNatToString(n / 10);
      assert s[..|s| - 1] == NatToString(n / 10);
      assert DigitsValue(s) == DigitsValue(NatToString(n / 10)) * 10 + n % 10;
    }
  }

  /** A numeral whose first digit is not 0 has a positive value. */
  lemma {:induction false} DigitsValuePositive(s: string)
    requires |s| > 0 && AllDigits(s) && s[0] != '0'
    ensures DigitsValue(s) > 0
    decreases |s|
  {
    if |s| > 1 {
      DigitsValuePositive(s[..|s| - 1]);
    }
  }

  /** Reading a cell and writing the number again gives the cell back, for
      every numeral `str` can produce: non-empty digits, with a leading 0
      only in "0" itself. */
  lemma {:induction false} NatToStringParseNat(s: string)
    requires |s| > 0 && AllDigits(s) && (|s| == 1 || s[0] != '0')
    ensures ParseNat(s).Some? && NatToString(ParseNat(s).value) == s
    decreases |s|
  {
    var v := DigitsValue(s);
    var d := s[|s| - 1] as int - '0' as int;
    var p := s[..|s| - 1];
    if |s| == 1 {
      assert p == [] && DigitsValue(p) == 0;
      assert v == DigitsValue(p) * 10 + d;
      assert NatToString(v) == [DigitChar(d)];
    } else {
      NatToStringParseNat(p);
      DigitsValuePositive(p);
      assert v == DigitsValue(p) * 10 + d;
      assert v / 10 == DigitsValue(p) && v % 10 == d;
      assert NatToString(v) == NatToString(DigitsValue(p)) + [DigitChar(d)];
      assert s == p + [s[|s| - 1]];
    }
  }

  /** Distinct numbers have distinct numerals. */
  lemma NatToStringInjective(m: nat, n: nat)
    ensures NatToString(m) == NatToString(n) <==> m == n
  {
    ParseNatToString(m);
    ParseNatToString(n);
  }
}
