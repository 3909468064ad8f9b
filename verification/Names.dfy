/** File names of a commitlog directory: a zero-padded decimal stem and an extension. */
module Names {
  import opened Base

  datatype Ext = LogExt | IndexExt | OtherExt(text: string)

  datatype FileName = FileName(stem: string, ext: Ext)

  function Digit(n: nat): char
    requires n < 10
  {
    '0' + n as char
  }

  predicate IsDigit(c: char) {
    '0' <= c <= '9'
  }

  function DigitValue(c: char): nat
    requires IsDigit(c)
  {
    (c - '0') as nat
  }

  /** Decimal digits without leading zeros, as an integer is displayed. */
  function Decimal(n: nat): (s: string)
    ensures |s| > 0
  {
    if n < 10 then [Digit(n)] else Decimal(n / 10) + [Digit(n % 10)]
  }

  /** Left-padding with zeros, as the format `{:0>5}` does. */
  function PadLeft(s: string, width: nat): string
    decreases width - |s|
  {
    if |s| >= width then s else PadLeft("0" + s, width)
  }

  function Stem(start: u16): string {
    PadLeft(Decimal(start), 5)
  }

  function LogName(start: u16): FileName {
    FileName(Stem(start), LogExt)
  }

  function IndexName(start: u16): FileName {
    FileName(Stem(start), IndexExt)
  }

  /** The number denoted by a string of digits. */
  function DigitsValue(s: string): nat
    requires forall c <- s :: IsDigit(c)
  {
    if s == [] then 0 else 10 * DigitsValue(s[..|s| - 1]) + DigitValue(s[|s| - 1])
  }

  /** `str::parse::<u16>`: an optional plus sign, then one or more digits, in range. */
  function ParseU16(s: string): Option<u16> {
    var digits := if |s| > 0 && s[0] == '+' then s[1..] else s;
    if digits == [] || exists c <- digits :: !IsDigit(c) then
      None
    else
      var n := DigitsValue(digits);
      if n < 0x1_0000 then Some(n) else None
  }

  lemma {:induction false} DecimalValue(n: nat)
    ensures forall c <- Decimal(n) :: IsDigit(c)
    ensures DigitsValue(Decimal(n)) == n
  {
    if n < 10 {
      assert Decimal(n)[..0] == [];
    } else {
      DecimalValue(n / 10);
      assert Decimal(n)[..|Decimal(n)| - 1] == Decimal(n / 10);
    }
  }

  lemma {:induction false} LeadingZero(s: string)
    requires forall c <- s :: IsDigit(c)
    ensures forall c <- "0" + s :: IsDigit(c)
    ensures DigitsValue("0" + s) == DigitsValue(s)
  {
    var t := "0" + s;
    if s == [] {
      assert t[..|t| - 1] == [];
    } else {
      LeadingZero(s[..|s| - 1]);
      assert t[..|t| - 1] == "0" + s[..|s| - 1];
    }
  }

  lemma {:induction false} PadLeftValue(s: string, width: nat)
    requires |s| > 0 && forall c <- s :: IsDigit(c)
    ensures |PadLeft(s, width)| == Max(|s|, width)
    ensures forall c <- PadLeft(s, width) :: IsDigit(c)
    ensures DigitsValue(PadLeft(s, width)) == DigitsValue(s)
    decreases width - |s|
  {
    if |s| < width {
      LeadingZero(s);
      PadLeftValue("0" + s, width);
    }
  }

  /** The name of a segment can be parsed back to its starting offset. */
  lemma ParseStem(start: u16)
    ensures ParseU16(Stem(start)) == Some(start)
  {
    DecimalValue(start);
    PadLeftValue(Decimal(start), 5);
    assert IsDigit(Stem(start)[0]);
  }

  /** Different starting offsets have different file stems. */
  lemma StemInjective(a: u16, b: u16)
    requires Stem(a) == Stem(b)
    ensures a == b
  {
    ParseStem(a);
    ParseStem(b);
  }

  // ---- what the names look like ----

  /** Five digits that denote a 16-bit number. */
  predicate IsFiveDigits(s: string) {
    |s| == 5 && (forall c <- s :: IsDigit(c)) && DigitsValue(s) < TWO_16
  }

  /** Digit strings of the same length that denote the same number are the same. */
  lemma {:induction false} SameDigits(s: string, t: string)
    requires |s| == |t| && (forall c <- s :: IsDigit(c)) && (forall c <- t :: IsDigit(c))
    requires DigitsValue(s) == DigitsValue(t)
    ensures s == t
  {
    if s != [] {
      var n := |s| - 1;
      LastDigit(DigitsValue(s[..n]), DigitValue(s[n]), DigitsValue(t[..n]), DigitValue(t[n]));
      SameDigits(s[..n], t[..n]);
      assert s == s[..n] + [s[n]] && t == t[..n] + [t[n]];
    }
  }

  lemma LastDigit(a: nat, x: nat, b: nat, y: nat)
    requires 10 * a + x == 10 * b + y && x < 10 && y < 10
    ensures a == b && x == y
  {
  }

  lemma {:induction false} DecimalLength(n: nat)
    ensures n < 0x1_0000 ==> |Decimal(n)| <= 5
    ensures n < 10000 ==> |Decimal(n)| <= 4
    ensures n < 1000 ==> |Decimal(n)| <= 3
    ensures n < 100 ==> |Decimal(n)| <= 2
    ensures n < 10 ==> |Decimal(n)| <= 1
  {
    if n >= 10 {
      DecimalLength(n / 10);
    }
  }

  /**
   * The stem of a segment is the one string of five digits that denotes its starting offset; so
   * every five digits below 65536 are the stem of exactly one segment.
   */
  lemma StemExact(start: u16, s: string)
    ensures IsFiveDigits(Stem(start)) && DigitsValue(Stem(start)) == start
    ensures IsFiveDigits(s) && DigitsValue(s) == start <==> s == Stem(start)
  {
    DecimalValue(start);
    DecimalLength(start);
    PadLeftValue(Decimal(start), 5);
    if IsFiveDigits(s) && DigitsValue(s) == start {
      SameDigits(s, Stem(start));
    }
  }

  /** Five digits denote the number that their places say. */
  lemma FivePlaces(s: string)
    requires |s| == 5 && forall c <- s :: IsDigit(c)
    ensures DigitsValue(s) == 10000 * DigitValue(s[0]) + 1000 * DigitValue(s[1]) + 100 * DigitValue(s[2])
                              + 10 * DigitValue(s[3]) + DigitValue(s[4])
  {
    var s4, s3, s2, s1 := s[..4], s[..3], s[..2], s[..1];
    assert s4[..3] == s3 && s3[..2] == s2 && s2[..1] == s1 && s1[..0] == [];
    assert DigitsValue(s1) == DigitValue(s[0]);
    assert DigitsValue(s2) == 10 * DigitsValue(s1) + DigitValue(s[1]);
    assert DigitsValue(s3) == 10 * DigitsValue(s2) + DigitValue(s[2]);
    assert DigitsValue(s4) == 10 * DigitsValue(s3) + DigitValue(s[3]);
  }

  /** The first stem, one in between, and the last. */
  lemma StemSamples()
    ensures Stem(0) == "00000" && Stem(42) == "00042" && Stem(0xFFFF) == "65535"
  {
    hide Stem;
    hide DigitsValue;
    FivePlaces("00000");
    StemExact(0, "00000");
    FivePlaces("00042");
    StemExact(42, "00042");
    FivePlaces("65535");
    StemExact(0xFFFF, "65535");
  }

  /** A string is a 16-bit number exactly when it is digits that denote one, after at most one plus sign. */
  lemma ParsesIff(s: string, n: u16)
    ensures ParseU16(s) == Some(n) <==>
            exists digits: string ::
              && (s == digits || s == "+" + digits)
              && |digits| > 0 && (forall c <- digits :: IsDigit(c)) && DigitsValue(digits) == n
  {
    if ParseU16(s) == Some(n) {
      var digits := if s[0] == '+' then s[1..] else s;
      assert s == digits || s == "+" + digits;
    }
    if digits: string :| && (s == digits || s == "+" + digits) && |digits| > 0
                         && (forall c <- digits :: IsDigit(c)) && DigitsValue(digits) == n
    {
      assert IsDigit(digits[0]);
      assert s == "+" + digits ==> s[1..] == digits;
    }
  }
}
