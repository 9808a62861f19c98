/** Decimal numerals as strconv.Itoa writes them and strconv.Atoi reads them, and int32 conversion. */
module Decimal {
  import opened Optional

  const TWO_31 := 0x8000_0000
  const TWO_63 := 0x8000_0000_0000_0000

  type Int32 = x: int | -TWO_31 <= x < TWO_31

  /** The conversion int32(n) keeps the low 32 bits. */
  function ToInt32(n: int): (r: Int32)
    ensures (n - r) % (2 * TWO_31) == 0
  {
    (n + TWO_31) % (2 * TWO_31) - TWO_31
  }

  predicate IsDigit(c: char) {
    '0' <= c <= '9'
  }

  function Digit(d: nat): (c: char)
    requires d < 10
    ensures IsDigit(c) && DigitValue(c) == d
  {
    '0' + d as char
  }

  function DigitValue(c: char): nat
    requires IsDigit(c)
  {
    (c - '0') as nat
  }

  function Digits(n: nat): string {
    if n < 10 then [Digit(n)] else Digits(n / 10) + [Digit(n % 10)]
  }

  function Itoa(n: int): string {
    if n < 0 then "-" + Digits(-n) else Digits(n)
  }

  predicate AllDigits(s: string) {
    s != "" && forall c :: c in s ==> IsDigit(c)
  }

  function Value(s: string): (v: int)
    requires forall c :: c in s ==> IsDigit(c)
    ensures v >= 0
  {
    if s == "" then 0 else 10 * Value(s[..|s| - 1]) + DigitValue(s[|s| - 1])
  }

  /** An optional sign and at least one digit, within the range of a 64-bit integer. */
  function Atoi(s: string): Option<int> {
    var signed := s != "" && (s[0] == '-' || s[0] == '+');
    var digits := if signed then s[1..] else s;
    if !AllDigits(digits) then None
    else
      var n: int := if signed && s[0] == '-' then 0 - Value(digits) else Value(digits);
      if -TWO_63 <= n < TWO_63 then Some(n) else None
  }

  lemma {:induction false} DigitsRoundTrip(n: nat)
    ensures AllDigits(Digits(n)) && Value(Digits(n)) == n
    decreases n
  {
    if n < 10 {
      assert Digits(n)[..0] == "";
    } else {
      DigitsRoundTrip(n / 10);
      assert Digits(n)[..|Digits(n)| - 1] == Digits(n / 10);
    }
  }

  /** A number is written without leading zeros, and with a sign only if it is negative. */
  lemma ItoaIsPlain(n: int)
    ensures var d := if n < 0 then Itoa(n)[1..] else Itoa(n);
            && AllDigits(d) && (d[0] == '0' ==> n == 0 && d == "0")
            && (n < 0 ==> Itoa(n)[0] == '-')
  {
    var m := if n < 0 then -n else n;
    DigitsRoundTrip(m);
    NoLeadingZero(m);
    assert n < 0 ==> Itoa(n)[1..] == Digits(m);
  }

  lemma {:induction false} NoLeadingZero(n: nat)
    ensures Digits(n) != "" && (Digits(n)[0] == '0' ==> n == 0)
    decreases n
  {
    if n >= 10 {
      NoLeadingZero(n / 10);
    }
  }

  lemma ReadPlain(s: string)
    requires AllDigits(s) && Value(s) < TWO_63
    ensures Atoi(s) == Some(Value(s))
  {
    assert s[0] in s;
  }

  lemma ReadNegative(s: string)
    requires AllDigits(s) && Value(s) <= TWO_63
    ensures Atoi("-" + s) == Some(-Value(s))
  {
  }

  lemma ReadPlus(s: string)
    requires AllDigits(s) && Value(s) < TWO_63
    ensures Atoi("+" + s) == Some(Value(s))
  {
  }

  /** A numeral with or without a sign that stands for `n`. */
  ghost predicate IsNumeral(s: string, n: int) {
    exists d: string :: AllDigits(d) &&
      ((s == d && n == Value(d)) || (s == "+" + d && n == Value(d)) || (s == "-" + d && n == -Value(d)))
  }

  lemma ReadOnlyNumerals(s: string, n: int)
    requires Atoi(s) == Some(n)
    ensures IsNumeral(s, n)
  {
    if s[0] == '-' || s[0] == '+' {
      assert s == [s[0]] + s[1..];
      assert AllDigits(s[1..]);
    } else {
      assert AllDigits(s);
    }
  }

  /** Exactly the numerals of 64-bit integers are read, as what they stand for. */
  lemma AtoiExactly(s: string, n: int)
    ensures Atoi(s) == Some(n) <==> IsNumeral(s, n) && -0x8000_0000_0000_0000 <= n <= 0x7FFF_FFFF_FFFF_FFFF
  {
    if Atoi(s) == Some(n) {
      ReadOnlyNumerals(s, n);
    }
    if IsNumeral(s, n) && -TWO_63 <= n < TWO_63 {
      var d: string :| AllDigits(d) &&
        ((s == d && n == Value(d)) || (s == "+" + d && n == Value(d)) || (s == "-" + d && n == -Value(d)));
      if s == d && n == Value(d) {
        ReadPlain(d);
      } else if s == "+" + d {
        ReadPlus(d);
      } else {
        ReadNegative(d);
      }
    }
  }

  /** Reading undoes writing for every 64-bit integer, the smallest one included. */
  lemma ItoaRoundTrip(n: int)
    requires -TWO_63 <= n < TWO_63
    ensures Atoi(Itoa(n)) == Some(n)
    ensures Itoa(n) != "" && (IsDigit(Itoa(n)[0]) || Itoa(n)[0] == '-')
  {
    if n < 0 {
      DigitsRoundTrip(-n);
      ReadNegative(Digits(-n));
    } else {
      DigitsRoundTrip(n);
      ReadPlain(Digits(n));
      assert Digits(n)[0] in Digits(n);
    }
  }

  lemma Int32IsFixed(n: Int32)
    ensures ToInt32(n) == n
  {
  }

  lemma ValueSnoc(s: string, c: char)
    requires AllDigits(s) && IsDigit(c)
    ensures AllDigits(s + [c]) && Value(s + [c]) == 10 * Value(s) + DigitValue(c)
  {
    assert (s + [c])[..|s|] == s;
  }

  lemma First4Digits()
    ensures AllDigits("4294") && Value("4294") == 4294
  {
    assert "4"[..0] == "" && Value("4") == 4;
    ValueSnoc("4", '2');
    assert "4" + ['2'] == "42";
    ValueSnoc("42", '9');
    assert "42" + ['9'] == "429";
    ValueSnoc("429", '4');
    assert "429" + ['4'] == "4294";
  }

  lemma First7Digits()
    ensures AllDigits("4294967") && Value("4294967") == 4294967
  {
    First4Digits();
    ValueSnoc("4294", '9');
    assert "4294" + ['9'] == "42949";
    ValueSnoc("42949", '6');
    assert "42949" + ['6'] == "429496";
    ValueSnoc("429496", '7');
    assert "429496" + ['7'] == "4294967";
  }

  /** A numeral beyond the range of int32. */
  lemma ReadPastInt32()
    ensures Atoi("4294967297") == Some(4294967297)
  {
    First7Digits();
    ValueSnoc("4294967", '2');
    assert "4294967" + ['2'] == "42949672";
    ValueSnoc("42949672", '9');
    assert "42949672" + ['9'] == "429496729";
    ValueSnoc("429496729", '7');
    assert "429496729" + ['7'] == "4294967297";
    ReadPlain("4294967297");
  }
}
