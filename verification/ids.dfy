/** Transaction identifiers: the decimal text Java produces for the counter
    (`String.format("%03d", n)` in step 5, `"T" + n` in step 6) and the
    `Integer.parseInt` reading of an identifier's suffix used on reload. */
module TransactionIds {
  import opened Common

  const Int32Min: int := -0x8000_0000
  const Int32Max: int := 0x7FFF_FFFF

  predicate IsDigit(c: char) {
    '0' <= c <= '9'
  }

  predicate AllDigits(s: string) {
    forall i :: 0 <= i < |s| ==> IsDigit(s[i])
  }

  function DigitChar(d: nat): (c: char)
    requires d < 10
    ensures IsDigit(c) && c as int - '0' as int == d
  {
    ('0' as int + d) as char
  }

  /** The decimal digits of `n`, most significant first, without leading zeros. */
  function Digits(n: nat): (s: string)
    ensures 1 <= |s| && AllDigits(s)
    ensures n >= 10 ==> s[0] != '0'
    ensures n < 10 ==> |s| == 1
    ensures n < 1000 ==> |s| <= 3
  {
    if n < 10 then [DigitChar(n)] else Digits(n / 10) + [DigitChar(n % 10)]
  }

  /** The number a string of decimal digits denotes (leading zeros allowed). */
  function DigitsValue(s: string): nat
    requires AllDigits(s)
  {
    if |s| == 0 then 0
    else 10 * DigitsValue(s[..|s| - 1]) + (s[|s| - 1] as int - '0' as int)
  }

  function Zeros(k: nat): (s: string)
    ensures |s| == k && AllDigits(s)
  {
    if k == 0 then "" else "0" + Zeros(k - 1)
  }

  /** Left-pads a digit string with zeros to at least `width` characters. */
  function ZeroPad(s: string, width: nat): (r: string)
    ensures |r| == if |s| < width then width else |s|
    ensures AllDigits(s) ==> AllDigits(r)
  {
    if |s| < width then Zeros(width - |s|) + s else s
  }

  /** `Integer.toString(n)`: a minus sign for negatives, then the digits. */
  function IntToString(n: int): (s: string)
    ensures |s| >= 1 && (s[0] == '-' <==> n < 0)
    ensures n >= 0 ==> AllDigits(s) && (n >= 10 ==> s[0] != '0')
    ensures n < 0 ==> |s| >= 2 && AllDigits(s[1..]) && (n <= -10 ==> s[1] != '0')
  {
    if n < 0 then "-" + Digits(-n) else Digits(n)
  }

  /** `String.format("%03d", n)`: the digits zero-padded so that the whole
      text, sign included, is at least three characters wide. */
  function Format03(n: int): (s: string)
    ensures |s| >= 3 && (s[0] == '-' <==> n < 0)
    ensures n >= 0 ==> AllDigits(s)
    ensures n < 0 ==> AllDigits(s[1..])
    ensures -99 <= n <= 999 ==> |s| == 3
  {
    if n < 0 then "-" + ZeroPad(Digits(-n), 2) else ZeroPad(Digits(n), 3)
  }

  /** Identifier issued by the step 5 ledger for counter value `n`. */
  function PaddedId(n: int): string {
    "T" + Format03(n)
  }

  /** Identifier issued by the step 6 ledger for counter value `n`. */
  function PlainId(n: int): string {
    "T" + IntToString(n)
  }

  /** An optional `+` or `-` followed by one or more decimal digits, read
      without any range limit; `None` for any other text. */
  function ParseDecimal(s: string): Option<int> {
    if 1 < |s| && (s[0] == '-' || s[0] == '+') && AllDigits(s[1..]) then
      var magnitude: int := DigitsValue(s[1..]);
      Some(if s[0] == '-' then -magnitude else magnitude)
    else if 0 < |s| && AllDigits(s) then
      Some(DigitsValue(s))
    else
      None
  }

  /** `Integer.parseInt(s)`: `None` stands for the `NumberFormatException`
      thrown for malformed text or a value outside the 32-bit range. */
  function ParseInt(s: string): (r: Option<int>)
    ensures r.Some? ==> Int32Min <= r.value <= Int32Max && ParseDecimal(s) == r
    ensures ParseDecimal(s).Some? && Int32Min <= ParseDecimal(s).value <= Int32Max ==> r == ParseDecimal(s)
  {
    match ParseDecimal(s)
    case Some(v) => if Int32Min <= v <= Int32Max then Some(v) else None
    case None => None
  }

  lemma {:induction false} DigitsRoundTrip(n: nat)
    ensures DigitsValue(Digits(n)) == n
  {
    if n >= 10 {
      var s := Digits(n);
      assert s[..|s| - 1] == Digits(n / 10);
      DigitsRoundTrip(n / 10);
    }
  }

  lemma {:induction false} ZerosValue(k: nat)
    ensures DigitsValue(Zeros(k)) == 0
  {
    if k > 0 {
      var z := Zeros(k);
      assert z == Zeros(k - 1) + "0" by {
        ZerosShift(k);
      }
      assert z[..|z| - 1] == Zeros(k - 1);
      ZerosValue(k - 1);
    }
  }

  lemma {:induction false} ZerosShift(k: nat)
    requires k > 0
    ensures Zeros(k) == Zeros(k - 1) + "0"
  {
    if k > 1 {
      ZerosShift(k - 1);
    }
  }

  /** Leading zeros do not change the value of a digit string. */
  lemma {:induction false} LeadingZerosValue(k: nat, s: string)
    requires AllDigits(s)
    ensures AllDigits(Zeros(k) + s)
    ensures DigitsValue(Zeros(k) + s) == DigitsValue(s)
  {
    var t := Zeros(k) + s;
    if |s| == 0 {
      assert t == Zeros(k);
      ZerosValue(k);
    } else {
      assert t[..|t| - 1] == Zeros(k) + s[..|s| - 1];
      LeadingZerosValue(k, s[..|s| - 1]);
    }
  }

  /** A non-empty digit string reads as its value. */
  lemma ParseUnsigned(p: string)
    requires AllDigits(p) && 1 <= |p|
    ensures ParseDecimal(p) == Some(DigitsValue(p))
  {
    assert IsDigit(p[0]);
  }

  /** A minus sign before a non-empty digit string reads as the negated value. */
  lemma ParseNegative(p: string)
    requires AllDigits(p) && 1 <= |p|
    ensures ParseDecimal("-" + p) == Some(-(DigitsValue(p) as int))
  {
    assert ("-" + p)[1..] == p;
  }

  /** Zero padding keeps a digit string's value. */
  lemma ZeroPadValue(d: string, w: nat)
    requires AllDigits(d) && 1 <= |d|
    ensures AllDigits(ZeroPad(d, w)) && 1 <= |ZeroPad(d, w)|
    ensures DigitsValue(ZeroPad(d, w)) == DigitsValue(d)
  {
    if |d| < w {
      LeadingZerosValue(w - |d|, d);
    }
  }

  /** The zero-padded digits of `m`, with or without a minus sign, read back
      as `m` or `-m`. */
  lemma PaddedDigitsRoundTrip(m: nat, w: nat)
    ensures ParseDecimal(ZeroPad(Digits(m), w)) == Some(m)
    ensures ParseDecimal("-" + ZeroPad(Digits(m), w)) == Some(-(m as int))
  {
    var p := ZeroPad(Digits(m), w);
    ZeroPadValue(Digits(m), w);
    DigitsRoundTrip(m);
    ParseUnsigned(p);
    ParseNegative(p);
  }

  /** Reading back the step 6 text of any integer yields that integer. */
  lemma IntToStringRoundTrip(n: int)
    ensures ParseDecimal(IntToString(n)) == Some(n)
  {
    if n < 0 {
      PaddedDigitsRoundTrip(-n, 0);
      assert IntToString(n) == "-" + ZeroPad(Digits(-n), 0);
    } else {
      PaddedDigitsRoundTrip(n, 0);
      assert IntToString(n) == ZeroPad(Digits(n), 0);
    }
  }

  /** Reading back the step 5 text of any integer yields that integer. */
  lemma Format03RoundTrip(n: int)
    ensures ParseDecimal(Format03(n)) == Some(n)
  {
    if n < 0 {
      PaddedDigitsRoundTrip(-n, 2);
      assert Format03(n) == "-" + ZeroPad(Digits(-n), 2);
    } else {
      PaddedDigitsRoundTrip(n, 3);
      assert Format03(n) == ZeroPad(Digits(n), 3);
    }
  }

  /** `Integer.parseInt` accepts exactly the 32-bit range of `Integer.toString`. */
  lemma ParseIntOfIntToString(n: int)
    requires Int32Min <= n <= Int32Max
    ensures ParseInt(IntToString(n)) == Some(n)
  {
    IntToStringRoundTrip(n);
  }

  /** Distinct counter values give distinct step 5 identifiers. */
  lemma PaddedIdInjective(m: int, n: int)
    ensures PaddedId(m) == PaddedId(n) <==> m == n
  {
    if PaddedId(m) == PaddedId(n) {
      assert Format03(m) == PaddedId(m)[1..] == PaddedId(n)[1..] == Format03(n);
      Format03RoundTrip(m);
      Format03RoundTrip(n);
    }
  }

  /** Distinct counter values give distinct step 6 identifiers. */
  lemma PlainIdInjective(m: int, n: int)
    ensures PlainId(m) == PlainId(n) <==> m == n
  {
    if PlainId(m) == PlainId(n) {
      assert IntToString(m) == PlainId(m)[1..] == PlainId(n)[1..] == IntToString(n);
      IntToStringRoundTrip(m);
      IntToStringRoundTrip(n);
    }
  }

  /** The first counter value gives the identifier `T001` in step 5 and `T1` in step 6. */
  lemma FirstIdentifiers()
    ensures PaddedId(1) == "T001"
    ensures PlainId(1) == "T1"
  {
    assert Digits(1) == "1";
    assert Zeros(2) == "00";
  }
}
