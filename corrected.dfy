/**
  Corrected decoding and display for the money type. Api models the Go code
  as written. This module holds the definitions that fix its defects, the
  properties those definitions were meant to have, and the concrete inputs on
  which the code as written departs from them. The defects:
  - the display drops the zero padding of the cents;
  - short negative tokens lose their sign, or put it into the cents;
  - longer negative tokens decode as sign and magnitude, which Add and Sub
    read as a different amount;
  - a two-byte token, a balance of one to nine cents, makes the slice panic.
*/
module Corrected {
  import opened Wrappers
  import opened Strconv
  import opened Api

  /** Go's `m / 10` on int, which truncates toward zero. */
  function TruncTenth(m: int): (q: int)
    ensures q >= 0 ==> (q * 10 <= m < q * 10 + 10 || (q == 0 && -10 < m < 10))
    ensures q < 0 ==> q * 10 - 10 < m <= q * 10
  {
    if m >= 0 then m / 10 else -((-m) / 10)
  }

  /**
    The token read as a signed number of thousandths of a unit, truncated to
    hundredths and normalised as Add and Sub keep it. A token Atoi rejects is
    reported instead of being read as 0.
  */
  function DecodeMilliunits(data: seq<byte>): (r: Result<BigValue, DecodeError>)
    ensures r.Failure? <==> Atoi(data).None?
    ensures r.Success? ==> r.value.Normal() && r.value.Cents() == TruncTenth(Atoi(data).value)
  {
    match Atoi(data)
    case None => Failure(Malformed(data))
    case Some(m) => Success(FromCents(TruncTenth(m)))
  }

  /** On digit tokens of three or more bytes, the correction changes nothing. */
  lemma DecodeMilliunitsAgrees(p: seq<byte>, a: byte, b: byte, c: byte)
    requires AllDigits(p) && IsDigit(a) && IsDigit(b) && IsDigit(c)
    ensures DecodeMilliunits(p + [a, b, c]) == Success(Decode(p + [a, b, c]))
  {
    var t := p + [a, b, c];
    DecodeDigits(p, a, b, c);
    NormalUnique(DecodeMilliunits(t).value, Decode(t));
  }

  /** `%d.%02d` of the amount's magnitude, with a minus sign when the amount is negative. */
  function RenderPadded(b: BigValue): (r: seq<byte>)
    ensures |r| >= 4 && r[|r| - 3] == Dot
    ensures (r[0] == Minus) <==> b.Cents() < 0
  {
    var c := b.Cents();
    var magnitude := if c < 0 then -c else c;
    var sign := if c < 0 then [Minus] else [];
    var cents := magnitude % 100;
    sign + NatDigits(magnitude / 100) + [Dot, DigitByte(cents / 10), DigitByte(cents % 10)]
  }

  /** Read as a decimal number (the dot removed), the padded rendering is exactly the amount in hundredths. */
  lemma RenderPaddedDenotes(b: BigValue)
    ensures var r := RenderPadded(b);
      Atoi(r[..|r| - 3] + r[|r| - 2..]) == Some(b.Cents())
  {
    var r := RenderPadded(b);
    var c := b.Cents();
    var magnitude := if c < 0 then -c else c;
    var sign: seq<byte> := if c < 0 then [Minus] else [];
    var cents := magnitude % 100;
    var whole, d1, d0 := NatDigits(magnitude / 100), DigitByte(cents / 10), DigitByte(cents % 10);
    var digits := whole + [d1, d0];
    assert r == sign + whole + [Dot, d1, d0];
    assert r[..|r| - 3] + r[|r| - 2..] == sign + digits;
    PaddedDigitsValue(magnitude);
    if c < 0 {
      assert (sign + digits)[1..] == digits;
    } else {
      assert sign + digits == digits;
    }
  }

  /** The digits of a magnitude in hundredths, with the cents padded to two places, read back as the magnitude. */
  lemma PaddedDigitsValue(m: nat)
    ensures var cents := m % 100;
      var digits := NatDigits(m / 100) + [DigitByte(cents / 10), DigitByte(cents % 10)];
      AllDigits(digits) && DigitsValue(digits) == m
  {
    var cents := m % 100;
    var whole, d1, d0 := NatDigits(m / 100), DigitByte(cents / 10), DigitByte(cents % 10);
    NatDigitsValue(m / 100);
    DigitsValueAppend(whole, d1);
    DigitsValueAppend(whole + [d1], d0);
    assert whole + [d1] + [d0] == whole + [d1, d0];
    assert m == m / 100 * 100 + cents;
    assert cents == cents / 10 * 10 + cents % 10;
  }

  /** For non-negative normal values whose cents need no padding, the corrected display is the original one. */
  lemma RenderPaddedAgrees(b: BigValue)
    requires b.Normal() && b.Whole >= 0 && b.Decimal >= 10
    ensures RenderPadded(b) == b.String()
  {
    var c := b.Cents();
    assert c / 100 == b.Whole && c % 100 == b.Decimal;
    assert NatDigits(b.Decimal) == NatDigits(b.Decimal / 10) + [DigitByte(b.Decimal % 10)];
  }

  /** Decoded and displayed with the corrections, a token shows the amount it carries, truncated to hundredths. */
  lemma CorrectedDisplayShowsToken(t: seq<byte>)
    requires DecodeMilliunits(t).Success?
    ensures var r := RenderPadded(DecodeMilliunits(t).value);
      Atoi(r[..|r| - 3] + r[|r| - 2..]) == Some(TruncTenth(Atoi(t).value))
  {
    RenderPaddedDenotes(DecodeMilliunits(t).value);
  }

  /**
    The token 1050 (1.05 units) decodes to {1, 5}, which String shows as
    "1.5"; the padded rendering shows "1.05".
  */
  lemma StringDropsPadding()
    ensures Decode(Itoa(1050)) == BigValue(1, 5)
    ensures BigValue(1, 5).String() == [49, Dot, 53]
    ensures RenderPadded(BigValue(1, 5)) == [49, Dot, 48, 53]
  {
    DecodeOneOhFive();
    assert Itoa(1) == [49] && Itoa(5) == [53];
    assert BigValue(1, 5).Cents() == 105;
  }

  /** The token 1050 splits into the whole digit 1, the decimal digits 05 and a dropped 0. */
  lemma DecodeOneOhFive()
    ensures Decode(Itoa(1050)) == BigValue(1, 5)
  {
    assert Itoa(1050) == NatDigits(1) + [DigitByte(0), DigitByte(5), DigitByte(0)];
    DecodeDigits(NatDigits(1), DigitByte(0), DigitByte(5), DigitByte(0));
  }

  /** The tokens -500 and -50, as %d writes them. */
  lemma NegativeTokens()
    ensures |Itoa(-500)| == 4 && Itoa(-500)[0] == Minus && AllDigits(Itoa(-500)[1..])
    ensures DigitsValue(Itoa(-500)[1..]) == 500 && Atoi(Itoa(-500)) == Some(-500)
    ensures |Itoa(-50)| == 3 && Itoa(-50)[0] == Minus && AllDigits(Itoa(-50)[1..])
    ensures DigitsValue(Itoa(-50)[1..]) == 50
  {
    AtoiItoa(-500);
    NatDigitsValue(500);
    assert Itoa(-500)[1..] == NatDigits(500);
    NatDigitsValue(50);
    assert Itoa(-50)[1..] == NatDigits(50);
  }

  /** The token -500 (minus half a unit) decodes to {0, 50}, a positive amount, which String shows as "0.50". */
  lemma NegativeTokenLosesSign()
    ensures Decode(Itoa(-500)) == BigValue(0, 50) && Decode(Itoa(-500)).Cents() > 0
    ensures Decode(Itoa(-500)).String() == [48, Dot, 53, 48]
  {
    NegativeTokens();
    DecodeNegativeThreeDigits(Itoa(-500));
    assert NatDigits(50) == NatDigits(5) + [DigitByte(0)];
  }

  /** The token -50 decodes to {0, -5}, outside the range Add and Sub keep. */
  lemma NegativeTokenLeavesRange()
    ensures Decode(Itoa(-50)) == BigValue(0, -5) && !Decode(Itoa(-50)).Normal()
  {
    NegativeTokens();
    DecodeNegativeTwoDigits(Itoa(-50));
  }

  /** With the corrections the token -500 decodes to {-1, 50}, shown as "-0.50". */
  lemma NegativeTokenCorrected()
    ensures DecodeMilliunits(Itoa(-500)) == Success(BigValue(-1, 50))
    ensures RenderPadded(BigValue(-1, 50)) == [Minus, 48, Dot, 53, 48]
  {
    NegativeTokens();
  }

  /**
    A minus sign and four or more digits: the decoder as written reads the
    pair as sign and magnitude (-Whole units and Decimal hundredths, both
    negative), while Add and Sub read it as Whole*100 + Decimal. The
    corrected decoder gives the normal form of the sign-and-magnitude reading,
    so the two agree only when Decimal is 0.
  */
  lemma DecodeMilliunitsNegative(p: seq<byte>, a: byte, b: byte, c: byte)
    requires p != [] && AllDigits(p) && IsDigit(a) && IsDigit(b) && IsDigit(c)
    ensures var t := [Minus] + p + [a, b, c]; var d := Decode(t);
      DecodeMilliunits(t) == Success(FromCents(d.Whole * 100 - d.Decimal)) &&
      (DecodeMilliunits(t) == Success(d) <==> d.Decimal == 0)
  {
    var d := Decode([Minus] + p + [a, b, c]);
    NegativeTokenThousandths(p, a, b, c);
    TruncTenthNegative((-d.Whole * 100 + d.Decimal) * 10 + DigitValue(c), -d.Whole * 100 + d.Decimal, DigitValue(c));
    ReadingsAgreeOnlyOnWholeUnits(d);
  }

  /** A minus sign and four or more digits: Atoi's value, split the way Decode splits it. */
  lemma NegativeTokenThousandths(p: seq<byte>, a: byte, b: byte, c: byte)
    requires p != [] && AllDigits(p) && IsDigit(a) && IsDigit(b) && IsDigit(c)
    ensures var t := [Minus] + p + [a, b, c]; var d := Decode(t);
      d.Whole <= 0 && d.Normal() &&
      Atoi(t) == Some(-((-d.Whole * 100 + d.Decimal) * 10 + DigitValue(c)))
  {
    var t := [Minus] + p + [a, b, c];
    assert t[1..] == p + [a, b, c];
    assert t[|t| - 1] == c;
    DecodeNegative(t);
  }

  /** The sign-and-magnitude amount W*100 - D and the amount W*100 + D that Add and Sub read agree only when D is 0. */
  lemma ReadingsAgreeOnlyOnWholeUnits(d: BigValue)
    requires d.Normal()
    ensures FromCents(d.Whole * 100 - d.Decimal) == d <==> d.Decimal == 0
  {
    NormalUnique(FromCents(d.Whole * 100 - d.Decimal), d);
  }

  /** Truncating a negated amount in thousandths drops its last digit toward zero. */
  lemma TruncTenthNegative(v: int, k: int, c: int)
    requires k >= 0 && 0 <= c < 10 && v == k * 10 + c
    ensures TruncTenth(-v) == -k
  {
  }

  /**
    The token -1500 (minus one and a half units) decodes to {-1, 50}. String
    shows it as "-1.50", but Add reads it as -0.50, so adding 0.60 gives
    {0, 10}.
  */
  lemma NegativeReadingsDisagree()
    ensures Decode(Itoa(-1500)) == BigValue(-1, 50) && Decode(Itoa(-1500)).Cents() == -50
    ensures Decode(Itoa(-1500)).String() == [Minus, 49, Dot, 53, 48]
    ensures Sum(Decode(Itoa(-1500)), BigValue(0, 60)) == BigValue(0, 10)
  {
    DecodeExamples();
    assert Itoa(-1) == [Minus, 49];
    assert Itoa(50) == NatDigits(5) + [DigitByte(0)];
  }

  /** The corrected decoder reads -1500 as {-2, 50}, which is -1.50 in Add's reading and renders as "-1.50". */
  lemma NegativeReadingCorrected()
    ensures DecodeMilliunits(Itoa(-1500)) == Success(BigValue(-2, 50))
    ensures BigValue(-2, 50).Cents() == -150
  {
    AtoiItoa(-1500);
  }

  /**
    Every balance of one to nine hundredths travels as a two-byte token
    (10 to 99 thousandths), which makes the Go slice panic; Big.UnmarshalJSON
    excludes exactly these tokens.
  */
  lemma CentTokensTooShort(m: nat)
    requires 10 <= m < 100
    ensures |Itoa(m)| == 2
  {
    assert Itoa(m) == NatDigits(m / 10) + [DigitByte(m % 10)];
  }

  /** The corrected decoder reads a two-digit token as thousandths truncated to hundredths: "10" is {0, 1}. */
  lemma DecodeMilliunitsTwoDigits(a: byte, b: byte)
    requires IsDigit(a) && IsDigit(b)
    ensures DecodeMilliunits([a, b]) == Success(BigValue(0, DigitValue(a)))
  {
    DigitsValueTwo(a, b);
    NormalUnique(DecodeMilliunits([a, b]).value, BigValue(0, DigitValue(a)));
  }
}
