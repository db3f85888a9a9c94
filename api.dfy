/**
  The fixed-point money type of the budgeting client: an amount held as a
  signed number of whole units and a number of hundredths (cents). Go's
  struct `Big` appears twice: `BigValue` is a Big copied by value (the operand
  of Add and Sub, the result of NewBig, the receiver of String), and the class
  `Big` is a Big variable that the methods taking *Big change in place.
*/
module Api {
  import opened Wrappers
  import opened Strconv

  datatype BigValue = BigValue(Whole: int, Decimal: int)
  {
    /** The amount in hundredths that the carry and borrow of Add and Sub preserve. */
    function Cents(): int { Whole * 100 + Decimal }

    /** The range Add and Sub restore: 0 <= Decimal < 100. */
    predicate Normal() { 0 <= Decimal < 100 }

    /**
      `fmt.Sprintf("%d.%d", Whole, Decimal)`: the whole part, a dot, and the
      decimal part with no zero padding. The only dot is the separator.
    */
    function String(): (r: seq<byte>)
      ensures |r| > |Itoa(Whole)| && r[|Itoa(Whole)|] == Dot
      ensures forall i :: 0 <= i < |r| && i != |Itoa(Whole)| ==> r[i] != Dot
      ensures (r[0] == Minus) <==> Whole < 0
    {
      Itoa(Whole) + [Dot] + Itoa(Decimal)
    }
  }

  /** The value a pair stands for, Whole units and Decimal hundredths, constructed without normalising. */
  function NewBig(number: int, decimal: int): (b: BigValue)
    ensures b.Whole == number && b.Decimal == decimal
    ensures b.Cents() == number * 100 + decimal
  {
    BigValue(number, decimal)
  }

  /** Add on values: component-wise sum and at most one carry. */
  function Sum(a: BigValue, b: BigValue): (r: BigValue)
    ensures r.Cents() == a.Cents() + b.Cents()
    ensures a.Normal() && b.Normal() ==> r.Normal()
  {
    var whole, decimal := a.Whole + b.Whole, a.Decimal + b.Decimal;
    if decimal >= 100 then BigValue(whole + 1, decimal - 100) else BigValue(whole, decimal)
  }

  /** Sub on values: component-wise difference and at most one borrow. */
  function Difference(a: BigValue, b: BigValue): (r: BigValue)
    ensures r.Cents() == a.Cents() - b.Cents()
    ensures a.Normal() && b.Normal() ==> r.Normal()
  {
    var whole, decimal := a.Whole - b.Whole, a.Decimal - b.Decimal;
    if decimal < 0 then BigValue(whole - 1, decimal + 100) else BigValue(whole, decimal)
  }

  /** The one normal pair for an amount in hundredths (floor division, as Add's carry keeps Decimal non-negative). */
  function FromCents(c: int): (r: BigValue)
    ensures r.Normal() && r.Cents() == c
  {
    BigValue(c / 100, c % 100)
  }

  /** Two normal pairs for the same amount are the same pair. */
  lemma NormalUnique(a: BigValue, b: BigValue)
    requires a.Normal() && b.Normal()
    ensures a.Cents() == b.Cents() ==> a == b
  {
  }

  /** One carry suffices: Add of normal operands yields exactly the normal form of the summed hundredths. */
  lemma SumIsNormalForm(a: BigValue, b: BigValue)
    requires a.Normal() && b.Normal()
    ensures Sum(a, b) == FromCents(a.Cents() + b.Cents())
  {
    NormalUnique(Sum(a, b), FromCents(a.Cents() + b.Cents()));
  }

  /** One borrow suffices: Sub of normal operands yields exactly the normal form of the difference. */
  lemma DifferenceIsNormalForm(a: BigValue, b: BigValue)
    requires a.Normal() && b.Normal()
    ensures Difference(a, b) == FromCents(a.Cents() - b.Cents())
  {
    NormalUnique(Difference(a, b), FromCents(a.Cents() - b.Cents()));
  }

  /** Sub undoes Add. */
  lemma SubUndoesAdd(a: BigValue, b: BigValue)
    requires a.Normal() && b.Normal()
    ensures Difference(Sum(a, b), b) == a
  {
    NormalUnique(Difference(Sum(a, b), b), a);
  }

  /** Add undoes Sub. */
  lemma AddUndoesSub(a: BigValue, b: BigValue)
    requires a.Normal() && b.Normal()
    ensures Sum(Difference(a, b), b) == a
  {
    NormalUnique(Sum(Difference(a, b), b), a);
  }

  lemma CarryAndBorrowExamples()
    ensures Sum(BigValue(1, 80), BigValue(0, 30)) == BigValue(2, 10)
    ensures Difference(BigValue(2, 10), BigValue(0, 30)) == BigValue(1, 80)
  {
  }

  /** What String writes can be split at its dot and read back with Atoi. */
  lemma StringParsesBack(b: BigValue)
    ensures var r, k := b.String(), |Itoa(b.Whole)|;
      Atoi(r[..k]) == Some(b.Whole) && Atoi(r[k + 1..]) == Some(b.Decimal)
  {
    var r, k := b.String(), |Itoa(b.Whole)|;
    assert r[..k] == Itoa(b.Whole);
    assert r[k + 1..] == Itoa(b.Decimal);
    AtoiItoa(b.Whole);
    AtoiItoa(b.Decimal);
  }

  /** Different values render differently. */
  lemma StringInjective(a: BigValue, b: BigValue)
    requires a.String() == b.String()
    ensures a == b
  {
    var r := a.String();
    var k := |Itoa(a.Whole)|;
    assert r[k] == Dot;
    assert k == |Itoa(b.Whole)|;
    StringParsesBack(a);
    StringParsesBack(b);
  }

  /** String writes Decimal without zero padding: w.d is d tenths, the same as w.d0. */
  lemma StringUnpadded(w: int, d: int)
    requires 1 <= d < 10
    ensures BigValue(w, d).String() + [Zero] == BigValue(w, 10 * d).String()
  {
    assert NatDigits(10 * d) == NatDigits(d) + [DigitByte(0)];
  }

  lemma StringExamples()
    ensures BigValue(5, 2).String() == [53, Dot, 50]       // "5.2"
    ensures BigValue(3, 50).String() == [51, Dot, 53, 48]  // "3.50"
  {
    assert NatDigits(50) == NatDigits(5) + [DigitByte(0)];
  }

  /**
    The wire rule of UnmarshalJSON for a token of three or more bytes: the last
    byte is dropped, the two before it give Decimal and everything before those
    gives Whole, each through Atoi with a failed parse read as 0.
  */
  function Decode(data: seq<byte>): (r: BigValue)
    requires |data| >= 3
    ensures IsDigit(data[|data| - 3]) && IsDigit(data[|data| - 2]) ==>
      r.Decimal == 10 * DigitValue(data[|data| - 3]) + DigitValue(data[|data| - 2]) && 0 <= r.Decimal < 100
    ensures !IsDigit(data[|data| - 2]) ==> r.Decimal == 0
    ensures |data| == 3 ==> r.Whole == 0
    ensures |data| > 3 && !IsDigit(data[|data| - 4]) ==> r.Whole == 0
  {
    var n := |data|;
    var decimal := data[n - 3..n - 1];
    var whole := data[..n - 3];
    TwoDigitSlice(data);
    assert n > 3 ==> whole[n - 4] == data[n - 4];
    BigValue(AtoiOrZero(whole), AtoiOrZero(decimal))
  }

  /** The slice Decode takes Decimal from, when both its bytes are digits. */
  lemma TwoDigitSlice(data: seq<byte>)
    requires |data| >= 3
    ensures var n := |data|; var d := data[n - 3..n - 1];
      d[1] == data[n - 2] &&
      (IsDigit(data[n - 3]) && IsDigit(data[n - 2]) ==>
         Atoi(d) == Some(10 * DigitValue(data[n - 3]) + DigitValue(data[n - 2])))
  {
    var n := |data|;
    var a, b := data[n - 3], data[n - 2];
    if IsDigit(a) && IsDigit(b) {
      assert data[n - 3..n - 1] == [a, b];
      DigitsValueTwo(a, b);
    }
  }

  /** Decode splits a token into the whole slice, the decimal pair and the dropped last byte. */
  lemma DecodeParts(p: seq<byte>, a: byte, b: byte, c: byte)
    ensures Decode(p + [a, b, c]) == BigValue(AtoiOrZero(p), AtoiOrZero([a, b]))
  {
    var t := p + [a, b, c];
    assert t[..|t| - 3] == p;
    assert t[|t| - 3..|t| - 1] == [a, b];
  }

  /**
    A digit token of three or more bytes is an amount in thousandths of a unit:
    Whole is the value of the digits before the last three, Decimal the value
    of the two after those, and the pair's amount in hundredths, shifted one
    place and followed by the dropped last digit, is the token's value.
  */
  lemma DecodeDigits(p: seq<byte>, a: byte, b: byte, c: byte)
    requires AllDigits(p) && IsDigit(a) && IsDigit(b) && IsDigit(c)
    ensures AllDigits(p + [a, b, c])
    ensures Decode(p + [a, b, c]) == BigValue(DigitsValue(p), 10 * DigitValue(a) + DigitValue(b))
    ensures Decode(p + [a, b, c]).Cents() * 10 + DigitValue(c) == DigitsValue(p + [a, b, c])
  {
    DecodeParts(p, a, b, c);
    DigitsValueAppendThree(p, a, b, c);
    DigitsValueTwo(a, b);
  }

  /**
    A minus sign and four or more digits: Whole is negated and Decimal is not,
    so the digits read back as -Whole units and Decimal hundredths.
  */
  lemma DecodeNegative(t: seq<byte>)
    requires |t| >= 5 && t[0] == Minus && AllDigits(t[1..])
    ensures var d := Decode(t);
      d.Whole <= 0 && d.Normal() &&
      -d.Whole * 1000 + d.Decimal * 10 + DigitValue(t[|t| - 1]) == DigitsValue(t[1..])
  {
    var n, u := |t|, t[1..];
    var p, a, b, c := u[..n - 4], u[n - 4], u[n - 3], u[n - 2];
    assert u == p + [a, b, c];
    assert t == [Minus] + p + [a, b, c];
    DecodeParts([Minus] + p, a, b, c);
    assert ([Minus] + p)[1..] == p;
    DigitsValueAppendThree(p, a, b, c);
    DigitsValueTwo(a, b);
  }

  /** A minus sign and three digits: the whole slice is only "-", so Whole is 0 and the sign is lost. */
  lemma DecodeNegativeThreeDigits(t: seq<byte>)
    requires |t| == 4 && t[0] == Minus && AllDigits(t[1..])
    ensures Decode(t).Whole == 0 && Decode(t).Normal()
    ensures Decode(t).Decimal * 10 + DigitValue(t[3]) == DigitsValue(t[1..])
  {
    var u := t[1..];
    assert u == [] + [u[0], u[1], u[2]];
    assert t == [Minus] + [u[0], u[1], u[2]];
    DecodeParts([Minus], u[0], u[1], u[2]);
    DigitsValueAppendThree([], u[0], u[1], u[2]);
    DigitsValueTwo(u[0], u[1]);
  }

  /** A minus sign and two digits: the sign falls into the decimal slice, so Decimal is negative. */
  lemma DecodeNegativeTwoDigits(t: seq<byte>)
    requires |t| == 3 && t[0] == Minus && AllDigits(t[1..])
    ensures Decode(t).Whole == 0 && Decode(t).Decimal <= 0
    ensures -Decode(t).Decimal * 10 + DigitValue(t[2]) == DigitsValue(t[1..])
  {
    var u := t[1..];
    assert t == [] + [Minus, u[0], u[1]];
    DecodeParts([], Minus, u[0], u[1]);
    DigitsValueTwo(u[0], u[1]);
    assert u == [u[0], u[1]];
    assert [Minus, u[0]][1..] == [u[0]];
    assert [u[0]] == [] + [u[0]];
    DigitsValueAppend([], u[0]);
  }

  lemma DecodeExamples()
    ensures Decode(Itoa(12345)) == BigValue(12, 34)
    ensures Decode(Itoa(-1500)) == BigValue(-1, 50)
  {
    DecodePositiveExample();
    DecodeNegativeExample();
  }

  lemma DecodePositiveExample()
    ensures Decode(Itoa(12345)) == BigValue(12, 34)
  {
    assert Itoa(12345) == NatDigits(12) + [DigitByte(3), DigitByte(4), DigitByte(5)];
    NatDigitsValue(12);
    DecodeDigits(NatDigits(12), DigitByte(3), DigitByte(4), DigitByte(5));
  }

  lemma DecodeNegativeExample()
    ensures Decode(Itoa(-1500)) == BigValue(-1, 50)
  {
    NatDigitsValue(1500);
    assert Itoa(-1500)[1..] == NatDigits(1500);
    assert |NatDigits(1500)| == 4;
    DecodeNegative(Itoa(-1500));
  }

  /** The error UnmarshalJSON could report; the Go code never does. */
  datatype DecodeError = Malformed(token: seq<byte>)

  /** A Big variable: the receiver of Add, Sub and UnmarshalJSON, which take *Big. */
  class Big {
    var Whole: int
    var Decimal: int

    constructor (v: BigValue)
      ensures Value() == v
    {
      Whole, Decimal := v.Whole, v.Decimal;
    }

    function Value(): BigValue
      reads this
    {
      BigValue(Whole, Decimal)
    }

    predicate Valid()
      reads this
    {
      Value().Normal()
    }

    method Add(amount: BigValue)
      modifies this
      ensures Value() == Sum(old(Value()), amount)
      ensures Value().Cents() == old(Value().Cents()) + amount.Cents()
      ensures old(Valid()) && amount.Normal() ==> Valid()
    {
      Whole := Whole + amount.Whole;
      Decimal := Decimal + amount.Decimal;
      if Decimal >= 100 {
        Whole := Whole + 1;
        Decimal := Decimal - 100;
      }
    }

    method Sub(amount: BigValue)
      modifies this
      ensures Value() == Difference(old(Value()), amount)
      ensures Value().Cents() == old(Value().Cents()) - amount.Cents()
      ensures old(Valid()) && amount.Normal() ==> Valid()
    {
      Whole := Whole - amount.Whole;
      Decimal := Decimal - amount.Decimal;
      if Decimal < 0 {
        Whole := Whole - 1;
        Decimal := Decimal + 100;
      }
    }

    /**
      Decodes a raw JSON number token into this variable. Tokens of length 0
      and 2 make the Go slice expression panic, so callers must not pass them.
    */
    method UnmarshalJSON(data: seq<byte>) returns (err: Option<DecodeError>)
      requires |data| == 1 || |data| >= 3
      modifies this
      ensures err == None
      ensures |data| == 1 ==> Value() == old(Value())
      ensures |data| >= 3 ==> Value() == Decode(data)
    {
      if |data| == 1 {
        return None;
      }
      var n := |data|;
      var decimal := AtoiOrZero(data[n - 3..n - 1]);
      var whole := AtoiOrZero(data[..n - 3]);
      Whole := whole;
      Decimal := decimal;
      return None;
    }
  }
}
