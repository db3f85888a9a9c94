/**
  Go's decimal integer conversions as the money type uses them: strconv.Atoi,
  which the decoder applies to slices of the wire token, and the %d verb of
  fmt, which String uses. Go strings are byte sequences, so both work on bytes.
  Integers are unbounded here: Atoi's clamping of out-of-range values is not
  modelled.
*/
module Strconv {
  import opened Wrappers

  newtype byte = b: int | 0 <= b < 256

  const Zero: byte := 48      // '0'
  const PlusSign: byte := 43  // '+'
  const Minus: byte := 45     // '-'
  const Dot: byte := 46       // '.'

  predicate IsDigit(b: byte) { Zero <= b <= Zero + 9 }

  predicate IsSign(b: byte) { b == Minus || b == PlusSign }

  function DigitValue(b: byte): (d: nat)
    requires IsDigit(b)
    ensures d < 10
  {
    (b - Zero) as nat
  }

  function DigitByte(d: nat): (b: byte)
    requires d < 10
    ensures IsDigit(b) && DigitValue(b) == d
  {
    Zero + d as byte
  }

  predicate AllDigits(s: seq<byte>) { forall i :: 0 <= i < |s| ==> IsDigit(s[i]) }

  /** The number a string of decimal digits denotes, most significant digit first. */
  function DigitsValue(s: seq<byte>): nat
    requires AllDigits(s)
    decreases |s|
  {
    if s == [] then 0 else DigitsValue(s[..|s| - 1]) * 10 + DigitValue(s[|s| - 1])
  }

  /** Appending a digit shifts the value one decimal place. */
  lemma DigitsValueAppend(s: seq<byte>, b: byte)
    requires AllDigits(s) && IsDigit(b)
    ensures AllDigits(s + [b])
    ensures DigitsValue(s + [b]) == DigitsValue(s) * 10 + DigitValue(b)
  {
    assert (s + [b])[..|s|] == s;
  }

  lemma DigitsValueTwo(a: byte, b: byte)
    requires IsDigit(a) && IsDigit(b)
    ensures AllDigits([a, b]) && DigitsValue([a, b]) == DigitValue(a) * 10 + DigitValue(b)
  {
    DigitsValueAppend([a], b);
    assert [a][..0] == [];
    assert [a] + [b] == [a, b];
  }

  lemma DigitsValueAppendThree(p: seq<byte>, a: byte, b: byte, c: byte)
    requires AllDigits(p) && IsDigit(a) && IsDigit(b) && IsDigit(c)
    ensures AllDigits(p + [a, b, c])
    ensures DigitsValue(p + [a, b, c]) == DigitsValue(p) * 1000 + DigitValue(a) * 100 + DigitValue(b) * 10 + DigitValue(c)
  {
    DigitsValueAppend(p, a);
    DigitsValueAppend(p + [a], b);
    DigitsValueAppend(p + [a] + [b], c);
    assert p + [a] + [b] + [c] == p + [a, b, c];
  }

  /**
    strconv.Atoi: an optional sign, then one or more ASCII digits. None stands
    for the syntax error, in which case Atoi's integer result is 0.
  */
  function Atoi(s: seq<byte>): (r: Option<int>)
    ensures r.Some? ==> |s| > 0
    ensures s != [] && AllDigits(s) ==> r == Some(DigitsValue(s))
    ensures |s| >= 2 && IsSign(s[0]) && AllDigits(s[1..]) ==>
      var v: int := DigitsValue(s[1..]); r == Some(if s[0] == Minus then -v else v)
    ensures |s| == 1 && IsSign(s[0]) ==> r == None
    ensures r.Some? && r.value < 0 ==> s[0] == Minus
    ensures |s| > 0 && !IsDigit(s[0]) && !IsSign(s[0]) ==> r == None
    ensures (exists i :: 1 <= i < |s| && !IsDigit(s[i])) ==> r == None
  {
    if |s| == 0 then None
    else
      var digits := if IsSign(s[0]) then s[1..] else s;
      assert forall i :: 1 <= i < |s| ==> s[i] == digits[i - |s| + |digits|];
      if digits == [] || !AllDigits(digits) then None
      else
        var magnitude: int := DigitsValue(digits);
        Some(if s[0] == Minus then -magnitude else magnitude)
  }

  /** `n, _ := strconv.Atoi(s)`: the parsed value, or 0 when the syntax is wrong. */
  function AtoiOrZero(s: seq<byte>): (r: int)
    ensures AllDigits(s) ==> r == DigitsValue(s)
    ensures |s| >= 2 && IsSign(s[0]) && AllDigits(s[1..]) ==>
      var v: int := DigitsValue(s[1..]); r == (if s[0] == Minus then -v else v)
    ensures s == [] || (exists i :: 1 <= i < |s| && !IsDigit(s[i])) ==> r == 0
    ensures |s| == 1 && IsSign(s[0]) ==> r == 0
    ensures |s| > 0 && !IsDigit(s[0]) && !IsSign(s[0]) ==> r == 0
  {
    match Atoi(s)
    case Some(n) => n
    case None => 0
  }

  /** The decimal digits of a natural number, without leading zeros. */
  function NatDigits(n: nat): (s: seq<byte>)
    ensures |s| > 0 && AllDigits(s)
    ensures s[0] == Zero ==> n == 0
    decreases n
  {
    if n < 10 then [DigitByte(n)] else NatDigits(n / 10) + [DigitByte(n % 10)]
  }

  /** fmt's %d: a minus sign for negative numbers, then the digits of the magnitude. */
  function Itoa(n: int): (s: seq<byte>)
    ensures |s| > 0
    ensures (s[0] == Minus) <==> n < 0
    ensures forall i :: 0 <= i < |s| ==> IsDigit(s[i]) || (i == 0 && s[i] == Minus)
    ensures var digits := if n < 0 then s[1..] else s; digits != [] && (digits[0] == Zero ==> n == 0)
  {
    if n < 0 then
      assert ([Minus] + NatDigits(-n))[1..] == NatDigits(-n);
      [Minus] + NatDigits(-n)
    else NatDigits(n)
  }

  lemma {:induction false} NatDigitsValue(n: nat)
    ensures DigitsValue(NatDigits(n)) == n
    decreases n
  {
    if n >= 10 {
      NatDigitsValue(n / 10);
      DigitsValueAppend(NatDigits(n / 10), DigitByte(n % 10));
    } else {
      assert [DigitByte(n)][..0] == [];
    }
  }

  /** Atoi reads back what %d writes. */
  lemma AtoiItoa(n: int)
    ensures Atoi(Itoa(n)) == Some(n)
  {
    if n < 0 {
      NatDigitsValue(-n);
      assert Itoa(n)[1..] == NatDigits(-n);
    } else {
      NatDigitsValue(n);
    }
  }
}
