/** Decimal conversion of 32-bit integers, in place and without ever negating the value. */
module Decimal {
  import opened Codec
  import opened Strings

  type int32 = x: int | -0x8000_0000 <= x < 0x8000_0000

  const ZERO: byte := 48
  const MINUS: byte := 45

  /** The conversion table around its middle, index 35, which is '0': a digit and its negation
      lie equally far to either side. */
  const LETTERS_DOWN: string := "zyxwvutsrqponmlkjihgfedcba"
  const DIGITS_MIRRORED: string := "9876543210123456789"
  const LETTERS_UP: string := "abcdefghijklmnopqrstuvwxyz"

  function TableAt(i: nat): char
    requires i < 71
  {
    if i < 26 then LETTERS_DOWN[i] else if i < 45 then DIGITS_MIRRORED[i - 26] else LETTERS_UP[i - 45]
  }

  function DigitAt(d: int): (c: byte)
    requires -9 <= d <= 9
    ensures c == ZERO + if d < 0 then -d else d
  {
    MirroredIsDigit(d);
    TableAt(35 + d) as int
  }

  lemma MirroredIsDigit(d: int)
    requires -9 <= d <= 9
    ensures TableAt(35 + d) == (ZERO + if d < 0 then -d else d) as char
  {
    var t := DIGITS_MIRRORED;
    assert t[0] == '9' && t[1] == '8' && t[2] == '7' && t[3] == '6' && t[4] == '5' && t[5] == '4' && t[6] == '3';
    assert t[7] == '2' && t[8] == '1' && t[9] == '0' && t[10] == '1' && t[11] == '2' && t[12] == '3';
    assert t[13] == '4' && t[14] == '5' && t[15] == '6' && t[16] == '7' && t[17] == '8' && t[18] == '9';
  }

  function Abs(v: int): nat {
    if v < 0 then -v else v
  }

  /** Division by ten as C does it: toward zero. */
  function Tenth(v: int): (q: int)
    ensures Abs(q) == Abs(v) / 10
    ensures v >= 0 ==> q >= 0
    ensures v <= 0 ==> q <= 0
  {
    if v < 0 then -((-v) / 10) else v / 10
  }

  // ---- what a decimal numeral is ------------------------------------------------------------

  function Digits(n: nat): (s: Text)
    ensures |s| >= 1
  {
    if n < 10 then [ZERO + n] else Digits(n / 10) + [ZERO + n % 10]
  }

  function Numeral(v: int): Text {
    if v < 0 then [MINUS] + Digits(-v) else Digits(v)
  }

  function DigitsValue(s: Text): int {
    if s == [] then 0 else 10 * DigitsValue(s[..|s| - 1]) + s[|s| - 1] - ZERO
  }

  function Value(s: Text): int {
    if s != [] && s[0] == MINUS then -DigitsValue(s[1..]) else DigitsValue(s)
  }

  /** Decimal digits, no leading zero unless the number is zero, and never a zero byte. */
  lemma {:induction false} DigitsCanonical(n: nat)
    ensures forall i :: 0 <= i < |Digits(n)| ==> ZERO <= Digits(n)[i] <= ZERO + 9
    ensures Digits(n)[0] == ZERO <==> n == 0
    ensures DigitsValue(Digits(n)) == n
  {
    if n >= 10 {
      DigitsCanonical(n / 10);
      assert Digits(n)[..|Digits(n)| - 1] == Digits(n / 10);
    } else {
      assert Digits(n)[..0] == [];
    }
  }

  /** Reading a numeral back gives the number. */
  lemma NumeralRoundTrip(v: int)
    ensures Value(Numeral(v)) == v
    ensures 0 !in Numeral(v)
    ensures |Numeral(v)| > 1 ==> Numeral(v)[0] != ZERO && !(v < 0 && Numeral(v)[1] == ZERO)
  {
    DigitsCanonical(Abs(v));
    if v < 0 {
      assert Numeral(v)[1..] == Digits(-v);
    } else if v >= 10 {
      assert |Digits(v)| > 1;
    }
  }

  function Pow10(k: nat): nat {
    if k == 0 then 1 else 10 * Pow10(k - 1)
  }

  lemma {:induction false} DigitsLength(n: nat, k: nat)
    requires k >= 1 && n < Pow10(k)
    ensures |Digits(n)| <= k
  {
    if n >= 10 {
      DigitsLength(n / 10, k - 1);
    }
  }

  // ---- the conversion -----------------------------------------------------------------------

  function Reversed(s: Text): (r: Text)
    ensures |r| == |s|
    ensures forall i :: 0 <= i < |s| ==> r[i] == s[|s| - 1 - i]
  {
    if s == [] then [] else [s[|s| - 1]] + Reversed(s[..|s| - 1])
  }

  /** Writes the numeral of `value`, terminated, at the start of the buffer. */
  method Itoa(value: int32, result: array<byte>)
    requires result.Length >= 12
    modifies result
    ensures HoldsText(result, Numeral(value))
    ensures forall k :: |Numeral(value)| < k < result.Length ==> result[k] == old(result[k])
  {
    NumeralRoundTrip(value);
    var n := EmitDigits(value, result);
    result[n] := 0;
    assert forall k :: n < k < result.Length ==> result[k] == old(result[k]);
    ghost var tail := result[n..];
    ReversePrefix(result, n);
    assert forall k :: n <= k < result.Length ==> result[k] == result[n..][k - n] == tail[k - n];
  }

  /** Appends one byte. */
  method Emit(result: array<byte>, n: nat, c: byte)
    requires n < result.Length
    modifies result
    ensures Reversed(result[..n + 1]) == [c] + Reversed(old(result[..n]))
    ensures forall k :: n < k < result.Length ==> result[k] == old(result[k])
  {
    ghost var before := result[..n];
    result[n] := c;
    assert result[..n + 1] == before + [c];
  }

  /** Appends the last digit of `tmp`; returns what is left of it. */
  method EmitDigit(tmp: int32, result: array<byte>, n: nat) returns (v: int32)
    requires n < result.Length
    modifies result
    ensures Abs(v) == Abs(tmp) / 10 && (v != 0 ==> (v < 0 <==> tmp < 0))
    ensures (if v != 0 then Digits(Abs(v)) else []) + Reversed(result[..n + 1])
         == Digits(Abs(tmp)) + Reversed(old(result[..n]))
    ensures forall k :: n < k < result.Length ==> result[k] == old(result[k])
  {
    v := Tenth(tmp);
    ghost var rest := Reversed(result[..n]);
    var back: int32 := v * 10;
    var digit := DigitAt(tmp - back);
    Emit(result, n, digit);
    assert (if v != 0 then Digits(Abs(v)) else []) + ([digit] + rest) == Digits(Abs(tmp)) + rest;
  }

  /** Digits least significant first, then the sign; returns how many bytes were written. */
  method EmitDigits(value: int32, result: array<byte>) returns (n: nat)
    requires result.Length >= 12
    modifies result
    ensures n == |Numeral(value)| <= 11
    ensures Reversed(result[..n]) == Numeral(value)
    ensures forall k :: n <= k < result.Length ==> result[k] == old(result[k])
  {
    var v: int32 := value;
    var tmp: int32 := value;
    var more := true;
    ghost var all := Digits(Abs(value));
    assert Pow10(10) == 1_0000000000;
    DigitsLength(Abs(value), 10);
    n := 0;
    while more
      invariant n <= |all| <= 10 && forall k :: n <= k < result.Length ==> result[k] == old(result[k])
      invariant all == (if more then Digits(Abs(v)) else []) + Reversed(result[..n])
      invariant if more then (v < 0 <==> value < 0) else tmp < 0 <==> value < 0
      invariant more && n > 0 ==> v != 0
      decreases more, Abs(v)
    {
      tmp := v;
      v := EmitDigit(tmp, result, n);
      n := n + 1;
      more := v != 0;
    }
    if tmp < 0 {
      Emit(result, n, MINUS);
      n := n + 1;
    }
  }

  /** Swaps from both ends until the ends meet. */
  method ReversePrefix(result: array<byte>, n: nat)
    requires n <= result.Length
    modifies result
    ensures result[..n] == Reversed(old(result[..n])) && result[n..] == old(result[n..])
  {
    var i, j := 0, n - 1;
    while i < j
      invariant 0 <= i <= n && j == n - 1 - i && i <= j + 1
      invariant forall k :: 0 <= k < n ==> result[k] == if i <= k <= j then old(result[k]) else old(result[n - 1 - k])
      invariant result[n..] == old(result[n..])
    {
      result[i], result[j] := result[j], result[i];
      i, j := i + 1, j - 1;
    }
    assert forall k :: 0 <= k < n ==> Reversed(old(result[..n]))[k] == old(result[n - 1 - k]);
  }
}
