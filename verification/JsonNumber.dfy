// Numbers in JSON text: printing 64-bit integers, and reading a number token
// as an integer when it fits.
module JsonNumber {
  const MAX_UINT: int := 0xFFFF_FFFF_FFFF_FFFF      // maxLargestUInt
  const MIN_MAGNITUDE: int := 0x8000_0000_0000_0000 // -minLargestInt
  const MAX_INT: int := 0x7FFF_FFFF                 // Value::maxInt, 32 bits
  const BUFFER_SIZE: nat := 25                      // 3 * sizeof(LargestUInt) + 1

  predicate IsDigit(c: char) { '0' <= c <= '9' }

  function DigitChar(d: nat): char
    requires d < 10
  {
    (d + '0' as int) as char
  }

  function DigitOf(c: char): nat
    requires IsDigit(c)
  {
    c as int - '0' as int
  }

  predicate AllDigits(s: string) {
    forall k :: 0 <= k < |s| ==> IsDigit(s[k])
  }

  function Digits(n: nat): string {
    if n < 10 then [DigitChar(n)] else Digits(n / 10) + [DigitChar(n % 10)]
  }

  // The number a string of digits stands for.
  function Amount(s: string): nat
    requires AllDigits(s)
  {
    if s == "" then 0 else Amount(s[..|s| - 1]) * 10 + DigitOf(s[|s| - 1])
  }

  lemma {:induction false} DigitsAmount(n: nat)
    ensures Digits(n) != "" && AllDigits(Digits(n)) && Amount(Digits(n)) == n
  {
    if n >= 10 {
      DigitsAmount(n / 10);
      var s := Digits(n);
      assert s[..|s| - 1] == Digits(n / 10);
    } else {
      assert Digits(n)[..0] == "";
    }
  }

  lemma {:induction false} DigitsLength(n: nat, w: nat)
    requires 1 <= w && n < Pow10(w)
    ensures |Digits(n)| <= w
    decreases w
  {
    if w > 1 && n >= 10 {
      DigitsLength(n / 10, w - 1);
    }
  }

  function Pow10(w: nat): nat {
    if w == 0 then 1 else 10 * Pow10(w - 1)
  }

  // Every 64-bit value has at most 20 digits.
  lemma TwentyDigits(n: nat)
    requires n <= MAX_UINT
    ensures 1 <= |Digits(n)| <= 20
  {
    assert Pow10(5) == 100000;
    assert Pow10(10) == 10000000000 by {
      assert Pow10(10) == 100000 * Pow10(5);
    }
    assert Pow10(15) == 1000000000000000;
    assert Pow10(20) == 100000000000000000000;
    DigitsLength(n, 20);
  }

  // ----- printing -----

  // What the buffer holds from `current` up to the terminating NUL.
  function Text(buffer: array<char>, current: nat): string
    requires current < buffer.Length
    reads buffer
  {
    buffer[current..buffer.Length - 1]
  }

  lemma DigitsStep(v: nat, below: string)
    ensures v >= 10 ==> Digits(v) + below == Digits(v / 10) + ([DigitChar(v % 10)] + below)
    ensures v < 10 ==> Digits(v) + below == [DigitChar(v % 10)] + below
  {
  }

  // uintToString: digits are stored downwards from the end of the buffer.
  method UintToString(value: nat, buffer: array<char>) returns (current: nat)
    requires value <= MAX_UINT && buffer.Length == BUFFER_SIZE
    modifies buffer
    ensures 4 <= current < BUFFER_SIZE && Text(buffer, current) == Digits(value)
  {
    TwentyDigits(value);
    current := BUFFER_SIZE - 1;
    buffer[current] := '\0';
    var v, more := value, true;
    while more
      invariant current < BUFFER_SIZE && (more || v == 0)
      invariant Digits(value) == if more then Digits(v) + Text(buffer, current) else Text(buffer, current)
      decreases v, more
    {
      ghost var below := Text(buffer, current);
      DigitsStep(v, below);
      assert |Digits(value)| == |Digits(v)| + |below| && Digits(v) != "";
      current := current - 1;
      buffer[current] := DigitChar(v % 10);
      assert Text(buffer, current) == [DigitChar(v % 10)] + below;
      v := v / 10;
      more := v != 0;
    }
  }

  // An integer as printed: valueToString.
  function Print(value: int): string {
    if value < 0 then "-" + Digits(-value) else Digits(value)
  }

  // The sign still fits the buffer. The most negative 64-bit value has no
  // positive counterpart and is not printed here.
  method ValueToString(value: int) returns (text: string)
    requires -MIN_MAGNITUDE < value <= MAX_UINT
    ensures text == Print(value)
  {
    var buffer := new char[BUFFER_SIZE];
    var current := UintToString(if value < 0 then -value else value, buffer);
    if value < 0 {
      ghost var digits := Text(buffer, current);
      current := current - 1;
      buffer[current] := '-';
      assert Text(buffer, current) == ['-'] + digits;
    }
    text := buffer[current..BUFFER_SIZE - 1];
  }

  // ----- reading -----

  datatype Number = Integer(value: int) | Double

  predicate Negative(token: string) {
    token != "" && token[0] == '-'
  }

  function Magnitude(token: string): string {
    if Negative(token) then token[1..] else token
  }

  function Limit(token: string): nat {
    if Negative(token) then MIN_MAGNITUDE else MAX_UINT
  }

  function Signed(negative: bool, magnitude: int): int {
    if negative then -magnitude else magnitude
  }

  // What decodeNumber promises: an integer exactly when the token is digits
  // only and their value is within the limit for its sign.
  function DecodeNumber(token: string): Number {
    var digits := Magnitude(token);
    if AllDigits(digits) && Amount(digits) <= Limit(token) then
      Integer(Signed(Negative(token), Amount(digits)))
    else Double
  }

  lemma {:induction false} AmountGrows(s: string, k: nat)
    requires AllDigits(s) && k <= |s|
    ensures Amount(s[..k]) <= Amount(s)
    decreases |s|
  {
    if k < |s| {
      AmountGrows(s[..|s| - 1], k);
      assert s[..|s| - 1][..k] == s[..k];
    } else {
      assert s[..k] == s;
    }
  }

  lemma AmountNext(s: string, k: nat)
    requires k < |s| && AllDigits(s[..k]) && IsDigit(s[k])
    ensures AllDigits(s[..k + 1]) && Amount(s[..k + 1]) == Amount(s[..k]) * 10 + DigitOf(s[k])
  {
    assert s[..k + 1][..k] == s[..k];
  }

  lemma OverTheLimit(digits: string, k: nat, max: nat)
    requires AllDigits(digits) && k < |digits| && max >= 100 && Amount(digits[..k]) >= max / 10
    requires Amount(digits[..k]) > max / 10 || k + 1 < |digits| || DigitOf(digits[k]) > max % 10
    ensures Amount(digits) > max
  {
    hide Amount;
    AmountNext(digits, k);
    AmountGrows(digits, k + 1);
    if k + 1 < |digits| {
      AmountNext(digits, k + 1);
      AmountGrows(digits, k + 2);
    }
  }

  // The accumulator never leaves 64 bits, and the early exits are taken exactly
  // when the value is out of range.
  method DecodeNumberToken(token: string) returns (decoded: Number)
    requires token != ""
    ensures decoded == DecodeNumber(token)
  {
    var isNegative := token[0] == '-';
    var maxIntegerValue := if isNegative then MIN_MAGNITUDE else MAX_UINT;
    var threshold := maxIntegerValue / 10;
    ghost var digits := Magnitude(token);
    ghost var off := |token| - |digits|;
    var current := if isNegative then 1 else 0;
    var value: nat := 0;
    assert digits[..0] == "";
    while current < |token|
      invariant off <= current <= |token|
      invariant AllDigits(digits[..current - off]) && value == Amount(digits[..current - off])
      invariant value <= maxIntegerValue
    {
      ghost var k := current - off;
      var c := token[current];
      assert c == digits[k];
      current := current + 1;
      if !IsDigit(c) {
        return Double;
      }
      AmountNext(digits, k);
      var digit := DigitOf(c);
      if value >= threshold {
        if value > threshold || current != |token| || digit > maxIntegerValue % 10 {
          if AllDigits(digits) {
            OverTheLimit(digits, k, maxIntegerValue);
          }
          return Double;
        }
      }
      value := value * 10 + digit;
    }
    assert digits[..|digits|] == digits;
    decoded := Integer(Signed(isNegative, value));
  }

  // Reading what was printed gives the number back.
  lemma PrintDecodes(value: int)
    requires -MIN_MAGNITUDE < value <= MAX_UINT
    ensures Print(value) != "" && DecodeNumber(Print(value)) == Integer(value)
  {
    PrintedAmount(value);
    DigitsAmount(if value < 0 then -value else value);
  }

  // The whole 64-bit range of either sign comes out as an integer, the most
  // negative value included, and the next number out on either side does not.
  lemma LimitsAreTight()
    ensures DecodeNumber(Print(-MIN_MAGNITUDE)) == Integer(-MIN_MAGNITUDE)
    ensures DecodeNumber(Print(-MIN_MAGNITUDE - 1)) == Double
    ensures DecodeNumber(Print(MAX_UINT + 1)) == Double
  {
    hide Print, Amount, Magnitude, Negative, AllDigits;
    PrintedAmount(-MIN_MAGNITUDE);
    PrintedAmount(-MIN_MAGNITUDE - 1);
    PrintedAmount(MAX_UINT + 1);
  }

  lemma PrintedAmount(value: int)
    ensures var token := Print(value);
      && AllDigits(Magnitude(token)) && (Negative(token) <==> value < 0)
      && Signed(Negative(token), Amount(Magnitude(token))) == value
  {
    hide Digits, Amount;
    DigitsAmount(if value < 0 then -value else value);
    if value < 0 {
      assert Magnitude(Print(value)) == Digits(-value);
    }
  }

  // A sign with no digits is read as the integer 0, although JSON does not
  // allow it: the only such token.
  lemma LoneSign(token: string)
    requires token != ""
    ensures Magnitude(token) == "" <==> token == "-"
    ensures token == "-" ==> DecodeNumber(token) == Integer(0)
  {
  }
}
