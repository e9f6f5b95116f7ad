/** The base62 codec of TURN user names and passwords: long division in place between
    radix 256 and radix 62, with leading zeros carried over one for one. Text is a
    sequence of ASCII bytes. */
module Base62 {
  import opened Results
  import opened Radix

  type byte = x: nat | x < 256

  const DECIMALS: string := "0123456789"
  const UPPER: string := "ABCDEFGHIJKLMNOPQRSTUVWXYZ"
  const LOWER: string := "abcdefghijklmnopqrstuvwxyz"
  const ALPHABET: string := DECIMALS + UPPER + LOWER

  /** The letter for a digit, as an ASCII byte. */
  function Letter(digit: nat): (b: byte)
    requires digit < 62
  {
    ALPHABET[digit] as int % 256
  }

  function Base62Value(b: byte): (value: Option<byte>)
    ensures value.Some? ==> value.value < 62
  {
    if '0' as int <= b <= '9' as int then Some(b - '0' as int)
    else if 'A' as int <= b <= 'Z' as int then Some(b - 'A' as int + 10)
    else if 'a' as int <= b <= 'z' as int then Some(b - 'a' as int + 36)
    else None
  }

  lemma {:induction false} DecimalLetter(d: nat)
    requires d < 10
    ensures DECIMALS[d] as int == 48 + d
  {}

  lemma {:induction false} UpperLetter(d: nat)
    requires d < 26
    ensures UPPER[d] as int == 65 + d
  {}

  lemma {:induction false} LowerLetter(d: nat)
    requires d < 26
    ensures LOWER[d] as int == 97 + d
  {}

  /** The alphabet in its three runs of consecutive ASCII codes. */
  lemma {:induction false} LetterCode(digit: nat)
    requires digit < 62
    ensures Letter(digit) == if digit < 10 then 48 + digit else if digit < 36 then 55 + digit else 61 + digit
  {
    if digit < 10 {
      DecimalLetter(digit);
    } else if digit < 36 {
      UpperLetter(digit - 10);
    } else {
      LowerLetter(digit - 36);
    }
  }

  /** The value table undoes the alphabet. */
  lemma {:induction false} LetterValue(digit: nat)
    requires digit < 62
    ensures Base62Value(Letter(digit)) == Some(digit)
  {
    LetterCode(digit);
  }

  /** The alphabet undoes the value table, so a byte with a value is a letter. */
  lemma {:induction false} ValueLetter(b: byte)
    requires Base62Value(b).Some?
    ensures Letter(Base62Value(b).value) == b
  {
    LetterCode(Base62Value(b).value);
  }

  // ---------- What the codec computes ----------

  function Zeros(n: nat): (zs: seq<nat>)
    ensures |zs| == n && forall i :: 0 <= i < n ==> zs[i] == 0
  {
    seq(n, _ => 0)
  }

  function LeadingZeros(ds: seq<nat>): (n: nat)
    ensures n <= |ds|
    ensures forall i :: 0 <= i < n ==> ds[i] == 0
    ensures n < |ds| ==> ds[n] != 0
  {
    if ds == [] || ds[0] != 0 then 0 else 1 + LeadingZeros(ds[1..])
  }

  /** Leading zeros are copied; the rest is rewritten as the same number in radix `target`. */
  function Recode(ds: seq<nat>, base: nat, target: nat): (r: seq<nat>)
    requires 2 <= target
    ensures DigitsBelow(r, target)
  {
    var z := LeadingZeros(ds);
    Zeros(z) + Digits(Value(ds[z..], base), target)
  }

  lemma {:induction false} LeadingZerosOfPadded(z: nat, ds: seq<nat>)
    requires NoLeadingZero(ds)
    ensures LeadingZeros(Zeros(z) + ds) == z
  {
    if z == 0 {
      assert Zeros(z) + ds == ds;
    } else {
      assert (Zeros(z) + ds)[1..] == Zeros(z - 1) + ds;
      LeadingZerosOfPadded(z - 1, ds);
    }
  }

  /** Recoding back undoes recoding, for every digit sequence and every pair of radices. */
  lemma {:induction false} RecodeRoundTrip(ds: seq<nat>, base: nat, target: nat)
    requires 2 <= base && 2 <= target
    requires DigitsBelow(ds, base)
    ensures Recode(Recode(ds, base, target), target, base) == ds
  {
    var z := LeadingZeros(ds);
    var n := Value(ds[z..], base);
    LeadingZerosOfPadded(z, Digits(n, target));
    assert (Zeros(z) + Digits(n, target))[z..] == Digits(n, target);
    ValueOfDigits(n, target);
    DigitsOfValue(ds[z..], base);
  }

  function Letters(ds: seq<nat>): (text: seq<byte>)
    requires DigitsBelow(ds, 62)
    ensures |text| == |ds|
  {
    seq(|ds|, i requires 0 <= i < |ds| => Letter(ds[i]))
  }

  predicate IsBase62(text: seq<byte>) {
    forall i :: 0 <= i < |text| ==> Base62Value(text[i]).Some?
  }

  function Values(text: seq<byte>): (ds: seq<nat>)
    requires IsBase62(text)
    ensures |ds| == |text| && DigitsBelow(ds, 62)
  {
    seq(|text|, i requires 0 <= i < |text| => Base62Value(text[i]).value)
  }

  function Encode(data: seq<byte>): seq<byte> {
    Letters(Recode(data, 256, 62))
  }

  /** `None` stands for the invalid-base62 error. */
  function Decode(text: seq<byte>): Option<seq<byte>> {
    if IsBase62(text) then Some(Recode(Values(text), 62, 256)) else None
  }

  // ---------- The two codecs undo each other ----------

  lemma {:induction false} ValuesOfLetters(ds: seq<nat>)
    requires DigitsBelow(ds, 62)
    ensures IsBase62(Letters(ds)) && Values(Letters(ds)) == ds
  {
    forall i | 0 <= i < |ds| ensures Base62Value(Letters(ds)[i]) == Some(ds[i]) {
      LetterValue(ds[i]);
    }
  }

  lemma {:induction false} LettersOfValues(text: seq<byte>)
    requires IsBase62(text)
    ensures Letters(Values(text)) == text
  {
    forall i | 0 <= i < |text| ensures Letters(Values(text))[i] == text[i] {
      ValueLetter(text[i]);
    }
  }

  lemma {:induction false} DecodeEncode(data: seq<byte>)
    ensures Decode(Encode(data)) == Some(data)
  {
    ValuesOfLetters(Recode(data, 256, 62));
    RecodeRoundTrip(data, 256, 62);
  }

  lemma {:induction false} EncodeDecode(text: seq<byte>)
    ensures Decode(text).Some? <==> IsBase62(text)
    ensures Decode(text).Some? ==> Encode(Decode(text).value) == text
  {
    if IsBase62(text) {
      RecodeRoundTrip(Values(text), 62, 256);
      LettersOfValues(text);
    }
  }

  /** The text spells the number that the bytes spell, with a leading zero letter for every leading zero byte. */
  lemma {:induction false} EncodingKeepsTheNumber(data: seq<byte>)
    ensures IsBase62(Encode(data))
    ensures Value(Values(Encode(data)), 62) == Value(data, 256)
    ensures LeadingZeros(Values(Encode(data))) == LeadingZeros(data)
  {
    var z := LeadingZeros(data);
    var n := Value(data[z..], 256);
    var ds := Recode(data, 256, 62);
    ValuesOfLetters(ds);
    LeadingZerosOfPadded(z, Digits(n, 62));
    ValueSkipsZeros(data, z, 256);
    ValueSkipsZeros(ds, z, 62);
    assert ds[z..] == Digits(n, 62);
    ValueOfDigits(n, 62);
  }

  // ---------- Length of an encoding ----------

  lemma {:induction false} DigitsCountStep(n: nat, b: nat)
    requires 2 <= b && n > 0
    ensures n / b >= 0 && |Digits(n, b)| == 1 + |Digits(n / b, b)|
  {
    DivisionFacts(n, b);
  }

  lemma {:induction false} DigitsCountOfThree(n: nat)
    ensures |Digits(n, 62)| <= 3 + |Digits(n / 62 / 62 / 62, 62)|
    ensures |Digits(n, 62)| <= 2 + |Digits(n / 62 / 62, 62)|
  {
    if n > 0 { DigitsCountStep(n, 62); }
    if n / 62 > 0 { DigitsCountStep(n / 62, 62); }
    if n / 62 / 62 > 0 { DigitsCountStep(n / 62 / 62, 62); }
  }

  /** 62 * 62 * 62 exceeds 256 * 256, so three letters carry two bytes. */
  lemma {:induction false} TwoBytesFitThreeLetters(n: nat)
    ensures |Digits(n, 256)| <= |Digits(n, 62)|
    ensures 2 * |Digits(n, 62)| <= 3 * |Digits(n, 256)| + 1
    decreases n
  {
    DigitsCountMonotone(n, n, 62, 256);
    DigitsCountOfThree(n);
    if n > 0 {
      DigitsCountStep(n, 256);
      if n / 256 > 0 {
        DigitsCountStep(n / 256, 256);
        TwoBytesFitThreeLetters(n / 256 / 256);
        DigitsCountMonotone(n / 62 / 62 / 62, n / 256 / 256, 62, 62);
      } else {
        assert n / 62 / 62 == 0;
      }
    }
  }

  /** Every byte costs between one letter and one and a half, rounded up. */
  lemma {:induction false} EncodedLength(data: seq<byte>)
    ensures |data| <= |Encode(data)| <= (3 * |data| + 1) / 2
  {
    var z := LeadingZeros(data);
    DigitsOfValue(data[z..], 256);
    TwoBytesFitThreeLetters(Value(data[z..], 256));
  }

  // ---------- The loops ----------

  /** The `as u8` cast, which keeps the low eight bits. */
  function ToU8(x: nat): byte { x % 256 }

  function Reverse<T>(s: seq<T>): (r: seq<T>)
    ensures |r| == |s|
  {
    seq(|s|, i requires 0 <= i < |s| => s[|s| - 1 - i])
  }

  lemma {:induction false} QuotientBelow(acc: nat, base: nat, divisor: nat)
    requires 2 <= divisor
    requires acc < base * divisor
    ensures acc / divisor < base
  {
    DivisionFacts(acc, divisor);
    MultipleBounds(acc / divisor - base + 1, divisor);
    assert (acc / divisor - base + 1) * divisor == acc / divisor * divisor - base * divisor + divisor;
  }

  /** The accumulator stays below `base * divisor`, so its quotient is again a digit and the
      cast drops nothing. */
  lemma {:induction false} NoTruncation(remainder: nat, digit: nat, base: nat, divisor: nat)
    requires 2 <= base <= 256 && 2 <= divisor
    requires remainder < divisor && digit < base
    ensures (remainder * base + digit) / divisor < base
    ensures ToU8((remainder * base + digit) / divisor) == (remainder * base + digit) / divisor
  {
    MultipleBounds(divisor - remainder, base);
    assert (divisor - remainder) * base == divisor * base - remainder * base;
    QuotientBelow(remainder * base + digit, base, divisor);
  }

  lemma {:induction false} DivisionStep(quotient: nat, remainder: nat, digit: nat, base: nat, divisor: nat, q: nat,
                                        r: nat)
    requires remainder * base + digit == q * divisor + r
    ensures (quotient * divisor + remainder) * base + digit == (quotient * base + q) * divisor + r
  {}

  lemma {:induction false} ValuePush(ds: seq<nat>, d: nat, b: nat)
    ensures Value(ds + [d], b) == Value(ds, b) * b + d
  {
    assert (ds + [d])[..|ds|] == ds;
  }

  /** The division equation between the digits read so far and the quotient digits written. */
  ghost predicate Divided(read: seq<nat>, written: seq<nat>, remainder: nat, base: nat, divisor: nat) {
    remainder < divisor && Value(read, base) == Value(written, base) * divisor + remainder
  }

  /** One digit of the long division keeps the division equation. */
  lemma {:induction false} DividedStep(read: seq<nat>, written: seq<nat>, remainder: nat, digit: nat, base: nat,
                                       divisor: nat, q: nat, r: nat)
    requires Divided(read, written, remainder, base, divisor)
    requires remainder * base + digit == q * divisor + r && r < divisor
    ensures Divided(read + [digit], written + [q], r, base, divisor)
  {
    DivisionStep(Value(written, base), remainder, digit, base, divisor, q, r);
    ValuePush(read, digit, base);
    ValuePush(written, q, base);
  }

  lemma {:induction false} DividedResult(read: seq<nat>, written: seq<nat>, remainder: nat, base: nat, divisor: nat)
    requires 2 <= divisor
    requires Divided(read, written, remainder, base, divisor)
    ensures Value(written, base) == Value(read, base) / divisor
    ensures remainder == Value(read, base) % divisor
  {
    DivisionUnique(Value(read, base), divisor, Value(written, base), remainder);
  }

  /** One digit of the long division. */
  method DivideDigit(remainder: nat, digit: nat, base: nat, divisor: nat) returns (quotient: byte, next: nat)
    requires 2 <= base <= 256 && 2 <= divisor
    requires remainder < divisor && digit < base
    ensures quotient < base && next < divisor
    ensures remainder * base + digit == quotient * divisor + next
  {
    NoTruncation(remainder, digit, base, divisor);
    var accumulator := remainder * base + digit;
    DivisionFacts(accumulator, divisor);
    quotient, next := ToU8(accumulator / divisor), accumulator % divisor;
  }

  /** Divides the number held in `input[start..]` by `divisor`, digit by digit in place. */
  method DivideInPlace(input: array<byte>, start: nat, base: nat, divisor: nat) returns (remainder: nat)
    requires 2 <= base <= 256 && 2 <= divisor
    requires start <= input.Length
    requires DigitsBelow(input[..], base)
    modifies input
    ensures DigitsBelow(input[..], base)
    ensures input[..start] == old(input[..start])
    ensures Value(input[start..], base) == Value(old(input[start..]), base) / divisor
    ensures remainder == Value(old(input[start..]), base) % divisor
  {
    remainder := 0;
    ghost var was := input[..];
    ghost var written: seq<nat> := [];
    var i := start;
    while i < input.Length
      invariant start <= i <= input.Length && |written| == i - start
      invariant forall k :: 0 <= k < input.Length ==> input[k] == if start <= k < i then written[k - start] else was[k]
      invariant DigitsBelow(written, base)
      invariant Divided(was[start..i], written, remainder, base, divisor)
    {
      var digit := input[i];
      var quotient, next := DivideDigit(remainder, digit, base, divisor);
      DividedStep(was[start..i], written, remainder, digit, base, divisor, quotient, next);
      assert was[start..i + 1] == was[start..i] + [digit];
      input[i] := quotient;
      written := written + [quotient];
      remainder := next;
      i := i + 1;
    }
    assert was[start..i] == was[start..];
    assert input[start..] == written;
    DividedResult(was[start..], written, remainder, base, divisor);
  }

  /** Moves `start` past the zeros that a division left in front; the value stays. */
  method SkipZeros(input: array<byte>, start: nat, ghost base: nat) returns (next: nat)
    requires start <= input.Length
    ensures start <= next <= input.Length
    ensures NoLeadingZero(input[next..])
    ensures Value(input[next..], base) == Value(input[start..], base)
  {
    next := start;
    while next < input.Length && input[next] == 0
      invariant start <= next <= input.Length
      invariant Value(input[next..], base) == Value(input[start..], base)
    {
      ValueSkipsZeros(input[next..], 1, base);
      assert input[next..][1..] == input[next + 1..];
      next := next + 1;
    }
  }

  method CountLeading(ds: seq<byte>, zero: byte) returns (n: nat)
    ensures n <= |ds|
    ensures forall i :: 0 <= i < n ==> ds[i] == zero
    ensures n < |ds| ==> ds[n] != zero
  {
    n := 0;
    while n < |ds| && ds[n] == zero
      invariant n <= |ds|
      invariant forall i :: 0 <= i < n ==> ds[i] == zero
    {
      n := n + 1;
    }
  }

  lemma {:induction false} LeadingZerosUnique(ds: seq<nat>, n: nat)
    requires n <= |ds|
    requires forall i :: 0 <= i < n ==> ds[i] == 0
    requires n < |ds| ==> ds[n] != 0
    ensures LeadingZeros(ds) == n
  {
    assert ds == Zeros(n) + ds[n..];
    LeadingZerosOfPadded(n, ds[n..]);
  }

  lemma {:induction false} LettersConcat(a: seq<nat>, b: seq<nat>)
    requires DigitsBelow(a, 62) && DigitsBelow(b, 62)
    ensures DigitsBelow(a + b, 62) && Letters(a + b) == Letters(a) + Letters(b)
  {}

  lemma {:induction false} ReversePush<T>(pushed: seq<T>, x: T)
    ensures Reverse(pushed + [x]) == [x] + Reverse(pushed)
  {}

  lemma {:induction false} ConcatAssociates<T>(a: seq<T>, b: seq<T>, c: seq<T>)
    ensures (a + b) + c == a + (b + c)
  {}

  lemma {:induction false} DigitsUnfold(n: nat, b: nat)
    requires 2 <= b && n > 0
    ensures n / b >= 0 && Digits(n, b) == Digits(n / b, b) + [n % b]
  {
    DivisionFacts(n, b);
  }

  lemma {:induction false} LettersUnfold(n: nat)
    requires n > 0
    ensures Letters(Digits(n, 62)) == Letters(Digits(n / 62, 62)) + [Letter(n % 62)]
  {
    DigitsUnfold(n, 62);
    LettersConcat(Digits(n / 62, 62), [n % 62]);
    assert Letters([n % 62]) == [Letter(n % 62)];
  }

  /** Pushing the remainder and keeping the quotient moves one letter from the number to
      the reversed output. */
  lemma {:induction false} EncodeStep(n: nat, pushed: seq<byte>)
    requires n > 0
    ensures Letters(Digits(n, 62)) + Reverse(pushed)
         == Letters(Digits(n / 62, 62)) + Reverse(pushed + [Letter(n % 62)])
  {
    LettersUnfold(n);
    ReversePush(pushed, Letter(n % 62));
    ConcatAssociates(Letters(Digits(n / 62, 62)), [Letter(n % 62)], Reverse(pushed));
  }

  lemma {:induction false} DecodeStep(n: nat, pushed: seq<byte>, low: byte)
    requires n > 0 && low == n % 256
    ensures Digits(n, 256) + Reverse(pushed) == Digits(n / 256, 256) + Reverse(pushed + [low])
  {
    DigitsUnfold(n, 256);
    ReversePush(pushed, low);
    ConcatAssociates(Digits(n / 256, 256), [low], Reverse(pushed));
  }

  /** Writes the number held in `input[start..]` in radix 62, least significant letter first. */
  method PushLetters(input: array<byte>, zeroCount: nat) returns (pushed: seq<byte>)
    requires zeroCount <= input.Length
    requires NoLeadingZero(input[zeroCount..])
    modifies input
    ensures Reverse(pushed) == Letters(Digits(Value(old(input[zeroCount..]), 256), 62))
  {
    pushed := [];
    var start := zeroCount;
    ghost var all := Letters(Digits(Value(input[start..], 256), 62));
    while start < input.Length
      invariant start <= input.Length
      invariant NoLeadingZero(input[start..])
      invariant all == Letters(Digits(Value(input[start..], 256), 62)) + Reverse(pushed)
      decreases Value(input[start..], 256)
    {
      ghost var n := Value(input[start..], 256);
      ValuePositive(input[start..], 256);
      DivisionFacts(n, 62);
      EncodeStep(n, pushed);
      var remainder := DivideInPlace(input, start, 256, 62);
      pushed := pushed + [Letter(remainder)];
      start := SkipZeros(input, start, 256);
    }
  }

  /** Writes the number held in `input[start..]` in radix 256, least significant byte first. */
  method PushBytes(input: array<byte>, zeroCount: nat) returns (pushed: seq<byte>)
    requires zeroCount <= input.Length
    requires DigitsBelow(input[..], 62)
    requires NoLeadingZero(input[zeroCount..])
    modifies input
    ensures Reverse(pushed) == Digits(Value(old(input[zeroCount..]), 62), 256)
  {
    pushed := [];
    var start := zeroCount;
    ghost var all := Digits(Value(input[start..], 62), 256);
    while start < input.Length
      invariant start <= input.Length
      invariant DigitsBelow(input[..], 62)
      invariant NoLeadingZero(input[start..])
      invariant all == Digits(Value(input[start..], 62), 256) + Reverse(pushed)
      decreases Value(input[start..], 62)
    {
      ghost var n := Value(input[start..], 62);
      ValuePositive(input[start..], 62);
      DivisionFacts(n, 256);
      DecodeStep(n, pushed, n % 256);
      var remainder := DivideInPlace(input, start, 62, 256);
      var low: byte := ToU8(remainder);
      assert low == n % 256;
      pushed := pushed + [low];
      start := SkipZeros(input, start, 62);
    }
  }

  lemma {:induction false} ReversePadded(pushed: seq<byte>, z: nat, pad: byte)
    ensures Reverse(pushed + seq(z, _ => pad)) == seq(z, _ => pad) + Reverse(pushed)
  {}

  method EncodeBytes(data: seq<byte>) returns (encoded: seq<byte>)
    ensures encoded == Encode(data)
  {
    if data == [] {
      return [];
    }
    var zeroCount := CountLeading(data, 0);
    LeadingZerosUnique(data, zeroCount);
    var input := new byte[|data|](i requires 0 <= i < |data| => data[i]);
    assert input[..] == data;
    assert input[zeroCount..] == data[zeroCount..];
    var pushed := PushLetters(input, zeroCount);
    encoded := Reverse(pushed + seq(zeroCount, _ => Letter(0)));
    ReversePadded(pushed, zeroCount, Letter(0));
    LettersConcat(Zeros(zeroCount), Digits(Value(data[zeroCount..], 256), 62));
  }

  method ReadValues(text: seq<byte>) returns (input: Option<array<byte>>)
    ensures input.Some? <==> IsBase62(text)
    ensures input.Some? ==> fresh(input.value) && input.value[..] == Values(text)
  {
    var buffer := new byte[|text|];
    for i := 0 to |text|
      invariant forall j :: 0 <= j < i ==> Base62Value(text[j]) == Some(buffer[j])
    {
      var value := Base62Value(text[i]);
      if value == None {
        return None;
      }
      buffer[i] := value.value;
    }
    input := Some(buffer);
  }

  /** The letter of digit zero is the only letter with value zero. */
  lemma {:induction false} ZeroLetter(b: byte)
    requires Base62Value(b).Some?
    ensures b == Letter(0) <==> Base62Value(b).value == 0
  {
    LetterValue(0);
    ValueLetter(b);
  }

  method DecodeToBytes(text: seq<byte>) returns (result: Option<seq<byte>>)
    ensures result == Decode(text)
  {
    if text == [] {
      return Some([]);
    }
    var zeroCount := CountLeading(text, Letter(0));
    var read := ReadValues(text);
    if read == None {
      return None;
    }
    var input := read.value;
    ghost var values := Values(text);
    forall i | 0 <= i < |text| ensures text[i] == Letter(0) <==> values[i] == 0 {
      ZeroLetter(text[i]);
    }
    LeadingZerosUnique(values, zeroCount);
    assert input[zeroCount..] == values[zeroCount..];
    var pushed := PushBytes(input, zeroCount);
    result := Some(Reverse(pushed + seq(zeroCount, _ => 0)));
    ReversePadded(pushed, zeroCount, 0);
    assert result.value == Zeros(zeroCount) + Reverse(pushed);
  }
}
