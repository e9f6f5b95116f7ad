/** Strings as the TURN path sees them: UTF-8 bytes, decimal 64-bit integers, and splitting
    at a separator byte. */
module Text {
  import opened Results
  import opened Radix
  import opened Base62

  // ---------- UTF-8 ----------

  predicate Continuation(b: byte) { 0x80 <= b <= 0xBF }

  /** Length of the well-formed scalar value that `s` starts with (RFC 3629, section 4); 0 if none. */
  function ScalarLength(s: seq<byte>): (n: nat)
    ensures n <= |s|
    ensures s == [] ==> n == 0
  {
    if s == [] then 0
    else if s[0] < 0x80 then 1
    else if |s| < 2 || !Continuation(s[1]) then 0
    else if 0xC2 <= s[0] <= 0xDF then 2
    else if |s| < 3 || !Continuation(s[2]) then 0
    else if s[0] == 0xE0 then (if 0xA0 <= s[1] then 3 else 0)
    else if s[0] == 0xED then (if s[1] <= 0x9F then 3 else 0)
    else if 0xE1 <= s[0] <= 0xEF then 3
    else if |s| < 4 || !Continuation(s[3]) then 0
    else if s[0] == 0xF0 then (if 0x90 <= s[1] then 4 else 0)
    else if s[0] == 0xF4 then (if s[1] <= 0x8F then 4 else 0)
    else if 0xF1 <= s[0] <= 0xF3 then 4
    else 0
  }

  predicate ValidUtf8(s: seq<byte>) {
    s == [] || (ScalarLength(s) > 0 && ValidUtf8(s[ScalarLength(s)..]))
  }

  type Str = s: seq<byte> | ValidUtf8(s)

  lemma {:induction false} ScalarLengthOfPrefix(a: seq<byte>, b: seq<byte>)
    requires ScalarLength(a) > 0
    ensures ScalarLength(a + b) == ScalarLength(a)
  {}

  lemma {:induction false} Utf8Prepend(s: seq<byte>, n: nat)
    requires 0 < n == ScalarLength(s) && ValidUtf8(s[n..])
    ensures ValidUtf8(s)
  {}

  lemma {:induction false} Utf8Concat(a: Str, b: Str)
    ensures ValidUtf8(a + b)
  {
    if a == [] {
      assert a + b == b;
    } else {
      var n := ScalarLength(a);
      Utf8Concat(a[n..], b);
      assert a[n..] + b == (a + b)[n..];
      ScalarLengthOfPrefix(a, b);
      Utf8Prepend(a + b, n);
    }
  }

  /** A Unicode scalar value. */
  predicate IsScalar(c: nat) { c < 0xD800 || 0xE000 <= c < 0x11_0000 }

  /** The encoding of a scalar value (RFC 3629, section 3). */
  function EncodeScalar(c: nat): (s: seq<byte>)
    requires IsScalar(c)
    ensures s != []
  {
    if c < 0x80 then [c]
    else if c < 0x800 then [0xC0 + c / 0x40, 0x80 + c % 0x40]
    else if c < 0x1_0000 then [0xE0 + c / 0x1000, 0x80 + c / 0x40 % 0x40, 0x80 + c % 0x40]
    else [0xF0 + c / 0x4_0000, 0x80 + c / 0x1000 % 0x40, 0x80 + c / 0x40 % 0x40, 0x80 + c % 0x40]
  }

  function EncodeScalars(cs: seq<nat>): seq<byte>
    requires forall i :: 0 <= i < |cs| ==> IsScalar(cs[i])
  {
    if cs == [] then [] else EncodeScalar(cs[0]) + EncodeScalars(cs[1..])
  }

  lemma {:induction false} EncodedScalarLength(c: nat)
    requires IsScalar(c)
    ensures ScalarLength(EncodeScalar(c)) == |EncodeScalar(c)|
  {}

  /** The scalar value that a lead byte's payload and continuation payloads make up. */
  lemma {:induction false} ReadTwo(x: nat, y: nat, c: nat)
    requires 2 <= x < 0x20 && y < 0x40 && c == x * 0x40 + y
    ensures IsScalar(c) && EncodeScalar(c) == [0xC0 + x, 0x80 + y]
  {}

  lemma {:induction false} ReadThree(x: nat, y: nat, z: nat, c: nat)
    requires x < 0x10 && y < 0x40 && z < 0x40 && c == x * 0x1000 + y * 0x40 + z
    requires (x == 0 ==> y >= 0x20) && (x == 0xD ==> y < 0x20)
    ensures IsScalar(c) && EncodeScalar(c) == [0xE0 + x, 0x80 + y, 0x80 + z]
  {
    assert c / 0x40 == x * 0x40 + y;
  }

  lemma {:induction false} ReadFour(w: nat, x: nat, y: nat, z: nat, c: nat)
    requires w <= 4 && x < 0x40 && y < 0x40 && z < 0x40 && c == w * 0x4_0000 + x * 0x1000 + y * 0x40 + z
    requires (w == 0 ==> x >= 0x10) && (w == 4 ==> x < 0x10)
    ensures IsScalar(c) && EncodeScalar(c) == [0xF0 + w, 0x80 + x, 0x80 + y, 0x80 + z]
  {
    assert c / 0x40 == w * 0x1000 + x * 0x40 + y;
    assert c / 0x1000 == w * 0x40 + x;
  }

  /** What the validity test reads as one scalar value is the encoding of one. */
  lemma {:induction false} ReadScalar(s: seq<byte>) returns (c: nat)
    requires ScalarLength(s) > 0
    ensures IsScalar(c) && EncodeScalar(c) == s[..ScalarLength(s)]
  {
    var n := ScalarLength(s);
    var lead: int := s[0];
    if n == 1 {
      c := lead;
    } else if n == 2 {
      var y: int := s[1] - 0x80;
      c := (lead - 0xC0) * 0x40 + y;
      ReadTwo(lead - 0xC0, y, c);
    } else if n == 3 {
      var y: int, z: int := s[1] - 0x80, s[2] - 0x80;
      c := (lead - 0xE0) * 0x1000 + y * 0x40 + z;
      ReadThree(lead - 0xE0, y, z, c);
    } else {
      var x: int, y: int, z: int := s[1] - 0x80, s[2] - 0x80, s[3] - 0x80;
      c := (lead - 0xF0) * 0x4_0000 + x * 0x1000 + y * 0x40 + z;
      ReadFour(lead - 0xF0, x, y, z, c);
    }
  }

  /** A text is valid if and only if it is the encoding of scalar values. */
  lemma {:induction false} ValidUtf8Exactly(s: seq<byte>)
    ensures ValidUtf8(s)
       <==> exists cs: seq<nat> :: (forall i :: 0 <= i < |cs| ==> IsScalar(cs[i])) && EncodeScalars(cs) == s
  {
    if ValidUtf8(s) {
      var cs := ReadScalars(s);
    }
    forall cs: seq<nat> | (forall i :: 0 <= i < |cs| ==> IsScalar(cs[i])) ensures ValidUtf8(EncodeScalars(cs)) {
      EncodedIsValid(cs);
    }
  }

  lemma {:induction false} ReadScalars(s: Str) returns (cs: seq<nat>)
    ensures (forall i :: 0 <= i < |cs| ==> IsScalar(cs[i])) && EncodeScalars(cs) == s
  {
    cs := [];
    if s != [] {
      var c := ReadScalar(s);
      var rest := ReadScalars(s[ScalarLength(s)..]);
      cs := [c] + rest;
      assert cs[1..] == rest;
    }
  }

  lemma {:induction false} EncodedIsValid(cs: seq<nat>)
    requires forall i :: 0 <= i < |cs| ==> IsScalar(cs[i])
    ensures ValidUtf8(EncodeScalars(cs))
  {
    if cs != [] {
      var one, rest := EncodeScalar(cs[0]), EncodeScalars(cs[1..]);
      EncodedIsValid(cs[1..]);
      EncodedScalarLength(cs[0]);
      ScalarLengthOfPrefix(one, rest);
      assert (one + rest)[|one|..] == rest;
      Utf8Prepend(one + rest, |one|);
    }
  }

  predicate IsAscii(s: seq<byte>) { forall i :: 0 <= i < |s| ==> s[i] < 0x80 }

  lemma {:induction false} AsciiIsUtf8(s: seq<byte>)
    requires IsAscii(s)
    ensures ValidUtf8(s)
  {
    if s != [] {
      AsciiIsUtf8(s[1..]);
    }
  }

  // ---------- Splitting ----------

  function Split(s: seq<byte>, sep: byte): (parts: seq<seq<byte>>)
    ensures |parts| >= 1
  {
    if s == [] then [[]]
    else
      var rest := Split(s[1..], sep);
      if s[0] == sep then [[]] + rest else [[s[0]] + rest[0]] + rest[1..]
  }

  function Count(s: seq<byte>, sep: byte): (n: nat)
    ensures n == 0 <==> sep !in s
  {
    if s == [] then 0 else (if s[0] == sep then 1 else 0) + Count(s[1..], sep)
  }

  lemma {:induction false} CountConcat(a: seq<byte>, b: seq<byte>, sep: byte)
    ensures Count(a + b, sep) == Count(a, sep) + Count(b, sep)
  {
    if a == [] {
      assert a + b == b;
    } else {
      CountConcat(a[1..], b, sep);
      assert (a + b)[1..] == a[1..] + b;
    }
  }

  lemma {:induction false} SplitCount(s: seq<byte>, sep: byte)
    ensures |Split(s, sep)| == 1 + Count(s, sep)
  {
    if s != [] {
      SplitCount(s[1..], sep);
    }
  }

  lemma {:induction false} SplitFirst(a: seq<byte>, b: seq<byte>, sep: byte)
    requires sep !in a
    ensures Split(a + [sep] + b, sep) == [a] + Split(b, sep)
  {
    var s := a + [sep] + b;
    if a == [] {
      assert s[1..] == b;
    } else {
      SplitFirst(a[1..], b, sep);
      assert s[1..] == a[1..] + [sep] + b;
      assert [a[0]] + a[1..] == a;
    }
  }

  lemma {:induction false} SplitNone(s: seq<byte>, sep: byte)
    requires sep !in s
    ensures Split(s, sep) == [s]
  {
    if s != [] {
      SplitNone(s[1..], sep);
      assert [s[0]] + s[1..] == s;
    }
  }

  /** Joining the parts of a split gives the string back, and no part holds the separator. */
  lemma {:induction false} SplitInThree(s: seq<byte>, sep: byte)
    requires |Split(s, sep)| == 3
    ensures var p := Split(s, sep); s == p[0] + [sep] + p[1] + [sep] + p[2]
    ensures forall i :: 0 <= i < 3 ==> sep !in Split(s, sep)[i]
  {
    var p := Split(s, sep);
    JoinSplit(s, sep);
    assert p[1..][0] == p[1] && p[1..][1..] == p[2..] && p[2..] == [p[2]];
    assert Join(p[1..], sep) == p[1] + [sep] + p[2];
  }

  function Join(parts: seq<seq<byte>>, sep: byte): seq<byte>
    requires |parts| >= 1
  {
    if |parts| == 1 then parts[0] else parts[0] + [sep] + Join(parts[1..], sep)
  }

  lemma {:induction false} JoinSplit(s: seq<byte>, sep: byte)
    ensures Join(Split(s, sep), sep) == s
    ensures forall i :: 0 <= i < |Split(s, sep)| ==> sep !in Split(s, sep)[i]
  {
    if s != [] {
      JoinSplit(s[1..], sep);
      var rest := Split(s[1..], sep);
      if s[0] == sep {
        assert ([[]] + rest)[1..] == rest;
      } else {
        assert ([[s[0]] + rest[0]] + rest[1..])[1..] == rest[1..];
      }
    }
  }

  // ---------- Signed 64-bit decimals ----------

  const I64_MIN: int := -0x8000_0000_0000_0000
  const I64_MAX: int := 0x7FFF_FFFF_FFFF_FFFF

  type i64 = x: int | I64_MIN <= x <= I64_MAX

  function SaturatingAdd(a: i64, b: i64): i64 {
    if a + b > I64_MAX then I64_MAX else if a + b < I64_MIN then I64_MIN else a + b
  }

  const PLUS: byte := 43
  const MINUS: byte := 45
  const BAR: byte := 124
  const COLON: byte := 58

  predicate IsDecimal(s: seq<byte>) { forall i :: 0 <= i < |s| ==> 48 <= s[i] <= 57 }

  function DecimalValues(s: seq<byte>): (ds: seq<nat>)
    requires IsDecimal(s)
  {
    seq(|s|, i requires 0 <= i < |s| => s[i] - 48)
  }

  function DecimalText(n: nat): (s: seq<byte>)
    ensures s != [] && IsDecimal(s)
  {
    var ds := if n == 0 then [0] else Digits(n, 10);
    seq(|ds|, i requires 0 <= i < |ds| => ds[i] + 48)
  }

  function FormatI64(x: i64): seq<byte> {
    if x < 0 then [MINUS] + DecimalText(0 - x) else DecimalText(x)
  }

  /** One optional sign, then at least one decimal digit, and the value in range. */
  function ParseI64(s: seq<byte>): Option<i64> {
    var signed := s != [] && (s[0] == PLUS || s[0] == MINUS);
    var digits := if signed then s[1..] else s;
    if digits == [] || !IsDecimal(digits) then None
    else
      var magnitude := Value(DecimalValues(digits), 10);
      var x := if signed && s[0] == MINUS then 0 - magnitude else magnitude;
      if I64_MIN <= x <= I64_MAX then Some(x) else None
  }

  lemma {:induction false} DecimalTextValue(n: nat)
    ensures Value(DecimalValues(DecimalText(n)), 10) == n
  {
    var ds := if n == 0 then [0] else Digits(n, 10);
    assert DecimalValues(DecimalText(n)) == ds;
    if n == 0 {
      assert Value(ds[..0], 10) == 0;
    } else {
      ValueOfDigits(n, 10);
    }
  }

  /** Digits parse to their value, with a minus sign to its negation. */
  lemma {:induction false} ParseDigits(text: seq<byte>, n: nat)
    requires text != [] && IsDecimal(text) && Value(DecimalValues(text), 10) == n
    ensures n <= I64_MAX ==> ParseI64(text) == Some(n)
    ensures 0 - n >= I64_MIN ==> ParseI64([MINUS] + text) == Some(0 - n)
  {
    assert text[0] != PLUS && text[0] != MINUS;
    assert ([MINUS] + text)[1..] == text;
  }

  lemma {:induction false} ParseFormat(x: i64)
    ensures ParseI64(FormatI64(x)) == Some(x)
  {
    var n: nat := if x < 0 then 0 - x else x;
    DecimalTextValue(n);
    ParseDigits(DecimalText(n), n);
  }

  /** `sign` is no sign, plus or minus, and with the digits stands for `x`. */
  predicate Signed(sign: seq<byte>, digits: seq<byte>, x: int) {
    && digits != [] && IsDecimal(digits) && (sign == [] || sign == [43] || sign == [45])
    && x == if sign == [45] then 0 - Value(DecimalValues(digits), 10) else Value(DecimalValues(digits), 10)
  }

  lemma {:induction false} SignedParses(sign: seq<byte>, digits: seq<byte>, x: i64)
    requires Signed(sign, digits, x)
    ensures ParseI64(sign + digits) == Some(x)
  {
    if sign == [] {
      assert sign + digits == digits;
    } else {
      assert (sign + digits)[1..] == digits && (sign + digits)[0] == sign[0];
    }
  }

  lemma {:induction false} ParsedIsSigned(text: seq<byte>) returns (sign: seq<byte>, digits: seq<byte>)
    requires ParseI64(text).Some?
    ensures text == sign + digits && Signed(sign, digits, ParseI64(text).value)
  {
    if text[0] == PLUS || text[0] == MINUS {
      sign, digits := [text[0]], text[1..];
    } else {
      sign, digits := [], text;
    }
  }

  /** Parsing succeeds exactly on an optional sign and at least one digit that stand for a number in range, with
      that number. */
  lemma {:induction false} ParseExactly(text: seq<byte>, x: i64)
    ensures ParseI64(text) == Some(x) <==> exists sign, digits :: text == sign + digits && Signed(sign, digits, x)
  {
    if ParseI64(text) == Some(x) {
      var sign, digits := ParsedIsSigned(text);
    }
    forall sign, digits | text == sign + digits && Signed(sign, digits, x) ensures ParseI64(text) == Some(x) {
      SignedParses(sign, digits, x);
    }
  }

  /** The sum is the number of the range that comes nearest. */
  lemma {:induction false} SaturatingAddExactly(a: i64, b: i64)
    ensures a + b < 0 - 0x8000_0000_0000_0000 ==> SaturatingAdd(a, b) == 0 - 0x8000_0000_0000_0000
    ensures a + b > 0x7FFF_FFFF_FFFF_FFFF ==> SaturatingAdd(a, b) == 0x7FFF_FFFF_FFFF_FFFF
    ensures 0 - 0x8000_0000_0000_0000 <= a + b <= 0x7FFF_FFFF_FFFF_FFFF ==> SaturatingAdd(a, b) == a + b
  {}

  lemma {:induction false} FormatIsPlain(x: i64)
    ensures IsAscii(FormatI64(x)) && ValidUtf8(FormatI64(x)) && BAR !in FormatI64(x)
  {
    AsciiIsUtf8(FormatI64(x));
  }
}

/** TURN long-term credentials: minting, parsing and checking. The two hash functions are
    parameters of the handler. */
module TurnAuth {
  import opened Results
  import opened Base62
  import opened Text

  datatype Method = Allocate | Refresh | CreatePermission | ChannelBind | Send

  datatype Error = InvalidBase62 | InvalidUtf8 | InvalidUsername | InvalidExpiry | Expired | InvalidApiKey

  datatype ParsedUsername = ParsedUsername(apiKey: seq<byte>, participantId: seq<byte>, expiry: i64)

  datatype Decision = Decision(userId: seq<byte>, key: seq<byte>, ok: bool)

  const REJECT := Decision([], [], false)

  /** The realm, "livekit". */
  const REALM: seq<byte> := [108, 105, 118, 101, 107, 105, 116]

  datatype Credential = Credential(username: seq<byte>, password: seq<byte>, expiry: i64)

  /** `a|b|c`, the layout of user names and of the hashed password input. */
  function Bars(a: seq<byte>, b: seq<byte>, c: seq<byte>): seq<byte> {
    a + [BAR] + b + [BAR] + c
  }

  datatype Handler = Handler(secrets: map<seq<byte>, seq<byte>>,
                             sha256: seq<byte> -> seq<byte>,
                             md5: seq<byte> -> seq<byte>)
  {
    function CreateUsernameAt(apiKey: Str, participantId: Str, ttl: i64, now: i64): (seq<byte>, i64) {
      var expiry := SaturatingAdd(now, ttl);
      (Encode(Bars(apiKey, participantId, FormatI64(expiry))), expiry)
    }

    function ParseUsername(username: seq<byte>): Result<ParsedUsername, Error> {
      var decoded := Decode(username);
      if decoded == None then Err(InvalidBase62) else ParseRaw(decoded.value)
    }

    static function ParseRaw(raw: seq<byte>): Result<ParsedUsername, Error> {
      if !ValidUtf8(raw) then Err(InvalidUtf8)
      else
        var parts := Split(raw, BAR);
        if |parts| != 3 then Err(InvalidUsername)
        else
          var expiry := ParseI64(parts[2]);
          if expiry == None then Err(InvalidExpiry)
          else if expiry.value == 0 then Err(Expired)
          else Ok(ParsedUsername(parts[0], parts[1], expiry.value))
    }

    function ComputePassword(apiKey: seq<byte>, participantId: seq<byte>, expiry: i64): Result<seq<byte>, Error> {
      if apiKey !in secrets then Err(InvalidApiKey)
      else Ok(Encode(sha256(Bars(secrets[apiKey], participantId, FormatI64(expiry)))))
    }

    function CreatePasswordAt(apiKey: seq<byte>, participantId: seq<byte>, expiry: i64, now: i64)
      : Result<seq<byte>, Error>
    {
      if expiry == 0 || now > expiry then Err(Expired)
      else ComputePassword(apiKey, participantId, expiry)
    }

    /** The key of section 15.4 of RFC 5389. */
    function AuthKey(username: seq<byte>, password: seq<byte>): seq<byte> {
      md5(username + [COLON] + REALM + [COLON] + password)
    }

    function HandleAuthAt(username: seq<byte>, m: Method, now: i64): Decision {
      var parsed := ParseUsername(username);
      if parsed.Err? then REJECT
      else if now > parsed.value.expiry && m == Allocate then REJECT
      else
        var password := ComputePassword(parsed.value.apiKey, parsed.value.participantId, parsed.value.expiry);
        if password.Err? then REJECT
        else Decision(parsed.value.participantId, AuthKey(username, password.value), true)
    }

    /** What the server hands to a joining client; nothing when no password can be made. */
    function Mint(apiKey: Str, participantId: Str, ttl: i64, now: i64): Option<Credential> {
      var (username, expiry) := CreateUsernameAt(apiKey, participantId, ttl, now);
      var password := CreatePasswordAt(apiKey, participantId, expiry, now);
      if password.Err? then None else Some(Credential(username, password.value, expiry))
    }
  }

  lemma {:induction false} BarsIsUtf8(a: Str, b: Str, c: Str)
    ensures ValidUtf8(Bars(a, b, c))
  {
    AsciiIsUtf8([BAR]);
    Utf8Concat(a, [BAR]);
    Utf8Concat(a + [BAR], b);
    Utf8Concat(a + [BAR] + b, [BAR]);
    Utf8Concat(a + [BAR] + b + [BAR], c);
  }

  lemma {:induction false} CountBars(a: seq<byte>, b: seq<byte>, c: seq<byte>)
    ensures Count(Bars(a, b, c), BAR) == 2 + Count(a, BAR) + Count(b, BAR) + Count(c, BAR)
  {
    CountConcat(a + [BAR] + b + [BAR], c, BAR);
    CountConcat(a + [BAR] + b, [BAR], BAR);
    CountConcat(a + [BAR], b, BAR);
    CountConcat(a, [BAR], BAR);
    assert Count([BAR], BAR) == 1;
  }

  lemma {:induction false} SplitPlainBars(a: seq<byte>, b: seq<byte>, c: seq<byte>)
    requires BAR !in a && BAR !in b && BAR !in c
    ensures Split(Bars(a, b, c), BAR) == [a, b, c]
  {
    assert Bars(a, b, c) == a + [BAR] + (b + [BAR] + c);
    SplitFirst(a, b + [BAR] + c, BAR);
    SplitFirst(b, c, BAR);
    SplitNone(c, BAR);
    assert [a] + ([b] + [c]) == [a, b, c];
  }

  /** Parsing `a|b|c` fails on a bar inside `a` or `b` and otherwise yields the three parts. */
  lemma {:induction false} ParseRawBars(a: seq<byte>, b: seq<byte>, c: seq<byte>)
    requires ValidUtf8(Bars(a, b, c)) && BAR !in c
    ensures Handler.ParseRaw(Bars(a, b, c))
         == if BAR in a || BAR in b then Err(InvalidUsername)
            else if ParseI64(c) == None then Err(InvalidExpiry)
            else if ParseI64(c).value == 0 then Err(Expired)
            else Ok(ParsedUsername(a, b, ParseI64(c).value))
  {
    SplitCount(Bars(a, b, c), BAR);
    CountBars(a, b, c);
    if BAR !in a && BAR !in b {
      SplitPlainBars(a, b, c);
    }
  }

  /** What parsing makes of a minted user name, in every case: the triple comes back unless a
      bar inside the key or the participant ID, or an expiry of zero, spoils it. */
  lemma {:induction false} ParseMinted(h: Handler, apiKey: Str, participantId: Str, ttl: i64, now: i64)
    ensures var (username, expiry) := h.CreateUsernameAt(apiKey, participantId, ttl, now);
            h.ParseUsername(username)
            == if BAR in apiKey || BAR in participantId then Err(InvalidUsername)
               else if expiry == 0 then Err(Expired)
               else Ok(ParsedUsername(apiKey, participantId, expiry))
  {
    var (username, expiry) := h.CreateUsernameAt(apiKey, participantId, ttl, now);
    var expiryText := FormatI64(expiry);
    FormatIsPlain(expiry);
    BarsIsUtf8(apiKey, participantId, expiryText);
    DecodeEncode(Bars(apiKey, participantId, expiryText));
    ParseFormat(expiry);
    ParseRawBars(apiKey, participantId, expiryText);
  }

  lemma {:induction false} MintSucceedsExactly(h: Handler, apiKey: Str, participantId: Str, ttl: i64, now: i64)
    ensures h.Mint(apiKey, participantId, ttl, now).Some?
       <==> apiKey in h.secrets && SaturatingAdd(now, ttl) != 0 && now <= SaturatingAdd(now, ttl)
  {}

  /** Making a password fails as expired for an expiry of zero or in the past, and else for an unknown key only. */
  lemma {:induction false} PasswordFailsExactly(h: Handler, apiKey: seq<byte>, participantId: seq<byte>, expiry: i64,
                                                now: i64)
    ensures h.CreatePasswordAt(apiKey, participantId, expiry, now) == Err(Expired) <==> expiry == 0 || expiry < now
    ensures h.CreatePasswordAt(apiKey, participantId, expiry, now) == Err(InvalidApiKey)
       <==> expiry != 0 && expiry >= now && apiKey !in h.secrets
  {}

  /** A minted credential is honoured at every later (or earlier) time `t`: the participant is
      the user and the key is the one its own password gives. Only an Allocate after expiry is
      turned away. A bar in the key or the participant ID makes the credential useless. */
  lemma {:induction false} MintedCredentialAuthenticates(h: Handler, apiKey: Str, participantId: Str, ttl: i64,
                                                         now: i64, m: Method, t: i64)
    requires apiKey in h.secrets && SaturatingAdd(now, ttl) != 0 && now <= SaturatingAdd(now, ttl)
    ensures h.Mint(apiKey, participantId, ttl, now).Some?
    ensures var credential := h.Mint(apiKey, participantId, ttl, now).value;
            h.HandleAuthAt(credential.username, m, t)
            == if BAR in apiKey || BAR in participantId || (m == Allocate && t > credential.expiry) then REJECT
               else Decision(participantId, h.AuthKey(credential.username, credential.password), true)
  {
    ParseMinted(h, apiKey, participantId, ttl, now);
  }

  /** `username` is the encoding of `key|participant|expiry`, read without reference to the parser. */
  ghost predicate Spells(username: seq<byte>, apiKey: seq<byte>, participantId: seq<byte>, expiryText: seq<byte>) {
    && username == Encode(Bars(apiKey, participantId, expiryText))
    && ValidUtf8(Bars(apiKey, participantId, expiryText))
    && BAR !in apiKey && BAR !in participantId && BAR !in expiryText
  }

  lemma {:induction false} ParsedRawIsSpelled(raw: seq<byte>) returns (x: seq<byte>)
    requires Handler.ParseRaw(raw).Ok?
    ensures var parsed := Handler.ParseRaw(raw).value;
            && raw == Bars(parsed.apiKey, parsed.participantId, x)
            && BAR !in parsed.apiKey && BAR !in parsed.participantId && BAR !in x
            && ParseI64(x) == Some(parsed.expiry) && parsed.expiry != 0
  {
    SplitInThree(raw, BAR);
    x := Split(raw, BAR)[2];
  }

  lemma {:induction false} ParsedNamesAreSpelled(h: Handler, username: seq<byte>) returns (x: seq<byte>)
    requires h.ParseUsername(username).Ok?
    ensures var parsed := h.ParseUsername(username).value;
            && Spells(username, parsed.apiKey, parsed.participantId, x)
            && ParseI64(x) == Some(parsed.expiry) && parsed.expiry != 0
  {
    EncodeDecode(username);
    x := ParsedRawIsSpelled(Decode(username).value);
  }

  /** The key that the holder of the secret derives for a user name, from what the name spells. */
  function DerivedKey(h: Handler, username: seq<byte>, apiKey: seq<byte>, participantId: seq<byte>, expiry: i64)
    : seq<byte>
    requires apiKey in h.secrets
  {
    h.AuthKey(username, Encode(h.sha256(Bars(h.secrets[apiKey], participantId, FormatI64(expiry)))))
  }

  /** What a name that spells something is answered. */
  lemma {:induction false} SpelledIsParsed(h: Handler, username: seq<byte>, a: seq<byte>, p: seq<byte>, x: seq<byte>)
    requires Spells(username, a, p, x)
    ensures h.ParseUsername(username)
         == if ParseI64(x) == None then Err(InvalidExpiry)
            else if ParseI64(x).value == 0 then Err(Expired)
            else Ok(ParsedUsername(a, p, ParseI64(x).value))
  {
    DecodeEncode(Bars(a, p, x));
    ParseRawBars(a, p, x);
  }

  /** Exactly which requests are granted, to whom and with which key: those whose user name spells a known
      key, some participant and a nonzero expiry, not yet over when the method is Allocate. */
  lemma {:induction false} GrantedExactly(h: Handler, username: seq<byte>, m: Method, now: i64)
    ensures h.HandleAuthAt(username, m, now).ok
       <==> exists a, p, x :: Spells(username, a, p, x) && a in h.secrets
              && ParseI64(x).Some? && ParseI64(x).value != 0 && (m == Allocate ==> now <= ParseI64(x).value)
    ensures !h.HandleAuthAt(username, m, now).ok ==> h.HandleAuthAt(username, m, now) == REJECT
    ensures forall a, p, x :: Spells(username, a, p, x) && h.HandleAuthAt(username, m, now).ok ==>
              && a in h.secrets && ParseI64(x).Some?
              && h.HandleAuthAt(username, m, now) == Decision(p, DerivedKey(h, username, a, p, ParseI64(x).value), true)
  {
    forall a, p, x | Spells(username, a, p, x)
      ensures ParseI64(x).Some? && ParseI64(x).value != 0
          ==> h.ParseUsername(username) == Ok(ParsedUsername(a, p, ParseI64(x).value))
      ensures h.HandleAuthAt(username, m, now).ok ==>
                && a in h.secrets && ParseI64(x).Some?
                && h.HandleAuthAt(username, m, now)
                   == Decision(p, DerivedKey(h, username, a, p, ParseI64(x).value), true)
    {
      SpelledIsParsed(h, username, a, p, x);
    }
    if h.HandleAuthAt(username, m, now).ok {
      var x := ParsedNamesAreSpelled(h, username);
    }
  }

  /** A participant ID with a bar: the server mints a credential for `p|` and refuses it at once, and for ever. */
  lemma {:induction false} BarredCredentialIsRefused(sha256: seq<byte> -> seq<byte>, md5: seq<byte> -> seq<byte>,
                                                     m: Method, t: i64)
    ensures var h := Handler(map[[107] := [115]], sha256, md5);
            && ValidUtf8([107]) && ValidUtf8([112, BAR])
            && h.Mint([107], [112, BAR], 60, 1_000).Some?
            && h.HandleAuthAt(h.Mint([107], [112, BAR], 60, 1_000).value.username, m, t) == REJECT
  {
    var h := Handler(map[[107] := [115]], sha256, md5);
    AsciiIsUtf8([107]);
    AsciiIsUtf8([112, BAR]);
    assert BAR == [112, BAR][1];
    MintSucceedsExactly(h, [107], [112, BAR], 60, 1_000);
    MintedCredentialAuthenticates(h, [107], [112, BAR], 60, 1_000, m, t);
  }

  lemma {:induction false} ParseRawFails(raw: seq<byte>)
    ensures Handler.ParseRaw(raw) == Err(InvalidUtf8) <==> !ValidUtf8(raw)
    ensures Handler.ParseRaw(raw) == Err(InvalidUsername) <==> ValidUtf8(raw) && Count(raw, BAR) != 2
    ensures Handler.ParseRaw(raw) != Err(InvalidBase62)
  {
    SplitCount(raw, BAR);
  }

  /** Every way in which a user name is turned down, told by its letters, its bytes and its bars. */
  lemma {:induction false} ParseFailsExactly(h: Handler, username: seq<byte>)
    ensures h.ParseUsername(username) == Err(InvalidBase62) <==> Decode(username) == None
    ensures Decode(username).Some? ==>
              var raw := Decode(username).value;
              && (h.ParseUsername(username) == Err(InvalidUtf8) <==> !ValidUtf8(raw))
              && (h.ParseUsername(username) == Err(InvalidUsername) <==> ValidUtf8(raw) && Count(raw, BAR) != 2)
  {
    var decoded := Decode(username);
    if decoded.Some? {
      ParseRawFails(decoded.value);
      assert h.ParseUsername(username) == Handler.ParseRaw(decoded.value);
    }
  }

  /** Encoded texts hold no colon. */
  lemma {:induction false} EncodedHasNoColon(data: seq<byte>)
    ensures 58 !in Encode(data)
  {
    DecodeEncode(data);
    EncodeDecode(Encode(data));
    assert Base62Value(58) == None;
  }

  lemma {:induction false} SplitColons(a: seq<byte>, b: seq<byte>, c: seq<byte>)
    requires COLON !in a && COLON !in b && COLON !in c
    ensures Split(a + [COLON] + b + [COLON] + c, COLON) == [a, b, c]
  {
    assert a + [COLON] + b + [COLON] + c == a + [COLON] + (b + [COLON] + c);
    SplitFirst(a, b + [COLON] + c, COLON);
    SplitFirst(b, c, COLON);
    SplitNone(c, COLON);
    assert [a] + ([b] + [c]) == [a, b, c];
  }

  /** The long-term key of a granted request, whatever the hash functions: the MD5 of user name, realm "livekit" and
      password between colons; the password is the encoded SHA-256 of secret, participant and expiry between
      bars. */
  lemma {:induction false} KeyWrittenOut(h: Handler, username: seq<byte>, a: seq<byte>, p: seq<byte>, x: seq<byte>,
                                         m: Method, now: i64)
    requires Spells(username, a, p, x) && h.HandleAuthAt(username, m, now).ok
    ensures a in h.secrets && ParseI64(x).Some?
    ensures var plain := h.secrets[a] + [124] + p + [124] + FormatI64(ParseI64(x).value);
            h.HandleAuthAt(username, m, now).key
            == h.md5(username + [58] + [108, 105, 118, 101, 107, 105, 116] + [58] + Encode(h.sha256(plain)))
  {
    GrantedExactly(h, username, m, now);
  }

  /** The hashed text falls into exactly its three parts at the colons, so it tells user name and password. */
  lemma {:induction false} KeyTextSplits(username: seq<byte>, a: seq<byte>, p: seq<byte>, x: seq<byte>,
                                         digest: seq<byte>)
    requires Spells(username, a, p, x)
    ensures Split(username + [58] + [108, 105, 118, 101, 107, 105, 116] + [58] + Encode(digest), 58)
         == [username, [108, 105, 118, 101, 107, 105, 116], Encode(digest)]
  {
    EncodedHasNoColon(Bars(a, p, x));
    EncodedHasNoColon(digest);
    SplitColons(username, [108, 105, 118, 101, 107, 105, 116], Encode(digest));
  }

  /** Distinct triples get distinct user names. */
  lemma {:induction false} MintedNamesAreDistinct(h: Handler, a: Str, p: Str, ttl: i64, now: i64,
                                                  a': Str, p': Str, ttl': i64, now': i64)
    requires BAR !in a && BAR !in p && BAR !in a' && BAR !in p'
    requires SaturatingAdd(now, ttl) != 0 && SaturatingAdd(now', ttl') != 0
    ensures h.CreateUsernameAt(a, p, ttl, now).0 == h.CreateUsernameAt(a', p', ttl', now').0
       <==> (a, p, SaturatingAdd(now, ttl)) == (a', p', SaturatingAdd(now', ttl'))
  {
    ParseMinted(h, a, p, ttl, now);
    ParseMinted(h, a', p', ttl', now');
  }
}
