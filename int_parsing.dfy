/**
  The global `parseInt(string)` with no radix argument, as in section 19.2.5
  of ECMA-262: skip leading white space, read an optional sign, read a `0x` or
  `0X` prefix as radix 16 (radix 10 otherwise), then take the longest run of
  digits of that radix. No digits at all gives NaN, modelled as None.
 */
module IntParsing {
  import opened Wrappers
  import opened JsStrings
  import opened Sequences

  const Plus: CodeUnit := 0x2B   // '+'
  const Minus: CodeUnit := 0x2D  // '-'
  const Zero: CodeUnit := 0x30   // '0'
  const LowerX: CodeUnit := 0x78 // 'x'
  const UpperX: CodeUnit := 0x58 // 'X'

  /**
    The value of `c` as a digit of radix up to 36 (0-9, then a-z or A-Z for
    10-35), or 36 when `c` is no such digit.
   */
  function DigitValue(c: CodeUnit): (v: nat)
    ensures v <= 36
  {
    if 0x30 <= c <= 0x39 then c - 0x30
    else if 0x61 <= c <= 0x7A then c - 0x61 + 10
    else if 0x41 <= c <= 0x5A then c - 0x41 + 10
    else 36
  }

  predicate IsDigit(c: CodeUnit, radix: nat) {
    DigitValue(c) < radix
  }

  predicate AllDigits(s: JsString, radix: nat) {
    forall k :: 0 <= k < |s| ==> IsDigit(s[k], radix)
  }

  /** The length of the longest prefix of `s` made of radix-`radix` digits. */
  function DigitRun(s: JsString, radix: nat): (n: nat)
    ensures n <= |s|
  {
    if s == [] || !IsDigit(s[0], radix) then 0 else 1 + DigitRun(s[1..], radix)
  }

  /** DigitRun finds digits only, and stops at a non-digit or the end. */
  lemma {:induction false} DigitRunIsLongest(s: JsString, radix: nat)
    ensures AllDigits(s[..DigitRun(s, radix)], radix)
    ensures DigitRun(s, radix) < |s| ==> !IsDigit(s[DigitRun(s, radix)], radix)
  {
    if s != [] && IsDigit(s[0], radix) {
      DigitRunIsLongest(s[1..], radix);
      var n := DigitRun(s, radix);
      assert s[..n] == [s[0]] + s[1..][..n - 1];
    }
  }

  /** The integer a string of digits denotes, most significant digit first. */
  function ValueOf(digits: JsString, radix: nat): nat
  {
    if digits == [] then 0
    else ValueOf(digits[..|digits| - 1], radix) * radix + DigitValue(digits[|digits| - 1])
  }

  /**
    Steps 4-5 of parseInt: whether a leading `-` makes the sign negative, and
    what follows a leading `-` or `+`.
   */
  function SplitSign(s: JsString): (r: (bool, JsString))
    ensures r.0 <==> s != [] && s[0] == Minus
    ensures s != [] && (s[0] == Minus || s[0] == Plus) ==> r.1 == s[1..]
    ensures s == [] || (s[0] != Minus && s[0] != Plus) ==> r.1 == s
  {
    if s != [] && s[0] == Minus then (true, s[1..])
    else if s != [] && s[0] == Plus then (false, s[1..])
    else (false, s)
  }

  /** Steps 8-10 of parseInt with radix 0: a `0x` or `0X` prefix selects radix 16. */
  function SplitRadixPrefix(s: JsString): (r: (nat, JsString))
    ensures r.0 == 10 || r.0 == 16
    ensures r.0 == 16 <==> |s| >= 2 && s[0] == Zero && (s[1] == LowerX || s[1] == UpperX)
    ensures r.0 == 10 ==> r.1 == s
    ensures r.0 == 16 ==> |s| >= 2 && s[0] == Zero && r.1 == s[2..]
  {
    if |s| >= 2 && s[0] == Zero && (s[1] == LowerX || s[1] == UpperX) then (16, s[2..])
    else (10, s)
  }

  /**
    parseInt(input): the steps of section 19.2.5 of ECMA-262 with the radix
    undefined. The result is the exact mathematical integer; the conversion to
    the nearest Number for values beyond 2^53 is not modelled.
   */
  function ParseInt(input: JsString): Option<int> {
    var (negative, body) := SplitSign(TrimStart(input));
    var (radix, digits) := SplitRadixPrefix(body);
    ReadDigits(negative, digits, radix)
  }

  /** Steps 11-16 of parseInt: the signed value of the longest digit prefix, or NaN. */
  function ReadDigits(negative: bool, s: JsString, radix: nat): Option<int> {
    var end := DigitRun(s, radix);
    if end == 0 then None
    else
      var magnitude: int := ValueOf(s[..end], radix);
      Some(if negative then -magnitude else magnitude)
  }

  /** parseInt as the composition of its three steps, for given intermediate results. */
  lemma ParseIntSteps(input: JsString, negative: bool, body: JsString, radix: nat, digits: JsString)
    requires SplitSign(TrimStart(input)) == (negative, body)
    requires SplitRadixPrefix(body) == (radix, digits)
    ensures ParseInt(input) == ReadDigits(negative, digits, radix)
  {
  }

  /** NaN unless a decimal digit occurs somewhere in the input. */
  lemma NaNWithoutDigits(input: JsString)
    requires forall k :: 0 <= k < |input| ==> !IsDigit(input[k], 10)
    ensures ParseInt(input) == None
  {
    TrimStartDropsBlankPrefix(input);
    var (negative, body) := SplitSign(TrimStart(input));
    var start := |input| - |body|;
    assert body == input[start..];
    assert body != [] ==> body[0] == input[start];
    assert !IsDigit(Zero, 10) ==> false;
    var (radix, digits) := SplitRadixPrefix(body);
    assert radix == 10 && digits == body;
    ParseIntSteps(input, negative, body, radix, digits);
  }

  /** The digit run ends exactly where a block of digits meets a non-digit. */
  lemma {:induction false} DigitRunOfBlock(digits: JsString, rest: JsString, radix: nat)
    requires AllDigits(digits, radix)
    requires rest == [] || !IsDigit(rest[0], radix)
    ensures DigitRun(digits + rest, radix) == |digits|
  {
    var s := digits + rest;
    if digits == [] {
      assert s == rest;
    } else {
      assert s[0] == digits[0] && s[1..] == digits[1..] + rest;
      DigitRunOfBlock(digits[1..], rest, radix);
    }
  }

  /**
    A non-empty block of digits of radix `radix` that `rest` does not extend.
   */
  predicate DigitBlock(digits: JsString, rest: JsString, radix: nat) {
    && digits != [] && AllDigits(digits, radix)
    && (rest == [] || !IsDigit(rest[0], radix))
  }

  /** The digits read are exactly a block of digits that a non-digit ends. */
  lemma ReadDigitBlock(negative: bool, digits: JsString, rest: JsString, radix: nat)
    requires DigitBlock(digits, rest, radix)
    ensures ReadDigits(negative, digits + rest, radix) ==
      Some(if negative then -(ValueOf(digits, radix) as int) else ValueOf(digits, radix))
  {
    DigitRunOfBlock(digits, rest, radix);
    assert (digits + rest)[..|digits|] == digits;
  }

  /** Leading blank code units do not change what TrimStart leaves. */
  lemma {:induction false} SkipBlank(ws: JsString, t: JsString)
    requires IsBlank(ws)
    ensures TrimStart(ws + t) == TrimStart(t)
  {
    if ws != [] {
      assert (ws + t)[0] == ws[0] && (ws + t)[1..] == ws[1..] + t;
      SkipBlank(ws[1..], t);
    } else {
      assert ws + t == t;
    }
  }

  predicate IsSign(sign: JsString) {
    sign == [] || sign == [Plus] || sign == [Minus]
  }

  /** A body that starts with neither blank nor sign. */
  predicate Unsigned(body: JsString) {
    body != [] && !IsTrimmable(body[0]) && body[0] != Plus && body[0] != Minus
  }

  /** TrimStart leaves a sign and such a body alone. */
  lemma SignedIsTrimmed(sign: JsString, body: JsString)
    requires IsSign(sign) && Unsigned(body)
    ensures TrimStart(sign + body) == sign + body
  {
    assert (sign + body)[0] == (if sign == [] then body[0] else sign[0]);
  }

  /** SplitSign takes the sign off again. */
  lemma SplitSignOff(sign: JsString, body: JsString)
    requires IsSign(sign) && Unsigned(body)
    ensures SplitSign(sign + body) == (sign == [Minus], body)
  {
    var t := sign + body;
    if sign == [] {
      assert t == body;
    } else {
      assert t[0] == sign[0] && t[1..] == body;
      assert sign == [Minus] <==> sign[0] == Minus;
    }
  }

  /** Reading white space and a sign in front of such a body. */
  lemma ParseSigned(ws: JsString, sign: JsString, body: JsString)
    requires IsBlank(ws) && IsSign(sign) && Unsigned(body)
    ensures SplitSign(TrimStart(ws + sign + body)) == (sign == [Minus], body)
  {
    SignedIsTrimmed(sign, body);
    SplitSignOff(sign, body);
    Associative(ws, sign, body);
    SkipBlank(ws, sign + body);
  }

  lemma DecimalDigitIsNotBlank(c: CodeUnit)
    requires IsDigit(c, 10)
    ensures !IsTrimmable(c) && c != Plus && c != Minus
  {
  }

  /**
    A decimal digit block that parseInt does not take for a radix prefix: it
    is not a lone `0` followed by `x` or `X`.
   */
  predicate DecimalBlock(digits: JsString, rest: JsString) {
    && DigitBlock(digits, rest, 10)
    && (|digits| == 1 && digits[0] == Zero && rest != [] ==> rest[0] != LowerX && rest[0] != UpperX)
  }

  /** A decimal block is read in radix 10, and cannot be taken for white space or a sign. */
  lemma DecimalBody(digits: JsString, rest: JsString)
    requires DecimalBlock(digits, rest)
    ensures Unsigned(digits + rest) && SplitRadixPrefix(digits + rest) == (10, digits + rest)
  {
    var body := digits + rest;
    assert body[0] == digits[0];
    DecimalDigitIsNotBlank(digits[0]);
    assert |body| >= 2 ==> body[1] == (if |digits| == 1 then rest[0] else digits[1]);
  }

  /** The intermediate results of parseInt on a padded, signed decimal block. */
  lemma DecimalSteps(ws: JsString, sign: JsString, digits: JsString, rest: JsString)
    requires IsBlank(ws) && IsSign(sign) && DecimalBlock(digits, rest)
    ensures SplitSign(TrimStart(ws + sign + (digits + rest))) == (sign == [Minus], digits + rest)
    ensures SplitRadixPrefix(digits + rest) == (10, digits + rest)
    ensures ReadDigits(sign == [Minus], digits + rest, 10) ==
      Some(if sign == [Minus] then -(ValueOf(digits, 10) as int) else ValueOf(digits, 10))
    ensures ws + sign + digits + rest == ws + sign + (digits + rest)
  {
    DecimalBody(digits, rest);
    ParseSigned(ws, sign, digits + rest);
    ReadDigitBlock(sign == [Minus], digits, rest, 10);
    Associative(ws + sign, digits, rest);
  }

  /**
    Under any leading white space and sign, parseInt reads a block of decimal
    digits as the integer it denotes and ignores whatever follows the block.
   */
  lemma ParseDecimal(ws: JsString, sign: JsString, digits: JsString, rest: JsString)
    requires IsBlank(ws) && IsSign(sign) && DecimalBlock(digits, rest)
    ensures ParseInt(ws + sign + digits + rest) ==
      Some(if sign == [Minus] then -(ValueOf(digits, 10) as int) else ValueOf(digits, 10))
  {
    DecimalSteps(ws, sign, digits, rest);
    ParseIntSteps(ws + sign + (digits + rest), sign == [Minus], digits + rest, 10, digits + rest);
  }

  /** The intermediate results of parseInt on a padded, signed `0x` block. */
  lemma HexSteps(ws: JsString, sign: JsString, x: CodeUnit, rest: JsString)
    requires IsBlank(ws) && IsSign(sign) && (x == LowerX || x == UpperX)
    ensures SplitSign(TrimStart(ws + sign + ([Zero, x] + rest))) == (sign == [Minus], [Zero, x] + rest)
    ensures SplitRadixPrefix([Zero, x] + rest) == (16, rest)
    ensures ws + sign + [Zero, x] + rest == ws + sign + ([Zero, x] + rest)
  {
    var body := [Zero, x] + rest;
    assert body[0] == Zero && body[1] == x && body[2..] == rest;
    DecimalDigitIsNotBlank(Zero);
    ParseSigned(ws, sign, body);
    Associative(ws + sign, [Zero, x], rest);
  }

  /** The same as ParseDecimal for a `0x` or `0X` prefix and hexadecimal digits. */
  lemma ParseHex(ws: JsString, sign: JsString, x: CodeUnit, digits: JsString, rest: JsString)
    requires IsBlank(ws) && IsSign(sign) && (x == LowerX || x == UpperX)
    requires DigitBlock(digits, rest, 16)
    ensures ParseInt(ws + sign + [Zero, x] + (digits + rest)) ==
      Some(if sign == [Minus] then -(ValueOf(digits, 16) as int) else ValueOf(digits, 16))
  {
    HexSteps(ws, sign, x, digits + rest);
    ReadDigitBlock(sign == [Minus], digits, rest, 16);
    ParseIntSteps(ws + sign + ([Zero, x] + (digits + rest)), sign == [Minus], [Zero, x] + (digits + rest), 16, digits + rest);
  }

  /** A `0x` prefix that no hexadecimal digit follows gives NaN, not 0. */
  lemma HexPrefixWithoutDigits(ws: JsString, sign: JsString, x: CodeUnit, rest: JsString)
    requires IsBlank(ws) && IsSign(sign) && (x == LowerX || x == UpperX)
    requires rest == [] || !IsDigit(rest[0], 16)
    ensures ParseInt(ws + sign + [Zero, x] + rest) == None
  {
    HexSteps(ws, sign, x, rest);
    ParseIntSteps(ws + sign + ([Zero, x] + rest), sign == [Minus], [Zero, x] + rest, 16, rest);
  }

  /**
    `input` is white space, a sign and a block of decimal digits that `rest`
    does not extend, and `v` is the signed value of that block.
   */
  predicate DecimalForm(input: JsString, ws: JsString, sign: JsString, digits: JsString, rest: JsString, v: int) {
    && input == ws + sign + digits + rest
    && IsBlank(ws) && IsSign(sign) && DecimalBlock(digits, rest)
    && v == if sign == [Minus] then -(ValueOf(digits, 10) as int) else ValueOf(digits, 10)
  }

  /**
    `input` is white space, a sign, `0x` or `0X` and a block of hexadecimal
    digits that `rest` does not extend, and `v` is the signed value of that block.
   */
  predicate HexForm(input: JsString, ws: JsString, sign: JsString, x: CodeUnit, digits: JsString, rest: JsString, v: int) {
    && input == ws + sign + [Zero, x] + (digits + rest)
    && IsBlank(ws) && IsSign(sign) && (x == LowerX || x == UpperX) && DigitBlock(digits, rest, 16)
    && v == if sign == [Minus] then -(ValueOf(digits, 16) as int) else ValueOf(digits, 16)
  }

  /** The white space and the sign in front of the body parseInt reads. */
  lemma SignedParts(input: JsString) returns (ws: JsString, sign: JsString)
    ensures IsBlank(ws) && IsSign(sign)
    ensures input == ws + sign + SplitSign(TrimStart(input)).1
    ensures SplitSign(TrimStart(input)).0 <==> sign == [Minus]
  {
    var t := TrimStart(input);
    TrimStartDropsBlankPrefix(input);
    ws := input[..|input| - |t|];
    assert input == ws + t;
    if t != [] && (t[0] == Minus || t[0] == Plus) {
      sign := [t[0]];
      assert t == sign + t[1..];
    } else {
      sign := [];
      assert t == sign + t;
    }
    Associative(ws, sign, SplitSign(t).1);
  }

  /** The digit block that ReadDigits reads when it finds a number. */
  lemma ReadBlock(negative: bool, s: JsString, radix: nat, v: int) returns (digits: JsString, rest: JsString)
    requires ReadDigits(negative, s, radix) == Some(v)
    ensures s == digits + rest && DigitBlock(digits, rest, radix)
    ensures v == if negative then -(ValueOf(digits, radix) as int) else ValueOf(digits, radix)
  {
    var n := DigitRun(s, radix);
    DigitRunIsLongest(s, radix);
    digits, rest := s[..n], s[n..];
    assert s == digits + rest;
    assert rest != [] ==> rest[0] == s[n];
  }

  /** Every number parseInt reads comes from an input of one of the two forms. */
  lemma ParsedForm(input: JsString, v: int)
    ensures ParseInt(input) == Some(v) ==>
      || (exists ws, sign, digits, rest :: DecimalForm(input, ws, sign, digits, rest, v))
      || (exists ws, sign, x, digits, rest :: HexForm(input, ws, sign, x, digits, rest, v))
  {
    if ParseInt(input) == Some(v) {
      var (negative, body) := SplitSign(TrimStart(input));
      var ws, sign := SignedParts(input);
      var (radix, s) := SplitRadixPrefix(body);
      var digits, rest := ReadBlock(negative, s, radix, v);
      if radix == 16 {
        var x := body[1];
        assert body == [Zero, x] + (digits + rest);
        assert HexForm(input, ws, sign, x, digits, rest, v);
      } else {
        assert body == digits + rest;
        assert body[0] == digits[0];
        assert |digits| == 1 && rest != [] ==> body[1] == rest[0];
        Associative(ws + sign, digits, rest);
        assert DecimalForm(input, ws, sign, digits, rest, v);
      }
    }
  }

  /** Every input of one of the two forms parses to the value of its digits. */
  lemma FormParses(input: JsString, v: int)
    ensures
      || (exists ws, sign, digits, rest :: DecimalForm(input, ws, sign, digits, rest, v))
      || (exists ws, sign, x, digits, rest :: HexForm(input, ws, sign, x, digits, rest, v))
      ==> ParseInt(input) == Some(v)
  {
    if exists ws, sign, digits, rest :: DecimalForm(input, ws, sign, digits, rest, v) {
      var ws, sign, digits, rest :| DecimalForm(input, ws, sign, digits, rest, v);
      ParseDecimal(ws, sign, digits, rest);
    } else if exists ws, sign, x, digits, rest :: HexForm(input, ws, sign, x, digits, rest, v) {
      var ws, sign, x, digits, rest :| HexForm(input, ws, sign, x, digits, rest, v);
      ParseHex(ws, sign, x, digits, rest);
    }
  }

  /**
    parseInt reads `v` exactly from the inputs of the two forms: white space,
    a sign, then a decimal block, or `0x`/`0X` and a hexadecimal block, each
    ended by anything that does not continue it. Every other input, such as
    ".5", "abc1", "+-1" or "- 1", is NaN.
   */
  lemma ParseIntForms(input: JsString, v: int)
    ensures ParseInt(input) == Some(v) <==>
      || (exists ws, sign, digits, rest :: DecimalForm(input, ws, sign, digits, rest, v))
      || (exists ws, sign, x, digits, rest :: HexForm(input, ws, sign, x, digits, rest, v))
  {
    ParsedForm(input, v);
    FormParses(input, v);
  }
}
