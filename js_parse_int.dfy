/** ECMAScript's global `parseInt(string)` with no radix argument, and the
    `x || d` defaulting the handlers apply to its result. */
module JsParseInt {
  import opened JsString

  /** What `parseInt` returns: NaN, or an integer. JavaScript yields a double;
      every comparison the services make is against a small integer, which
      a double compares with exactly as the integer it rounds from. */
  datatype Parsed = NaN | Num(value: int)

  predicate IsDecimalDigit(c: char) {
    '0' <= c <= '9'
  }

  predicate IsHexDigit(c: char) {
    IsDecimalDigit(c) || 'a' <= c <= 'f' || 'A' <= c <= 'F'
  }

  /** A digit of radix 10 or of radix 16. */
  predicate IsDigit(c: char, hex: bool) {
    if hex then IsHexDigit(c) else IsDecimalDigit(c)
  }

  function DigitValue(c: char): (v: nat)
    requires IsHexDigit(c)
    ensures v < 16
    ensures IsDecimalDigit(c) <==> v < 10
  {
    if IsDecimalDigit(c) then c as int - '0' as int
    else if 'a' <= c <= 'f' then c as int - 'a' as int + 10
    else c as int - 'A' as int + 10
  }

  /** The longest prefix of `s` made of digits. */
  function DigitRun(s: string, hex: bool): (d: string)
    ensures |d| <= |s| && d == s[..|d|]
    ensures forall k :: 0 <= k < |d| ==> IsDigit(d[k], hex)
    ensures |d| == |s| || !IsDigit(s[|d|], hex)
  {
    if s != [] && IsDigit(s[0], hex) then [s[0]] + DigitRun(s[1..], hex) else []
  }

  /** The number a run of digits denotes, most significant digit first. */
  function DigitsValue(d: string, hex: bool): nat
    requires forall k :: 0 <= k < |d| ==> IsDigit(d[k], hex)
  {
    if d == [] then 0
    else
      var last := d[|d| - 1];
      assert IsDigit(last, hex);
      DigitsValue(d[..|d| - 1], hex) * (if hex then 16 else 10) + DigitValue(last)
  }

  /** The digits at the start of `u` (radix 16 after a `0x` or `0X` prefix,
      radix 10 otherwise), or NaN when there are none. */
  function ParseMagnitude(u: string): Parsed
  {
    var hex := |u| >= 2 && u[0] == '0' && (u[1] == 'x' || u[1] == 'X');
    var body := if hex then u[2..] else u;
    var d := DigitRun(body, hex);
    if d == [] then NaN else Num(DigitsValue(d, hex))
  }

  /** `parseInt(s)`: skip leading white space, read an optional sign, then
      the longest run of digits; trailing characters are ignored. */
  function ParseInt(s: string): Parsed
  {
    ParseSigned(TrimStart(s))
  }

  /** An optional sign, then the magnitude. */
  function ParseSigned(t: string): Parsed
  {
    var negative := t != [] && t[0] == '-';
    var unsigned := if t != [] && (t[0] == '-' || t[0] == '+') then t[1..] else t;
    match ParseMagnitude(unsigned)
    case NaN => NaN
    case Num(m) => Num(if negative then -m else m)
  }

  /** JavaScript truthiness of a `parseInt` result: NaN and 0 are falsy. */
  predicate Truthy(p: Parsed) {
    p.Num? && p.value != 0
  }

  /** `parseInt(x) || d`. */
  function OrDefault(p: Parsed, d: int): int
  {
    if Truthy(p) then p.value else d
  }

  function DigitChar(n: nat): (c: char)
    requires n < 10
    ensures IsDecimalDigit(c) && DigitValue(c) == n
  {
    ('0' as int + n) as char
  }

  /** The canonical decimal numeral of `n`: no sign, no leading zero. */
  function DecimalString(n: nat): (s: string)
    ensures |s| >= 1
    ensures forall k :: 0 <= k < |s| ==> IsDecimalDigit(s[k])
    ensures n > 0 ==> s[0] != '0'
  {
    if n < 10 then [DigitChar(n)] else DecimalString(n / 10) + [DigitChar(n % 10)]
  }

  /** Reading the numeral of `n` gives `n` back. */
  lemma {:induction false} DecimalStringValue(n: nat)
    ensures DigitsValue(DecimalString(n), false) == n
  {
    var s := DecimalString(n);
    if n >= 10 {
      assert s[..|s| - 1] == DecimalString(n / 10);
      DecimalStringValue(n / 10);
    }
  }

  lemma {:induction false} DigitRunStops(d: string, rest: string, hex: bool)
    requires forall k :: 0 <= k < |d| ==> IsDigit(d[k], hex)
    requires rest == [] || !IsDigit(rest[0], hex)
    ensures DigitRun(d + rest, hex) == d
  {
    if d != [] {
      assert (d + rest)[1..] == d[1..] + rest;
      DigitRunStops(d[1..], rest, hex);
    }
  }

  lemma {:induction false} TrimStartSkips(ws: string, t: string)
    requires forall k :: 0 <= k < |ws| ==> IsWhiteSpace(ws[k])
    requires t == [] || !IsWhiteSpace(t[0])
    ensures TrimStart(ws + t) == t
  {
    if ws != [] {
      assert (ws + t)[1..] == ws[1..] + t;
      TrimStartSkips(ws[1..], t);
    }
  }

  /** The magnitude of a numeral followed by a character that cannot
      continue it. */
  lemma MagnitudeOfNumeral(n: nat, rest: string)
    requires rest == [] || !IsDecimalDigit(rest[0])
    requires n == 0 ==> rest == [] || (rest[0] != 'x' && rest[0] != 'X')
    ensures ParseMagnitude(DecimalString(n) + rest) == Num(n)
  {
    var d := DecimalString(n);
    var u := d + rest;
    assert u[0] == d[0];
    assert |u| >= 2 ==> u[1] == (if |d| >= 2 then d[1] else rest[0]);
    DigitRunStops(d, rest, false);
    DecimalStringValue(n);
  }

  /** Without a sign, the magnitude is the result. */
  lemma UnsignedIsMagnitude(u: string)
    requires u == [] || (u[0] != '-' && u[0] != '+')
    ensures ParseSigned(u) == ParseMagnitude(u)
  {
  }

  /** The negation of a `parseInt` result (NaN stays NaN). */
  function Negated(p: Parsed): (r: Parsed)
    ensures r.NaN? <==> p.NaN?
    ensures r.Num? ==> r.value == -p.value
  {
    match p
    case NaN => NaN
    case Num(m) => Num(-m)
  }

  /** A minus sign negates the magnitude after it. */
  lemma MinusNegates(u: string)
    ensures ParseSigned(['-'] + u) == Negated(ParseMagnitude(u))
  {
    var t := ['-'] + u;
    assert t[0] == '-' && t[1..] == u;
  }

  /** An optional minus sign in front of an unsigned magnitude. */
  lemma SignApplied(u: string, m: nat, negative: bool)
    requires u != [] && u[0] != '-' && u[0] != '+'
    requires ParseMagnitude(u) == Num(m)
    ensures ParseSigned((if negative then "-" else "") + u) == Num(if negative then -(m as int) else m as int)
  {
    var sign: string := if negative then "-" else "";
    if negative {
      assert sign + u == ['-'] + u;
      MinusNegates(u);
    } else {
      assert sign + u == u;
      UnsignedIsMagnitude(u);
    }
  }

  /** `parseInt` reads a decimal numeral after any leading white space and
      an optional minus sign, and stops at the first character that cannot
      continue it; a lone `0` followed by `x` would start a hexadecimal
      numeral instead. */
  lemma ParseIntReadsNumeral(ws: string, n: nat, rest: string, negative: bool)
    requires forall k :: 0 <= k < |ws| ==> IsWhiteSpace(ws[k])
    requires rest == [] || !IsDecimalDigit(rest[0])
    requires n == 0 ==> rest == [] || (rest[0] != 'x' && rest[0] != 'X')
    ensures ParseInt(ws + (if negative then "-" else "") + DecimalString(n) + rest)
         == Num(if negative then -(n as int) else n as int)
  {
    var d := DecimalString(n);
    var sign: string := if negative then "-" else "";
    var u := d + rest;
    var t := sign + u;
    assert ws + sign + d + rest == ws + t;
    assert u[0] == d[0];
    assert t[0] == (if negative then '-' else d[0]);
    TrimStartSkips(ws, t);
    MagnitudeOfNumeral(n, rest);
    SignApplied(u, n, negative);
  }

  /** A canonical numeral with nothing around it parses to its value. */
  lemma ParseIntDecimal(n: nat)
    ensures ParseInt(DecimalString(n)) == Num(n)
  {
    ParseIntReadsNumeral([], n, [], false);
    assert [] + "" + DecimalString(n) + [] == DecimalString(n);
  }

  /** When, after white space and an optional sign, no digit follows,
      the result is NaN. */
  lemma ParseIntNoDigits(s: string)
    requires var t := TrimStart(s);
      var u := if t != [] && (t[0] == '-' || t[0] == '+') then t[1..] else t;
      u == [] || !IsDecimalDigit(u[0])
    ensures ParseInt(s) == NaN
  {
  }

  /** Text that starts with anything but white space, a sign or a digit is
      NaN. */
  lemma {:induction false} ParseIntNonNumeric(s: string)
    requires s != [] && !IsWhiteSpace(s[0]) && !IsDecimalDigit(s[0]) && s[0] != '-' && s[0] != '+'
    ensures ParseInt(s) == NaN
  {
    TrimStartSkips([], s);
    assert [] + s == s;
    UnsignedIsMagnitude(s);
  }

  /** A hexadecimal numeral: `0x` or `0X`, hex digits, then a character
      that cannot continue them. */
  lemma ParseIntReadsHex(x: char, h: string, rest: string)
    requires x == 'x' || x == 'X'
    requires h != [] && forall k :: 0 <= k < |h| ==> IsHexDigit(h[k])
    requires rest == [] || !IsHexDigit(rest[0])
    ensures ParseInt(['0', x] + h + rest) == Num(DigitsValue(h, true))
  {
    var u := ['0', x] + h + rest;
    HexMagnitude(x, h, rest);
    assert u[0] == '0';
    TrimStartSkips([], u);
    assert [] + u == u;
    UnsignedIsMagnitude(u);
  }

  /** A minus sign right in front of a number negates it. */
  lemma ParseIntMinus(u: string)
    requires u != [] && !IsWhiteSpace(u[0]) && u[0] != '-' && u[0] != '+'
    ensures ParseInt("-" + u) == Negated(ParseInt(u))
  {
    var t := ['-'] + u;
    assert "-" + u == t;
    TrimStartNoOp(t);
    TrimStartNoOp(u);
    MinusNegates(u);
    UnsignedIsMagnitude(u);
  }

  lemma TrimStartNoOp(t: string)
    requires t == [] || !IsWhiteSpace(t[0])
    ensures TrimStart(t) == t
  {
  }

  lemma HexMagnitude(x: char, h: string, rest: string)
    requires x == 'x' || x == 'X'
    requires forall k :: 0 <= k < |h| ==> IsHexDigit(h[k])
    requires rest == [] || !IsHexDigit(rest[0])
    ensures ParseMagnitude(['0', x] + h + rest) == if h == [] then NaN else Num(DigitsValue(h, true))
  {
    DigitRunStops(h, rest, true);
    HexPrefixed(x, h, rest);
  }

  /** After `0x`, the digit run is read in radix 16. */
  lemma HexPrefixed(x: char, h: string, rest: string)
    requires x == 'x' || x == 'X'
    ensures var u := ['0', x] + h + rest;
      ParseMagnitude(u) == var d := DigitRun(h + rest, true); if d == [] then NaN else Num(DigitsValue(d, true))
  {
    var u := ['0', x] + h + rest;
    assert u[0] == '0' && u[1] == x;
    assert u[2..] == h + rest;
  }

  /** A `0x` prefix reads hexadecimal. */
  lemma ParseIntHex()
    ensures ParseInt("0x1A") == Num(26)
  {
    HexValue("1A", 26);
    ParseIntReadsHex('x', "1A", "");
    assert ['0', 'x'] + "1A" + "" == "0x1A";
  }

  lemma HexValue(h: string, v: nat)
    requires |h| == 2 && IsHexDigit(h[0]) && IsHexDigit(h[1])
    requires v == DigitValue(h[0]) * 16 + DigitValue(h[1])
    ensures DigitsValue(h, true) == v
  {
    var first := h[..1];
    assert first[0] == h[0] && first[..0] == [];
    assert DigitsValue(first, true) == DigitValue(h[0]);
  }

  /** Text without digits is NaN. */
  lemma ParseIntNaN()
    ensures ParseInt("") == NaN
    ensures ParseInt("abc") == NaN
  {
    ParseIntNonNumeric("abc");
  }

  /** A `0x` prefix with no hexadecimal digit after it is NaN. */
  lemma ParseIntEmptyHex()
    ensures ParseInt("0x") == NaN
  {
    TrimStartSkips([], "0x");
    assert [] + "0x" == "0x";
    UnsignedIsMagnitude("0x");
    HexMagnitude('x', [], []);
    assert ['0', 'x'] + [] + [] == "0x";
  }

  /** `parseInt(undefined)` reads the string "undefined": NaN. */
  lemma ParseIntUndefined()
    ensures ParseInt("undefined") == NaN
  {
    ParseIntNonNumeric("undefined");
  }
}
