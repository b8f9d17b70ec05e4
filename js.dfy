/** JavaScript coercions the routes and the client rely on: `parseInt`,
    `Number` on strings, `toString` of integers, and truthiness. */
module Js {

  /** A JavaScript number as the routes meet it: an integer or NaN. */
  datatype JsNum = NaN | Num(value: int)

  /** `!!n` for a number: NaN and 0 are falsy. */
  predicate Truthy(n: JsNum) {
    n.Num? && n.value != 0
  }

  /** The white space that `parseInt` and `Number` skip: the ECMAScript
      WhiteSpace and LineTerminator characters, with every space separator
      (category Zs) of Unicode. */
  predicate IsSpace(c: char) {
    c == ' ' || c == '\t' || c == '\n' || c == '\r' || c == '\U{000B}' || c == '\U{000C}'
    || c == '\U{00A0}' || c == '\U{FEFF}' || c == '\U{2028}' || c == '\U{2029}'
    || c == '\U{1680}' || '\U{2000}' <= c <= '\U{200A}' || c == '\U{202F}' || c == '\U{205F}' || c == '\U{3000}'
  }

  predicate IsDigit(c: char) {
    '0' <= c <= '9'
  }

  predicate IsHexDigit(c: char) {
    IsDigit(c) || 'a' <= c <= 'f' || 'A' <= c <= 'F'
  }

  predicate AllDigits(s: string) {
    forall i :: 0 <= i < |s| ==> IsDigit(s[i])
  }

  predicate AllHexDigits(s: string) {
    forall i :: 0 <= i < |s| ==> IsHexDigit(s[i])
  }

  function DigitValue(c: char): (d: nat)
    requires IsDigit(c)
    ensures d < 10
  {
    c as int - '0' as int
  }

  function HexDigitValue(c: char): (d: nat)
    requires IsHexDigit(c)
    ensures d < 16
  {
    if IsDigit(c) then DigitValue(c)
    else if 'a' <= c <= 'f' then c as int - 'a' as int + 10
    else c as int - 'A' as int + 10
  }

  /** Value of a string of decimal digits, most significant first. */
  function DecimalValue(s: string): nat
    requires AllDigits(s)
  {
    if s == [] then 0 else DecimalValue(s[..|s| - 1]) * 10 + DigitValue(s[|s| - 1])
  }

  function HexValue(s: string): nat
    requires AllHexDigits(s)
  {
    if s == [] then 0 else HexValue(s[..|s| - 1]) * 16 + HexDigitValue(s[|s| - 1])
  }

  /** Length of the longest prefix of `s` made of characters satisfying the digit test. */
  function DigitPrefix(s: string, hex: bool): (k: nat)
    ensures k <= |s|
    ensures forall i :: 0 <= i < k ==> (if hex then IsHexDigit(s[i]) else IsDigit(s[i]))
    ensures k < |s| ==> !(if hex then IsHexDigit(s[k]) else IsDigit(s[k]))
  {
    if s == [] || !(if hex then IsHexDigit(s[0]) else IsDigit(s[0])) then 0
    else 1 + DigitPrefix(s[1..], hex)
  }

  function TrimStart(s: string): (t: string)
    ensures |t| <= |s| && t == s[|s| - |t|..]
    ensures t != [] ==> !IsSpace(t[0])
  {
    if s != [] && IsSpace(s[0]) then TrimStart(s[1..]) else s
  }

  function TrimEnd(s: string): (t: string)
    ensures |t| <= |s| && t == s[..|t|]
    ensures t != [] ==> !IsSpace(t[|t| - 1])
  {
    if s != [] && IsSpace(s[|s| - 1]) then TrimEnd(s[..|s| - 1]) else s
  }

  function Negate(negative: bool, n: int): int {
    if negative then -n else n
  }

  /** The value of the longest run of decimal digits at the start of `s`,
      or NaN when `s` does not start with a digit. */
  function LeadingDecimal(s: string): JsNum {
    var k := DigitPrefix(s, false);
    if k == 0 then NaN else Num(DecimalValue(s[..k]))
  }

  /** The same for hexadecimal digits. */
  function LeadingHex(s: string): JsNum {
    var k := DigitPrefix(s, true);
    if k == 0 then NaN else Num(HexValue(s[..k]))
  }

  /** A leading `-` applied to a parsed magnitude. */
  function ApplySign(negative: bool, n: JsNum): JsNum {
    if n.NaN? then NaN else Num(Negate(negative, n.value))
  }

  /** The text after leading white space and one optional sign. */
  function Unsigned(t: string): string {
    if t != [] && (t[0] == '-' || t[0] == '+') then t[1..] else t
  }

  /** `parseInt(s, 10)`: skip leading white space, an optional sign, then the
      longest run of decimal digits; no digits at all gives NaN. */
  function ParseInt(s: string): JsNum {
    var t := TrimStart(s);
    ApplySign(t != [] && t[0] == '-', LeadingDecimal(Unsigned(t)))
  }

  /** `parseInt(s)` with no radix: as `ParseInt`, except that a `0x` or `0X`
      prefix after the sign switches to hexadecimal digits. */
  function ParseIntAutoRadix(s: string): JsNum {
    var t := TrimStart(s);
    var body := Unsigned(t);
    if |body| >= 2 && body[0] == '0' && (body[1] == 'x' || body[1] == 'X') then
      ApplySign(t != [] && t[0] == '-', LeadingHex(body[2..]))
    else ApplySign(t != [] && t[0] == '-', LeadingDecimal(body))
  }

  /** `Number(s)` for the integer forms: surrounding white space is ignored,
      the empty string is 0, an optionally signed run of decimal digits or an
      unsigned `0x` hexadecimal literal is its value, anything else is NaN. */
  function NumberOf(s: string): JsNum {
    var t := TrimEnd(TrimStart(s));
    if t == [] then Num(0)
    else if |t| >= 2 && t[0] == '0' && (t[1] == 'x' || t[1] == 'X') then
      (if |t| > 2 && AllHexDigits(t[2..]) then Num(HexValue(t[2..])) else NaN)
    else SignedDecimal(t)
  }

  /** An optionally signed, non-empty run of decimal digits and nothing else. */
  function SignedDecimal(t: string): JsNum
    requires t != []
  {
    var negative := t[0] == '-';
    var body := if t[0] == '-' || t[0] == '+' then t[1..] else t;
    if body != [] && AllDigits(body) then Num(Negate(negative, DecimalValue(body))) else NaN
  }

  /** `n.toString()` for a natural number. */
  function NatToString(n: nat): (s: string)
    ensures s != [] && AllDigits(s)
    ensures s[0] == '0' ==> n == 0 && |s| == 1
  {
    if n < 10 then ['0' + n as char]
    else NatToString(n / 10) + ['0' + (n % 10) as char]
  }

  /** `n.toString()` for an integer. */
  function IntToString(n: int): (s: string)
    ensures s != []
  {
    if n < 0 then "-" + NatToString(-n) else NatToString(n)
  }

  lemma {:induction false} NatToStringValue(n: nat)
    ensures DecimalValue(NatToString(n)) == n
  {
    if n >= 10 {
      var s := NatToString(n);
      var prefix := NatToString(n / 10);
      assert s[..|s| - 1] == prefix;
      NatToStringValue(n / 10);
    }
  }

  lemma {:induction false} DigitPrefixOfDigits(s: string, hex: bool)
    requires !hex && AllDigits(s)
    ensures DigitPrefix(s, hex) == |s|
  {
    if s != [] {
      DigitPrefixOfDigits(s[1..], hex);
    }
  }

  lemma NoSpaceDigits(s: string)
    requires s != [] && !IsSpace(s[0]) && !IsSpace(s[|s| - 1])
    ensures TrimStart(s) == s && TrimEnd(s) == s
  {
  }

  /** The decimal text of a natural number reads back as that number. */
  lemma NatToStringLeading(n: nat)
    ensures LeadingDecimal(NatToString(n)) == Num(n)
  {
    var digits := NatToString(n);
    NatToStringValue(n);
    DigitPrefixOfDigits(digits, false);
    assert digits[..|digits|] == digits;
  }

  /** The string the client puts in a header is parsed back to the same id. */
  lemma {:induction false} ParseIntOfIntToString(n: int)
    ensures ParseInt(IntToString(n)) == Num(n)
    ensures ParseIntAutoRadix(IntToString(n)) == Num(n)
  {
    var m: nat := if n < 0 then -n else n;
    var digits := NatToString(m);
    NatToStringLeading(m);
    var s := IntToString(n);
    assert !IsSpace(s[0]);
    assert TrimStart(s) == s;
    assert Unsigned(s) == digits by {
      if n < 0 {
        assert s[1..] == digits;
      }
    }
    assert !(|digits| >= 2 && digits[0] == '0');
  }

  /** `toString` of an integer has no surrounding white space. */
  lemma IntToStringTrimmed(n: int)
    ensures TrimEnd(TrimStart(IntToString(n))) == IntToString(n)
  {
    var m: nat := if n < 0 then -n else n;
    var digits := NatToString(m);
    var s := IntToString(n);
    assert IsDigit(digits[|digits| - 1]);
    assert s[|s| - 1] == digits[|digits| - 1];
    NoSpaceDigits(s);
  }

  /** `toString` of an integer is an optionally signed run of digits with its value. */
  lemma {:induction false} IntToStringSignedDecimal(n: int)
    ensures SignedDecimal(IntToString(n)) == Num(n)
  {
    var m: nat := if n < 0 then -n else n;
    NatToStringValue(m);
    var s := IntToString(n);
    if n < 0 {
      assert s[1..] == NatToString(m);
    }
  }

  /** `toString` of an integer never starts with `0x`. */
  lemma IntToStringNotHex(n: int)
    ensures var s := IntToString(n); !(|s| >= 2 && s[0] == '0' && (s[1] == 'x' || s[1] == 'X'))
  {
    var s := IntToString(n);
    if n >= 0 {
      assert s == NatToString(n);
    }
  }

  /** `Number` reads back what `toString` wrote. */
  lemma {:induction false} NumberOfIntToString(n: int)
    ensures NumberOf(IntToString(n)) == Num(n)
  {
    IntToStringTrimmed(n);
    IntToStringNotHex(n);
    IntToStringSignedDecimal(n);
  }

  /** validator.js `isInt` with its default options: an optional sign, then
      one or more decimal digits, leading zeros allowed. */
  predicate IsIntText(t: string) {
    Unsigned(t) != [] && AllDigits(Unsigned(t))
  }

  /** `Number` reads text that `isInt` accepts as the integer it spells. */
  lemma NumberOfIntText(t: string)
    requires IsIntText(t)
    ensures NumberOf(t) == Num(Negate(t[0] == '-', DecimalValue(Unsigned(t))))
  {
    var u := Unsigned(t);
    assert t[|t| - 1] == u[|u| - 1];
    NoSpaceDigits(t);
  }

  /** `s.length`: the number of UTF-16 code units, two for each character
      beyond the Basic Multilingual Plane. */
  function Utf16Length(s: string): (n: nat)
    ensures |s| <= n <= 2 * |s|
    decreases |s|
  {
    if s == [] then 0
    else Utf16Length(s[..|s| - 1]) + (if s[|s| - 1] as int > 0xFFFF then 2 else 1)
  }

  /** `length` counts characters exactly when none lies beyond the Basic
      Multilingual Plane. */
  lemma {:induction false} Utf16LengthIsCount(s: string)
    ensures Utf16Length(s) == |s| <==> forall i :: 0 <= i < |s| ==> s[i] as int <= 0xFFFF
    decreases |s|
  {
    if s != [] {
      var p := s[..|s| - 1];
      Utf16LengthIsCount(p);
      assert forall i :: 0 <= i < |p| ==> p[i] == s[i];
    }
  }

  /** Three emoji are three characters but six code units. */
  lemma ThreeEmojiAreSixUnits()
    ensures |"\U{1F600}\U{1F600}\U{1F600}"| == 3
    ensures Utf16Length("\U{1F600}\U{1F600}\U{1F600}") == 6
  {
    var s := "\U{1F600}\U{1F600}\U{1F600}";
    assert s[..2] == "\U{1F600}\U{1F600}" && s[..2][..1] == "\U{1F600}" && s[..2][..1][..0] == "";
  }

  predicate IsLetter(c: char) {
    'a' <= c <= 'z' || 'A' <= c <= 'Z'
  }

  /** A character validator.js `isEmail` allows in an unquoted local part,
      besides the dot. */
  predicate IsLocalChar(c: char) {
    IsLetter(c) || IsDigit(c) || c in "!#$%&'*+-/=?^_`{|}~" || c >= '\U{00A0}'
  }

  /** A character allowed in a domain label. */
  predicate IsLabelChar(c: char) {
    IsLetter(c) || IsDigit(c) || c == '-' || c >= '\U{00A1}'
  }

  /** Non-empty parts separated by single dots, none at either end. */
  predicate DotSeparated(s: string) {
    && s != [] && s[0] != '.' && s[|s| - 1] != '.'
    && (forall i :: 0 <= i < |s| - 1 && s[i] == '.' ==> s[i + 1] != '.')
  }

  /** The local part of an address: dot-separated runs of allowed characters. */
  predicate IsLocalPart(s: string) {
    DotSeparated(s) && forall i :: 0 <= i < |s| ==> IsLocalChar(s[i]) || s[i] == '.'
  }

  /** A top-level domain: two or more letters, or an `xn` punycode label. */
  predicate IsTld(t: string) {
    || (|t| >= 2 && forall i :: 0 <= i < |t| ==> IsLetter(t[i]) || t[i] >= '\U{00A1}')
    || (|t| >= 4 && (t[0] == 'x' || t[0] == 'X') && (t[1] == 'n' || t[1] == 'N')
        && forall i :: 2 <= i < |t| ==> IsLetter(t[i]) || IsDigit(t[i]) || t[i] == '-')
  }

  /** A fully qualified domain name: at least two dot-separated labels of
      allowed characters, no label beginning or ending with a hyphen, and a
      top-level domain after the last dot. */
  predicate IsDomain(d: string) {
    && DotSeparated(d)
    && (forall i :: 0 <= i < |d| ==> IsLabelChar(d[i]) || d[i] == '.')
    && (forall i :: 0 <= i < |d| && d[i] == '-' ==> 0 < i < |d| - 1 && d[i - 1] != '.' && d[i + 1] != '.')
    && exists k :: 0 < k < |d| && d[k] == '.' && IsTld(d[k + 1..]) && forall j :: k < j < |d| ==> d[j] != '.'
  }

  /** validator.js `isEmail` with its default options, for unquoted
      addresses: a local part, one `@`, and a domain name. */
  predicate IsEmail(s: string) {
    exists i :: 0 <= i < |s| && s[i] == '@' && IsLocalPart(s[..i]) && IsDomain(s[i + 1..])
  }

  /** An address needs a dot-qualified domain: `a@b` is refused. */
  lemma EmailNeedsTld()
    ensures !IsEmail("a@b")
  {
    var s := "a@b";
    forall i | 0 <= i < |s| && s[i] == '@'
      ensures !IsDomain(s[i + 1..])
    {
      assert i == 1 && s[i + 1..] == "b";
    }
  }

  /** An ordinary address passes. */
  lemma EmailWithTldAccepted()
    ensures IsEmail("gm@escape.room")
  {
    var s := "gm@escape.room";
    assert s[..2] == "gm" && s[3..] == "escape.room";
    assert IsLocalPart("gm") by {
      assert forall i :: 0 <= i < 2 ==> IsLetter("gm"[i]);
    }
    EscapeRoomIsDomain();
    assert s[2] == '@';
  }

  lemma EscapeRoomIsDomain()
    ensures IsDomain("escape.room")
  {
    var d := "escape.room";
    assert forall i :: 0 <= i < |d| ==> IsLetter(d[i]) || d[i] == '.';
    assert forall i :: 0 <= i < |d| ==> d[i] != '-';
    assert d[7..] == "room" && IsTld(d[7..]);
    assert d[6] == '.' && forall j :: 6 < j < |d| ==> d[j] != '.';
  }
}
