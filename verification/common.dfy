/**
  Shared vocabulary for the firmware-component models: bytes, the C library's
  character classes, and the small textual codecs (decimal, hexadecimal,
  `atoi`, `strtol(..., 16)`) that several platform files rely on.
 */
module Common {

  /** A C `uint8_t` / `unsigned char`. */
  type Byte = x: int | 0 <= x < 256

  datatype Option<T> = None | Some(value: T)

  /** errno values of Linux (asm-generic/errno-base.h). */
  const ENOENT: int := 2
  const ENOMEM: int := 12
  const EEXIST: int := 17
  const EINVAL: int := 22

  // ---------------------------------------------------------------------------
  // Character classes of the C locale
  // ---------------------------------------------------------------------------

  predicate IsDigit(c: char) { '0' <= c <= '9' }
  predicate IsLower(c: char) { 'a' <= c <= 'z' }
  predicate IsUpper(c: char) { 'A' <= c <= 'Z' }
  predicate IsAlpha(c: char) { IsLower(c) || IsUpper(c) }
  predicate IsHexDigit(c: char) { IsDigit(c) || 'a' <= c <= 'f' || 'A' <= c <= 'F' }

  /** `isspace` in the C locale: space, \t, \n, \v, \f, \r. */
  predicate IsSpace(c: char) {
    c == ' ' || c == '\t' || c == '\n' || c == '\r' || c == '\U{B}' || c == '\U{C}'
  }

  function ToUpper(c: char): (u: char)
    ensures !IsLower(u)
    ensures IsLower(c) ==> IsUpper(u)
    ensures !IsLower(c) ==> u == c
  {
    if IsLower(c) then (c as int - 32) as char else c
  }

  function ToLower(c: char): (l: char)
    ensures !IsUpper(l)
    ensures IsUpper(c) ==> IsLower(l)
    ensures !IsUpper(c) ==> l == c
  {
    if IsUpper(c) then (c as int + 32) as char else c
  }

  function UpperString(s: string): (u: string)
    ensures |u| == |s|
    ensures forall i :: 0 <= i < |s| ==> u[i] == ToUpper(s[i])
  {
    if s == [] then [] else [ToUpper(s[0])] + UpperString(s[1..])
  }

  function LowerString(s: string): (u: string)
    ensures |u| == |s|
    ensures forall i :: 0 <= i < |s| ==> u[i] == ToLower(s[i])
  {
    if s == [] then [] else [ToLower(s[0])] + LowerString(s[1..])
  }

  // ---------------------------------------------------------------------------
  // Prefixes and substrings
  // ---------------------------------------------------------------------------

  predicate StartsWith<T(==)>(s: seq<T>, p: seq<T>) {
    |p| <= |s| && s[..|p|] == p
  }

  /** Taking as many elements as there are takes the whole sequence. */
  lemma TakeWhole<T>(s: seq<T>, n: nat)
    requires n == |s|
    ensures s[..n] == s
  {
  }

  /** `strstr(s, p) != NULL`. */
  predicate Contains<T(==)>(s: seq<T>, p: seq<T>)
    decreases |s|
  {
    StartsWith(s, p) || (|s| > 0 && Contains(s[1..], p))
  }

  /** The C string a buffer denotes: everything before the first NUL. */
  function CString(s: string): (r: string)
    ensures StartsWith(s, r)
    ensures '\0' !in r
    ensures |r| < |s| ==> s[|r|] == '\0'
  {
    if s == [] || s[0] == '\0' then [] else [s[0]] + CString(s[1..])
  }

  function SkipSpaces(s: string): (r: string)
    ensures |r| <= |s| && r == s[|s| - |r|..]
    ensures r == [] || !IsSpace(r[0])
  {
    if s != [] && IsSpace(s[0]) then SkipSpaces(s[1..]) else s
  }

  /** `str_rstrip`: drop trailing white space. */
  function RStrip(s: string): (r: string)
    ensures StartsWith(s, r)
    ensures r == [] || !IsSpace(r[|r| - 1])
  {
    if s != [] && IsSpace(s[|s| - 1]) then RStrip(s[..|s| - 1]) else s
  }

  /** Python's `str.strip()` restricted to ASCII white space. */
  function Strip(s: string): string {
    RStrip(SkipSpaces(s))
  }

  // ---------------------------------------------------------------------------
  // Decimal
  // ---------------------------------------------------------------------------

  function DigitValue(c: char): nat
    requires IsDigit(c)
  {
    c as int - '0' as int
  }

  function DigitChar(d: nat): (c: char)
    requires d < 10
    ensures IsDigit(c) && DigitValue(c) == d
  {
    ('0' as int + d) as char
  }

  /** Length of the maximal run of decimal digits at the start of `s`. */
  function DigitRunLength(s: string): (n: nat)
    ensures n <= |s|
    ensures forall i :: 0 <= i < n ==> IsDigit(s[i])
    ensures n < |s| ==> !IsDigit(s[n])
  {
    if s != [] && IsDigit(s[0]) then 1 + DigitRunLength(s[1..]) else 0
  }

  /** Value of a string of decimal digits, most significant first. */
  function DecimalValue(s: string): nat
    requires forall i :: 0 <= i < |s| ==> IsDigit(s[i])
  {
    if s == [] then 0 else DecimalValue(s[..|s| - 1]) * 10 + DigitValue(s[|s| - 1])
  }

  /** `to_string` / `%d` of a natural number. */
  function NatToDecimal(n: nat): (s: string)
    ensures |s| > 0
    ensures forall i :: 0 <= i < |s| ==> IsDigit(s[i])
    ensures DecimalValue(s) == n
  {
    if n < 10 then [DigitChar(n)]
    else
      var prefix := NatToDecimal(n / 10);
      var s := prefix + [DigitChar(n % 10)];
      assert s[..|s| - 1] == prefix;
      s
  }

  /**
    `LONG_MIN` and `LONG_MAX` of the 32-bit ARM BMCs, where `long` and `int`
    have the same width: the values `strtol` and `atoi` saturate at.
   */
  const LONG_MIN: int := -0x8000_0000
  const LONG_MAX: nat := 0x7FFF_FFFF

  /**
    The decimal number at the start of `s` as `strtol(s, NULL, 10)` reads it,
    before saturation: optional leading white space, an optional sign, then
    the maximal run of decimal digits; 0 when there are no digits.
   */
  function DecimalPrefixValue(s: string): int {
    var t := SkipSpaces(CString(s));
    var neg := |t| > 0 && t[0] == '-';
    var u := if |t| > 0 && (t[0] == '-' || t[0] == '+') then t[1..] else t;
    var v: int := DecimalValue(u[..DigitRunLength(u)]);
    if neg then -v else v
  }

  /**
    `atoi`, which glibc computes as `(int) strtol(s, NULL, 10)`: the decimal
    prefix's value, saturated to `[LONG_MIN, LONG_MAX]` when it does not fit.
   */
  function Atoi(s: string): (v: int)
    ensures LONG_MIN <= v <= LONG_MAX
    ensures LONG_MIN <= DecimalPrefixValue(s) <= LONG_MAX ==> v == DecimalPrefixValue(s)
    ensures DecimalPrefixValue(s) > LONG_MAX ==> v == LONG_MAX
    ensures DecimalPrefixValue(s) < LONG_MIN ==> v == LONG_MIN
    // saturation keeps the sign, so `atoi(s) != 0` tests the digits themselves
    ensures v == 0 <==> DecimalPrefixValue(s) == 0
  {
    var d := DecimalPrefixValue(s);
    if d > LONG_MAX then LONG_MAX else if d < LONG_MIN then LONG_MIN else d
  }

  // ---------------------------------------------------------------------------
  // Hexadecimal
  // ---------------------------------------------------------------------------

  function HexValue(c: char): (v: nat)
    requires IsHexDigit(c)
    ensures v < 16
  {
    if IsDigit(c) then c as int - '0' as int
    else if 'a' <= c <= 'f' then c as int - 'a' as int + 10
    else c as int - 'A' as int + 10
  }

  /** The digit `%x` (lower case) or `%X` (upper case) prints for `d`. */
  function HexChar(d: nat, upper: bool): (c: char)
    requires d < 16
    ensures IsHexDigit(c) && HexValue(c) == d
    ensures upper ==> !IsLower(c)
    ensures !upper ==> !IsUpper(c)
  {
    if d < 10 then ('0' as int + d) as char
    else if upper then ('A' as int + d - 10) as char
    else ('a' as int + d - 10) as char
  }

  /** `%02x` / `%02X` of one byte. */
  function Hex2(b: Byte, upper: bool): (s: string)
    ensures |s| == 2 && IsHexDigit(s[0]) && IsHexDigit(s[1])
    ensures HexValue(s[0]) * 16 + HexValue(s[1]) == b
  {
    [HexChar(b / 16, upper), HexChar(b % 16, upper)]
  }

  /** Length of the maximal run of hexadecimal digits at the start of `s`. */
  function HexRunLength(s: string): (n: nat)
    ensures n <= |s|
    ensures forall i :: 0 <= i < n ==> IsHexDigit(s[i])
    ensures n < |s| ==> !IsHexDigit(s[n])
  {
    if s != [] && IsHexDigit(s[0]) then 1 + HexRunLength(s[1..]) else 0
  }

  function HexStringValue(s: string): nat
    requires forall i :: 0 <= i < |s| ==> IsHexDigit(s[i])
  {
    if s == [] then 0 else HexStringValue(s[..|s| - 1]) * 16 + HexValue(s[|s| - 1])
  }

  /** `%x` of a natural number: lower case, no leading zeros. */
  function NatToHex(n: nat): (s: string)
    ensures |s| > 0
    ensures forall i :: 0 <= i < |s| ==> IsHexDigit(s[i]) && !IsUpper(s[i])
    ensures HexStringValue(s) == n
    ensures |s| > 1 ==> s[0] != '0'
  {
    if n < 16 then [HexChar(n, false)]
    else
      var prefix := NatToHex(n / 16);
      var s := prefix + [HexChar(n % 16, false)];
      assert s[..|s| - 1] == prefix;
      s
  }

  /**
    `strtol(s, NULL, 16)` on a C string: leading white space, an optional
    sign, an optional `0x`/`0X` prefix when a hex digit follows it, then the
    maximal run of hex digits; 0 when there are none.
   */
  function StrtolHex(s: string): int {
    SignedHex(SkipSpaces(CString(s)))
  }

  /** After the white space: an optional sign, then the digits. */
  function SignedHex(t: string): int {
    if |t| > 0 && t[0] == '-' then -(UnsignedHex(t[1..]) as int)
    else if |t| > 0 && t[0] == '+' then UnsignedHex(t[1..])
    else UnsignedHex(t)
  }

  /** After the sign: an optional `0x`/`0X` prefix when a hex digit follows it, then the hex run. */
  function UnsignedHex(u: string): nat {
    var w := if |u| >= 3 && u[0] == '0' && (u[1] == 'x' || u[1] == 'X') && IsHexDigit(u[2])
             then u[2..] else u;
    HexStringValue(w[..HexRunLength(w)])
  }

  lemma HexCharNotSpecial(d: nat, upper: bool)
    requires d < 16
    ensures var c := HexChar(d, upper);
            c != '\0' && !IsSpace(c) && c != '-' && c != '+' && c != 'x' && c != 'X'
  {
  }

  lemma CStringWithoutNul(s: string)
    requires '\0' !in s
    ensures CString(s) == s
  {
    if s != [] {
      CStringWithoutNul(s[1..]);
      assert s == [s[0]] + s[1..];
    }
  }

  /**
    On a string that is its own C string (no NUL inside) and has no white
    space, sign or `0x` prefix in front, `strtol` reads the leading hex run.
   */
  lemma StrtolHexOfPlain(s: string)
    requires CString(s) == s && |s| > 0
    requires !IsSpace(s[0]) && s[0] != '-' && s[0] != '+'
    requires !(|s| >= 2 && s[0] == '0' && (s[1] == 'x' || s[1] == 'X'))
    ensures StrtolHex(s) == HexStringValue(s[..HexRunLength(s)])
  {
    assert SkipSpaces(s) == s;
    assert SignedHex(s) == UnsignedHex(s);
    PlainUnsigned(s);
  }

  lemma PlainUnsigned(u: string)
    requires !(|u| >= 3 && u[0] == '0' && (u[1] == 'x' || u[1] == 'X') && IsHexDigit(u[2]))
    ensures UnsignedHex(u) == HexStringValue(u[..HexRunLength(u)])
  {
  }

  /** `strtol("<h>\n", NULL, 16)` of one printed hex digit gives the digit back. */
  lemma StrtolOneHexDigit(d: nat, upper: bool)
    requires d < 16
    ensures StrtolHex([HexChar(d, upper), '\n']) == d
  {
    var c := HexChar(d, upper);
    var s := [c, '\n'];
    HexCharNotSpecial(d, upper);
    CStringWithoutNul(s);
    StrtolHexOfPlain(s);
    assert HexRunLength(s) == 1 by {
      assert HexRunLength(s[1..]) == 0;
    }
    assert s[..1] == [c];
    assert HexStringValue([c]) == HexStringValue([]) * 16 + HexValue(c);
  }

  /** `strtol("<h><l>\n", NULL, 16)` of one `%02x`-printed byte gives the byte back. */
  lemma StrtolTwoHexDigits(b: Byte, upper: bool)
    ensures var h := Hex2(b, upper); StrtolHex([h[0], h[1], '\n']) == b
  {
    var h := Hex2(b, upper);
    StrtolTwoHexChars(h[0], h[1]);
  }

  /** The value `strtol` gives one character followed by a newline: its hex value, or 0. */
  function HexNibble(c: char): (v: nat)
    ensures v < 16
    ensures IsHexDigit(c) ==> v == HexValue(c)
    ensures !IsHexDigit(c) ==> v == 0
  {
    if IsHexDigit(c) then HexValue(c) else 0
  }

  /** `strtol("<c>\n", NULL, 16)` for any character `c`, NUL included. */
  lemma StrtolHexOneChar(c: char)
    ensures StrtolHex([c, '\n']) == HexNibble(c)
  {
    if c == '\0' {
      OneCharNul();
    } else if IsSpace(c) {
      OneCharSpace(c);
    } else if c == '-' || c == '+' {
      OneCharSign(c);
    } else {
      OneCharPlain(c);
    }
  }

  lemma OneCharNul()
    ensures StrtolHex(['\0', '\n']) == 0
  {
    assert CString(['\0', '\n']) == [];
  }

  /** `[c, '\n']` without a NUL is its own C string. */
  lemma OneCharCString(c: char)
    requires c != '\0'
    ensures CString([c, '\n']) == [c, '\n']
  {
    assert [c, '\n'][1..] == ['\n'];
  }

  /** `strtol` of `[c, '\n']` with `c` neither NUL nor white space starts at the sign. */
  lemma OneCharClean(c: char)
    requires c != '\0' && !IsSpace(c)
    ensures StrtolHex([c, '\n']) == SignedHex([c, '\n'])
  {
    OneCharCString(c);
    assert SkipSpaces([c, '\n']) == [c, '\n'];
  }

  lemma OneCharSpace(c: char)
    requires IsSpace(c)
    ensures StrtolHex([c, '\n']) == 0
  {
    OneCharCString(c);
    assert [c, '\n'][1..] == ['\n'];
    assert SkipSpaces([c, '\n']) == [];
  }

  /** A newline alone holds no hex digit. */
  lemma NewlineIsZero()
    ensures UnsignedHex(['\n']) == 0
  {
    assert HexRunLength(['\n']) == 0;
  }

  lemma OneCharSign(c: char)
    requires c == '-' || c == '+'
    ensures StrtolHex([c, '\n']) == 0
  {
    OneCharClean(c);
    SignThenNewline(c);
  }

  lemma SignThenNewline(c: char)
    requires c == '-' || c == '+'
    ensures SignedHex([c, '\n']) == 0
  {
    var t := [c, '\n'];
    assert t[1..] == ['\n'];
    NewlineIsZero();
    assert SignedHex(t) == (if c == '-' then -(UnsignedHex(t[1..]) as int) else UnsignedHex(t[1..]));
  }

  lemma OneCharPlain(c: char)
    requires c != '\0' && !IsSpace(c) && c != '-' && c != '+'
    ensures StrtolHex([c, '\n']) == HexNibble(c)
  {
    OneCharClean(c);
    assert SignedHex([c, '\n']) == UnsignedHex([c, '\n']);
    OneCharUnsigned(c);
  }

  lemma OneCharUnsigned(c: char)
    ensures UnsignedHex([c, '\n']) == HexNibble(c)
  {
    var s := [c, '\n'];
    assert s[1..] == ['\n'];
    assert HexRunLength(['\n']) == 0;
    if IsHexDigit(c) {
      assert HexRunLength(s) == 1;
      assert s[..1] == [c];
      assert [c][..0] == [];
      assert HexStringValue([c]) == HexValue(c);
    } else {
      assert HexRunLength(s) == 0;
      assert s[..0] == [];
    }
  }

  /** `%02x` (or `%02X`) of every byte, concatenated. */
  function HexEncode(bs: seq<Byte>, upper: bool): (s: string)
    ensures |s| == 2 * |bs|
    ensures forall i :: 0 <= i < |s| ==> IsHexDigit(s[i]) && (upper ==> !IsLower(s[i])) && (!upper ==> !IsUpper(s[i]))
  {
    if bs == [] then [] else Hex2(bs[0], upper) + HexEncode(bs[1..], upper)
  }

  /** Every character is a hex digit. */
  predicate IsHexString(s: string) {
    forall i :: 0 <= i < |s| ==> IsHexDigit(s[i])
  }

  /** The bytes a string of hex digit pairs denotes. */
  function HexDecode(s: string): (bs: seq<Byte>)
    requires |s| % 2 == 0 && IsHexString(s)
    ensures |bs| == |s| / 2
  {
    if s == [] then [] else [HexValue(s[0]) * 16 + HexValue(s[1])] + HexDecode(s[2..])
  }

  lemma {:induction false} HexDecodeEncode(bs: seq<Byte>, upper: bool)
    ensures HexDecode(HexEncode(bs, upper)) == bs
  {
    if bs != [] {
      var s := HexEncode(bs, upper);
      assert s[2..] == HexEncode(bs[1..], upper);
      HexDecodeEncode(bs[1..], upper);
    }
  }

  /** Byte `j` of the input sits at characters `2j` and `2j + 1` of its encoding. */
  lemma {:induction false} HexEncodeAt(bs: seq<Byte>, upper: bool, j: nat)
    requires j < |bs|
    ensures HexEncode(bs, upper)[2 * j] == Hex2(bs[j], upper)[0]
    ensures HexEncode(bs, upper)[2 * j + 1] == Hex2(bs[j], upper)[1]
  {
    if j > 0 {
      HexEncodeAt(bs[1..], upper, j - 1);
      assert HexEncode(bs, upper)[2..] == HexEncode(bs[1..], upper);
    }
  }

  /** Byte `j` of a decoded string comes from characters `2j` and `2j + 1`. */
  lemma {:induction false} HexDecodeAt(s: string, j: nat)
    requires |s| % 2 == 0
    requires forall i :: 0 <= i < |s| ==> IsHexDigit(s[i])
    requires 2 * j + 1 < |s|
    ensures HexDecode(s)[j] == HexValue(s[2 * j]) * 16 + HexValue(s[2 * j + 1])
  {
    if j > 0 {
      HexDecodeAt(s[2..], j - 1);
    }
  }

  /** `strtol("<a><b>\n", NULL, 16)` of two hex digits is their two-digit value. */
  lemma StrtolTwoHexChars(a: char, b: char)
    requires IsHexDigit(a) && IsHexDigit(b)
    ensures StrtolHex([a, b, '\n']) == HexValue(a) * 16 + HexValue(b)
  {
    var s := [a, b, '\n'];
    TwoHexCharsPlain(a, b);
    CStringWithoutNul(s);
    StrtolHexOfPlain(s);
    TwoHexRun(a, b);
    TwoHexValue(a, b);
  }

  lemma TwoHexCharsPlain(a: char, b: char)
    requires IsHexDigit(a) && IsHexDigit(b)
    ensures var s := [a, b, '\n'];
            '\0' !in s && !IsSpace(s[0]) && s[0] != '-' && s[0] != '+'
            && !(s[0] == '0' && (s[1] == 'x' || s[1] == 'X'))
  {
  }

  lemma TwoHexRun(a: char, b: char)
    requires IsHexDigit(a) && IsHexDigit(b)
    ensures var s := [a, b, '\n']; HexRunLength(s) == 2 && s[..2] == [a, b]
  {
    var s := [a, b, '\n'];
    assert s[1..] == [b, '\n'] && s[1..][1..] == ['\n'];
    assert HexRunLength(['\n']) == 0;
    assert HexRunLength([b, '\n']) == 1;
  }

  lemma TwoHexValue(a: char, b: char)
    requires IsHexDigit(a) && IsHexDigit(b)
    ensures HexStringValue([a, b]) == HexValue(a) * 16 + HexValue(b)
  {
    assert [a, b][..1] == [a];
    assert [a][..0] == [];
    assert HexStringValue([a]) == HexValue(a);
    assert HexStringValue([a, b]) == HexStringValue([a]) * 16 + HexValue(b);
  }

  /**
    What `strtol("<hi><lo>\n", NULL, 16)` gives, by cases on the first
    character: a NUL ends the string at once, white space is skipped so the
    second character is read alone, a sign applies to the second character,
    and otherwise the run of hex digits at the start is read.
   */
  function HexPair(hi: char, lo: char): (v: int)
    ensures -16 < v < 256
  {
    if hi == '\0' then 0
    else if IsSpace(hi) then HexNibble(lo)
    else if hi == '-' then -(HexNibble(lo) as int)
    else if hi == '+' then HexNibble(lo)
    else if IsHexDigit(hi) && IsHexDigit(lo) then HexValue(hi) * 16 + HexValue(lo)
    else HexNibble(hi)
  }

  /** `strtol` on two characters and a newline, for every pair of characters, is `HexPair`. */
  lemma StrtolHexPair(hi: char, lo: char)
    ensures StrtolHex([hi, lo, '\n']) == HexPair(hi, lo)
  {
    if hi == '\0' {
      assert CString([hi, lo, '\n']) == [];
    } else if lo == '\0' {
      var s := [hi, '\0', '\n'];
      assert s[1..] == ['\0', '\n'];
      assert CString(s) == [hi];
      assert [hi][1..] == [];
      if IsSpace(hi) {
        assert SkipSpaces([hi]) == [];
      } else {
        assert SkipSpaces([hi]) == [hi];
        if hi != '-' && hi != '+' {
          assert HexRunLength([hi]) == if IsHexDigit(hi) then 1 else 0;
          assert [hi][..1] == [hi] && [hi][..0] == [];
          if IsHexDigit(hi) {
            assert HexStringValue([hi]) == HexStringValue([]) * 16 + HexValue(hi);
          }
        }
      }
    } else if IsSpace(hi) {
      PairSpace(hi, lo);
    } else if hi == '-' || hi == '+' {
      PairSign(hi, lo);
    } else {
      PairPlain(hi, lo);
    }
  }

  lemma PairClean(hi: char, lo: char)
    requires hi != '\0' && lo != '\0'
    ensures CString([hi, lo, '\n']) == [hi, lo, '\n']
  {
    var s := [hi, lo, '\n'];
    assert s[1..] == [lo, '\n'];
    OneCharCString(lo);
  }

  lemma PairSpace(hi: char, lo: char)
    requires IsSpace(hi) && lo != '\0'
    ensures StrtolHex([hi, lo, '\n']) == HexPair(hi, lo)
  {
    var s := [hi, lo, '\n'];
    PairClean(hi, lo);
    assert s[1..] == [lo, '\n'];
    assert SkipSpaces(s) == SkipSpaces([lo, '\n']);
    OneCharCString(lo);
    StrtolHexOneChar(lo);
  }

  lemma PairSign(hi: char, lo: char)
    requires (hi == '-' || hi == '+') && lo != '\0'
    ensures StrtolHex([hi, lo, '\n']) == HexPair(hi, lo)
  {
    var s := [hi, lo, '\n'];
    PairClean(hi, lo);
    NoLeadingSpace(s);
    StrtolOfPlain(s);
    SignedPair(hi, lo);
    OneCharUnsigned(lo);
    HexPairSign(hi, lo);
  }

  /** A string that does not start with white space has none to skip. */
  lemma NoLeadingSpace(s: string)
    requires s != [] && !IsSpace(s[0])
    ensures SkipSpaces(s) == s
  {
  }

  /** A string with no NUL and no leading white space is read by `strtol` from its first character. */
  lemma StrtolOfPlain(s: string)
    requires CString(s) == s && SkipSpaces(s) == s
    ensures StrtolHex(s) == SignedHex(s)
  {
  }

  /** `HexPair` on a sign: the second character read alone, negated for '-'. */
  lemma HexPairSign(hi: char, lo: char)
    requires hi == '-' || hi == '+'
    ensures HexPair(hi, lo) == if hi == '-' then -(HexNibble(lo) as int) else HexNibble(lo)
  {
  }

  lemma SignedPair(hi: char, lo: char)
    requires hi == '-' || hi == '+'
    ensures SignedHex([hi, lo, '\n']) == if hi == '-' then -(UnsignedHex([lo, '\n']) as int) else UnsignedHex([lo, '\n'])
  {
    assert [hi, lo, '\n'][1..] == [lo, '\n'];
  }

  lemma PairPlain(hi: char, lo: char)
    requires hi != '\0' && !IsSpace(hi) && hi != '-' && hi != '+' && lo != '\0'
    ensures StrtolHex([hi, lo, '\n']) == HexPair(hi, lo)
  {
    var s := [hi, lo, '\n'];
    PairClean(hi, lo);
    assert SkipSpaces(s) == s;
    assert SignedHex(s) == UnsignedHex(s);
    PairUnsigned(hi, lo);
  }

  /** The hex run of `[hi, lo, '\n']` read without sign or white space. */
  lemma PairUnsigned(hi: char, lo: char)
    ensures UnsignedHex([hi, lo, '\n']) ==
              if IsHexDigit(hi) && IsHexDigit(lo) then HexValue(hi) * 16 + HexValue(lo) else HexNibble(hi)
  {
    var s := [hi, lo, '\n'];
    PlainUnsigned(s);
    assert s[1..] == [lo, '\n'];
    if IsHexDigit(hi) && IsHexDigit(lo) {
      TwoHexRun(hi, lo);
      TwoHexValue(hi, lo);
    } else if IsHexDigit(hi) {
      assert HexRunLength([lo, '\n']) == 0;
      assert HexRunLength(s) == 1;
      assert s[..1] == [hi] && [hi][..0] == [];
      assert HexStringValue([hi]) == HexStringValue([]) * 16 + HexValue(hi);
    } else {
      assert HexRunLength(s) == 0;
      assert s[..0] == [];
    }
  }
}
