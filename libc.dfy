/** The few C library behaviours the burp data layer leans on, written out
    explicitly: C strings (what strlen and strcmp see), printf's "%04X",
    sscanf's "%04X", strtol in base 16 and strtoul in base 10, and the
    integer conversions that truncate. */
module Libc {

  datatype Option<T> = None | Some(value: T)

  // ---------------------------------------------------------------------
  // C strings

  /** The C string a buffer holds: everything before its first NUL. */
  function CStr(s: seq<char>): (r: seq<char>)
    ensures r <= s
    ensures '\0' !in r
    ensures |r| < |s| ==> s[|r|] == '\0'
  {
    if s == [] || s[0] == '\0' then [] else [s[0]] + CStr(s[1..])
  }

  /** `strcmp(s, lit) == 0` for a literal without NUL. */
  predicate StrEq(s: seq<char>, lit: seq<char>) {
    CStr(s) == lit
  }

  /** `strcmp(a, b) == 0`: the two strings agree character by character
      up to and including the NUL that ends them. */
  predicate StrcmpZero(a: seq<char>, b: seq<char>) {
    var ea, eb := a == [] || a[0] == '\0', b == [] || b[0] == '\0';
    if ea || eb then ea && eb
    else a[0] == b[0] && StrcmpZero(a[1..], b[1..])
  }

  /** strcmp compares the C strings the buffers hold. */
  lemma {:induction false} StrcmpZeroIsCStrEq(a: seq<char>, b: seq<char>)
    ensures StrcmpZero(a, b) <==> CStr(a) == CStr(b)
    decreases |a|
  {
    var ea, eb := a == [] || a[0] == '\0', b == [] || b[0] == '\0';
    if !ea && !eb {
      StrcmpZeroIsCStrEq(a[1..], b[1..]);
      assert CStr(a) == [a[0]] + CStr(a[1..]);
      assert CStr(b) == [b[0]] + CStr(b[1..]);
      if CStr(a) == CStr(b) {
        assert CStr(a)[0] == a[0] && CStr(b)[0] == b[0];
        assert CStr(a[1..]) == CStr(a)[1..];
        assert CStr(b[1..]) == CStr(b)[1..];
      }
    } else if ea && !eb {
      assert CStr(b) != [];
    } else if !ea && eb {
      assert CStr(a) != [];
    }
  }

  /** What snprintf keeps of `s` in a buffer of n + 1 bytes. */
  function Truncate(s: seq<char>, n: nat): (r: seq<char>)
    ensures r <= s && |r| <= n
    ensures |s| <= n ==> r == s
    ensures |s| > n ==> |r| == n
  {
    if |s| <= n then s else s[..n]
  }

  /** A buffer without NUL is its own C string. */
  lemma NoNulCStr(s: seq<char>)
    requires '\0' !in s
    ensures CStr(s) == s
  {
  }

  /** Characters for which C's isspace holds in the "C" locale. */
  predicate IsSpace(c: char) {
    c == ' ' || c == '\t' || c == '\n' || c == '\U{B}' || c == '\U{C}' || c == '\r'
  }

  function SkipSpace(s: seq<char>): (r: seq<char>)
    ensures |r| <= |s| && r == s[|s| - |r|..]
    ensures r != [] ==> !IsSpace(r[0])
  {
    if s != [] && IsSpace(s[0]) then SkipSpace(s[1..]) else s
  }

  // ---------------------------------------------------------------------
  // Hexadecimal digits

  predicate IsHexDigit(c: char) {
    ('0' <= c <= '9') || ('a' <= c <= 'f') || ('A' <= c <= 'F')
  }

  function HexVal(c: char): (v: nat)
    requires IsHexDigit(c)
    ensures v < 16
  {
    if '0' <= c <= '9' then c as int - '0' as int
    else if 'a' <= c <= 'f' then c as int - 'a' as int + 10
    else c as int - 'A' as int + 10
  }

  /** The digit printf's %X prints for a value below 16. */
  function UpperHexDigit(v: nat): (c: char)
    requires v < 16
    ensures IsHexDigit(c) && HexVal(c) == v
    ensures !('a' <= c <= 'f')
  {
    if v < 10 then ('0' as int + v) as char else ('A' as int + v - 10) as char
  }

  predicate AllHex(s: seq<char>) {
    forall i :: 0 <= i < |s| ==> IsHexDigit(s[i])
  }

  /** The value of a string of hex digits, most significant first. */
  function HexValue(s: seq<char>): nat
    requires AllHex(s)
  {
    if s == [] then 0 else HexValue(s[..|s| - 1]) * 16 + HexVal(s[|s| - 1])
  }

  /** printf("%X", v): the shortest upper-case hex rendering. */
  function HexStr(v: nat): (s: seq<char>)
    ensures 1 <= |s| && AllHex(s) && HexValue(s) == v
    ensures v >= 16 ==> |s| >= 2
    decreases v
  {
    if v < 16 then [UpperHexDigit(v)]
    else
      var high := HexStr(v / 16);
      var s := high + [UpperHexDigit(v % 16)];
      assert s[..|s| - 1] == high;
      s
  }

  /** The n lowest hex digits of v, upper case, most significant first. */
  function HexDigits(v: nat, n: nat): (s: seq<char>)
    ensures |s| == n && AllHex(s)
  {
    if n == 0 then [] else HexDigits(v / 16, n - 1) + [UpperHexDigit(v % 16)]
  }

  /** printf("%04X", v): zero-padded to four digits, longer when v needs it. */
  function Hex04(v: nat): seq<char> {
    if v < 0x10000 then HexDigits(v, 4) else HexStr(v)
  }

  lemma {:induction false} HexDigitsValue(v: nat, n: nat)
    requires v < Pow16(n)
    ensures HexValue(HexDigits(v, n)) == v
  {
    if n > 0 {
      HexDigitsValue(v / 16, n - 1);
      var s := HexDigits(v, n);
      assert s[..|s| - 1] == HexDigits(v / 16, n - 1);
    }
  }

  lemma Hex04Value(v: nat)
    requires v < 0x10000
    ensures |Hex04(v)| == 4 && AllHex(Hex04(v)) && HexValue(Hex04(v)) == v
  {
    assert Pow16(4) == 0x10000;
    HexDigitsValue(v, 4);
  }

  lemma Hex04Long(v: nat)
    requires v >= 0x10000
    ensures |Hex04(v)| >= 5
  {
    HexStrLength(v);
  }

  lemma {:induction false} HexStrLength(v: nat)
    ensures v >= 0x10000 ==> |HexStr(v)| >= 5
  {
    if v >= 16 {
      HexStrLength(v / 16);
      if v >= 0x10000 {
        assert v / 16 >= 0x1000;
        HexStrAtLeast4(v / 16);
      }
    }
  }

  lemma {:induction false} HexStrAtLeast4(v: nat)
    ensures v >= 0x1000 ==> |HexStr(v)| >= 4
  {
    if v >= 0x1000 {
      assert v / 16 >= 0x100 && v / 256 >= 16;
      assert v / 16 / 16 == v / 256;
      assert |HexStr(v / 16 / 16)| >= 2;
    }
  }

  // ---------------------------------------------------------------------
  // sscanf("%0wX")

  /** The number of leading hex digits of s, counting at most w of them. */
  function HexRun(s: seq<char>, w: nat): (k: nat)
    ensures k <= w && k <= |s|
    ensures AllHex(s[..k])
    ensures k < w && k < |s| ==> !IsHexDigit(s[k])
  {
    if w == 0 || s == [] || !IsHexDigit(s[0]) then 0
    else
      var k := 1 + HexRun(s[1..], w - 1);
      assert s[..k] == [s[0]] + s[1..][..k - 1];
      k
  }

  /** One "%0wX" conversion at the start of s: its value and how many
      characters it consumed, or None when no hex digit is there. Leading
      white space, a sign and a "0x" prefix, which scanf would also take,
      are not accepted here. */
  function ScanHex(s: seq<char>, w: nat): (r: Option<(nat, nat)>)
    ensures r.Some? ==> 1 <= r.value.1 <= w && r.value.1 <= |s|
    ensures r.Some? && w <= 4 ==> r.value.0 < 0x10000
  {
    var k := HexRun(s, w);
    if k == 0 then None
    else
      HexValueBound(s[..k]);
      Some((HexValue(s[..k]), k))
  }

  lemma {:induction false} HexValueBound(s: seq<char>)
    requires AllHex(s)
    ensures |s| <= 4 ==> HexValue(s) < 0x10000
    ensures HexValue(s) < Pow16(|s|)
  {
    if s != [] {
      HexValueBound(s[..|s| - 1]);
    }
    assert Pow16(4) == 0x10000;
    assert |s| <= 4 ==> Pow16(|s|) <= Pow16(4) by {
      assert Pow16(0) <= Pow16(1) <= Pow16(2) <= Pow16(3) <= Pow16(4);
    }
  }

  function Pow16(n: nat): (p: nat)
    ensures p >= 1
  {
    if n == 0 then 1 else 16 * Pow16(n - 1)
  }

  /** Scanning a "%04X" rendering back gives the value and consumes exactly
      its four digits, whatever follows a non-hex character. */
  lemma ScanHex04(v: nat, rest: seq<char>)
    requires v < 0x10000
    requires rest == [] || !IsHexDigit(rest[0])
    ensures ScanHex(Hex04(v) + rest, 4) == Some((v, 4))
  {
    Hex04Value(v);
    var s := Hex04(v) + rest;
    HexRunAll(s, 4);
    assert s[..4] == Hex04(v);
  }

  lemma HexRunAll(s: seq<char>, w: nat)
    requires w <= |s| && AllHex(s[..w])
    ensures HexRun(s, w) == w
  {
    if w > 0 {
      assert IsHexDigit(s[..w][0]);
      assert s[1..][..w - 1] == s[..w][1..];
      HexRunAll(s[1..], w - 1);
    }
  }

  // ---------------------------------------------------------------------
  // strtol / strtoul and integer conversions

  const LONG_MAX: int := 0x7FFF_FFFF_FFFF_FFFF
  const LONG_MIN: int := -0x8000_0000_0000_0000
  const ULONG_MAX: int := 0xFFFF_FFFF_FFFF_FFFF

  /** The value of the longest run of hex digits at the start of s. */
  function HexLead(s: seq<char>): nat {
    var k := HexRun(s, |s|);
    HexValue(s[..k])
  }

  /** The value of the longest run of decimal digits at the start of s. */
  function DecLead(s: seq<char>): nat
  {
    DecValue(s[..DecRun(s)])
  }

  predicate IsDigit(c: char) { '0' <= c <= '9' }

  function DecRun(s: seq<char>): (k: nat)
    ensures k <= |s|
    ensures forall i :: 0 <= i < k ==> IsDigit(s[i])
    ensures k < |s| ==> !IsDigit(s[k])
  {
    if s == [] || !IsDigit(s[0]) then 0 else 1 + DecRun(s[1..])
  }

  function DecValue(s: seq<char>): nat
    requires forall i :: 0 <= i < |s| ==> IsDigit(s[i])
  {
    if s == [] then 0 else DecValue(s[..|s| - 1]) * 10 + DigitVal(s[|s| - 1])
  }

  function DigitVal(c: char): (v: nat)
    requires IsDigit(c)
    ensures v < 10
  {
    c as int - '0' as int
  }

  /** "%u" of n: its decimal digits, without leading zeros. */
  function DecimalNat(n: nat): (s: seq<char>)
    ensures s != [] && forall i :: 0 <= i < |s| ==> IsDigit(s[i])
    decreases n
  {
    var d := (n % 10 + '0' as int) as char;
    if n < 10 then [d] else DecimalNat(n / 10) + [d]
  }

  /** "%d" of n. */
  function Decimal(n: int): seq<char> {
    if n < 0 then ['-'] + DecimalNat(-n) else DecimalNat(n)
  }

  /** The digits "%u" prints read back as the number. */
  lemma {:induction false} DecimalNatValue(n: nat)
    ensures DecValue(DecimalNat(n)) == n
    decreases n
  {
    var s := DecimalNat(n);
    if n >= 10 {
      DecimalNatValue(n / 10);
      assert s[..|s| - 1] == DecimalNat(n / 10);
    }
  }

  /** strtol(s, NULL, 16): white space, an optional sign, an optional "0x",
      then hex digits; out-of-range values saturate at LONG_MIN/LONG_MAX. */
  function Strtol16(s: seq<char>): (r: int)
    ensures LONG_MIN <= r <= LONG_MAX
  {
    var t := SkipSpace(CStr(s));
    var neg := t != [] && t[0] == '-';
    var u := if t != [] && (t[0] == '-' || t[0] == '+') then t[1..] else t;
    var d := if |u| >= 2 && u[0] == '0' && (u[1] == 'x' || u[1] == 'X') then u[2..] else u;
    var v := HexLead(d);
    if neg then (if v > -LONG_MIN then LONG_MIN else -(v as int))
    else (if v > LONG_MAX then LONG_MAX else v)
  }

  /** strtol in base 16 of a name that starts with neither white space,
      a sign nor "0x": the value of its leading run of k hex digits. */
  lemma Strtol16Plain(s: seq<char>, k: nat)
    requires '\0' !in s && s != [] && !IsSpace(s[0]) && s[0] != '-' && s[0] != '+'
    requires !(|s| >= 2 && s[0] == '0' && (s[1] == 'x' || s[1] == 'X'))
    requires k <= |s| && AllHex(s[..k]) && (k < |s| ==> !IsHexDigit(s[k]))
    ensures Strtol16(s) == (if HexValue(s[..k]) > LONG_MAX then LONG_MAX else HexValue(s[..k]))
  {
    NoNulCStr(s);
    assert SkipSpace(s) == s;
  }

  /** strtoul(s, NULL, 10): white space, an optional sign, decimal digits;
      a value beyond ULONG_MAX saturates, a minus sign negates modulo 2^64. */
  function Strtoul10(s: seq<char>): (r: int)
    ensures 0 <= r <= ULONG_MAX
  {
    var t := SkipSpace(CStr(s));
    var neg := t != [] && t[0] == '-';
    var u := if t != [] && (t[0] == '-' || t[0] == '+') then t[1..] else t;
    var v := DecLead(u);
    if v > ULONG_MAX then ULONG_MAX
    else if neg && v != 0 then ULONG_MAX + 1 - v
    else v
  }

  /** Conversion of a wider integer to a 32-bit `int` (two's complement wrap). */
  function ToInt32(x: int): (r: int)
    ensures -0x8000_0000 <= r < 0x8000_0000
    ensures (r - x) % 0x1_0000_0000 == 0
    ensures -0x8000_0000 <= x < 0x8000_0000 ==> r == x
  {
    (x + 0x8000_0000) % 0x1_0000_0000 - 0x8000_0000
  }

  /** Conversion to `uint16_t` (modulo 2^16). */
  function ToUint16(x: int): (r: int)
    ensures 0 <= r < 0x10000
    ensures (r - x) % 0x10000 == 0
    ensures 0 <= x < 0x10000 ==> r == x
  {
    x % 0x10000
  }

  /** C's `%` on int: the remainder of division truncated toward zero,
      which takes the sign of the dividend. */
  function CRem(a: int, b: int): (r: int)
    requires b != 0
    ensures a >= 0 ==> 0 <= r && r == a % b
    ensures a < 0 ==> r <= 0
    ensures -(if b < 0 then -b else b) < r < (if b < 0 then -b else b)
  {
    if a >= 0 then a % b else -((-a) % b)
  }
}
