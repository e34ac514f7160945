/**
 * The C library string operations the core relies on: `atoi`, the decimal
 * rendering of `%u`, and `snprintf`/`strncpy` into a fixed-size char array.
 */
module CString {
  import opened ByteOrder

  const NUL: byte := 0

  predicate IsSpace(c: char)
  {
    c == ' ' || c == '\t' || c == '\n' || c == '\U{B}' || c == '\U{C}' || c == '\r'
  }

  predicate IsDigit(c: char)
  {
    '0' <= c <= '9'
  }

  predicate AllDigits(s: string)
  {
    forall i :: 0 <= i < |s| ==> IsDigit(s[i])
  }

  function DigitChar(d: nat): (c: char)
    requires d < 10
    ensures IsDigit(c)
  {
    (48 + d) as char
  }

  function DigitValue(c: char): (d: nat)
    requires IsDigit(c)
    ensures d < 10 && DigitChar(d) == c
  {
    c as int - 48
  }

  /** The characters of a byte buffer (one char per byte, as `char` holds them). */
  function Chars(bs: seq<byte>): (s: string)
    ensures |s| == |bs|
    ensures forall i :: 0 <= i < |bs| ==> s[i] as int == bs[i] as int
  {
    seq(|bs|, i requires 0 <= i < |bs| => (bs[i] as int) as char)
  }

  lemma CharsAppend(a: seq<byte>, b: seq<byte>)
    ensures Chars(a + b) == Chars(a) + Chars(b)
  {
  }

  predicate IsAscii(s: string)
  {
    forall i :: 0 <= i < |s| ==> (s[i] as int) < 0x100
  }

  /** The bytes of an 8-bit string. */
  function Bytes(s: string): (bs: seq<byte>)
    requires IsAscii(s)
    ensures |bs| == |s| && Chars(bs) == s
  {
    seq(|s|, i requires 0 <= i < |s| => (s[i] as int) as byte)
  }

  /** The leading digits of s. */
  function DigitPrefix(s: string): (r: string)
    ensures AllDigits(r) && |r| <= |s| && r == s[..|r|]
    ensures |r| < |s| ==> !IsDigit(s[|r|])
  {
    if |s| > 0 && IsDigit(s[0]) then [s[0]] + DigitPrefix(s[1..]) else []
  }

  /** The value of a run of decimal digits, most significant first. */
  function DigitsValue(ds: string): nat
    requires AllDigits(ds)
  {
    if ds == [] then 0 else 10 * DigitsValue(ds[..|ds| - 1]) + DigitValue(ds[|ds| - 1])
  }

  function DropSpaces(s: string): (r: string)
    ensures |r| <= |s| && r == s[|s| - |r|..]
    ensures r != [] ==> !IsSpace(r[0])
  {
    if |s| > 0 && IsSpace(s[0]) then DropSpaces(s[1..]) else s
  }

  /**
   * `atoi`: skip white space, an optional sign, then the longest run of digits.
   * The result is the mathematical value; C leaves overflow of `int` undefined.
   */
  function Atoi(s: string): int
  {
    var t := DropSpaces(s);
    if |t| > 0 && t[0] == '-' then -(DigitsValue(DigitPrefix(t[1..])) as int)
    else if |t| > 0 && t[0] == '+' then DigitsValue(DigitPrefix(t[1..]))
    else DigitsValue(DigitPrefix(t))
  }

  /** The decimal rendering printf's `%u` produces for n: no sign, no leading zeros. */
  function Utoa(n: nat): (r: string)
    ensures AllDigits(r) && |r| > 0
    ensures |r| > 1 ==> r[0] != '0'
  {
    if n < 10 then [DigitChar(n)] else Utoa(n / 10) + [DigitChar(n % 10)]
  }

  function Pow10(k: nat): (r: nat)
    ensures r > 0
  {
    if k == 0 then 1 else 10 * Pow10(k - 1)
  }

  lemma {:induction false} UtoaLength(n: nat, k: nat)
    requires 0 < k && n < Pow10(k)
    ensures |Utoa(n)| <= k
  {
    if n >= 10 {
      assert Pow10(1) == 10;
      assert n / 10 < Pow10(k - 1);
      UtoaLength(n / 10, k - 1);
    }
  }

  /** A 32-bit unsigned value has at most ten decimal digits. */
  lemma Utoa32Length(u: uint32)
    ensures |Utoa(u as nat)| <= 10
  {
    assert Pow10(10) == 10_000_000_000;
    UtoaLength(u as nat, 10);
  }

  lemma {:induction false} DigitsValueOfUtoa(n: nat)
    ensures DigitsValue(Utoa(n)) == n
  {
    if n >= 10 {
      var r := Utoa(n);
      assert r[..|r| - 1] == Utoa(n / 10);
      DigitsValueOfUtoa(n / 10);
    }
  }

  lemma {:induction false} DigitPrefixStops(ds: string, rest: string)
    requires AllDigits(ds)
    requires rest == [] || !IsDigit(rest[0])
    ensures DigitPrefix(ds + rest) == ds
    decreases |ds|
  {
    if ds == [] {
      assert ds + rest == rest;
    } else {
      assert (ds + rest)[1..] == ds[1..] + rest;
      DigitPrefixStops(ds[1..], rest);
    }
  }

  /** A string that starts with a digit is read by `atoi` as its leading digits, with no sign. */
  lemma AtoiOfDigitFirst(s: string)
    requires |s| > 0 && IsDigit(s[0])
    ensures Atoi(s) == DigitsValue(DigitPrefix(s))
  {
    assert !IsSpace(s[0]);
    assert s[0] != '-' && s[0] != '+';
  }

  /** `atoi` reads back what `%u` printed, whatever non-digit follows it. */
  lemma AtoiOfUtoa(n: nat, rest: string)
    requires rest == [] || !IsDigit(rest[0])
    ensures Atoi(Utoa(n) + rest) == n
  {
    var u := Utoa(n);
    assert (u + rest)[0] == u[0];
    AtoiOfDigitFirst(u + rest);
    DigitPrefixStops(u, rest);
    DigitsValueOfUtoa(n);
  }

  /**
   * `snprintf(field, |field|, "%u", n)`: as many digits as fit before the
   * terminating NUL; the bytes after the NUL keep their old values.
   */
  function SnprintfUnsigned(field: seq<byte>, n: uint32): (r: seq<byte>)
    requires |field| > 0
    ensures |r| == |field|
    ensures |Utoa(n as nat)| < |field| ==>
      && r[..|Utoa(n as nat)|] == Bytes(Utoa(n as nat))
      && r[|Utoa(n as nat)|] == NUL
      && r[|Utoa(n as nat)| + 1..] == field[|Utoa(n as nat)| + 1..]
  {
    var digits := Utoa(n as nat);
    assert IsAscii(digits);
    var k := if |digits| < |field| - 1 then |digits| else |field| - 1;
    Bytes(digits[..k]) + [NUL] + field[k + 1..]
  }

  /** A field rewritten with `%u` reads back, through `atoi`, as the number printed. */
  lemma AtoiOfSnprintfUnsigned(field: seq<byte>, n: uint32)
    requires |field| > |Utoa(n as nat)|
    ensures Atoi(Chars(SnprintfUnsigned(field, n))) == n as nat
  {
    var digits := Utoa(n as nat);
    assert IsAscii(digits);
    var tail := [NUL] + field[|digits| + 1..];
    assert SnprintfUnsigned(field, n) == Bytes(digits) + tail by {
      assert digits[..|digits|] == digits;
    }
    CharsAppend(Bytes(digits), tail);
    var rest := Chars(tail);
    assert rest[0] == '\0';
    AtoiOfUtoa(n as nat, rest);
  }

  /**
   * `strncpy(field, src, |field|)`: the first |field| characters of src, padded
   * with NUL up to the field's size (no terminator when src fills the field).
   */
  function Strncpy(field: seq<byte>, src: string): (r: seq<byte>)
    requires IsAscii(src)
    ensures |r| == |field|
    ensures |src| < |field| ==> r[..|src|] == Bytes(src) && forall i :: |src| <= i < |field| ==> r[i] == NUL
    ensures |src| >= |field| ==> r == Bytes(src[..|field|])
  {
    if |src| >= |field| then Bytes(src[..|field|])
    else Bytes(src) + seq(|field| - |src|, _ => NUL)
  }

  /** The C string a char array holds: everything before the first NUL. */
  function CStr(field: seq<byte>): (s: string)
    ensures |s| <= |field|
    ensures forall i :: 0 <= i < |s| ==> s[i] != '\0'
  {
    if field == [] || field[0] == NUL then [] else [(field[0] as int) as char] + CStr(field[1..])
  }

  /** A string shorter than the field survives `strncpy` intact as the field's C string. */
  lemma {:induction false} CStrOfStrncpy(field: seq<byte>, src: string)
    requires IsAscii(src) && |src| < |field|
    requires forall i :: 0 <= i < |src| ==> src[i] != '\0'
    ensures CStr(Strncpy(field, src)) == src
    decreases |src|
  {
    var r := Strncpy(field, src);
    if src == [] {
      assert r[0] == NUL;
    } else {
      assert r[0] as int == src[0] as int;
      assert r[1..] == Strncpy(field[1..], src[1..]);
      CStrOfStrncpy(field[1..], src[1..]);
    }
  }
}
