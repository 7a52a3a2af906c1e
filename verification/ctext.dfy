/**
 * The C library text conversions the server relies on: `atoi` (glibc, "C" locale),
 * `sprintf("%d")` and `sprintf("%0Nd")`, and C strings read up to their NUL.
 */
module CText {

  /** `isspace` in the "C" locale: space, `\t`, `\n`, `\v`, `\f`, `\r`. */
  predicate IsSpace(c: char) {
    c == ' ' || ('\t' <= c <= '\r')
  }

  predicate IsDigit(c: char) {
    '0' <= c <= '9'
  }

  predicate AllDigits(s: string) {
    forall i :: 0 <= i < |s| ==> IsDigit(s[i])
  }

  function DigitValue(c: char): nat
    requires IsDigit(c)
  {
    c as int - '0' as int
  }

  function DigitChar(d: nat): (c: char)
    requires d < 10
    ensures IsDigit(c) && DigitValue(c) == d
  {
    ('0' as int + d) as char
  }

  /** The number a string of decimal digits denotes, most significant digit first. */
  function DigitsValue(s: string): nat
    requires AllDigits(s)
  {
    if |s| == 0 then 0 else DigitsValue(s[..|s| - 1]) * 10 + DigitValue(s[|s| - 1])
  }

  function Pow10(k: nat): nat {
    if k == 0 then 1 else 10 * Pow10(k - 1)
  }

  /** Text that holds neither a newline nor a NUL. */
  predicate Plain(s: string) {
    forall i :: 0 <= i < |s| ==> s[i] != '\n' && s[i] != '\0'
  }

  // ---------------------------------------------------------------------------
  // atoi

  /** What `atoi` skips before the number: the longest all-space prefix. */
  function SkipSpaces(s: string): (t: string)
    ensures |t| <= |s|
    ensures forall i :: 0 <= i < |s| - |t| ==> IsSpace(s[i])
    ensures |t| > 0 ==> !IsSpace(t[0])
  {
    if |s| > 0 && IsSpace(s[0]) then SkipSpaces(s[1..]) else s
  }

  /** The longest prefix of `s` made of decimal digits; conversion stops at the first non-digit. */
  function LeadingDigits(s: string): (d: string)
    ensures |d| <= |s|
    ensures AllDigits(d)
    ensures |d| < |s| ==> !IsDigit(s[|d|])
  {
    if |s| > 0 && IsDigit(s[0]) then [s[0]] + LeadingDigits(s[1..]) else []
  }

  /** Skipping drops characters only from the front: what is left is the rest of `s`. */
  lemma {:induction false} SkipSpacesIsSuffix(s: string)
    ensures SkipSpaces(s) == s[|s| - |SkipSpaces(s)|..]
    decreases |s|
  {
    if |s| > 0 && IsSpace(s[0]) {
      SkipSpacesIsSuffix(s[1..]);
      assert s[1..][|s[1..]| - |SkipSpaces(s[1..])|..] == s[|s| - |SkipSpaces(s)|..];
    }
  }

  /** The digits taken are the front of `s` itself. */
  lemma {:induction false} LeadingDigitsIsPrefix(s: string)
    ensures LeadingDigits(s) == s[..|LeadingDigits(s)|]
    decreases |s|
  {
    if |s| > 0 && IsDigit(s[0]) {
      LeadingDigitsIsPrefix(s[1..]);
      assert [s[0]] + s[1..][..|LeadingDigits(s[1..])|] == s[..|LeadingDigits(s)|];
    }
  }

  /**
   * `atoi(s)`: skip white space, take an optional `+` or `-`, read decimal digits up to the
   * first non-digit. A string with no digits there gives 0. The value is unbounded here; a
   * result outside the `int` range is undefined behaviour in C, and callers rule it out.
   */
  function Atoi(s: string): int {
    SignedDigits(SkipSpaces(s))
  }

  /** The rest of `atoi` once white space is skipped: an optional sign, then the digits. */
  function SignedDigits(t: string): int {
    if |t| > 0 && t[0] == '-' then -(DigitsValue(LeadingDigits(t[1..])) as int)
    else if |t| > 0 && t[0] == '+' then DigitsValue(LeadingDigits(t[1..]))
    else DigitsValue(LeadingDigits(t))
  }

  /** What `atoi` finds once white space and the optional sign are skipped. */
  function Unsigned(s: string): string {
    var t := SkipSpaces(s);
    if |t| > 0 && (t[0] == '-' || t[0] == '+') then t[1..] else t
  }

  // ---------------------------------------------------------------------------
  // sprintf

  /** `sprintf("%d")` of a non-negative number: its digits, no leading zeros. */
  function NatString(n: nat): (s: string)
    ensures |s| >= 1 && AllDigits(s)
    ensures DigitsValue(s) == n
    ensures |s| > 1 ==> s[0] != '0'
  {
    if n < 10 then [DigitChar(n)] else NatString(n / 10) + [DigitChar(n % 10)]
  }

  /** `sprintf("%d")`: a `-` for negative numbers, then the digits of the magnitude. */
  function DecimalString(n: int): (s: string)
    ensures |s| >= 1
    ensures n >= 0 ==> AllDigits(s) && DigitsValue(s) == n
    ensures n < 0 ==> s[0] == '-' && AllDigits(s[1..]) && DigitsValue(s[1..]) == -n
  {
    if n < 0 then "-" + NatString(-n) else NatString(n)
  }

  function Zeros(k: nat): (z: string)
    ensures |z| == k && AllDigits(z)
  {
    seq(k, _ => '0')
  }

  /** `sprintf("%0Nd")` of a non-negative number: its digits, left-padded with `0` to width `N`. */
  function ZeroPad(n: nat, width: nat): (s: string)
    ensures |s| == if |NatString(n)| < width then width else |NatString(n)|
    ensures AllDigits(s) && DigitsValue(s) == n
  {
    var d := NatString(n);
    if |d| < width then
      LeadingZerosValue(Zeros(width - |d|), d);
      Zeros(width - |d|) + d
    else d
  }

  /** The C string stored in `s`: its characters up to, not including, the first NUL. */
  function CString(s: string): (c: string)
    ensures |c| <= |s|
    ensures forall i :: 0 <= i < |c| ==> c[i] != '\0'
    ensures |c| < |s| ==> s[|c|] == '\0'
  {
    if |s| == 0 || s[0] == '\0' then [] else [s[0]] + CString(s[1..])
  }

  /** The C string is the front of `s` itself. */
  lemma {:induction false} CStringIsPrefix(s: string)
    ensures CString(s) == s[..|CString(s)|]
    decreases |s|
  {
    if |s| > 0 && s[0] != '\0' {
      CStringIsPrefix(s[1..]);
      assert [s[0]] + s[1..][..|CString(s[1..])|] == s[..|CString(s)|];
    }
  }

  // ---------------------------------------------------------------------------
  // Lemmas

  lemma {:induction false} ZerosValue(z: string)
    requires forall i :: 0 <= i < |z| ==> z[i] == '0'
    ensures AllDigits(z) && DigitsValue(z) == 0
  {
    if |z| > 0 {
      ZerosValue(z[..|z| - 1]);
    }
  }

  /** Leading zeros do not change the value of a digit string. */
  lemma {:induction false} LeadingZerosValue(z: string, d: string)
    requires forall i :: 0 <= i < |z| ==> z[i] == '0'
    requires AllDigits(d)
    ensures AllDigits(z + d) && DigitsValue(z + d) == DigitsValue(d)
  {
    if |d| == 0 {
      assert z + d == z;
      ZerosValue(z);
    } else {
      LeadingZerosValue(z, d[..|d| - 1]);
      assert (z + d)[..|z + d| - 1] == z + d[..|d| - 1];
    }
  }

  /** `atoi` reading a run of digits followed by anything that is not a digit stops at the run's end. */
  lemma {:induction false} LeadingDigitsOfDigits(d: string, rest: string)
    requires AllDigits(d)
    requires |rest| == 0 || !IsDigit(rest[0])
    ensures LeadingDigits(d + rest) == d
  {
    if |d| > 0 {
      assert (d + rest)[1..] == d[1..] + rest;
      LeadingDigitsOfDigits(d[1..], rest);
    } else {
      assert d + rest == rest;
    }
  }

  /** Parsing what `%d` printed, followed by a non-digit or nothing, gives the number back. */
  lemma AtoiDecimalRoundTrip(n: int, rest: string)
    requires |rest| == 0 || !IsDigit(rest[0])
    ensures Atoi(DecimalString(n) + rest) == n
  {
    var s := DecimalString(n);
    if n < 0 {
      var d := NatString(-n);
      assert s + rest == "-" + (d + rest);
      assert SkipSpaces(s + rest) == s + rest;
      assert (s + rest)[1..] == d + rest;
      LeadingDigitsOfDigits(d, rest);
    } else {
      assert SkipSpaces(s + rest) == s + rest;
      LeadingDigitsOfDigits(s, rest);
    }
  }

  lemma {:induction false} SkipSpacesOver(ws: string, t: string)
    requires forall i :: 0 <= i < |ws| ==> IsSpace(ws[i])
    requires |t| == 0 || !IsSpace(t[0])
    ensures SkipSpaces(ws + t) == t
  {
    if |ws| > 0 {
      assert (ws + t)[1..] == ws[1..] + t;
      SkipSpacesOver(ws[1..], t);
    } else {
      assert ws + t == t;
    }
  }

  /**
   * White space, then `-`, then any run of digits (leading zeros included), then anything that
   * does not start with a digit: `atoi` gives the run's value negated.
   */
  lemma AtoiMinus(ws: string, d: string, rest: string)
    requires forall i :: 0 <= i < |ws| ==> IsSpace(ws[i])
    requires AllDigits(d)
    requires |rest| == 0 || !IsDigit(rest[0])
    ensures Atoi(ws + "-" + d + rest) == -(DigitsValue(d) as int)
  {
    var t := "-" + (d + rest);
    assert ws + "-" + d + rest == ws + t;
    AtoiSkipsSpaces(ws, t);
    AtoiUnsignedMinus(d, rest);
  }

  /** The same with `+`: the run's value, unchanged. */
  lemma AtoiPlus(ws: string, d: string, rest: string)
    requires forall i :: 0 <= i < |ws| ==> IsSpace(ws[i])
    requires AllDigits(d)
    requires |rest| == 0 || !IsDigit(rest[0])
    ensures Atoi(ws + "+" + d + rest) == DigitsValue(d)
  {
    var t := "+" + (d + rest);
    assert ws + "+" + d + rest == ws + t;
    AtoiSkipsSpaces(ws, t);
    AtoiUnsignedPlus(d, rest);
  }

  /** With no sign at all, a non-empty run of digits after the white space reads as its value. */
  lemma AtoiUnsigned(ws: string, d: string, rest: string)
    requires forall i :: 0 <= i < |ws| ==> IsSpace(ws[i])
    requires |d| > 0 && AllDigits(d)
    requires |rest| == 0 || !IsDigit(rest[0])
    ensures Atoi(ws + d + rest) == DigitsValue(d)
  {
    var t := d + rest;
    Reassociate(ws, d, rest, t);
    assert t[0] == d[0];
    AtoiSkipsSpaces(ws, t);
    AtoiDigitsFirst(d, rest);
  }

  lemma Reassociate(a: string, b: string, c: string, bc: string)
    requires bc == b + c
    ensures a + b + c == a + bc
  {
  }

  /** White space before the number and an explicit `+` are accepted; reading stops at the first non-digit. */
  lemma AtoiPermissive(ws: string, n: nat, rest: string)
    requires forall i :: 0 <= i < |ws| ==> IsSpace(ws[i])
    requires |rest| == 0 || !IsDigit(rest[0])
    ensures Atoi(ws + "+" + NatString(n) + rest) == n
  {
    AtoiPlus(ws, NatString(n), rest);
  }

  lemma AtoiSkipsSpaces(ws: string, t: string)
    requires forall i :: 0 <= i < |ws| ==> IsSpace(ws[i])
    requires |t| > 0 && !IsSpace(t[0])
    ensures Atoi(ws + t) == Atoi(t)
  {
    SkipSpacesOver(ws, t);
    assert SkipSpaces(t) == t;
  }

  lemma AtoiUnsignedPlus(d: string, rest: string)
    requires AllDigits(d)
    requires |rest| == 0 || !IsDigit(rest[0])
    ensures Atoi("+" + (d + rest)) == DigitsValue(d)
  {
    var t := "+" + (d + rest);
    assert t[1..] == d + rest;
    LeadingDigitsOfDigits(d, rest);
  }

  lemma AtoiUnsignedMinus(d: string, rest: string)
    requires AllDigits(d)
    requires |rest| == 0 || !IsDigit(rest[0])
    ensures Atoi("-" + (d + rest)) == -(DigitsValue(d) as int)
  {
    var t := "-" + (d + rest);
    assert t[1..] == d + rest;
    LeadingDigitsOfDigits(d, rest);
  }

  lemma AtoiDigitsFirst(d: string, rest: string)
    requires |d| > 0 && AllDigits(d)
    requires |rest| == 0 || !IsDigit(rest[0])
    ensures Atoi(d + rest) == DigitsValue(d)
  {
    assert (d + rest)[0] == d[0];
    LeadingDigitsOfDigits(d, rest);
  }

  /** Malformed input: when no digit follows the white space and sign, `atoi` yields 0. */
  lemma NoDigitsParsesZero(s: string)
    requires |Unsigned(s)| == 0 || !IsDigit(Unsigned(s)[0])
    ensures Atoi(s) == 0
  {
    assert LeadingDigits(Unsigned(s)) == [];
  }

  /** A number has at most `k` digits exactly when it is below `10^k`. */
  lemma {:induction false} NatStringLength(n: nat, k: nat)
    requires k >= 1
    ensures |NatString(n)| <= k <==> n < Pow10(k)
  {
    if n >= 10 {
      if k == 1 {
        assert Pow10(1) == 10;
      } else {
        NatStringLength(n / 10, k - 1);
      }
    } else {
      PowMonotone(k);
    }
  }

  /** `%d` of `n` takes at most `k` characters exactly when `-10^(k-1) < n < 10^k`. */
  lemma DecimalStringLength(n: int, k: nat)
    requires k >= 1
    ensures |DecimalString(n)| <= k <==> -(Pow10(k - 1) as int) < n < Pow10(k)
  {
    if n >= 0 {
      assert DecimalString(n) == NatString(n);
      NatStringLength(n, k);
      assert Pow10(k - 1) >= 1 by {
        if k > 1 {
          PowMonotone(k - 1);
        }
      }
    } else {
      var m: nat := -n;
      assert |DecimalString(n)| == 1 + |NatString(m)|;
      if k > 1 {
        NatStringLength(m, k - 1);
      }
    }
  }

  lemma {:induction false} PowMonotone(k: nat)
    requires k >= 1
    ensures Pow10(k) >= 10
  {
    if k > 1 {
      PowMonotone(k - 1);
    }
  }

  /** A NUL-terminated buffer reads back, as a C string, as exactly what was stored before the NUL. */
  lemma {:induction false} CStringOfTerminated(s: string, rest: string)
    requires forall i :: 0 <= i < |s| ==> s[i] != '\0'
    ensures CString(s + "\0" + rest) == s
  {
    if |s| > 0 {
      assert (s + "\0" + rest)[1..] == s[1..] + "\0" + rest;
      CStringOfTerminated(s[1..], rest);
    } else {
      assert s + "\0" + rest == "\0" + rest;
    }
  }

  /** No digit string produced by `%d` or `%0Nd` contains a newline or a NUL. */
  lemma DigitsArePlain(s: string)
    requires AllDigits(s)
    ensures Plain(s)
  {
  }

  lemma PlainConcat(a: string, b: string)
    requires Plain(a) && Plain(b)
    ensures Plain(a + b)
  {
    assert forall i :: |a| <= i < |a + b| ==> (a + b)[i] == b[i - |a|];
  }

  lemma DecimalStringIsPlain(n: int)
    ensures Plain(DecimalString(n))
  {
    var s := DecimalString(n);
    if n < 0 {
      assert forall i :: 1 <= i < |s| ==> s[i] == s[1..][i - 1];
    }
  }
}
