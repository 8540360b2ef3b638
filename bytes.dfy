/** Bytes as the C code sees them: unsigned 8-bit values, NUL-terminated
    strings and the decimal text that `sprintf("%d")` produces. */
module Bytes {

  /** One byte of a `char` buffer, read as `unsigned char`. */
  type Byte = b: int | 0 <= b < 256

  const NUL: Byte := 0
  const SPACE: Byte := 0x20

  /** The bytes of an ASCII string literal. */
  function Ascii(s: string): (r: seq<Byte>)
    requires forall i :: 0 <= i < |s| ==> s[i] as int < 128
    ensures |r| == |s|
    ensures forall i :: 0 <= i < |s| ==> r[i] == s[i] as int
  {
    if s == [] then [] else [s[0] as int as Byte] + Ascii(s[1..])
  }

  /** What `strcmp` and `strdup` see of a buffer: the bytes before the
      first NUL, or all of it when it holds none. */
  function CString(s: seq<Byte>): (r: seq<Byte>)
    ensures NUL !in r
    ensures r <= s
    ensures |r| < |s| ==> s[|r|] == NUL
  {
    if s == [] || s[0] == NUL then [] else [s[0]] + CString(s[1..])
  }

  lemma {:induction false} CStringOfNulFree(s: seq<Byte>)
    requires NUL !in s
    ensures CString(s) == s
  {
    if s != [] {
      CStringOfNulFree(s[1..]);
    }
  }

  /** A buffer holding `s` and then a NUL reads, as a C string, as `s`
      whatever comes after the NUL. */
  lemma {:induction false} CStringOfTerminated(s: seq<Byte>, rest: seq<Byte>)
    requires NUL !in s
    ensures CString(s + [NUL] + rest) == s
  {
    if s == [] {
      assert (s + [NUL] + rest)[0] == NUL;
    } else {
      assert (s + [NUL] + rest)[1..] == s[1..] + [NUL] + rest;
      CStringOfTerminated(s[1..], rest);
    }
  }

  /** The characters `sprintf(buf, "%d", n)` writes for a non-negative `n`,
      without the terminating NUL. */
  function Decimal(n: nat): (r: seq<Byte>)
    ensures 1 <= |r|
    ensures forall i :: 0 <= i < |r| ==> 0x30 <= r[i] <= 0x39
    decreases n
  {
    if n < 10 then [0x30 + n] else Decimal(n / 10) + [0x30 + n % 10]
  }

  /** Reads a run of decimal digits back into a number. */
  function ParseDecimal(s: seq<Byte>): nat
    requires forall i :: 0 <= i < |s| ==> 0x30 <= s[i] <= 0x39
    decreases |s|
  {
    if s == [] then 0 else ParseDecimal(s[..|s| - 1]) * 10 + (s[|s| - 1] - 0x30)
  }

  /** Reading the digits back gives the number printed. */
  lemma {:induction false} DecimalRoundTrip(n: nat)
    ensures ParseDecimal(Decimal(n)) == n
  {
    if n >= 10 {
      var d := Decimal(n / 10) + [0x30 + n % 10];
      assert d[..|d| - 1] == Decimal(n / 10);
      DecimalRoundTrip(n / 10);
    }
  }

  /** The printed width is the number of decimal digits of `n`. */
  lemma {:induction false} DecimalLength(n: nat, k: nat)
    requires Pow10(k) <= n < Pow10(k + 1)
    ensures |Decimal(n)| == k + 1
    decreases k
  {
    if k > 0 {
      DecimalLength(n / 10, k - 1);
    }
  }

  function Pow10(k: nat): (r: nat)
    ensures 1 <= r
  {
    if k == 0 then 1 else 10 * Pow10(k - 1)
  }
}
