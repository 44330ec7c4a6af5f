/** Characters, decimal numbers and C strings. A string value never contains its terminating NUL. */
module Text {
  import opened Bytes
  import opened Sequences

  const NUL: char := 0 as char

  predicate IsSpace(c: char) {
    c == ' ' || '\t' <= c <= '\r'
  }

  predicate IsDigit(c: char) {
    '0' <= c <= '9'
  }

  predicate IsHex(c: char) {
    IsDigit(c) || 'a' <= c <= 'f' || 'A' <= c <= 'F'
  }

  function ToLower(c: char): char {
    if 'A' <= c <= 'Z' then (c as int + 32) as char else c
  }

  predicate AllDigits(s: string) {
    forall i | 0 <= i < |s| :: IsDigit(s[i])
  }

  /** The octets of a C string as characters. */
  function Chars(b: seq<byte>): (s: string)
    ensures |s| == |b|
    ensures forall i | 0 <= i < |b| :: s[i] as int == b[i]
  {
    seq(|b|, i requires 0 <= i < |b| => b[i] as char)
  }

  /** The text in a character buffer, up to its first NUL. */
  ghost function Held(a: array<char>): string
    reads a
  {
    UpTo(a[..], NUL)
  }

  /** The C string at a position of a character buffer. */
  function TextAt(a: array<char>, at: nat): string
    requires at <= a.Length
    reads a
  {
    UpTo(a[at..], NUL)
  }

  /** There is a NUL at or behind a position. */
  ghost predicate Ends(a: array<char>, at: nat)
    reads a
  {
    at <= a.Length && at + First(a[at..], NUL) < a.Length
  }

  /** Copies a text with its terminator to the start of a buffer. */
  method CopyText(out: array<char>, text: string)
    requires |text| < out.Length
    modifies out
    ensures out[..|text| + 1] == text + [NUL]
    ensures NUL !in text ==> Held(out) == text
  {
    forall i | 0 <= i < |text| {
      out[i] := text[i];
    }
    out[|text|] := NUL;
    if NUL !in text {
      FirstSplit(text, NUL, out[|text| + 1..]);
      assert out[..] == text + [NUL] + out[|text| + 1..];
    }
  }

  // -------------------------------------------------------------------------
  // Decimal numbers
  // -------------------------------------------------------------------------

  function Digit(d: int): char
    requires 0 <= d < 10
  {
    ('0' as int + d) as char
  }

  /** The printed form of a number: no sign, no leading zeros. */
  function Dec(n: nat): (s: string)
    ensures s != [] && AllDigits(s)
  {
    if n < 10 then [Digit(n)] else Dec(n / 10) + [Digit(n % 10)]
  }

  function Value(s: string): nat
    requires AllDigits(s)
  {
    if s == [] then 0 else Value(s[..|s| - 1]) * 10 + (s[|s| - 1] as int - '0' as int)
  }

  lemma {:induction false} DecValue(n: nat)
    ensures Value(Dec(n)) == n
  {
    if n >= 10 {
      DecValue(n / 10);
      assert Dec(n)[..|Dec(n)| - 1] == Dec(n / 10);
    } else {
      assert Dec(n)[..0] == [];
    }
  }

  function Pow10(k: nat): (p: nat)
    ensures p > 0
  {
    if k == 0 then 1 else 10 * Pow10(k - 1)
  }

  lemma {:induction false} DecLength(n: nat, k: nat)
    requires k > 0 && n < Pow10(k)
    ensures |Dec(n)| <= k
  {
    if n >= 10 {
      assert Pow10(1) == 10;
      DecLength(n / 10, k - 1);
    }
  }

  lemma {:induction false} DecHasNo(n: nat, c: char)
    requires !IsDigit(c)
    ensures c !in Dec(n)
  {
  }

  /** snprintf with "%s" into a buffer of size cap: the text, cut if it does not fit with its NUL. */
  function Printed(text: string, cap: nat): string
    requires cap > 0
  {
    if |text| < cap then text else text[..cap - 1]
  }
}
