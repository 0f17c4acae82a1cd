/**
 * The few `str` operations the environment relies on, restricted to ASCII:
 * whitespace as `str.isspace` sees it, `str.lower`, `str.strip`, and the
 * decimal text that `str(int)` (an f-string placeholder) produces.
 */
module Text {
  import opened Wrappers

  /** `str.isspace` on ASCII: HT, LF, VT, FF, CR, the separators 0x1C-0x1F and SPACE.
      Python's `\s` in a `str` pattern and `str.strip()` both use this class. */
  predicate IsSpace(c: char) {
    c in WHITESPACE
  }

  const WHITESPACE: set<char> :=
    {'\t', '\n', '\U{000B}', '\U{000C}', '\r', '\U{001C}', '\U{001D}', '\U{001E}', '\U{001F}', ' '}

  predicate IsUpper(c: char) { 'A' <= c <= 'Z' }

  predicate IsDigit(c: char) { '0' <= c <= '9' }

  /** ASCII lower-casing of one character. */
  function ToLower(c: char): (r: char)
    ensures IsUpper(c) ==> r as int == c as int + 32
    ensures !IsUpper(c) ==> r == c
    ensures !IsUpper(r)
  {
    if IsUpper(c) then (c as int + 32) as char else c
  }

  /** `str.lower()` on ASCII text. */
  function Lower(s: string): (r: string)
    ensures |r| == |s|
    ensures forall k | 0 <= k < |r| :: !IsUpper(r[k])
    ensures forall k | 0 <= k < |r| :: ToLower(r[k]) == ToLower(s[k])
  {
    seq(|s|, k requires 0 <= k < |s| => ToLower(s[k]))
  }

  lemma LowerWithoutUpper(s: string)
    requires forall k | 0 <= k < |s| :: !IsUpper(s[k])
    ensures Lower(s) == s
  {
  }

  /** `str.lstrip()`: drops the leading run of whitespace (see `TrimStartDropsSpace`). */
  function TrimStart(s: string): (r: string)
    ensures |r| <= |s|
    ensures r == [] || !IsSpace(r[0])
    decreases |s|
  {
    if |s| > 0 && IsSpace(s[0]) then TrimStart(s[1..]) else s
  }

  /** `str.lstrip()` keeps a suffix and everything it drops is whitespace. */
  lemma {:induction false} TrimStartDropsSpace(s: string)
    ensures TrimStart(s) == s[|s| - |TrimStart(s)|..]
    ensures forall k | 0 <= k < |s| - |TrimStart(s)| :: IsSpace(s[k])
    decreases |s|
  {
    if |s| > 0 && IsSpace(s[0]) {
      TrimStartDropsSpace(s[1..]);
      assert forall k | 1 <= k < |s| :: s[k] == s[1..][k - 1];
    }
  }

  /** `str.rstrip()`: drops the trailing run of whitespace (see `TrimEndDropsSpace`). */
  function TrimEnd(s: string): (r: string)
    ensures |r| <= |s|
    ensures r == [] || !IsSpace(r[|r| - 1])
    decreases |s|
  {
    if |s| > 0 && IsSpace(s[|s| - 1]) then TrimEnd(s[..|s| - 1]) else s
  }

  /** `str.rstrip()` keeps a prefix and everything it drops is whitespace. */
  lemma {:induction false} TrimEndDropsSpace(s: string)
    ensures TrimEnd(s) == s[..|TrimEnd(s)|]
    ensures forall k | |TrimEnd(s)| <= k < |s| :: IsSpace(s[k])
    decreases |s|
  {
    if |s| > 0 && IsSpace(s[|s| - 1]) {
      TrimEndDropsSpace(s[..|s| - 1]);
    }
  }

  /** Text with neither leading nor trailing whitespace. */
  predicate Trimmed(s: string) {
    s == [] || (!IsSpace(s[0]) && !IsSpace(s[|s| - 1]))
  }

  /** `str.strip()`: whitespace off both ends; the result is trimmed. */
  function Strip(s: string): (r: string)
    ensures |r| <= |s|
    ensures Trimmed(r)
  {
    var l := TrimStart(s);
    var r := TrimEnd(l);
    assert r != [] ==> r[0] == l[0] by {
      TrimEndDropsSpace(l);
    }
    r
  }

  /** `str.strip()` returns a slice `s[a..b]` of its input and everything it cuts off on
      either side is whitespace. */
  lemma StripIsSlice(s: string) returns (a: nat, b: nat)
    ensures a <= b <= |s| && Strip(s) == s[a..b]
    ensures forall k | 0 <= k < a :: IsSpace(s[k])
    ensures forall k | b <= k < |s| :: IsSpace(s[k])
  {
    var l := TrimStart(s);
    TrimStartDropsSpace(s);
    TrimEndDropsSpace(l);
    a := |s| - |l|;
    b := a + |TrimEnd(l)|;
    assert l == s[a..];
    SliceOfSuffix(s, a, |TrimEnd(l)|);
    forall k | b <= k < |s|
      ensures IsSpace(s[k])
    {
      assert s[k] == l[k - a];
    }
  }

  /** A prefix of a suffix is a slice. */
  lemma SliceOfSuffix(s: string, a: nat, n: nat)
    requires a + n <= |s|
    ensures s[a..][..n] == s[a..a + n]
  {
  }

  /** Stripping text that is already trimmed changes nothing. */
  lemma StripTrimmed(s: string)
    requires Trimmed(s)
    ensures Strip(s) == s
  {
  }

  // ---- decimal text of integers --------------------------------------------

  predicate IsDigits(s: string) {
    forall k | 0 <= k < |s| :: IsDigit(s[k])
  }

  function DigitChar(d: int): (c: char)
    requires 0 <= d < 10
    ensures IsDigit(c) && c as int - '0' as int == d
  {
    ('0' as int + d) as char
  }

  /** Canonical decimal digits of a natural number: non-empty, no leading zero. */
  function NatToDecimal(n: nat): (s: string)
    ensures |s| >= 1 && IsDigits(s)
    ensures s[0] == '0' ==> n == 0 && |s| == 1
    decreases n
  {
    if n < 10 then [DigitChar(n)] else NatToDecimal(n / 10) + [DigitChar(n % 10)]
  }

  /** Python's `str(n)` (and `f"{n}"`) of an `int`: a minus sign for negatives, then digits.
      Python's refusal to print more than 4300 digits is not modelled. */
  function IntToDecimal(n: int): (s: string)
    ensures |s| >= 1 && IsDigit(s[|s| - 1])
    ensures forall k | 0 <= k < |s| :: IsDigit(s[k]) || (k == 0 && s[k] == '-' && n < 0)
    ensures s[0] == '0' ==> s == "0"
    ensures n < 0 ==> |s| >= 2 && s[1] != '0'
  {
    if n < 0 then "-" + NatToDecimal(-n) else NatToDecimal(n)
  }

  /** Value of a string of decimal digits, most significant first. */
  function DigitsValue(s: string): nat
    requires IsDigits(s)
  {
    if s == [] then 0 else DigitsValue(s[..|s| - 1]) * 10 + (s[|s| - 1] as int - '0' as int)
  }

  /** Reading decimal text back as an integer, the inverse of `IntToDecimal`. */
  function ParseDecimal(s: string): Option<int> {
    if |s| >= 2 && s[0] == '-' && IsDigits(s[1..]) then Some(0 - DigitsValue(s[1..]) as int)
    else if |s| >= 1 && IsDigits(s) then Some(DigitsValue(s))
    else None
  }

  lemma {:induction false} NatToDecimalValue(n: nat)
    ensures DigitsValue(NatToDecimal(n)) == n
    decreases n
  {
    var s := NatToDecimal(n);
    if n >= 10 {
      NatToDecimalValue(n / 10);
      assert s[..|s| - 1] == NatToDecimal(n / 10);
    }
  }

  /** The decimal text of `n` denotes `n`: printing round-trips through parsing. */
  lemma DecimalRoundTrip(n: int)
    ensures ParseDecimal(IntToDecimal(n)) == Some(n)
  {
    if n < 0 {
      NatToDecimalValue(-n);
      assert IntToDecimal(n)[1..] == NatToDecimal(-n);
    } else {
      NatToDecimalValue(n);
    }
  }

  /** Decimal text has no upper-case letters, so lower-casing leaves it unchanged. */
  lemma LowerDecimal(n: int)
    ensures Lower(IntToDecimal(n)) == IntToDecimal(n)
  {
    LowerWithoutUpper(IntToDecimal(n));
  }
}
