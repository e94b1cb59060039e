/** `Number.prototype.toString()` and `parseInt(string)` on integers, which the KDF key provider
    uses to write a key id into key metadata and read it back. */
module Numbers {
  import opened Wrappers

  function DigitChar(d: nat): char
    requires d < 10
  {
    "0123456789"[d]
  }

  /** The decimal text of a non-negative integer, without leading zeros. */
  function ToDecimal(n: nat): (s: string)
    ensures |s| >= 1
    ensures forall i :: 0 <= i < |s| ==> '0' <= s[i] <= '9'
    ensures s[0] == '0' ==> n == 0 && s == "0"
  {
    if n < 10 then [DigitChar(n)] else ToDecimal(n / 10) + [DigitChar(n % 10)]
  }

  /** The value of one digit in `radix` (10 or 16), if `c` is one: a decimal digit, or in
      radix 16 a letter a-f in either case; always below the radix. */
  function DigitValue(c: char, radix: nat): (r: Option<nat>)
    ensures r.Some? ==> r.value < radix
    ensures r.Some? ==> '0' <= c <= '9' || (radix == 16 && ('a' <= c <= 'f' || 'A' <= c <= 'F'))
    ensures '0' <= c <= '9' && radix >= 10 ==> r == Some((c as int) - ('0' as int))
  {
    if '0' <= c <= '9' && (c as int) - ('0' as int) < radix then Some((c as int) - ('0' as int))
    else if radix == 16 && 'a' <= c <= 'f' then Some((c as int) - ('a' as int) + 10)
    else if radix == 16 && 'A' <= c <= 'F' then Some((c as int) - ('A' as int) + 10)
    else None
  }

  /** The longest prefix of `s` made of digits in `radix`. */
  function DigitPrefix(s: string, radix: nat): (p: string)
    ensures |p| <= |s| && p == s[..|p|]
    ensures forall i :: 0 <= i < |p| ==> DigitValue(p[i], radix).Some?
    ensures |p| < |s| ==> DigitValue(s[|p|], radix).None?
  {
    if s == [] || DigitValue(s[0], radix).None? then "" else [s[0]] + DigitPrefix(s[1..], radix)
  }

  /** radix^e. */
  function Pow(radix: nat, e: nat): nat {
    if e == 0 then 1 else Pow(radix, e - 1) * radix
  }

  /** The number a string of digits denotes, most significant digit first: below radix^|s|. */
  function DigitsValue(s: string, radix: nat): (n: nat)
    requires forall i :: 0 <= i < |s| ==> DigitValue(s[i], radix).Some?
    ensures n < Pow(radix, |s|)
  {
    if s == [] then 0
    else
      var high := DigitsValue(s[..|s| - 1], radix);
      var low := DigitValue(s[|s| - 1], radix).value;
      ShiftBound(high, low, radix, Pow(radix, |s| - 1));
      assert Pow(radix, |s|) == Pow(radix, |s| - 1) * radix;
      high * radix + low
  }

  /** Appending a digit below the radix to a number below p gives a number below p * radix. */
  lemma ShiftBound(high: nat, low: nat, radix: nat, p: nat)
    requires high < p && low < radix
    ensures 0 <= high * radix + low < p * radix
  {
    MulNonNegative(high, radix);
    var d: nat := p - high - 1;
    MulNonNegative(d, radix);
    Distribute(high, d, radix);
  }

  lemma MulNonNegative(a: nat, b: nat)
    ensures a * b >= 0
  {
  }

  /** (h + 1 + d) * r == h * r + r + d * r. */
  lemma Distribute(h: nat, d: nat, r: nat)
    ensures (h + 1 + d) * r == h * r + r + d * r
  {
  }

  /** The white space parseInt skips: StrWhiteSpaceChar, that is the WhiteSpace characters (tab,
      vertical tab, form feed, space, no-break space, the byte-order mark and every other space
      separator) and the LineTerminator characters. */
  predicate IsWhiteSpace(c: char) {
    || c == '\t' || c == '\U{000B}' || c == '\U{000C}' || c == ' ' || c == '\U{00A0}' || c == '\U{FEFF}'
    || c == '\U{1680}' || '\U{2000}' <= c <= '\U{200A}' || c == '\U{202F}' || c == '\U{205F}' || c == '\U{3000}'
    || c == '\n' || c == '\r' || c == '\U{2028}' || c == '\U{2029}'
  }

  /** What is left after parseInt's leading white space: a suffix of `s` not starting with
      white space, everything before it white space. */
  function TrimStart(s: string): (t: string)
    ensures |t| <= |s| && t == s[|s| - |t|..]
    ensures forall i :: 0 <= i < |s| - |t| ==> IsWhiteSpace(s[i])
    ensures t == [] || !IsWhiteSpace(t[0])
  {
    if s != [] && IsWhiteSpace(s[0]) then TrimStart(s[1..]) else s
  }

  /** `parseInt(s)` with no radix: leading white space and one sign are skipped, a "0x" prefix
      selects hexadecimal, and the longest run of digits that follows is read; None stands for
      NaN (no digits). */
  function ParseInt(s: string): Option<int> {
    var t := TrimStart(s);
    var negative := |t| > 0 && t[0] == '-';
    var u := if |t| > 0 && (t[0] == '-' || t[0] == '+') then t[1..] else t;
    var hex := |u| >= 2 && u[0] == '0' && (u[1] == 'x' || u[1] == 'X');
    var radix := if hex then 16 else 10;
    var w := if hex then u[2..] else u;
    var digits := DigitPrefix(w, radix);
    if digits == [] then None
    else
      var magnitude: int := DigitsValue(digits, radix);
      Some(if negative then -magnitude else magnitude)
  }

  /** A string made only of decimal digits is its own digit prefix. */
  lemma {:induction false} AllDigitsPrefix(s: string)
    requires forall i :: 0 <= i < |s| ==> '0' <= s[i] <= '9'
    ensures DigitPrefix(s, 10) == s
  {
    if s != [] {
      AllDigitsPrefix(s[1..]);
    }
  }

  /** Decimal digit characters have their decimal value. */
  lemma DecimalDigit(c: char)
    requires '0' <= c <= '9'
    ensures DigitValue(c, 10) == Some((c as int) - ('0' as int))
  {
  }

  lemma DigitCharValue(d: nat)
    requires d < 10
    ensures DigitValue(DigitChar(d), 10) == Some(d)
  {
  }

  /** Every character of ToDecimal(n) is a decimal digit. */
  lemma DecimalDigits(n: nat)
    ensures forall i :: 0 <= i < |ToDecimal(n)| ==> DigitValue(ToDecimal(n)[i], 10).Some?
  {
    var s := ToDecimal(n);
    forall i | 0 <= i < |s| ensures DigitValue(s[i], 10).Some? {
      DecimalDigit(s[i]);
    }
  }

  /** The digits of ToDecimal(n) denote n. */
  lemma {:induction false} DecimalValue(n: nat)
    ensures forall i :: 0 <= i < |ToDecimal(n)| ==> DigitValue(ToDecimal(n)[i], 10).Some?
    ensures DigitsValue(ToDecimal(n), 10) == n
  {
    DecimalDigits(n);
    var s := ToDecimal(n);
    if n < 10 {
      DigitCharValue(n);
      assert s[..0] == [];
    } else {
      var q, d := n / 10, n % 10;
      DecimalValue(q);
      DigitCharValue(d);
      assert s == ToDecimal(q) + [DigitChar(d)];
      assert s[..|s| - 1] == ToDecimal(q);
      assert DigitsValue(s, 10) == DigitsValue(ToDecimal(q), 10) * 10 + d;
    }
  }

  /** Different numbers have different decimal texts. */
  lemma DecimalInjective()
    ensures forall i: nat, j: nat :: ToDecimal(i) == ToDecimal(j) ==> i == j
  {
    forall i: nat, j: nat | ToDecimal(i) == ToDecimal(j) ensures i == j {
      DecimalValue(i);
      DecimalValue(j);
    }
  }

  /** parseInt reads back what toString wrote: parseInt(String(n)) == n. */
  lemma ParseDecimal(n: nat)
    ensures ParseInt(ToDecimal(n)) == Some(n)
  {
    ParseDigits(ToDecimal(n));
    DecimalValue(n);
  }

  /** parseInt of a non-empty decimal numeral without a leading zero is the value of its digits. */
  lemma ParseDigits(s: string)
    requires |s| >= 1 && forall i :: 0 <= i < |s| ==> '0' <= s[i] <= '9'
    requires s[0] == '0' ==> |s| == 1
    ensures forall i :: 0 <= i < |s| ==> DigitValue(s[i], 10).Some?
    ensures ParseInt(s) == Some(DigitsValue(s, 10))
  {
    assert !IsWhiteSpace(s[0]);
    var t := TrimStart(s);
    assert t == s;
    assert !(|t| > 0 && (t[0] == '-' || t[0] == '+'));
    assert !(|t| >= 2 && t[0] == '0');
    AllDigitsPrefix(s);
    assert DigitPrefix(t, 10) == s;
  }
}
