/** The conventional optional value, standing in for JavaScript's null/undefined and NaN. */
module Optional {
  datatype Option<+T> = None | Some(value: T)
}

/**
 * The JavaScript string primitives the catalog relies on: String.prototype.trim,
 * String.prototype.toLowerCase, String.prototype.includes, and the Number()
 * conversion that isNaN and the relational operators apply to a string.
 */
module JsText {
  import opened Optional

  /** The code points JavaScript's trim() and Number() strip: WhiteSpace and LineTerminator. */
  predicate IsJsSpace(c: char) {
    || c == '\t' || c == '\n' || c == '\U{B}' || c == '\U{C}' || c == '\r' || c == ' '
    || c == '\U{A0}' || c == '\U{1680}' || ('\U{2000}' <= c <= '\U{200A}')
    || c == '\U{2028}' || c == '\U{2029}' || c == '\U{202F}' || c == '\U{205F}'
    || c == '\U{3000}' || c == '\U{FEFF}'
  }

  /** A string made only of white space (the empty string included). */
  predicate IsBlank(s: string) {
    forall i :: 0 <= i < |s| ==> IsJsSpace(s[i])
  }

  /** Drops the leading white space. */
  function TrimStart(s: string): string {
    if s != [] && IsJsSpace(s[0]) then TrimStart(s[1..]) else s
  }

  /** Drops the trailing white space. */
  function TrimEnd(s: string): string {
    if s != [] && IsJsSpace(s[|s| - 1]) then TrimEnd(s[..|s| - 1]) else s
  }

  /**
   * String.prototype.trim: the result is empty exactly when the string is blank, is never
   * longer than the string, and is the string itself when it neither starts nor ends with
   * white space.
   */
  function Trim(s: string): (r: string)
    ensures |r| <= |s|
    ensures r == [] <==> IsBlank(s)
    ensures s != [] && !IsJsSpace(s[0]) && !IsJsSpace(s[|s| - 1]) ==> r == s
  {
    TrimBothShape(s);
    TrimEnd(TrimStart(s))
  }

  /** trimStart() leaves a suffix of `s` that starts with a non-space, after a blank prefix. */
  lemma {:induction false} TrimStartShape(s: string)
    ensures var r := TrimStart(s);
      && |r| <= |s| && r == s[|s| - |r|..]
      && IsBlank(s[..|s| - |r|])
      && (r != [] ==> !IsJsSpace(r[0]))
  {
    if s != [] && IsJsSpace(s[0]) {
      TrimStartShape(s[1..]);
      var r := TrimStart(s[1..]);
      assert s[..|s| - |r|] == [s[0]] + s[1..][..|s| - 1 - |r|];
    }
  }

  /** trimEnd() leaves a prefix of `s` that ends with a non-space, before a blank suffix. */
  lemma {:induction false} TrimEndShape(s: string)
    ensures var r := TrimEnd(s);
      && |r| <= |s| && r == s[..|r|]
      && IsBlank(s[|r|..])
      && (r != [] ==> !IsJsSpace(r[|r| - 1]))
  {
    if s != [] && IsJsSpace(s[|s| - 1]) {
      TrimEndShape(s[..|s| - 1]);
      var r := TrimEnd(s[..|s| - 1]);
      assert s[|r|..] == s[..|s| - 1][|r|..] + [s[|s| - 1]];
    }
  }

  /** Trimming both ends never lengthens, and leaves nothing exactly when everything was white space. */
  lemma TrimBothShape(s: string)
    ensures |TrimEnd(TrimStart(s))| <= |s|
    ensures TrimEnd(TrimStart(s)) == [] <==> IsBlank(s)
  {
    var t := TrimStart(s);
    TrimStartShape(s);
    TrimEndShape(t);
    if TrimEnd(t) == [] {
      assert t[0..] == t;
      assert s == s[..|s| - |t|] + t;
    }
  }

  /** The ASCII case mapping of toLowerCase. */
  function LowerChar(c: char): char {
    if 'A' <= c <= 'Z' then (c as int + 32) as char else c
  }

  /** String.prototype.toLowerCase, for the ASCII letters: each character mapped on its own. */
  function ToLower(s: string): (r: string)
    ensures |r| == |s|
    ensures forall i :: 0 <= i < |s| ==> r[i] == LowerChar(s[i])
  {
    if s == [] then [] else [LowerChar(s[0])] + ToLower(s[1..])
  }

  /** Lower-casing a second time changes nothing. */
  lemma ToLowerIdempotent(s: string)
    ensures ToLower(ToLower(s)) == ToLower(s)
  {
    var once := ToLower(s);
    assert forall i :: 0 <= i < |s| ==> ToLower(once)[i] == once[i];
  }

  /** `t` occurs in `s` starting at index `i`. */
  predicate OccursAt(s: string, t: string, i: nat) {
    i + |t| <= |s| && s[i..i + |t|] == t
  }

  /** `t` occurs somewhere in `s`. */
  ghost predicate Occurs(s: string, t: string) {
    exists i: nat :: OccursAt(s, t, i)
  }

  /** The search `includes` performs: `t` is a prefix of `s` or of one of its suffixes. */
  function PrefixOfSuffix(s: string, t: string): bool {
    t <= s || (s != [] && PrefixOfSuffix(s[1..], t))
  }

  /** The search finds `t` exactly when `t` occurs somewhere in `s`. */
  lemma {:induction false} PrefixOfSuffixIffOccurs(s: string, t: string)
    ensures PrefixOfSuffix(s, t) <==> Occurs(s, t)
  {
    if t <= s {
      assert OccursAt(s, t, 0);
    } else if s == [] {
      assert forall i: nat :: !OccursAt(s, t, i);
    } else {
      PrefixOfSuffixIffOccurs(s[1..], t);
      if PrefixOfSuffix(s[1..], t) {
        var i: nat :| OccursAt(s[1..], t, i);
        assert s[i + 1..i + 1 + |t|] == s[1..][i..i + |t|];
        assert OccursAt(s, t, i + 1);
      } else {
        forall i: nat | OccursAt(s, t, i)
          ensures false
        {
          if i != 0 {
            var j: nat := i - 1;
            assert s[1..][j..j + |t|] == s[j + 1..j + 1 + |t|];
            assert OccursAt(s[1..], t, j);
          }
        }
      }
    }
  }

  /** String.prototype.includes: true exactly when `t` occurs somewhere in `s`. */
  function Includes(s: string, t: string): (r: bool)
    ensures r <==> Occurs(s, t)
  {
    PrefixOfSuffixIffOccurs(s, t);
    PrefixOfSuffix(s, t)
  }

  /** Every string includes the empty string. */
  lemma IncludesEmpty(s: string)
    ensures Includes(s, [])
  {
    assert OccursAt(s, [], 0);
  }

  predicate IsDigit(c: char) {
    '0' <= c <= '9'
  }

  predicate AllDigits(s: string) {
    forall i :: 0 <= i < |s| ==> IsDigit(s[i])
  }

  /** The decimal value of a string of digits, most significant digit first. */
  function DigitsValue(s: string): nat
    requires AllDigits(s)
  {
    if s == [] then 0 else DigitsValue(s[..|s| - 1]) * 10 + (s[|s| - 1] as int - '0' as int)
  }

  function Pow10(n: nat): nat {
    if n == 0 then 1 else 10 * Pow10(n - 1)
  }

  /** A string of `n` digits denotes a number below 10^n. */
  lemma {:induction false} DigitsValueBound(s: string)
    requires AllDigits(s)
    ensures DigitsValue(s) < Pow10(|s|)
  {
    if s != [] {
      DigitsValueBound(s[..|s| - 1]);
    }
  }

  /**
   * Number(s) for a string: surrounding white space is ignored, a blank string is 0,
   * and an optionally signed run of decimal digits is its value; every other string
   * is NaN (None). Fractions, exponents, hexadecimal and Infinity are not modelled.
   */
  function ToNumber(s: string): (r: Option<int>)
    ensures IsBlank(s) ==> r == Some(0)
    ensures s != [] && AllDigits(s) ==> r == Some(DigitsValue(s))
  {
    var t := Trim(s);
    if t == [] then Some(0)
    else if (t[0] == '-' || t[0] == '+') && |t| > 1 && AllDigits(t[1..]) then
      var magnitude: int := DigitsValue(t[1..]);
      Some(if t[0] == '-' then -magnitude else magnitude)
    else if AllDigits(t) then Some(DigitsValue(t))
    else None
  }

  /** isNaN(s) for a string: never true of a run of digits or of blank text. */
  predicate IsNaN(s: string)
    ensures AllDigits(s) ==> !IsNaN(s)
    ensures IsBlank(s) ==> !IsNaN(s)
  {
    ToNumber(s).None?
  }

  /** The character of a decimal digit. */
  function DigitChar(d: nat): char
    requires d < 10
  {
    ('0' as int + d) as char
  }

  /** String(n) for a natural number: its decimal numeral, without leading zeros. */
  function Decimal(n: nat): (s: string)
    ensures s != [] && AllDigits(s)
  {
    if n < 10 then [DigitChar(n)] else Decimal(n / 10) + [DigitChar(n % 10)]
  }

  /** The digits of the numeral of `n` denote `n`. */
  lemma {:induction false} DecimalValue(n: nat)
    ensures DigitsValue(Decimal(n)) == n
  {
    if n >= 10 {
      DecimalValue(n / 10);
      var s := Decimal(n);
      assert s[..|s| - 1] == Decimal(n / 10);
    }
  }

  /** Number() reads back the numeral of every integer, with or without a minus sign. */
  lemma NumberOfDecimal(n: nat)
    ensures ToNumber(Decimal(n)) == Some(n)
    ensures ToNumber("-" + Decimal(n)) == Some(-(n as int))
  {
    DecimalValue(n);
    var neg := "-" + Decimal(n);
    assert Trim(neg) == neg;
    assert neg[1..] == Decimal(n);
  }

  /**
   * A string of at most four characters that Number() reads as an optionally signed
   * integer lies in [-999, 9999].
   */
  lemma ShortNumberRange(s: string)
    requires |s| <= 4 && !IsNaN(s)
    ensures -999 <= ToNumber(s).value <= 9999
  {
    var t := Trim(s);
    if t != [] && (t[0] == '-' || t[0] == '+') && |t| > 1 && AllDigits(t[1..]) {
      DigitsBelow(t[1..], 3);
    } else if t != [] {
      DigitsBelow(t, 4);
    }
  }

  /** A string of at most `n` digits denotes a number below 10^n, for n up to four. */
  lemma DigitsBelow(x: string, n: nat)
    requires AllDigits(x) && |x| <= n <= 4
    ensures DigitsValue(x) < Pow10(n)
  {
    DigitsValueBound(x);
    PowMonotone(|x|, n);
  }

  lemma {:induction false} PowMonotone(m: nat, n: nat)
    requires m <= n
    ensures Pow10(m) <= Pow10(n)
  {
    if m < n {
      PowMonotone(m, n - 1);
    }
  }
}
