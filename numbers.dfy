/** Python's `int(text, base)` for the two bases the source uses: decimal
    (`int(st)`, `int(r)`) and binary (`int(s, 2)`). */
module Numbers {
  import opened Common
  import opened Text

  predicate IsDigitOf(c: char, base: nat)
    requires base == 2 || base == 10
  {
    IsDigit(c) && (base == 10 || c <= '1')
  }

  function DigitValue(c: char): nat
    requires IsDigit(c)
  {
    c as int - '0' as int
  }

  function DigitChar(d: nat): (c: char)
    requires d < 10
    ensures IsDigit(c) && DigitValue(c) == d
  {
    ('0' as int + d) as char
  }

  /** Value of a string of digits, most significant first. */
  function ValueOf(ds: string, base: nat): nat
    requires base == 2 || base == 10
    requires forall k :: 0 <= k < |ds| ==> IsDigitOf(ds[k], base)
  {
    if ds == [] then 0
    else
      assert IsDigitOf(ds[|ds| - 1], base);
      ValueOf(ds[..|ds| - 1], base) * base + DigitValue(ds[|ds| - 1])
  }

  /** Digits separated by single underscores, as Python's `int()` accepts
      them; after a `0b` prefix one leading underscore is allowed too. */
  predicate IsGrouped(s: string, base: nat, leadUnderscore: bool)
    requires base == 2 || base == 10
  {
    && |s| > 0
    && IsDigitOf(s[|s| - 1], base)
    && (forall k :: 0 <= k < |s| ==> IsDigitOf(s[k], base) || s[k] == '_')
    && (forall k :: 0 <= k < |s| - 1 ==> s[k] == '_' ==> s[k + 1] != '_')
    && (leadUnderscore || s[0] != '_')
  }

  /** `int(s, base)`; `None` stands for the `ValueError` Python raises. */
  function ParseInt(s: string, base: nat): (r: Option<int>)
    requires base == 2 || base == 10
  {
    ParseSigned(Strip(s), base)
  }

  /** `int()` after surrounding whitespace is gone: an optional sign, then
      the unsigned part. */
  function ParseSigned(t: string, base: nat): (r: Option<int>)
    requires base == 2 || base == 10
  {
    if |t| > 0 && (t[0] == '-' || t[0] == '+') then
      match ParseUnsigned(t[1..], base)
      case Some(v) => var w: int := v; Some(if t[0] == '-' then -w else w)
      case None => None
    else
      match ParseUnsigned(t, base)
      case Some(v) => Some(v)
      case None => None
  }

  /** The unsigned part of `int(s, base)`: an optional `0b`/`0B` prefix in
      base 2, then underscore-grouped digits. */
  function ParseUnsigned(body: string, base: nat): (r: Option<nat>)
    requires base == 2 || base == 10
  {
    var prefixed := base == 2 && |body| >= 2 && body[0] == '0' && (body[1] == 'b' || body[1] == 'B');
    var digits := if prefixed then body[2..] else body;
    if IsGrouped(digits, base, prefixed) then
      var plain := ReplaceAll(digits, "_", "");
      assert forall k :: 0 <= k < |plain| ==> IsDigitOf(plain[k], base) by {
        forall k | 0 <= k < |plain| ensures IsDigitOf(plain[k], base) {
          assert plain[k] in plain;
        }
      }
      Some(ValueOf(plain, base))
    else None
  }

  /** The canonical digits of `n`: no sign, no underscores, no leading zero. */
  function ShowNat(n: nat, base: nat): (s: string)
    requires base == 2 || base == 10
    ensures |s| > 0
    ensures forall k :: 0 <= k < |s| ==> IsDigitOf(s[k], base)
  {
    if n < base then [DigitChar(n)]
    else ShowNat(n / base, base) + [DigitChar(n % base)]
  }

  lemma {:induction false} ValueOfShowNat(n: nat, base: nat)
    requires base == 2 || base == 10
    ensures ValueOf(ShowNat(n, base), base) == n
  {
    if n >= base {
      var s := ShowNat(n, base);
      assert s[..|s| - 1] == ShowNat(n / base, base);
      ValueOfShowNat(n / base, base);
    }
  }

  /** The digits of `s` are read as they are: no underscore to remove. */
  lemma GroupedPlain(s: string, base: nat)
    requires base == 2 || base == 10
    requires |s| > 0 && forall k :: 0 <= k < |s| ==> IsDigitOf(s[k], base)
    ensures IsGrouped(s, base, false)
    ensures ReplaceAll(s, "_", "") == s
  {
    ReplaceAllAbsent(s, '_', "");
  }

  lemma ParseUnsignedShowNat(n: nat, base: nat)
    requires base == 2 || base == 10
    ensures ParseUnsigned(ShowNat(n, base), base) == Some(n)
  {
    ParseUnsignedDigits(ShowNat(n, base), base);
    ValueOfShowNat(n, base);
  }

  /** A plain run of digits is read as its value. */
  lemma ParseUnsignedDigits(s: string, base: nat)
    requires base == 2 || base == 10
    requires |s| > 0 && forall k :: 0 <= k < |s| ==> IsDigitOf(s[k], base)
    ensures ParseUnsigned(s, base) == Some(ValueOf(s, base))
  {
    NotPrefixed(s, base);
    GroupedPlain(s, base);
  }

  /** A run of digits has no `0b` prefix. */
  lemma NotPrefixed(s: string, base: nat)
    requires base == 2 || base == 10
    requires forall k :: 0 <= k < |s| ==> IsDigitOf(s[k], base)
    ensures !(base == 2 && |s| >= 2 && s[0] == '0' && (s[1] == 'b' || s[1] == 'B'))
  {
    if base == 2 && |s| >= 2 {
      assert IsDigitOf(s[1], base);
    }
  }

  /** Python reads back the digits `str(n)` prints (for base 2, `bin(n)`
      without its `0b`). */
  lemma ParseShowNat(n: nat, base: nat)
    requires base == 2 || base == 10
    ensures ParseInt(ShowNat(n, base), base) == Some(n)
  {
    var s := ShowNat(n, base);
    assert IsDigitOf(s[0], base) && IsDigitOf(s[|s| - 1], base);
    StripByUnchanged(s, IsSpace);
    ParseUnsignedShowNat(n, base);
    ParseSignedUnsigned(s, n, base);
  }

  lemma ParseSignedUnsigned(t: string, n: nat, base: nat)
    requires base == 2 || base == 10
    requires |t| > 0 && t[0] != '-' && t[0] != '+' && ParseUnsigned(t, base) == Some(n)
    ensures ParseSigned(t, base) == Some(n)
  {
  }

  lemma ParseSignedMinus(t: string, n: nat, base: nat)
    requires base == 2 || base == 10
    requires |t| > 0 && t[0] == '-' && ParseUnsigned(t[1..], base) == Some(n)
    ensures ParseSigned(t, base) == Some(-(n as int))
  {
  }

  /** ... and with a minus sign in front, the negated number. */
  lemma ParseShowNegative(n: nat, base: nat)
    requires base == 2 || base == 10
    ensures ParseInt("-" + ShowNat(n, base), base) == Some(-(n as int))
  {
    var s := ShowNat(n, base);
    var t := "-" + s;
    assert t[1..] == s;
    assert IsDigitOf(s[|s| - 1], base) && t[|t| - 1] == s[|s| - 1];
    StripByUnchanged(t, IsSpace);
    ParseUnsignedShowNat(n, base);
    ParseSignedMinus(t, n, base);
  }

  /** Without a minus sign `int()` yields no negative number. */
  lemma ParseIntNonNegative(s: string, base: nat)
    requires base == 2 || base == 10
    requires '-' !in s
    ensures ParseInt(s, base).Some? ==> ParseInt(s, base).value >= 0
  {
    var t := Strip(s);
    assert |t| > 0 ==> t[0] in t;
  }
}
