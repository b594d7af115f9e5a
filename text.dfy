/**
 * String operations of JavaScript that the controllers rely on: the white-space set used by
 * `String.prototype.trim` and by the `\s` class of regular expressions, `trim`, case mapping,
 * `Array.prototype.join`, the decimal rendering of a non-negative integer (`${n}`) and
 * `parseInt` with no radix.
 */
module Text {
  import opened Wrappers

  /** JavaScript white space and line terminators (the `\s` class; what `trim` removes). */
  predicate IsSpace(c: char) {
    || c == ' ' || c == '\t' || c == '\n' || c == '\U{000B}' || c == '\U{000C}' || c == '\r'
    || c == '\U{00A0}' || c == '\U{1680}' || ('\U{2000}' <= c <= '\U{200A}')
    || c == '\U{2028}' || c == '\U{2029}' || c == '\U{202F}' || c == '\U{205F}'
    || c == '\U{3000}' || c == '\U{FEFF}'
  }

  /** Every character is white space ("" included). */
  predicate IsBlank(s: string) {
    forall i :: 0 <= i < |s| ==> IsSpace(s[i])
  }

  /** `trimStart`: the suffix left after dropping the leading white space. */
  function TrimStart(s: string): (r: string)
    ensures |r| <= |s| && r == s[|s| - |r|..]
    ensures IsBlank(s[..|s| - |r|])
    ensures r != [] ==> !IsSpace(r[0])
  {
    if |s| > 0 && IsSpace(s[0]) then
      var r := TrimStart(s[1..]);
      assert s[1..][|s| - 1 - |r|..] == s[|s| - |r|..];
      BlankCons(s[0], s[1..][..|s| - 1 - |r|]);
      assert s[..|s| - |r|] == [s[0]] + s[1..][..|s| - 1 - |r|];
      r
    else
      s
  }

  /** `trimEnd`: the prefix left after dropping the trailing white space. */
  function TrimEnd(s: string): (r: string)
    ensures |r| <= |s| && r == s[..|r|]
    ensures IsBlank(s[|r|..])
    ensures r != [] ==> !IsSpace(r[|r| - 1])
  {
    if |s| > 0 && IsSpace(s[|s| - 1]) then
      var r := TrimEnd(s[..|s| - 1]);
      assert s[..|s| - 1][..|r|] == s[..|r|];
      BlankSnoc(s[..|s| - 1][|r|..], s[|s| - 1]);
      assert s[|r|..] == s[..|s| - 1][|r|..] + [s[|s| - 1]];
      r
    else
      s
  }

  lemma BlankCons(c: char, t: string)
    requires IsSpace(c) && IsBlank(t)
    ensures IsBlank([c] + t)
  {
    assert forall i :: 1 <= i < |t| + 1 ==> ([c] + t)[i] == t[i - 1];
  }

  lemma BlankSnoc(t: string, c: char)
    requires IsBlank(t) && IsSpace(c)
    ensures IsBlank(t + [c])
  {
    assert forall i :: 0 <= i < |t| ==> (t + [c])[i] == t[i];
  }

  /** `String.prototype.trim`. */
  function Trim(s: string): (r: string)
    ensures |r| <= |s|
    ensures r != [] ==> !IsSpace(r[0]) && !IsSpace(r[|r| - 1])
    ensures r == [] <==> IsBlank(s)
  {
    var t := TrimStart(s);
    var r := TrimEnd(t);
    assert r != [] ==> r[0] == t[0];
    assert r == [] ==> t[|r|..] == t;
    assert t != [] ==> t[0] == s[|s| - |t|];
    assert t == [] ==> s[..|s| - |t|] == s;
    r
  }

  lemma {:induction false} TrimStartSkipsBlank(pre: string, x: string)
    requires IsBlank(pre)
    ensures TrimStart(pre + x) == TrimStart(x)
  {
    if pre != [] {
      assert (pre + x)[1..] == pre[1..] + x;
      TrimStartSkipsBlank(pre[1..], x);
    } else {
      assert pre + x == x;
    }
  }

  lemma {:induction false} TrimEndSkipsBlank(x: string, post: string)
    requires IsBlank(post)
    ensures TrimEnd(x + post) == TrimEnd(x)
  {
    if post != [] {
      var p := post[..|post| - 1];
      assert (x + post)[..|x + post| - 1] == x + p;
      TrimEndSkipsBlank(x, p);
    } else {
      assert x + post == x;
    }
  }

  lemma {:induction false} TrimStartOfAppend(s: string, t: string)
    requires !IsBlank(s)
    ensures TrimStart(s + t) == TrimStart(s) + t
  {
    if IsSpace(s[0]) {
      assert (s + t)[1..] == s[1..] + t;
      assert !IsBlank(s[1..]) by {
        var i :| 0 <= i < |s| && !IsSpace(s[i]);
        assert s[1..][i - 1] == s[i];
      }
      TrimStartOfAppend(s[1..], t);
    }
  }

  /** Surrounding white space never changes what `trim` gives. */
  lemma TrimIgnoresPadding(pre: string, s: string, post: string)
    requires IsBlank(pre) && IsBlank(post)
    ensures Trim(pre + s + post) == Trim(s)
  {
    assert pre + s + post == pre + (s + post);
    TrimStartSkipsBlank(pre, s + post);
    if IsBlank(s) {
      TrimStartSkipsBlank(s, post);
      TrimStartSkipsBlank(post, []);
      assert post + [] == post;
    } else {
      TrimStartOfAppend(s, post);
      TrimEndSkipsBlank(TrimStart(s), post);
    }
  }

  /** Trimming twice is trimming once. */
  lemma TrimIdempotent(s: string)
    ensures Trim(Trim(s)) == Trim(s)
  {
  }

  /** ASCII case mapping of `toLowerCase`. */
  function LowerChar(c: char): char {
    if 'A' <= c <= 'Z' then (c as int + 32) as char else c
  }

  /** ASCII case mapping of `toUpperCase`. */
  function UpperChar(c: char): char {
    if 'a' <= c <= 'z' then (c as int - 32) as char else c
  }

  function ToLower(s: string): string {
    seq(|s|, i requires 0 <= i < |s| => LowerChar(s[i]))
  }

  function ToUpper(s: string): string {
    seq(|s|, i requires 0 <= i < |s| => UpperChar(s[i]))
  }

  /** An upper-cased string has no lower-case ASCII letter and upper-casing it again changes nothing. */
  lemma UpperIsCanonical(s: string)
    ensures |ToUpper(s)| == |s|
    ensures forall i :: 0 <= i < |s| ==> !('a' <= ToUpper(s)[i] <= 'z')
    ensures ToUpper(ToUpper(s)) == ToUpper(s)
  {
  }

  /** Upper-casing leaves white space white space and everything else not. */
  lemma UpperKeepsSpace(c: char)
    ensures IsSpace(UpperChar(c)) <==> IsSpace(c)
  {
  }

  lemma {:induction false} TrimStartOfUpper(s: string)
    ensures TrimStart(ToUpper(s)) == ToUpper(TrimStart(s))
  {
    var u := ToUpper(s);
    if |s| > 0 {
      assert u[0] == UpperChar(s[0]);
      UpperKeepsSpace(s[0]);
      if IsSpace(s[0]) {
        assert u[1..] == ToUpper(s[1..]);
        TrimStartOfUpper(s[1..]);
        assert TrimStart(u) == TrimStart(u[1..]);
      } else {
        assert TrimStart(u) == u;
      }
    }
  }

  lemma {:induction false} TrimEndOfUpper(s: string)
    ensures TrimEnd(ToUpper(s)) == ToUpper(TrimEnd(s))
  {
    var u := ToUpper(s);
    if |s| > 0 {
      assert u[|s| - 1] == UpperChar(s[|s| - 1]);
      UpperKeepsSpace(s[|s| - 1]);
      if IsSpace(s[|s| - 1]) {
        assert u[..|s| - 1] == ToUpper(s[..|s| - 1]);
        TrimEndOfUpper(s[..|s| - 1]);
        assert TrimEnd(u) == TrimEnd(u[..|s| - 1]);
      } else {
        assert TrimEnd(u) == u;
      }
    }
  }

  /** The form in which answers are compared: `x.trim().toLowerCase()`. */
  function NormalizeAnswer(s: string): string {
    ToLower(Trim(s))
  }

  /** The answer check of every submit handler: trimmed, lower-cased equality. */
  predicate AnswersMatch(stored: string, given: string) {
    NormalizeAnswer(stored) == NormalizeAnswer(given)
  }

  /**
   * The check ignores case and surrounding white space: the stored answer in upper case,
   * padded with any white space, is accepted.
   */
  lemma AnswerIgnoresCaseAndPadding(stored: string, pre: string, post: string)
    requires IsBlank(pre) && IsBlank(post)
    ensures AnswersMatch(stored, pre + ToUpper(stored) + post)
  {
    TrimIgnoresPadding(pre, ToUpper(stored), post);
    TrimOfUpper(stored);
    LowerOfUpper(Trim(stored));
  }

  lemma TrimOfUpper(s: string)
    ensures Trim(ToUpper(s)) == ToUpper(Trim(s))
  {
    TrimStartOfUpper(s);
    TrimEndOfUpper(TrimStart(s));
  }

  lemma LowerOfUpper(s: string)
    ensures ToLower(ToUpper(s)) == ToLower(s)
  {
    var a, b := ToLower(ToUpper(s)), ToLower(s);
    assert |a| == |b|;
    forall i | 0 <= i < |a| ensures a[i] == b[i] {
      assert ToUpper(s)[i] == UpperChar(s[i]);
    }
  }

  /** `parts.join(sep)`. */
  function Join(parts: seq<string>, sep: string): string {
    if |parts| == 0 then ""
    else if |parts| == 1 then parts[0]
    else parts[0] + sep + Join(parts[1..], sep)
  }

  function DigitChar(d: nat): char
    requires d < 10
  {
    "0123456789"[d]
  }

  /** `${n}` for a non-negative integer: its shortest decimal spelling. */
  function Decimal(n: nat): (r: string)
    ensures r != [] && forall i :: 0 <= i < |r| ==> '0' <= r[i] <= '9'
    ensures (r[0] == '0') <==> n == 0
  {
    if n < 10 then [DigitChar(n)] else Decimal(n / 10) + [DigitChar(n % 10)]
  }

  /** The value of a digit in base `radix` (10 or 16), or -1. */
  function DigitValue(c: char, radix: nat): int {
    if '0' <= c <= '9' then c as int - '0' as int
    else if radix == 16 && 'a' <= c <= 'f' then c as int - 'a' as int + 10
    else if radix == 16 && 'A' <= c <= 'F' then c as int - 'A' as int + 10
    else -1
  }

  /** Length of the longest prefix of `s` made of digits of base `radix`. */
  function DigitRun(s: string, radix: nat): (n: nat)
    ensures n <= |s|
    ensures forall i :: 0 <= i < n ==> DigitValue(s[i], radix) >= 0
    ensures n < |s| ==> DigitValue(s[n], radix) < 0
  {
    if s != [] && DigitValue(s[0], radix) >= 0 then 1 + DigitRun(s[1..], radix) else 0
  }

  /** The value of a run of digits, most significant first. */
  function DigitsValue(s: string, radix: nat): nat
    requires forall i :: 0 <= i < |s| ==> DigitValue(s[i], radix) >= 0
  {
    if s == [] then 0
    else DigitsValue(s[..|s| - 1], radix) * radix + DigitValue(s[|s| - 1], radix) as nat
  }

  /** The digits after the sign: base 16 after a `0x`/`0X` prefix, base 10 otherwise. */
  function ParseUnsigned(u: string): Option<int> {
    var hex := |u| >= 2 && u[0] == '0' && (u[1] == 'x' || u[1] == 'X');
    var radix := if hex then 16 else 10;
    var digits := if hex then u[2..] else u;
    var n := DigitRun(digits, radix);
    if n == 0 then None else Some(DigitsValue(digits[..n], radix))
  }

  /**
   * `parseInt(s)` with no radix: leading white space is skipped, an optional sign is read,
   * and the longest run of digits after it is the value; no digit at all is `NaN`, here `None`.
   */
  function ParseInt(s: string): Option<int> {
    var t := TrimStart(s);
    if t != [] && t[0] == '-' then
      match ParseUnsigned(t[1..])
      case None => None
      case Some(v) => Some(-v)
    else if t != [] && t[0] == '+' then ParseUnsigned(t[1..])
    else ParseUnsigned(t)
  }

  lemma {:induction false} DecimalDigitsValue(n: nat)
    ensures DigitRun(Decimal(n), 10) == |Decimal(n)|
    ensures DigitsValue(Decimal(n), 10) == n
  {
    var d := Decimal(n);
    if n < 10 {
      DigitCharValue(n);
      assert d[..0] == [];
    } else {
      DecimalDigitsValue(n / 10);
      DigitCharValue(n % 10);
      assert d[..|d| - 1] == Decimal(n / 10);
      assert d[|d| - 1] == DigitChar(n % 10);
      assert DigitsValue(d, 10) == (n / 10) * 10 + n % 10;
      DigitRunAll(d, 10);
    }
  }

  lemma DigitCharValue(k: nat)
    requires k < 10
    ensures DigitValue(DigitChar(k), 10) == k
  {
  }

  lemma {:induction false} DigitRunAll(s: string, radix: nat)
    requires forall i :: 0 <= i < |s| ==> DigitValue(s[i], radix) >= 0
    ensures DigitRun(s, radix) == |s|
  {
    if s != [] {
      DigitRunAll(s[1..], radix);
    }
  }

  /** `parseInt` reads back what `${n}` writes. */
  lemma ParseIntOfDecimal(n: nat)
    ensures ParseInt(Decimal(n)) == Some(n)
  {
    var d := Decimal(n);
    assert '0' <= d[0] <= '9';
    assert TrimStart(d) == d by {
      assert !IsSpace(d[0]);
    }
    assert d[0] != '-' && d[0] != '+';
    ParseUnsignedDecimal(n);
  }

  lemma ParseUnsignedDecimal(n: nat)
    ensures ParseUnsigned(Decimal(n)) == Some(n)
  {
    var d := Decimal(n);
    DecimalDigitsValue(n);
    assert !(|d| >= 2 && d[0] == '0') by {
      if n == 0 { assert d == "0"; }
    }
    assert d[..|d|] == d;
  }
}
