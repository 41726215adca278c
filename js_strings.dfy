/**
 * The JavaScript string built-ins the archive's services use, on strings as
 * sequences of Unicode scalar values (Dafny's `char`): white space as `\s` and `trim()` see it,
 * `trim()`, `indexOf`, the first two fields of `split`, `padStart`,
 * `slice(-n)`, `parseInt` without a radix, and `String(n)` for integers.
 * JavaScript counts a character outside the Basic Multilingual Plane as two UTF-16
 * code units; here it is one character.
 */
module JsStrings {
  import opened Wrappers

  /** The white space of ECMAScript's WhiteSpace and LineTerminator productions:
      tab, line feed, vertical tab, form feed, carriage return, the Unicode space
      separators, the line and paragraph separators and the byte-order mark. */
  predicate IsSpace(c: char) {
    || c == ' '
    || '\t' <= c <= '\r'
    || c == '\U{00A0}'
    || c == '\U{1680}'
    || '\U{2000}' <= c <= '\U{200A}'
    || c == '\U{2028}'
    || c == '\U{2029}'
    || c == '\U{202F}'
    || c == '\U{205F}'
    || c == '\U{3000}'
    || c == '\U{FEFF}'
  }

  predicate AllSpace(s: string) {
    forall i :: 0 <= i < |s| ==> IsSpace(s[i])
  }

  /** Neither the first nor the last character is white space. */
  predicate NoOuterSpace(s: string) {
    |s| > 0 ==> !IsSpace(s[0]) && !IsSpace(s[|s| - 1])
  }

  /** The first index at or after `i` that does not hold white space. */
  function SkipSpace(s: string, i: nat): (j: nat)
    requires i <= |s|
    ensures i <= j <= |s| && AllSpace(s[i..j])
    ensures j < |s| ==> !IsSpace(s[j])
    decreases |s| - i
  {
    if i < |s| && IsSpace(s[i]) then SkipSpace(s, i + 1) else i
  }

  /** The least `k` in `[lo, j]` such that `s[k..j]` is all white space. */
  function SkipSpaceBack(s: string, lo: nat, j: nat): (k: nat)
    requires lo <= j <= |s|
    ensures lo <= k <= j && AllSpace(s[k..j])
    ensures lo < k ==> !IsSpace(s[k - 1])
    decreases j
  {
    if lo < j && IsSpace(s[j - 1]) then
      var k := SkipSpaceBack(s, lo, j - 1);
      assert s[k..j] == s[k..j - 1] + [s[j - 1]];
      AllSpaceConcat(s[k..j - 1], [s[j - 1]]);
      k
    else j
  }

  lemma AllSpaceConcat(a: string, b: string)
    requires AllSpace(a) && AllSpace(b)
    ensures AllSpace(a + b)
  {
    forall i | 0 <= i < |a + b| ensures IsSpace((a + b)[i]) {
      if i >= |a| { assert (a + b)[i] == b[i - |a|]; }
    }
  }

  /** `s.trim()`: the infix left after removing white space at both ends. */
  function Trim(s: string): (r: string)
    ensures NoOuterSpace(r)
  {
    var i := SkipSpace(s, 0);
    s[i..SkipSpaceBack(s, i, |s|)]
  }

  /** What `trim()` removes is white space: the result is the infix `s[i..j]` with only
      white space before `i` and after `j`. */
  lemma TrimInfix(s: string) returns (i: nat, j: nat)
    ensures i <= j <= |s| && Trim(s) == s[i..j]
    ensures AllSpace(s[..i]) && AllSpace(s[j..])
  {
    i := SkipSpace(s, 0);
    j := SkipSpaceBack(s, i, |s|);
    assert s[..i] == s[0..i] && s[j..] == s[j..|s|];
  }

  /** Trimming is determined by its contract: any white-space-only prefix and suffix
      that leave an infix without outer white space are exactly what `trim()` removes. */
  lemma TrimUnique(s: string, i: nat, j: nat)
    requires i <= j <= |s|
    requires AllSpace(s[..i]) && AllSpace(s[j..]) && NoOuterSpace(s[i..j])
    ensures Trim(s) == s[i..j]
  {
    var a := SkipSpace(s, 0);
    var b := SkipSpaceBack(s, a, |s|);
    if i < j {
      assert s[i] == s[i..j][0];
      assert forall t :: 0 <= t < i ==> IsSpace(s[t]) by {
        forall t | 0 <= t < i ensures IsSpace(s[t]) { assert s[t] == s[..i][t]; }
      }
      assert a == i;
      assert s[j - 1] == s[i..j][j - i - 1];
      assert forall t :: j <= t < |s| ==> IsSpace(s[t]) by {
        forall t | j <= t < |s| ensures IsSpace(s[t]) { assert s[t] == s[j..][t - j]; }
      }
      assert forall t :: b <= t < |s| ==> IsSpace(s[t]) by {
        forall t | b <= t < |s| ensures IsSpace(s[t]) { assert s[t] == s[b..|s|][t - b]; }
      }
      assert b == j;
    } else {
      assert AllSpace(s) by {
        forall k | 0 <= k < |s| ensures IsSpace(s[k]) {
          if k < i { assert s[k] == s[..i][k]; } else { assert s[k] == s[j..][k - j]; }
        }
      }
      assert a == |s|;
    }
  }

  /** A string without outer white space is its own trim. */
  lemma TrimKeeps(s: string)
    requires NoOuterSpace(s)
    ensures Trim(s) == s
  {
    assert s[..0] == [] && s[|s|..] == [];
    TrimUnique(s, 0, |s|);
  }

  /** Surrounding a string with more white space does not change its trim. */
  lemma TrimPadded(s: string, pre: string, post: string)
    requires AllSpace(pre) && AllSpace(post)
    ensures Trim(pre + s + post) == Trim(s)
  {
    var i, j := TrimInfix(s);
    PaddedParts(pre, s, post, i, j);
    TrimUnique(pre + s + post, |pre| + i, |pre| + j);
  }

  /** Padding `s` with white space keeps the split of `s` into white space, infix and
      white space. */
  lemma PaddedParts(pre: string, s: string, post: string, i: nat, j: nat)
    requires AllSpace(pre) && AllSpace(post)
    requires i <= j <= |s| && AllSpace(s[..i]) && AllSpace(s[j..])
    ensures var w, n := pre + s + post, |pre|;
      AllSpace(w[..n + i]) && AllSpace(w[n + j..]) && w[n + i..n + j] == s[i..j]
  {
    PaddedSlices(pre, s, post, i, j);
    AllSpaceConcat(pre, s[..i]);
    AllSpaceConcat(s[j..], post);
  }

  lemma PaddedSlices(pre: string, s: string, post: string, i: nat, j: nat)
    requires i <= j <= |s|
    ensures (pre + s + post)[..|pre| + i] == pre + s[..i]
    ensures (pre + s + post)[|pre| + j..] == s[j..] + post
    ensures (pre + s + post)[|pre| + i..|pre| + j] == s[i..j]
  {
  }

  /** The first index at or after `from` that holds `c`, or `|s|` when there is none. */
  function IndexOf(s: string, c: char, from: nat): (k: nat)
    requires from <= |s|
    ensures from <= k <= |s| && c !in s[from..k]
    ensures k < |s| ==> s[k] == c
    decreases |s| - from
  {
    if from == |s| || s[from] == c then from else IndexOf(s, c, from + 1)
  }

  /** `const [first, second] = s.split(sep)`: the text before the first `sep`, and the
      text between it and the next `sep`, which is `undefined` when `s` has no `sep`. */
  function SplitFirstTwo(s: string, sep: char): (parts: (string, Option<string>))
    ensures sep !in s ==> parts == (s, None)
    ensures sep in s ==>
      && parts.1.Some?
      && var p, q := |parts.0|, |parts.1.value|;
      && p + 1 + q <= |s| && s[..p] == parts.0 && s[p] == sep && s[p + 1..p + 1 + q] == parts.1.value
      && sep !in parts.0 && sep !in parts.1.value
      && (p + 1 + q < |s| ==> s[p + 1 + q] == sep)
  {
    var p := IndexOf(s, sep, 0);
    if p == |s| then
      assert s[0..p] == s;
      (s, None)
    else
      var q := IndexOf(s, sep, p + 1);
      (s[..p], Some(s[p + 1..q]))
  }

  /** Splitting `a`, `sep`, `b`, then nothing or more text starting with `sep`, gives
      back `a` and `b` when neither holds `sep`. */
  lemma SplitAt(a: string, b: string, rest: string, sep: char)
    requires sep !in a && sep !in b
    requires rest == [] || rest[0] == sep
    ensures SplitFirstTwo(a + [sep] + b + rest, sep) == (a, Some(b))
  {
    var s := a + [sep] + b + rest;
    var e := |a| + 1 + |b|;
    assert IndexOf(s, sep, 0) == |a| by {
      assert s[..|a|] == a;
      IndexOfFirst(s, sep, 0, |a|);
    }
    assert IndexOf(s, sep, |a| + 1) == e by {
      assert s[|a| + 1..e] == b;
      IndexOfFirst(s, sep, |a| + 1, e);
    }
    assert s[..|a|] == a && s[|a| + 1..e] == b;
  }

  /** `IndexOf` stops at the first `c` from `from` on, or at the end. */
  lemma IndexOfFirst(s: string, c: char, from: nat, k: nat)
    requires from <= k <= |s| && c !in s[from..k]
    requires k < |s| ==> s[k] == c
    ensures IndexOf(s, c, from) == k
  {
    var i := IndexOf(s, c, from);
    assert forall t :: from <= t < k ==> s[t] == s[from..k][t - from] && s[t] != c;
    assert forall t :: from <= t < i ==> s[t] == s[from..i][t - from] && s[t] != c;
  }

  /** `s.padStart(n, fill)` */
  function PadStart(s: string, n: nat, fill: char): (r: string)
    ensures |r| == if |s| >= n then |s| else n
    ensures r[|r| - |s|..] == s
    ensures forall i :: 0 <= i < |r| - |s| ==> r[i] == fill
  {
    if |s| >= n then s else seq(n - |s|, _ => fill) + s
  }

  /** `s.slice(-n)`: the last `n` characters, or all of `s` when it is shorter. */
  function SliceLast(s: string, n: nat): (r: string)
    ensures |r| == if |s| < n then |s| else n
    ensures r == s[|s| - |r|..]
  {
    if |s| < n then s else s[|s| - n..]
  }

  /** The value of a digit character in bases up to 36, and 36 for anything else. */
  function DigitValue(c: char): nat {
    if '0' <= c <= '9' then c as nat - '0' as nat
    else if 'a' <= c <= 'z' then c as nat - 'a' as nat + 10
    else if 'A' <= c <= 'Z' then c as nat - 'A' as nat + 10
    else 36
  }

  predicate IsDecimal(s: string) {
    forall i :: 0 <= i < |s| ==> DigitValue(s[i]) < 10
  }

  /** The length of the longest prefix of `s` made of digits of the given radix. */
  function DigitRun(s: string, radix: nat): (n: nat)
    ensures n <= |s|
    ensures forall i :: 0 <= i < n ==> DigitValue(s[i]) < radix
    ensures n < |s| ==> DigitValue(s[n]) >= radix
  {
    if |s| == 0 || DigitValue(s[0]) >= radix then 0 else 1 + DigitRun(s[1..], radix)
  }

  /** The number a digit string denotes in the given radix. */
  function DigitsValue(ds: string, radix: nat): nat {
    if |ds| == 0 then 0
    else DigitsValue(ds[..|ds| - 1], radix) * radix + DigitValue(ds[|ds| - 1])
  }

  /** `parseInt(s)` without a radix: leading white space is skipped; `None` is NaN. */
  function ParseInt(s: string): Option<int> {
    ParseSigned(s[SkipSpace(s, 0)..])
  }

  /** `parseInt` after white space: an optional sign, then an unsigned number. */
  function ParseSigned(t: string): Option<int> {
    if |t| > 0 && t[0] == '-' then
      match ParseUnsigned(t[1..])
      case None => None
      case Some(v) => Some(-(v as int))
    else if |t| > 0 && t[0] == '+' then ParseUnsigned(t[1..])
    else ParseUnsigned(t)
  }

  /** The unsigned part of `parseInt`: an optional `0x`/`0X` prefix selecting base 16,
      then the longest run of digits, which must not be empty. */
  function ParseUnsigned(u: string): Option<nat> {
    var hex := |u| >= 2 && u[0] == '0' && (u[1] == 'x' || u[1] == 'X');
    var radix := if hex then 16 else 10;
    var body := if hex then u[2..] else u;
    var n := DigitRun(body, radix);
    if n == 0 then None else Some(DigitsValue(body[..n], radix))
  }

  function DigitChar(d: nat): char
    requires d < 10
  {
    ('0' as nat + d) as char
  }

  /** `String(n)` for a non-negative integer: its decimal digits. */
  function NatToString(n: nat): string
    decreases n
  {
    if n < 10 then [DigitChar(n)] else NatToString(n / 10) + [DigitChar(n % 10)]
  }

  /** `String(n)` for an integer. */
  function IntToString(n: int): string {
    if n < 0 then "-" + NatToString(-n) else NatToString(n)
  }

  /** A non-negative number written by `String` and padded with zeros is a decimal
      digit string of the same value. */
  lemma PaddedDecimal(n: nat, width: nat)
    ensures var p := PadStart(IntToString(n), width, '0');
      |p| > 0 && IsDecimal(p) && DigitsValue(p, 10) == n
  {
    DecimalString(n);
    PadDecimal(NatToString(n), width);
  }

  /** Padding a decimal digit string with zeros keeps it decimal and keeps its value. */
  lemma PadDecimal(d: string, width: nat)
    requires |d| > 0 && IsDecimal(d)
    ensures var p := PadStart(d, width, '0');
      |p| > 0 && IsDecimal(p) && DigitsValue(p, 10) == DigitsValue(d, 10)
  {
    var p := PadStart(d, width, '0');
    var k := |p| - |d|;
    assert p == p[..k] + d;
    forall i | 0 <= i < |p| ensures DigitValue(p[i]) < 10 {
      if i >= k {
        assert p[i] == d[i - k];
      }
    }
    PaddedValue(p[..k], d);
  }

  /** A non-empty string of decimal digits is read whole, in base 10. */
  lemma ParseIntOfDecimal(d: string)
    requires |d| > 0 && IsDecimal(d)
    ensures ParseInt(d) == Some(DigitsValue(d, 10))
  {
    ParseUnsignedDecimal(d);
    DigitNotSpace(d[0]);
    SkipNoSpace(d);
    assert ParseSigned(d) == Some(DigitsValue(d, 10));
  }

  lemma ParseUnsignedDecimal(d: string)
    requires |d| > 0 && IsDecimal(d)
    ensures ParseUnsigned(d) == Some(DigitsValue(d, 10))
  {
    assert !(|d| >= 2 && d[0] == '0' && (d[1] == 'x' || d[1] == 'X')) by {
      assert |d| >= 2 ==> DigitValue(d[1]) < 10;
    }
    assert DigitRun(d, 10) == |d| by { DigitRunAll(d, 10); }
    assert d[..|d|] == d;
  }

  lemma DecimalString(n: nat)
    ensures |NatToString(n)| > 0 && IsDecimal(NatToString(n))
    ensures DigitsValue(NatToString(n), 10) == n
  {
    var d := NatToString(n);
    NatToStringDigits(n);
    forall i | 0 <= i < |d| ensures DigitValue(d[i]) < 10 {
      assert i < DigitRun(d, 10);
    }
  }

  lemma {:induction false} NatToStringDigits(n: nat)
    ensures |NatToString(n)| > 0
    ensures DigitRun(NatToString(n), 10) == |NatToString(n)|
    ensures DigitsValue(NatToString(n), 10) == n
    decreases n
  {
    var s := NatToString(n);
    if n >= 10 {
      var t := NatToString(n / 10);
      NatToStringDigits(n / 10);
      assert s == t + [DigitChar(n % 10)];
      assert s[..|s| - 1] == t;
      DigitRunAll(s, 10);
    } else {
      DigitRunAll(s, 10);
    }
  }

  lemma {:induction false} DigitRunAll(s: string, radix: nat)
    requires forall i :: 0 <= i < |s| ==> DigitValue(s[i]) < radix
    ensures DigitRun(s, radix) == |s|
    decreases |s|
  {
    if |s| > 0 {
      DigitRunAll(s[1..], radix);
    }
  }

  /** A leading zero does not change a digit string's value. */
  lemma {:induction false} DigitsValueLeadingZero(ds: string, radix: nat)
    ensures DigitsValue("0" + ds, radix) == DigitsValue(ds, radix)
    decreases |ds|
  {
    if |ds| > 0 {
      var w := "0" + ds;
      assert w[..|w| - 1] == "0" + ds[..|ds| - 1];
      DigitsValueLeadingZero(ds[..|ds| - 1], radix);
    }
  }

  lemma {:induction false} PaddedValue(zeros: string, d: string)
    requires forall i :: 0 <= i < |zeros| ==> zeros[i] == '0'
    ensures DigitsValue(zeros + d, 10) == DigitsValue(d, 10)
    decreases |zeros|
  {
    if |zeros| > 0 {
      var z := zeros[1..] + d;
      assert zeros + d == "0" + z;
      DigitsValueLeadingZero(z, 10);
      PaddedValue(zeros[1..], d);
    } else {
      assert zeros + d == d;
    }
  }

  lemma DigitNotSpace(c: char)
    requires DigitValue(c) < 10
    ensures !IsSpace(c) && c != '-' && c != '+'
  {
  }

  lemma SkipNoSpace(s: string)
    requires |s| > 0 && !IsSpace(s[0])
    ensures s[SkipSpace(s, 0)..] == s
  {
  }
}
