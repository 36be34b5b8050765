/** The handful of Python `str` operations the editor relies on:
    `str.isspace`, `lstrip`, `strip`, `endswith` and `str()` of a
    non-negative integer. Strings are sequences of Unicode scalar values. */
module PyStr {

  /** Python's `str.isspace` for one character: the ASCII controls TAB..CR and
      FS..US, SPACE, NEL, NO-BREAK SPACE and the Unicode space separators. */
  predicate IsSpace(c: char) {
    || ('\t' <= c <= '\r')
    || ('\U{1C}' <= c <= '\U{1F}')
    || c == ' '
    || c == '\U{85}'
    || c == '\U{A0}'
    || c == '\U{1680}'
    || ('\U{2000}' <= c <= '\U{200A}')
    || c == '\U{2028}'
    || c == '\U{2029}'
    || c == '\U{202F}'
    || c == '\U{205F}'
    || c == '\U{3000}'
  }

  /** The first position at or after `i` that does not hold whitespace. */
  function SkipSpace(s: string, i: nat): (j: nat)
    requires i <= |s|
    ensures i <= j <= |s| && (j == |s| || !IsSpace(s[j]))
    ensures forall k :: i <= k < j ==> IsSpace(s[k])
    decreases |s| - i
  {
    if i < |s| && IsSpace(s[i]) then SkipSpace(s, i + 1) else i
  }

  /** `hi` moved back over the whitespace that ends `s[lo..hi]`. */
  function TrimEnd(s: string, lo: nat, hi: nat): (j: nat)
    requires lo <= hi <= |s|
    ensures lo <= j <= hi && (j == lo || !IsSpace(s[j - 1]))
    ensures forall k :: j <= k < hi ==> IsSpace(s[k])
    decreases hi - lo
  {
    if lo < hi && IsSpace(s[hi - 1]) then TrimEnd(s, lo, hi - 1) else hi
  }

  /** `s.lstrip()`: drop the longest all-whitespace prefix. */
  function LStrip(s: string): (r: string)
    ensures |r| <= |s| && r == s[|s| - |r|..]
    ensures forall k :: 0 <= k < |s| - |r| ==> IsSpace(s[k])
    ensures r == [] || !IsSpace(r[0])
  {
    s[SkipSpace(s, 0)..]
  }

  /** `s.strip()`: whitespace removed at both ends. */
  function Strip(s: string): (r: string)
    ensures |r| <= |s|
  {
    var i := SkipSpace(s, 0);
    s[i..TrimEnd(s, i, |s|)]
  }

  /** What `strip` keeps is the slice of `s` right after its leading
      whitespace (the part `lstrip` removes); it starts and ends with
      non-whitespace, and only whitespace follows it. */
  lemma StripSlice(s: string)
    ensures var r := Strip(s); var off := |s| - |LStrip(s)|;
      && off + |r| <= |s|
      && (r == [] || (!IsSpace(r[0]) && !IsSpace(r[|r| - 1])))
      && r == s[off..off + |r|]
      && forall k :: off + |r| <= k < |s| ==> IsSpace(s[k])
  {
    var i := SkipSpace(s, 0);
    var j := TrimEnd(s, i, |s|);
    assert |LStrip(s)| == |s| - i;
    if i < j {
      assert Strip(s)[0] == s[i] && Strip(s)[j - i - 1] == s[j - 1];
    }
  }

  lemma {:induction false} SkipSpaceIs(s: string, i: nat, j: nat)
    requires i <= j <= |s| && (forall k :: i <= k < j ==> IsSpace(s[k]))
    requires j == |s| || !IsSpace(s[j])
    ensures SkipSpace(s, i) == j
    decreases j - i
  {
    if i < j {
      SkipSpaceIs(s, i + 1, j);
    }
  }

  lemma {:induction false} TrimEndIs(s: string, lo: nat, hi: nat, j: nat)
    requires lo <= j <= hi <= |s| && (forall k :: j <= k < hi ==> IsSpace(s[k]))
    requires j == lo || !IsSpace(s[j - 1])
    ensures TrimEnd(s, lo, hi) == j
    decreases hi - j
  {
    if j < hi {
      TrimEndIs(s, lo, hi - 1, j);
    }
  }

  /** `strip` keeps exactly the text between the leading and the trailing
      whitespace: if `s[i..j]` starts and ends with non-whitespace (or is
      empty) and only whitespace surrounds it, it is `strip(s)`. */
  lemma StripOf(s: string, i: nat, j: nat)
    requires i <= j <= |s|
    requires forall k :: 0 <= k < i ==> IsSpace(s[k])
    requires forall k :: j <= k < |s| ==> IsSpace(s[k])
    requires i < j ==> !IsSpace(s[i]) && !IsSpace(s[j - 1])
    ensures Strip(s) == s[i..j]
  {
    if i < j {
      SkipSpaceIs(s, 0, i);
      TrimEndIs(s, i, |s|, j);
    } else {
      StripBlank(s);
      assert s[i..j] == "";
    }
  }

  /** A line of whitespace strips to nothing. */
  lemma StripBlank(s: string)
    requires forall k :: 0 <= k < |s| ==> IsSpace(s[k])
    ensures Strip(s) == ""
  {
    SkipSpaceIs(s, 0, |s|);
  }

  /** `s.endswith(suffix)`. */
  predicate EndsWith(s: string, suffix: string) {
    |suffix| <= |s| && s[|s| - |suffix|..] == suffix
  }

  /** The stripped text ends with `c` exactly when `c` is the last character
      of `s` that is not whitespace (and `c` itself is not whitespace). */
  lemma {:induction false} StripEndsWith(s: string, c: char)
    requires !IsSpace(c)
    ensures EndsWith(Strip(s), [c]) <==> LastNonSpaceIs(s, c)
  {
    StripSlice(s);
    var r := Strip(s);
    var off := |s| - |LStrip(s)|;
    if EndsWith(r, [c]) {
      var j := off + |r| - 1;
      assert s[j] == r[|r| - 1] == c;
    }
    if LastNonSpaceIs(s, c) {
      var j :| 0 <= j < |s| && s[j] == c && forall k :: j < k < |s| ==> IsSpace(s[k]);
      assert j < off + |r|;
      assert r != [] && s[off + |r| - 1] == r[|r| - 1];
      assert r[|r| - 1] == c;
    }
  }

  /** `c` is the last character of `s` that is not whitespace. */
  ghost predicate LastNonSpaceIs(s: string, c: char) {
    exists j :: 0 <= j < |s| && s[j] == c && forall k :: j < k < |s| ==> IsSpace(s[k])
  }

  /** The decimal digit character for `d < 10`. */
  function DigitChar(d: nat): (c: char)
    requires d < 10
    ensures '0' <= c <= '9' && c as int - '0' as int == d
  {
    (('0' as int) + d) as char
  }

  predicate IsDigitString(s: string) {
    forall k :: 0 <= k < |s| ==> '0' <= s[k] <= '9'
  }

  /** Python's `str(n)` for a non-negative integer: its decimal digits with
      no leading zero. */
  function DecimalString(n: nat): (s: string)
    ensures |s| >= 1 && IsDigitString(s)
    ensures s[0] == '0' ==> n == 0
    decreases n
  {
    if n < 10 then [DigitChar(n)] else DecimalString(n / 10) + [DigitChar(n % 10)]
  }

  /** The value of a string of decimal digits (the inverse of `DecimalString`). */
  function ParseDecimal(s: string): nat
    requires IsDigitString(s)
  {
    if s == [] then 0
    else ParseDecimal(s[..|s| - 1]) * 10 + (s[|s| - 1] as int - '0' as int)
  }

  lemma {:induction false} ParseDecimalString(n: nat)
    ensures ParseDecimal(DecimalString(n)) == n
    decreases n
  {
    if n >= 10 {
      var s := DecimalString(n);
      assert s[..|s| - 1] == DecimalString(n / 10);
      ParseDecimalString(n / 10);
    }
  }

  function Pow10(k: nat): (p: nat)
    ensures p >= 1
  {
    if k == 0 then 1 else 10 * Pow10(k - 1)
  }

  /** `len(str(n))` is the number of decimal digits of `n`: for `n >= 1` it is
      the `d` with `10^(d-1) <= n < 10^d`, that is `floor(log10(n)) + 1`. */
  lemma {:induction false} DecimalLength(n: nat)
    requires n >= 1
    ensures Pow10(|DecimalString(n)| - 1) <= n < Pow10(|DecimalString(n)|)
    decreases n
  {
    if n >= 10 {
      DecimalLength(n / 10);
      var d := |DecimalString(n / 10)|;
      assert |DecimalString(n)| == d + 1;
      assert Pow10(d) == 10 * Pow10(d - 1);
      assert Pow10(d + 1) == 10 * Pow10(d);
      assert n == 10 * (n / 10) + n % 10;
    }
  }

  /** More lines never need fewer digits. */
  lemma {:induction false} DecimalLengthMonotone(n: nat, m: nat)
    requires n <= m
    ensures |DecimalString(n)| <= |DecimalString(m)|
    decreases m
  {
    if n >= 10 {
      DecimalLengthMonotone(n / 10, m / 10);
    }
  }
}
