/**
 * The parts of Python's `str` and `int` built-ins that the server relies on:
 * `str.strip()`, `str.lower()`, `str.endswith`, `str.startswith`, the `in`
 * substring test, `sep.join(xs)` and `int(s)` in base 10.
 */
module PyStr {
  import opened Wrappers

  /** `c.isspace()`: the characters Python's `str.strip()` removes. */
  predicate IsSpace(c: char) {
    var n := c as int;
    (9 <= n <= 13) || (28 <= n <= 32) || n == 0x85 || n == 0xA0 || n == 0x1680
    || (0x2000 <= n <= 0x200A) || n == 0x2028 || n == 0x2029 || n == 0x202F
    || n == 0x205F || n == 0x3000
  }

  predicate AllSpace(s: string) {
    forall k :: 0 <= k < |s| ==> IsSpace(s[k])
  }

  /** No white space at either end. */
  predicate Trimmed(s: string) {
    s == [] || (!IsSpace(s[0]) && !IsSpace(s[|s| - 1]))
  }

  /** `s.strip()`: white space comes off either end, one character at a time. */
  function Strip(s: string): (r: string)
    ensures Trimmed(r)
    ensures |r| <= |s|
    decreases |s|
  {
    if s != [] && IsSpace(s[0]) then Strip(s[1..])
    else if s != [] && IsSpace(s[|s| - 1]) then Strip(s[..|s| - 1])
    else s
  }

  /** A trimmed text is its own `strip()`. */
  lemma StripTrimmed(s: string)
    requires Trimmed(s)
    ensures Strip(s) == s
  {
  }

  /** Stripping removes exactly the padding around a trimmed text. */
  lemma {:induction false} StripPadded(pre: string, s: string, post: string)
    requires AllSpace(pre) && AllSpace(post) && Trimmed(s)
    ensures Strip(pre + s + post) == s
    decreases |pre| + |post|
  {
    var w := pre + s + post;
    if pre != [] {
      assert w[0] == pre[0] && IsSpace(w[0]);
      assert w[1..] == pre[1..] + s + post;
      StripPadded(pre[1..], s, post);
    } else if post != [] && s == [] {
      assert w == post && IsSpace(w[0]);
      assert w[1..] == pre + s + post[1..];
      StripPadded(pre, s, post[1..]);
    } else if post != [] {
      assert w[0] == s[0] && !IsSpace(w[0]);
      assert w[|w| - 1] == post[|post| - 1] && IsSpace(w[|w| - 1]);
      assert w[..|w| - 1] == pre + s + post[..|post| - 1];
      StripPadded(pre, s, post[..|post| - 1]);
    } else {
      assert w == s;
      StripTrimmed(s);
    }
  }

  /** `strip()` is idempotent. */
  lemma StripIdempotent(s: string)
    ensures Strip(Strip(s)) == Strip(s)
  {
    StripTrimmed(Strip(s));
  }

  /** `str.lower()` on one character (ASCII letters only). */
  function LowerChar(c: char): (r: char)
    ensures !('A' <= r <= 'Z')
    ensures !('A' <= c <= 'Z') ==> r == c
  {
    if 'A' <= c <= 'Z' then (c as int + 32) as char else c
  }

  /** `s.lower()`, character by character. */
  function Lower(s: string): (r: string)
    ensures |r| == |s|
    ensures forall i :: 0 <= i < |s| ==> r[i] == LowerChar(s[i])
  {
    if s == [] then [] else [LowerChar(s[0])] + Lower(s[1..])
  }

  /** Lower-casing distributes over concatenation. */
  lemma LowerAppend(a: string, b: string)
    ensures Lower(a + b) == Lower(a) + Lower(b)
  {
    var l, r := Lower(a + b), Lower(a) + Lower(b);
    assert |l| == |r|;
    forall i | 0 <= i < |l| ensures l[i] == r[i] {
      if i < |a| { assert (a + b)[i] == a[i]; } else { assert (a + b)[i] == b[i - |a|]; }
    }
  }

  /** A text with no upper-case ASCII letter is its own lower case. */
  lemma LowerOfLower(s: string)
    requires forall i :: 0 <= i < |s| ==> !('A' <= s[i] <= 'Z')
    ensures Lower(s) == s
  {
    var l := Lower(s);
    assert forall i :: 0 <= i < |s| ==> l[i] == s[i];
  }

  lemma LowerCharSpace(c: char)
    ensures IsSpace(LowerChar(c)) <==> IsSpace(c)
  {
  }

  predicate StartsWith(s: string, prefix: string) {
    |prefix| <= |s| && s[..|prefix|] == prefix
  }

  predicate EndsWith(s: string, suffix: string) {
    |suffix| <= |s| && s[|s| - |suffix|..] == suffix
  }

  /** A concatenation starts with its first part and ends with its last. */
  lemma Affixes(a: string, b: string, c: string)
    ensures StartsWith(a + b + c, a) && EndsWith(a + b + c, c)
  {
    var s := a + b + c;
    assert s[..|a|] == a;
    assert s[|s| - |c|..] == c;
  }

  /** `t` occurs in `s` starting at index `i`. */
  predicate OccursAt(s: string, t: string, i: int) {
    0 <= i <= |s| - |t| && s[i..i + |t|] == t
  }

  /** Python's `t in s` for strings. */
  ghost predicate Contains(s: string, t: string) {
    exists i :: OccursAt(s, t, i)
  }

  lemma ContainsWithin(a: string, t: string, b: string)
    ensures Contains(a + t + b, t)
  {
    var s := a + t + b;
    assert s[|a|..|a| + |t|] == t;
    assert OccursAt(s, t, |a|);
  }

  /** What occurs in `s` occurs in any text around `s`. */
  lemma ContainsExtend(a: string, s: string, b: string, t: string)
    requires Contains(s, t)
    ensures Contains(a + s + b, t)
  {
    var i :| OccursAt(s, t, i);
    var w := a + s + b;
    assert w[|a| + i..|a| + i + |t|] == s[i..i + |t|];
    assert OccursAt(w, t, |a| + i);
  }

  /** `sep.join(xs)`. */
  function Join(xs: seq<string>, sep: string): (r: string)
    ensures |xs| == 1 ==> r == xs[0]
    ensures xs == [] ==> r == ""
  {
    if xs == [] then "" else if |xs| == 1 then xs[0] else xs[0] + sep + Join(xs[1..], sep)
  }

  /** Every text found in one of the joined parts is found in the join. */
  lemma {:induction false} JoinContains(xs: seq<string>, sep: string, j: nat, t: string)
    requires j < |xs| && Contains(xs[j], t)
    ensures Contains(Join(xs, sep), t)
  {
    if |xs| == 1 {
    } else if j == 0 {
      var i :| OccursAt(xs[0], t, i);
      var s := Join(xs, sep);
      assert s == xs[0] + (sep + Join(xs[1..], sep));
      assert s[i..i + |t|] == xs[0][i..i + |t|];
      assert OccursAt(s, t, i);
    } else {
      JoinContains(xs[1..], sep, j - 1, t);
      var rest := Join(xs[1..], sep);
      var i :| OccursAt(rest, t, i);
      var s := Join(xs, sep);
      var off := |xs[0] + sep|;
      assert s == (xs[0] + sep) + rest;
      assert s[off + i..off + i + |t|] == rest[i..i + |t|];
      assert OccursAt(s, t, off + i);
    }
  }

  /** Joining two non-empty lists is joining each and putting one separator between. */
  lemma {:induction false} JoinAppend(xs: seq<string>, ys: seq<string>, sep: string)
    requires xs != [] && ys != []
    ensures Join(xs + ys, sep) == Join(xs, sep) + sep + Join(ys, sep)
    decreases |xs|
  {
    var zs := xs + ys;
    assert zs[0] == xs[0];
    if |xs| == 1 {
      assert zs[1..] == ys;
    } else {
      assert zs[1..] == xs[1..] + ys;
      JoinAppend(xs[1..], ys, sep);
      var a, p, q := xs[0], Join(xs[1..], sep), Join(ys, sep);
      calc {
        Join(zs, sep);
        a + sep + Join(xs[1..] + ys, sep);
        a + sep + (p + sep + q);
        (a + sep + p) + sep + q;
      }
    }
  }

  // ---------------------------------------------------------------------
  // int(s), base 10

  predicate IsDigit(c: char) { '0' <= c <= '9' }

  /**
   * The digits of a base-10 literal as `int()` accepts them: at least one
   * digit, digits first and last, and single underscores between digits.
   */
  predicate DigitBody(s: string) {
    |s| > 0 && IsDigit(s[0]) && IsDigit(s[|s| - 1])
    && forall k {:trigger s[k]} :: 0 <= k < |s| ==>
         IsDigit(s[k]) || (s[k] == '_' && k + 1 < |s| && IsDigit(s[k + 1]))
  }

  /** The number the digits spell, underscores ignored. */
  function DigitsValue(s: string): (n: nat)
    ensures (forall k :: 0 <= k < |s| ==> s[k] == '0' || s[k] == '_') ==> n == 0
  {
    if s == [] then 0
    else if IsDigit(s[|s| - 1]) then DigitsValue(s[..|s| - 1]) * 10 + (s[|s| - 1] as int - '0' as int)
    else DigitsValue(s[..|s| - 1])
  }

  /**
   * The ASCII information separators U+001C..U+001F: `isspace` holds for
   * them, but `int()` skips only the other white space, so any of them
   * makes the text invalid.
   */
  predicate IsSeparator(c: char) { '\U{1c}' <= c <= '\U{1f}' }

  predicate NoSeparator(s: string) {
    forall k :: 0 <= k < |s| ==> !IsSeparator(s[k])
  }

  /** The padding `int()` skips: white space other than the separators. */
  predicate IntPadding(s: string) {
    AllSpace(s) && NoSeparator(s)
  }

  /** `int(s)`: `None` where Python raises `ValueError`. */
  function ParseInt(s: string): (r: Option<int>)
    ensures r.Some? ==> Strip(s) != "" && NoSeparator(s)
  {
    var t := Strip(s);
    if !NoSeparator(s) then None
    else if |t| > 0 && (t[0] == '+' || t[0] == '-') then
      (if DigitBody(t[1..]) then
         var v: int := DigitsValue(t[1..]);
         Some(if t[0] == '-' then -v else v)
       else None)
    else if DigitBody(t) then Some(DigitsValue(t))
    else None
  }

  function DigitChar(d: nat): (c: char)
    requires d < 10
    ensures IsDigit(c) && c as int - '0' as int == d
  {
    ('0' as int + d) as char
  }

  /** `str(n)` for a natural number. */
  function ShowNat(n: nat): (s: string)
    ensures |s| > 0
    ensures forall k :: 0 <= k < |s| ==> IsDigit(s[k])
  {
    if n < 10 then [DigitChar(n)] else ShowNat(n / 10) + [DigitChar(n % 10)]
  }

  /** `str(i)` for an integer. */
  function ShowInt(i: int): (s: string)
    ensures |s| > 0
    ensures s[0] == '-' <==> i < 0
  {
    if i < 0 then "-" + ShowNat(-i) else ShowNat(i)
  }

  lemma {:induction false} DigitsValueShowNat(n: nat)
    ensures DigitsValue(ShowNat(n)) == n
  {
    if n >= 10 {
      var s := ShowNat(n);
      assert s[..|s| - 1] == ShowNat(n / 10);
      DigitsValueShowNat(n / 10);
    }
  }

  /**
   * What `int()` accepts: a literal with an optional sign, leading zeros and
   * single underscores between digits, padded with white space.
   */
  lemma ParseLiteral(pre: string, sign: string, body: string, post: string)
    requires IntPadding(pre) && IntPadding(post) && DigitBody(body)
    requires sign == "" || sign == "+" || sign == "-"
    ensures ParseInt(pre + sign + body + post)
      == Some(if sign == "-" then -(DigitsValue(body) as int) else DigitsValue(body))
  {
    var t := sign + body;
    var w := pre + t + post;
    assert pre + sign + body + post == w;
    LiteralTrimmed(sign, body);
    StripPadded(pre, t, post);
    NoSeparatorAppend(pre, t);
    NoSeparatorAppend(pre + t, post);
    ParseStripped(w, t);
    if sign != "" {
      assert t[1..] == body;
    } else {
      assert t == body;
    }
  }

  /** Without separators, `int()` reads the stripped text. */
  lemma ParseStripped(w: string, t: string)
    requires NoSeparator(w) && Strip(w) == t
    ensures ParseInt(w) == (if |t| > 0 && (t[0] == '+' || t[0] == '-') then
        (if DigitBody(t[1..]) then Some(if t[0] == '-' then -(DigitsValue(t[1..]) as int) else DigitsValue(t[1..])) else None)
      else if DigitBody(t) then Some(DigitsValue(t))
      else None)
  {
  }

  lemma LiteralTrimmed(sign: string, body: string)
    requires DigitBody(body)
    requires sign == "" || sign == "+" || sign == "-"
    ensures Trimmed(sign + body) && NoSeparator(sign + body)
  {
    var t := sign + body;
    assert t[|t| - 1] == body[|body| - 1];
    forall k | 0 <= k < |t| ensures !IsSeparator(t[k]) {
      if k >= |sign| { assert t[k] == body[k - |sign|]; } else { assert t[k] == sign[k]; }
    }
  }

  lemma NoSeparatorAppend(a: string, b: string)
    requires NoSeparator(a) && NoSeparator(b)
    ensures NoSeparator(a + b)
  {
    assert forall k :: |a| <= k < |a + b| ==> (a + b)[k] == b[k - |a|];
  }

  /** A separator anywhere, padding included, makes `int()` raise. */
  lemma SeparatorRefused(s: string, k: int)
    requires 0 <= k < |s| && IsSeparator(s[k])
    ensures ParseInt(s) == None
  {
  }

  /**
   * What `int()` refuses: once the padding is stripped, only digits,
   * underscores and a leading sign remain, no two underscores are adjacent,
   * and the text ends in a digit.
   */
  lemma ParsedShape(s: string)
    requires ParseInt(s).Some?
    ensures NoSeparator(s)
    ensures var t := Strip(s);
      && |t| > 0 && IsDigit(t[|t| - 1])
      && (forall k :: 0 <= k < |t| ==> IsDigit(t[k]) || t[k] == '_' || (k == 0 && (t[0] == '+' || t[0] == '-')))
      && (forall k :: 0 <= k < |t| - 1 ==> !(t[k] == '_' && t[k + 1] == '_'))
  {
    var t := Strip(s);
    if |t| > 0 && (t[0] == '+' || t[0] == '-') {
      var b := t[1..];
      assert DigitBody(b);
      forall k | 0 <= k < |t|
        ensures IsDigit(t[k]) || t[k] == '_' || (k == 0 && (t[0] == '+' || t[0] == '-'))
      {
        if k > 0 { assert t[k] == b[k - 1]; }
      }
      forall k | 0 <= k < |t| - 1 ensures !(t[k] == '_' && t[k + 1] == '_') {
        if k > 0 { assert t[k] == b[k - 1] && t[k + 1] == b[k]; }
      }
    } else {
      assert DigitBody(t);
      assert forall k :: 0 <= k < |t| ==> IsDigit(t[k]) || t[k] == '_';
    }
  }

  /** `int(str(i)) == i`: a decimal rendering parses back to its value. */
  lemma ParseShowInt(i: int)
    ensures ParseInt(ShowInt(i)) == Some(i)
  {
    var s := ShowInt(i);
    var n: nat := if i < 0 then -i else i;
    var d := ShowNat(n);
    StripShowInt(i);
    ShowNatDigitBody(n);
    DigitsValueShowNat(n);
    if i < 0 {
      assert s[1..] == d;
    } else {
      assert s == d;
    }
  }

  /** `str(i)` with any padding `int()` skips parses back to `i`. */
  lemma ParsePaddedShowInt(pre: string, i: int, post: string)
    requires IntPadding(pre) && IntPadding(post)
    ensures ParseInt(pre + ShowInt(i) + post) == Some(i)
  {
    var v: nat := if i < 0 then -i else i;
    var sign := if i < 0 then "-" else "";
    ShowIntParts(i);
    AppendAssoc(pre, sign, ShowNat(v), post);
    ParseLiteral(pre, sign, ShowNat(v), post);
  }

  lemma AppendAssoc(a: string, b: string, c: string, e: string)
    ensures a + (b + c) + e == a + b + c + e
  {
  }

  /** `str(i)` is a minus for negative `i`, then the digits of its magnitude. */
  lemma ShowIntParts(i: int)
    ensures var v: nat := if i < 0 then -i else i;
      && ShowInt(i) == (if i < 0 then "-" else "") + ShowNat(v)
      && DigitBody(ShowNat(v)) && DigitsValue(ShowNat(v)) == v
  {
    var v: nat := if i < 0 then -i else i;
    ShowNatDigitBody(v);
    DigitsValueShowNat(v);
    if i >= 0 {
      assert "" + ShowNat(v) == ShowNat(v);
    }
  }

  lemma ShowNatDigitBody(n: nat)
    ensures DigitBody(ShowNat(n))
  {
  }

  lemma StripShowInt(i: int)
    ensures Strip(ShowInt(i)) == ShowInt(i)
  {
    var s := ShowInt(i);
    ShowIntTrimmed(i);
    StripTrimmed(s);
  }

  lemma ShowIntTrimmed(i: int)
    ensures Trimmed(ShowInt(i))
  {
    var s := ShowInt(i);
    var d := ShowNat(if i < 0 then -i else i);
    assert IsDigit(d[|d| - 1]);
    assert s[|s| - 1] == d[|d| - 1];
  }
}
