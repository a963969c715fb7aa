/**
 * The POSIX flavour of Python's `os.path` (the `posixpath` module): the path
 * functions the conversion tools apply to the paths they are given.
 */
module PyPath {
  import opened PyStr

  /** `s.rfind(c)`: the index of the last `c` in `s`, or -1 when there is none. */
  function RFind(s: string, c: char): (i: int)
    ensures -1 <= i < |s|
    ensures 0 <= i ==> s[i] == c
    ensures forall k :: i < k < |s| ==> s[k] != c
  {
    if s == [] then -1 else if s[|s| - 1] == c then |s| - 1 else RFind(s[..|s| - 1], c)
  }

  /** The last occurrence is determined by where `c` occurs. */
  lemma RFindAt(s: string, c: char, i: int)
    requires -1 <= i < |s| && (0 <= i ==> s[i] == c)
    requires forall k :: i < k < |s| ==> s[k] != c
    ensures RFind(s, c) == i
  {
  }

  /** Text without `c` appended after `s` does not move the last `c`. */
  lemma RFindAppend(s: string, t: string, c: char)
    requires c !in t
    ensures RFind(s + t, c) == RFind(s, c)
  {
    var i := RFind(s, c);
    forall k | i < k < |s + t| ensures (s + t)[k] != c {
      if k >= |s| { assert (s + t)[k] == t[k - |s|]; }
    }
    RFindAt(s + t, c, i);
  }

  /** Cutting `s` after its last `c` keeps that `c` last. */
  lemma RFindPrefix(s: string, c: char, m: int)
    requires RFind(s, c) < m <= |s|
    ensures RFind(s[..m], c) == RFind(s, c)
  {
    RFindAt(s[..m], c, RFind(s, c));
  }

  /** `os.path.isabs(p)`. */
  predicate IsAbs(p: string)
    ensures IsAbs(p) <==> StartsWith(p, "/")
  {
    |p| > 0 && p[0] == '/'
  }

  /** `os.path.basename(p)`: everything after the last `/`. */
  function Basename(p: string): (r: string)
    ensures forall k :: 0 <= k < |r| ==> r[k] != '/'
    ensures EndsWith(p, r)
  {
    p[RFind(p, '/') + 1..]
  }

  /** `s` has a character other than `.`. */
  predicate HasNonDot(s: string) {
    exists k :: 0 <= k < |s| && s[k] != '.'
  }

  /** An extension as `splitext` returns it: one leading `.`, then neither `.` nor `/`. */
  predicate IsExtension(e: string) {
    |e| > 0 && e[0] == '.' && forall k :: 0 < k < |e| ==> e[k] != '.' && e[k] != '/'
  }

  /**
   * `os.path.splitext(p)`: the extension is the text from the last `.` of the
   * last component, provided that component has a character other than `.`
   * before that dot (so leading dots never start an extension).
   */
  function SplitExt(p: string): (r: (string, string))
    ensures r.0 + r.1 == p
    ensures r.1 == "" || IsExtension(r.1)
    ensures r.1 != "" ==> HasNonDot(Basename(r.0))
  {
    var sep := RFind(p, '/');
    var dot := RFind(p, '.');
    if dot > sep && HasNonDot(p[sep + 1..dot]) then
      ExtensionAfterLastDot(p, sep, dot);
      (p[..dot], p[dot..])
    else
      (p, "")
  }

  /** The text from the last `.` after the last `/` is an extension, and the part before it keeps its name. */
  lemma ExtensionAfterLastDot(p: string, sep: int, dot: int)
    requires sep == RFind(p, '/') && dot == RFind(p, '.') && sep < dot
    requires HasNonDot(p[sep + 1..dot])
    ensures p[..dot] + p[dot..] == p
    ensures IsExtension(p[dot..])
    ensures HasNonDot(Basename(p[..dot]))
  {
    LastDotStartsExtension(p, sep, dot);
    RFindPrefix(p, '/', dot);
    var b := p[..dot];
    assert b[sep + 1..] == p[sep + 1..dot];
  }

  lemma LastDotStartsExtension(p: string, sep: int, dot: int)
    requires sep == RFind(p, '/') && dot == RFind(p, '.') && sep < dot
    ensures IsExtension(p[dot..])
  {
    var e := p[dot..];
    forall k | 0 < k < |e| ensures e[k] != '.' && e[k] != '/' {
      assert e[k] == p[dot + k];
    }
  }

  /** Appending an extension to a name that has a non-dot character makes it the extension. */
  lemma SplitExtAppend(p: string, e: string)
    requires IsExtension(e) && HasNonDot(Basename(p))
    ensures SplitExt(p + e) == (p, e)
  {
    var q := p + e;
    assert '/' !in e by {
      forall k | 0 <= k < |e| ensures e[k] != '/' { }
    }
    RFindAppend(p, e, '/');
    RFindAt(q, '.', |p|);
    var sep := RFind(p, '/');
    assert q[sep + 1..|p|] == Basename(p);
    assert q[..|p|] == p;
    assert q[|p|..] == e;
  }

  /** Appending text with neither `.` nor `/` to a path without extension keeps it without one. */
  lemma SplitExtAppendPlain(p: string, t: string)
    requires SplitExt(p).1 == "" && '.' !in t && '/' !in t
    ensures SplitExt(p + t) == (p + t, "")
  {
    RFindAppend(p, t, '/');
    RFindAppend(p, t, '.');
    var sep, dot := RFind(p, '/'), RFind(p, '.');
    if dot > sep {
      assert (p + t)[sep + 1..dot] == p[sep + 1..dot];
    }
  }

  /** `head.rstrip('/')`. */
  function RStripSlashes(s: string): (r: string)
    ensures |r| <= |s| && r == s[..|r|]
    ensures r == [] || r[|r| - 1] != '/'
    ensures forall k :: |r| <= k < |s| ==> s[k] == '/'
  {
    if s == [] || s[|s| - 1] != '/' then s else RStripSlashes(s[..|s| - 1])
  }

  predicate AllSlashes(s: string) {
    forall k :: 0 <= k < |s| ==> s[k] == '/'
  }

  /**
   * `os.path.dirname(p)`: everything up to the last `/`, with trailing
   * slashes removed unless the head is made of slashes only.
   */
  function Dirname(p: string): (r: string)
    ensures IsAbs(p) ==> IsAbs(r)
    ensures |r| <= |p| && r == p[..|r|]
  {
    var head := p[..RFind(p, '/') + 1];
    if head != [] && !AllSlashes(head) then RStripSlashes(head) else head
  }

  /**
   * `dirname` and `basename` take a path apart at its last slash: a head not
   * ending in `/`, joined to a name without `/`, splits back into the two.
   */
  lemma {:induction false} SplitAtLastSlash(h: string, b: string)
    requires h != "" && h[|h| - 1] != '/' && '/' !in b
    ensures Dirname(h + "/" + b) == h
    ensures Basename(h + "/" + b) == b
  {
    var p := h + "/" + b;
    RFindAt(h + "/", '/', |h|);
    RFindAppend(h + "/", b, '/');
    assert p[..|h| + 1] == h + "/";
    assert p[|h| + 1..] == b;
    assert !AllSlashes(h + "/") by { assert (h + "/")[|h| - 1] == h[|h| - 1]; }
    assert (h + "/")[..|h|] == h;
  }

  /** `os.path.join(a, b)`. */
  function PathJoin(a: string, b: string): (r: string)
    ensures IsAbs(a) || IsAbs(b) ==> IsAbs(r)
    ensures !IsAbs(b) ==> StartsWith(r, a) && EndsWith(r, b)
    ensures IsAbs(b) ==> r == b
    ensures a != "" && !IsAbs(b) ==> EndsWith(r, "/" + b)
  {
    if StartsWith(b, "/") then b
    else if a == "" || EndsWith(a, "/") then a + b
    else a + "/" + b
  }

  /**
   * `os.path.abspath(p)` relative to the working directory `cwd`, without
   * the `normpath` clean-up of `..`, `.` and repeated slashes.
   */
  function Abspath(cwd: string, p: string): (r: string)
    ensures IsAbs(cwd) ==> IsAbs(r)
    ensures IsAbs(p) ==> r == p
    ensures p != "" && p != "." ==> EndsWith(r, p)
  {
    if IsAbs(p) then p
    else if p == "" || p == "." then cwd
    else PathJoin(cwd, p)
  }
}
