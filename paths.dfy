/** The string and POSIX path operations scans_to_pdf.py applies to its input path and listing. */
module Paths {

  /** str.endswith. */
  predicate EndsWith(s: string, suffix: string) {
    |suffix| <= |s| && s[|s| - |suffix|..] == suffix
  }

  /** str.rstrip(c) for one character c: drop every trailing c. */
  function RStrip(s: string, c: char): string
  {
    if s != [] && s[|s| - 1] == c then RStrip(s[..|s| - 1], c) else s
  }

  /** A single trailing c is dropped. */
  lemma RStripOne(s: string, c: char)
    requires |s| >= 2 && s[|s| - 1] == c && s[|s| - 2] != c
    ensures RStrip(s, c) == s[..|s| - 1]
  {
    var t := s[..|s| - 1];
    assert t[|t| - 1] == s[|s| - 2];
  }

  /** RStrip removes a run of trailing c and nothing else. */
  lemma {:induction false} RStripShape(s: string, c: char)
    ensures RStrip(s, c) <= s
    ensures RStrip(s, c) == [] || RStrip(s, c)[|RStrip(s, c)| - 1] != c
    ensures forall k :: |RStrip(s, c)| <= k < |s| ==> s[k] == c
  {
    if s != [] && s[|s| - 1] == c {
      RStripShape(s[..|s| - 1], c);
    }
  }

  /** str.rfind(c): the index of the last c, or -1. */
  function RFind(s: string, c: char): (i: int)
    ensures -1 <= i < |s|
    ensures i >= 0 ==> s[i] == c
    ensures forall k :: i < k < |s| ==> s[k] != c
  {
    if s == [] then -1
    else if s[|s| - 1] == c then |s| - 1
    else RFind(s[..|s| - 1], c)
  }

  /**
   * os.path.splitext on POSIX: the extension starts at the last '.' of the last path
   * component, unless every character of the component before it is a '.'.
   */
  function SplitExt(p: string): (string, string)
  {
    var sep := RFind(p, '/');
    var dot := RFind(p, '.');
    if dot > sep && exists k :: sep + 1 <= k < dot && p[k] != '.' then (p[..dot], p[dot..]) else (p, [])
  }

  /** The root and extension put back together give the path; an extension is one '.' and no '/'. */
  lemma SplitExtShape(p: string)
    ensures SplitExt(p).0 + SplitExt(p).1 == p
    ensures var ext := SplitExt(p).1;
      ext == [] || (ext[0] == '.' && '.' !in ext[1..] && '/' !in ext)
  {
    var dot := RFind(p, '.');
    var sep := RFind(p, '/');
    if SplitExt(p).1 != [] {
      assert forall k :: dot < k < |p| ==> p[k] != '.' && p[k] != '/';
      assert p[..dot] + p[dot..] == p;
    }
  }

  /** A path ending in ".jpg" after a character other than '/' and '.' has the extension ".jpg". */
  lemma JpgExtension(p: string)
    requires EndsWith(p, ".jpg") && |p| > 4 && p[|p| - 5] != '/' && p[|p| - 5] != '.'
    ensures SplitExt(p) == (p[..|p| - 4], ".jpg")
  {
    assert p[|p| - 4..] == ".jpg";
    assert p[|p| - 4] == '.';
    assert RFind(p, '.') == |p| - 4;
    assert RFind(p, '/') < |p| - 5;
  }

  /** Only a path ending in ".jpg" has the extension ".jpg". */
  lemma JpgExtensionEndsWith(p: string)
    requires SplitExt(p).1 == ".jpg"
    ensures EndsWith(p, ".jpg") && SplitExt(p).0 == p[..|p| - 4]
  {
    SplitExtShape(p);
    var (root, ext) := SplitExt(p);
    assert p == root + ext;
    assert p[|p| - 4..] == ext;
  }

  /** path.split('/')[-1]: the text after the last '/'. */
  function LastComponent(s: string): (r: string)
    ensures '/' !in r
  {
    var i := RFind(s, '/');
    AbsentAfter(s, i, '/');
    s[i + 1..]
  }

  lemma AbsentAfter(s: string, i: int, c: char)
    requires -1 <= i < |s|
    requires forall k :: i < k < |s| ==> s[k] != c
    ensures c !in s[i + 1..]
  {
  }

  /** The last component is what follows the last '/'. */
  lemma LastComponentAfter(s: string, i: nat)
    requires i < |s| && s[i] == '/' && '/' !in s[i + 1..]
    ensures LastComponent(s) == s[i + 1..]
  {
    assert forall k :: i < k < |s| ==> s[k] == s[i + 1..][k - i - 1];
  }

  /** s[:-4]. */
  function DropLast4(s: string): string
  {
    if |s| >= 4 then s[..|s| - 4] else []
  }

  /** Dropping ".jpg" leaves the name it was appended to, so distinct ".jpg" names keep distinct keys. */
  lemma DropJpg(s: string, t: string)
    requires EndsWith(s, ".jpg") && EndsWith(t, ".jpg")
    ensures DropLast4(s) + ".jpg" == s
    ensures DropLast4(s) == DropLast4(t) ==> s == t
  {
    assert DropLast4(s) + ".jpg" == s;
    assert DropLast4(t) + ".jpg" == t;
  }

  /** os.path.join(a, b) on POSIX. */
  function Join(a: string, b: string): string
  {
    if |b| > 0 && b[0] == '/' then b
    else if a == [] || a[|a| - 1] == '/' then a + b
    else a + "/" + b
  }

  /** An absolute b replaces a; otherwise b follows a, separated by exactly one '/' when a is non-empty. */
  lemma JoinShape(a: string, b: string)
    ensures |b| > 0 && b[0] == '/' ==> Join(a, b) == b
    ensures !(|b| > 0 && b[0] == '/') ==> Join(a, b)[..|a|] == a && Join(a, b)[|Join(a, b)| - |b|..] == b
    ensures !(|b| > 0 && b[0] == '/') && a != [] ==>
      |Join(a, b)| == |a| + |b| + (if a[|a| - 1] == '/' then 0 else 1) && Join(a, b)[|Join(a, b)| - |b| - 1] == '/'
    ensures !(|b| > 0 && b[0] == '/') && a == [] ==> Join(a, b) == b
  {
  }

  /** Joining a directory and a file name gives a path whose last component is the name. */
  lemma JoinLastComponent(dir: string, name: string)
    requires '/' !in name
    ensures LastComponent(Join(dir, name)) == name
  {
    JoinShape(dir, name);
    var p := Join(dir, name);
    var i := RFind(p, '/');
    assert p == p[..|p| - |name|] + name;
    if |p| > |name| {
      assert p[|p| - |name| - 1] == '/';
    }
    assert forall k :: |p| - |name| <= k < |p| ==> p[k] == name[k - (|p| - |name|)];
    assert i == |p| - |name| - 1;
  }
}
