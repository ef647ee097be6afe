/**
 * The string operations of Python's `str` and `posixpath` that the toolkit uses:
 * ASCII case mapping, `str.replace`, substring search, and POSIX basename,
 * dirname and join.
 */
module Text {

  predicate IsUpper(c: char) { 'A' <= c <= 'Z' }

  predicate IsLower(c: char) { 'a' <= c <= 'z' }

  /** ASCII lower-casing of one character. */
  function LowerChar(c: char): (d: char)
    ensures !IsUpper(d)
    ensures IsLower(c) || IsUpper(c) <==> IsLower(d)
  {
    if IsUpper(c) then (c as int + 32) as char else c
  }

  /** ASCII upper-casing of one character. */
  function UpperChar(c: char): (d: char)
    ensures !IsLower(d)
    ensures LowerChar(d) == LowerChar(c)
  {
    if IsLower(c) then (c as int - 32) as char else c
  }

  /** `str.lower()`, restricted to ASCII letters. */
  function Lower(s: string): (r: string)
    ensures |r| == |s|
    ensures forall i :: 0 <= i < |s| ==> r[i] == LowerChar(s[i])
  {
    seq(|s|, i requires 0 <= i < |s| => LowerChar(s[i]))
  }

  /** Lower-casing twice is lower-casing once. */
  lemma LowerIdempotent(s: string)
    ensures Lower(Lower(s)) == Lower(s)
  {
  }

  /** `str.capitalize()`: the first character upper-case, all others lower-case. */
  function Capitalize(s: string): (r: string)
    ensures |r| == |s|
    ensures Lower(r) == Lower(s)
    ensures |r| > 0 ==> !IsLower(r[0])
    ensures forall i :: 1 <= i < |r| ==> !IsUpper(r[i])
  {
    if s == [] then [] else [UpperChar(s[0])] + Lower(s[1..])
  }

  /** `sub` occurs in `s` starting at index `i`. */
  predicate OccursAt(s: string, sub: string, i: int) {
    0 <= i && i + |sub| <= |s| && s[i..i + |sub|] == sub
  }

  /** `sub in s`. */
  predicate Contains(s: string, sub: string) {
    exists i :: 0 <= i <= |s| && OccursAt(s, sub, i)
  }

  /** A one-character string occurs exactly when the character does. */
  lemma ContainsChar(s: string, c: char)
    ensures Contains(s, [c]) <==> c in s
  {
    if c in s {
      var i :| 0 <= i < |s| && s[i] == c;
      assert s[i..i + 1] == [c];
      assert OccursAt(s, [c], i);
    }
    if Contains(s, [c]) {
      var i :| 0 <= i <= |s| && OccursAt(s, [c], i);
      assert s[i] == s[i..i + 1][0];
    }
  }

  /**
   * `s.replace(pat, rep)`: every occurrence of `pat`, scanning from the left and
   * without overlaps, is replaced by `rep`.
   */
  function Replace(s: string, pat: string, rep: string): string
    requires |pat| > 0
    decreases |s|
  {
    if |s| < |pat| then s
    else if s[..|pat|] == pat then rep + Replace(s[|pat|..], pat, rep)
    else [s[0]] + Replace(s[1..], pat, rep)
  }

  /** Every character of `r` occurs in `a` or in `b`. */
  predicate CharsFrom(r: string, a: string, b: string) {
    forall k :: 0 <= k < |r| ==> r[k] in a || r[k] in b
  }

  /** Characters drawn from a suffix of `a` are drawn from `a`; `x + r` adds the characters of `x`. */
  lemma CharsFromCons(x: string, r: string, a: string, b: string, d: nat)
    requires d <= |a| && CharsFrom(r, a[d..], b) && CharsFrom(x, a, b)
    ensures CharsFrom(x + r, a, b)
  {
    forall k | 0 <= k < |x + r| ensures (x + r)[k] in a || (x + r)[k] in b {
      if k < |x| {
        assert (x + r)[k] == x[k];
      } else {
        var c := r[k - |x|];
        assert (x + r)[k] == c;
        if c in a[d..] {
          var j :| 0 <= j < |a[d..]| && a[d..][j] == c;
          assert a[d + j] == c;
        }
      }
    }
  }

  /** Every character of the result comes from `s` or from `rep`. */
  lemma {:induction false} ReplaceChars(s: string, pat: string, rep: string)
    requires |pat| > 0
    ensures CharsFrom(Replace(s, pat, rep), s, rep)
    decreases |s|
  {
    if |s| < |pat| {
      assert forall k :: 0 <= k < |s| ==> s[k] in s;
    } else if s[..|pat|] == pat {
      ReplaceChars(s[|pat|..], pat, rep);
      assert forall k :: 0 <= k < |rep| ==> rep[k] in rep;
      CharsFromCons(rep, Replace(s[|pat|..], pat, rep), s, rep, |pat|);
    } else {
      ReplaceChars(s[1..], pat, rep);
      assert [s[0]][0] in s;
      CharsFromCons([s[0]], Replace(s[1..], pat, rep), s, rep, 1);
    }
  }

  /** Replacing a string by itself, or by one of the same length, keeps the text, or its length. */
  lemma {:induction false} ReplaceSameLength(s: string, pat: string, rep: string)
    requires |pat| > 0 && |pat| == |rep|
    ensures |Replace(s, pat, rep)| == |s|
    ensures pat == rep ==> Replace(s, pat, rep) == s
    decreases |s|
  {
    if |s| >= |pat| {
      if s[..|pat|] == pat {
        ReplaceSameLength(s[|pat|..], pat, rep);
        assert s[..|pat|] + s[|pat|..] == s;
      } else {
        ReplaceSameLength(s[1..], pat, rep);
        assert [s[0]] + s[1..] == s;
      }
    }
  }

  lemma ContainsInSuffix(s: string, sub: string, k: nat)
    requires k <= |s| && Contains(s[k..], sub)
    ensures Contains(s, sub)
  {
    var i :| 0 <= i <= |s[k..]| && OccursAt(s[k..], sub, i);
    assert s[k + i..k + i + |sub|] == s[k..][i..i + |sub|];
    assert OccursAt(s, sub, k + i);
  }

  /** Replacing a string that does not occur changes nothing. */
  lemma {:induction false} ReplaceAbsent(s: string, pat: string, rep: string)
    requires |pat| > 0 && !Contains(s, pat)
    ensures Replace(s, pat, rep) == s
    decreases |s|
  {
    if |s| >= |pat| {
      assert !OccursAt(s, pat, 0);
      if !Contains(s[1..], pat) {
        ReplaceAbsent(s[1..], pat, rep);
      } else {
        ContainsInSuffix(s, pat, 1);
      }
      assert [s[0]] + s[1..] == s;
    }
  }

  /** Replacing never brings in a character found neither in `s` nor in `rep`. */
  lemma ReplaceKeepsOut(s: string, pat: string, rep: string, c: char)
    requires |pat| > 0 && c !in s && c !in rep
    ensures c !in Replace(s, pat, rep)
  {
    ReplaceChars(s, pat, rep);
  }

  /** A prefix without the pattern's first character is copied unchanged. */
  lemma {:induction false} ReplaceAfterPlain(s: string, t: string, pat: string, rep: string)
    requires |pat| > 0 && pat[0] !in s
    ensures Replace(s + t, pat, rep) == s + Replace(t, pat, rep)
    decreases |s|
  {
    if s != [] {
      var u := s + t;
      assert u[0] == s[0] && u[1..] == s[1..] + t;
      ReplaceAfterPlain(s[1..], t, pat, rep);
      if |u| >= |pat| {
        assert u[..|pat|] != pat by { assert u[..|pat|][0] == s[0]; }
        calc {
          Replace(u, pat, rep);
          [s[0]] + Replace(s[1..] + t, pat, rep);
          [s[0]] + (s[1..] + Replace(t, pat, rep));
          { assert s == [s[0]] + s[1..]; }
          s + Replace(t, pat, rep);
        }
      } else {
        assert Replace(t, pat, rep) == t;
        assert Replace(u, pat, rep) == u;
      }
    } else {
      assert s + t == t;
    }
  }

  /** A string without the pattern's first character is left as it is. */
  lemma ReplacePlain(s: string, pat: string, rep: string)
    requires |pat| > 0 && pat[0] !in s
    ensures Replace(s, pat, rep) == s
  {
    ReplaceAfterPlain(s, [], pat, rep);
    assert s + [] == s;
  }

  /** After `Replace(s, c, "")` with a one-character `c`, no `c` is left. */
  lemma {:induction false} ReplaceRemovesChar(s: string, c: char)
    ensures c !in Replace(s, [c], "")
    decreases |s|
  {
    if |s| >= 1 {
      ReplaceRemovesChar(s[1..], c);
      if s[..1] == [c] {
        assert Replace(s, [c], "") == Replace(s[1..], [c], "");
      } else {
        assert s[0] != c;
        assert Replace(s, [c], "") == [s[0]] + Replace(s[1..], [c], "");
      }
    }
  }

  /** The ".py" to ".html" rewrite that turns a notebook path into its page path. */
  function PyToHtml(s: string): string {
    Replace(s, ".py", ".html")
  }

  /** The inverse rewrite, ".html" to ".py". */
  function HtmlToPy(s: string): string {
    Replace(s, ".html", ".py")
  }

  /** A first output character other than '.' was copied from the input. */
  lemma PyToHtmlHead(t: string)
    requires |PyToHtml(t)| > 0 && PyToHtml(t)[0] != '.'
    ensures |t| > 0 && t[0] == PyToHtml(t)[0] && PyToHtml(t)[1..] == PyToHtml(t[1..])
  {
    if |t| < 3 {
      assert PyToHtml(t) == t;
      assert PyToHtml(t[1..]) == t[1..];
    }
  }

  /** A prefix of the output free of '.' was copied from the input. */
  lemma {:induction false} PyToHtmlPrefix(t: string, k: nat)
    requires k <= |PyToHtml(t)| && forall j :: 0 <= j < k ==> PyToHtml(t)[j] != '.'
    ensures k <= |t| && t[..k] == PyToHtml(t)[..k]
    decreases k
  {
    if k > 0 {
      PyToHtmlHead(t);
      var u := PyToHtml(t);
      assert PyToHtml(t[1..]) == u[1..];
      PyToHtmlPrefix(t[1..], k - 1);
      assert t[..k] == [t[0]] + t[1..][..k - 1];
      assert u[..k] == [u[0]] + u[1..][..k - 1];
    }
  }

  /** When the output starts with a copied character, an ".html" at its head was already in the input. */
  lemma CopiedHeadNotHtml(s: string)
    requires |s| >= 3 && s[..3] != ".py"
    ensures var y := [s[0]] + PyToHtml(s[1..]);
      |y| >= 5 && y[..5] == ".html" ==> OccursAt(s, ".html", 0)
  {
    var x := PyToHtml(s[1..]);
    var y := [s[0]] + x;
    if |y| >= 5 && y[..5] == ".html" {
      assert y[1..5] == x[..4];
      assert x[..4] == "html";
      PyToHtmlPrefix(s[1..], 4);
      assert s[..5] == [s[0]] + s[1..][..4];
    }
  }

  /**
   * Turning ".py" into ".html" and back restores a path that had no ".html" in it:
   * the inserted ".html" pieces are the only ones the second pass finds.
   */
  lemma {:induction false} HtmlToPyUndoesPyToHtml(s: string)
    requires !Contains(s, ".html")
    ensures HtmlToPy(PyToHtml(s)) == s
    decreases |s|
  {
    if |s| < 3 {
      assert PyToHtml(s) == s;
    } else if s[..3] == ".py" {
      var x := PyToHtml(s[3..]);
      assert PyToHtml(s) == ".html" + x;
      if Contains(s[3..], ".html") { ContainsInSuffix(s, ".html", 3); }
      HtmlToPyUndoesPyToHtml(s[3..]);
      assert (".html" + x)[..5] == ".html" && (".html" + x)[5..] == x;
      assert s == ".py" + s[3..];
    } else {
      var x := PyToHtml(s[1..]);
      assert PyToHtml(s) == [s[0]] + x;
      if Contains(s[1..], ".html") { ContainsInSuffix(s, ".html", 1); }
      HtmlToPyUndoesPyToHtml(s[1..]);
      var y := [s[0]] + x;
      CopiedHeadNotHtml(s);
      if |y| < 5 {
        assert HtmlToPy(x) == x;
      }
      assert s == [s[0]] + s[1..];
    }
  }

  /** Index of the last '/' in `p`, or -1 when there is none. */
  function LastSlash(p: string): (r: int)
    ensures -1 <= r < |p|
    ensures r >= 0 ==> p[r] == '/'
    ensures forall j :: r < j < |p| ==> p[j] != '/'
  {
    if p == [] then -1
    else if p[|p| - 1] == '/' then |p| - 1
    else LastSlash(p[..|p| - 1])
  }

  /** `posixpath.basename`: everything after the last '/'. */
  function Basename(p: string): (r: string)
    ensures '/' !in r
    ensures |r| <= |p| && p[|p| - |r|..] == r
  {
    p[LastSlash(p) + 1..]
  }

  /** The file name is the whole path or starts right after a '/': the longest suffix without one. */
  lemma BasenameShape(p: string)
    ensures var r := Basename(p);
      |r| == |p| || p[|p| - |r| - 1] == '/'
  {
  }

  /** `s.rstrip("/")`. */
  function RStripSlashes(s: string): (r: string)
    ensures |r| <= |s| && s[..|r|] == r
    ensures r == [] || r[|r| - 1] != '/'
    ensures forall j :: |r| <= j < |s| ==> s[j] == '/'
  {
    if s != [] && s[|s| - 1] == '/' then RStripSlashes(s[..|s| - 1]) else s
  }

  /**
   * `posixpath.dirname`: everything up to the last '/', without trailing slashes
   * unless it consists of slashes only.
   */
  function Dirname(p: string): (r: string)
    ensures |r| <= |p| && p[..|r|] == r
    ensures '/' !in p ==> r == ""
  {
    var head := p[..LastSlash(p) + 1];
    var stripped := RStripSlashes(head);
    if stripped != [] then stripped else head
  }

  /**
   * The directory part ends at the last '/', less the slashes just before it; it ends
   * in '/' only when it is that whole prefix and consists of slashes.
   */
  lemma DirnameShape(p: string)
    ensures var r := Dirname(p);
      && |r| <= LastSlash(p) + 1
      && (forall j :: |r| <= j <= LastSlash(p) ==> p[j] == '/')
      && (r != [] && r[|r| - 1] == '/' ==> |r| == LastSlash(p) + 1 && forall j :: 0 <= j < |r| ==> r[j] == '/')
  {
  }

  /** A directory and a file name joined by one '/' split back into the two. */
  lemma SplitJoined(d: string, b: string)
    requires '/' !in b && d != [] && d[|d| - 1] != '/'
    ensures Dirname(d + "/" + b) == d && Basename(d + "/" + b) == b
  {
    var p := d + "/" + b;
    DirnameShape(p);
    BasenameShape(p);
    assert p[|d|] == '/';
    assert LastSlash(p) == |d| by {
      forall j | |d| < j < |p| ensures p[j] != '/' {
        assert p[j] == b[j - |d| - 1];
      }
    }
    assert p[..|d|] == d;
    assert p[|d| + 1..] == b;
  }

  /** A path has a directory part exactly when it contains a '/'. */
  lemma DirnameEmpty(p: string)
    ensures Dirname(p) == "" <==> '/' !in p
  {
    if '/' in p {
      DirnameNonEmpty(p);
    }
  }

  /** A path with a '/' has a non-empty directory part. */
  lemma DirnameNonEmpty(p: string)
    requires '/' in p
    ensures Dirname(p) != ""
  {
    var i :| 0 <= i < |p| && p[i] == '/';
    assert LastSlash(p) >= i;
  }

  /**
   * `posixpath.join(a, b)`: an absolute `b` replaces `a`; otherwise a '/' is put
   * between them unless `a` is empty or already ends in one.
   */
  function Join(a: string, b: string): (r: string)
    ensures |b| > 0 && b[0] == '/' ==> r == b
  {
    if |b| > 0 && b[0] == '/' then b
    else if a == [] || a[|a| - 1] == '/' then a + b
    else a + "/" + b
  }

  /** The joined path ends with `b` and, for a relative `b`, starts with `a`. */
  lemma JoinEnds(a: string, b: string)
    ensures var r := Join(a, b);
      && |b| <= |r| && r[|r| - |b|..] == b
      && ((b == [] || b[0] != '/') ==> |a| <= |r| && r[..|a|] == a)
  {
  }

  /** What `Join` puts before a relative component: `a`, followed by '/' unless empty or already ending in one. */
  function JoinPrefix(a: string): string {
    if a == [] || a[|a| - 1] == '/' then a else a + "/"
  }

  lemma JoinRelative(a: string, b: string)
    requires b == [] || b[0] != '/'
    ensures Join(a, b) == JoinPrefix(a) + b
  {
  }

  /** After a name that does not end in '/', a relative component is joined with one '/'. */
  lemma JoinAfterName(a: string, b: string)
    requires |a| > 0 && a[|a| - 1] != '/' && (b == [] || b[0] != '/')
    ensures Join(a, b) == a + "/" + b
  {
  }

  /** `posixpath.join(a, *parts)`. */
  function JoinAll(a: string, parts: seq<string>): string
    decreases |parts|
  {
    if parts == [] then a else JoinAll(Join(a, parts[0]), parts[1..])
  }

  /** No component is absolute, so each one is appended to what came before. */
  predicate Relative(parts: seq<string>) {
    forall i :: 0 <= i < |parts| ==> parts[i] == [] || parts[i][0] != '/'
  }

  /** Joining relative components only ever extends `a`. */
  lemma {:induction false} JoinAllExtends(a: string, parts: seq<string>)
    requires Relative(parts)
    ensures var r := JoinAll(a, parts);
      |a| <= |r| && r[..|a|] == a
    decreases |parts|
  {
    if parts != [] {
      var step := Join(a, parts[0]);
      JoinEnds(a, parts[0]);
      assert Relative(parts[1..]) by {
        assert forall i :: 0 <= i < |parts| - 1 ==> parts[1..][i] == parts[i + 1];
      }
      JoinAllExtends(step, parts[1..]);
      var r := JoinAll(step, parts[1..]);
      assert r[..|a|] == r[..|step|][..|a|];
    }
  }

  /** Joining three components is joining them one at a time. */
  lemma JoinAllThree(a: string, x: string, y: string, z: string)
    ensures JoinAll(a, [x, y, z]) == Join(Join(Join(a, x), y), z)
  {
    var parts := [x, y, z];
    assert parts[1..] == [y, z] && parts[1..][1..] == [z] && parts[1..][1..][1..] == [];
    assert JoinAll(a, parts) == JoinAll(Join(a, x), [y, z]);
    assert JoinAll(Join(a, x), [y, z]) == JoinAll(Join(Join(a, x), y), [z]);
    assert JoinAll(Join(Join(a, x), y), [z]) == JoinAll(Join(Join(Join(a, x), y), z), []);
  }
}
