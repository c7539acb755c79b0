/**
 * The parts of Python's `posixpath` and `str` that the cloner relies on to
 * build local file names: `str.endswith`, `str.split(sep)[-1]`,
 * `os.path.basename` and the two-argument `os.path.join`.
 */
module PosixPath {

  /** `s.endswith(suffix)`. */
  predicate EndsWith(s: string, suffix: string) {
    |suffix| <= |s| && s[|s| - |suffix|..] == suffix
  }

  /**
   * The text after the last occurrence of `c` in `s`, or all of `s` when `c`
   * does not occur: Python's `s.split(c)[-1]` and `s[s.rfind(c) + 1:]`.
   */
  function AfterLast(s: string, c: char): (r: string)
    ensures c !in r
    ensures EndsWith(s, r)
    ensures |r| < |s| ==> s[|s| - |r| - 1] == c
    decreases |s|
  {
    if s == [] || s[|s| - 1] == c then []
    else AfterLast(s[..|s| - 1], c) + [s[|s| - 1]]
  }

  /** Whatever precedes the last `c`, the text after it is what `AfterLast` returns. */
  lemma {:induction false} AfterLastOfJoined(p: string, c: char, t: string)
    requires c !in t
    ensures AfterLast(p + [c] + t, c) == t
    decreases |t|
  {
    var s := p + [c] + t;
    if t != [] {
      var n := |s| - 1;
      assert s[n] == t[|t| - 1];
      assert s[..n] == p + [c] + t[..|t| - 1];
      AfterLastOfJoined(p, c, t[..|t| - 1]);
      assert t == t[..|t| - 1] + [t[|t| - 1]];
    }
  }

  /** When `s` ends with a separator and then `ext` (which has none), the text after the last separator is `ext`. */
  lemma AfterLastOfSuffix(s: string, c: char, ext: string)
    requires EndsWith(s, [c] + ext) && c !in ext
    ensures AfterLast(s, c) == ext
  {
    var p := s[..|s| - |ext| - 1];
    assert s == p + [c] + ext;
    AfterLastOfJoined(p, c, ext);
  }

  /** If `s` ends with both `a` and the longer `b`, then `b` ends with `a`. */
  lemma SuffixesNest(s: string, a: string, b: string)
    requires EndsWith(s, a) && EndsWith(s, b) && |a| <= |b|
    ensures EndsWith(b, a)
  {
  }

  /** `os.path.basename(p)`: the last `/`-separated segment of `p`. */
  function Basename(p: string): (r: string)
    ensures '/' !in r
    ensures EndsWith(p, r)
    ensures |r| < |p| ==> p[|p| - |r| - 1] == '/'
    ensures EndsWith(p, "/") ==> r == []
  {
    AfterLast(p, '/')
  }

  /**
   * `os.path.join(a, b)` for one component: an absolute `b` replaces `a`;
   * otherwise `b` is appended, after a `/` unless `a` is empty or already
   * ends with one.
   */
  function Join(a: string, b: string): (r: string)
    ensures EndsWith(r, b)
    ensures (b == [] || b[0] != '/') ==> |a| <= |r| && r[..|a|] == a
    ensures (b == [] || b[0] != '/') && a != [] && !EndsWith(a, "/") ==> r == a + "/" + b
    ensures (b == [] || b[0] != '/') && (a == [] || EndsWith(a, "/")) ==> r == a + b
    ensures b != [] && b[0] == '/' ==> r == b
  {
    if b != [] && b[0] == '/' then b
    else if a == [] || a[|a| - 1] == '/' then a + b
    else a + "/" + b
  }

  /** Joining a directory that does not end in `/` with a segment: the segment is the basename of the result. */
  lemma JoinSegment(dir: string, name: string)
    requires dir != [] && !EndsWith(dir, "/") && '/' !in name
    ensures Join(dir, name) == dir + "/" + name
    ensures Basename(Join(dir, name)) == name
  {
    assert name == [] || name[0] != '/';
    AfterLastOfJoined(dir, '/', name);
  }

  /** A prefix of the directory is a prefix of the joined path. */
  lemma PrefixOfJoin(prefix: string, dir: string, name: string)
    requires |prefix| <= |dir| && dir[..|prefix|] == prefix
    requires name == [] || name[0] != '/'
    ensures |prefix| <= |Join(dir, name)| && Join(dir, name)[..|prefix|] == prefix
  {
  }

}
