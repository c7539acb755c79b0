/**
 * The output folder of a run (`clone_page` in cloner.py): the URL's network
 * location with every `"www."` removed by Python's `str.replace`, joined
 * onto the working directory.
 */
module SiteFolder {
  import opened PosixPath

  /** `sub` occurs in `s` starting at index `i`. */
  predicate OccursAt(s: string, sub: string, i: nat) {
    i + |sub| <= |s| && s[i..i + |sub|] == sub
  }

  /** Python's `sub in s`. */
  predicate Contains(s: string, sub: string) {
    exists i :: 0 <= i <= |s| - |sub| && OccursAt(s, sub, i)
  }

  /**
   * `s.count(sub)` for a non-empty `sub`: the number of occurrences found by
   * scanning left to right and resuming after each match.
   */
  function Count(s: string, sub: string): (n: nat)
    requires sub != []
    ensures n == 0 <==> !Contains(s, sub)
    decreases |s|
  {
    if |s| < |sub| then
      assert !Contains(s, sub);
      0
    else if s[..|sub|] == sub then
      assert OccursAt(s, sub, 0);
      1 + Count(s[|sub|..], sub)
    else
      ContainsShift(s, sub);
      Count(s[1..], sub)
  }

  /** When `sub` does not start `s`, it occurs in `s` exactly when it occurs in `s[1..]`. */
  lemma ContainsShift(s: string, sub: string)
    requires sub != [] && |sub| <= |s| && s[..|sub|] != sub
    ensures Contains(s, sub) <==> Contains(s[1..], sub)
  {
    if Contains(s, sub) {
      var i :| 0 <= i <= |s| - |sub| && OccursAt(s, sub, i);
      assert i != 0;
      assert s[1..][i - 1..i - 1 + |sub|] == s[i..i + |sub|];
      assert OccursAt(s[1..], sub, i - 1);
    }
    if Contains(s[1..], sub) {
      var i :| 0 <= i <= |s[1..]| - |sub| && OccursAt(s[1..], sub, i);
      assert s[1..][i..i + |sub|] == s[i + 1..i + 1 + |sub|];
      assert OccursAt(s, sub, i + 1);
    }
  }

  /**
   * `s.replace(target, replacement)` for a non-empty `target`: occurrences
   * are replaced left to right, without overlap and without re-scanning the
   * replaced text. Every character of the result comes from `s` or from
   * `replacement`.
   */
  function Replace(s: string, target: string, replacement: string): (r: string)
    requires target != []
    ensures forall ch :: ch in r ==> ch in s || ch in replacement
    decreases |s|
  {
    if |s| < |target| then s
    else if s[..|target|] == target then
      SuffixChars(s, |target|);
      replacement + Replace(s[|target|..], target, replacement)
    else
      SuffixChars(s, 1);
      [s[0]] + Replace(s[1..], target, replacement)
  }

  /** Each of the `s.count(target)` occurrences changes the length by `|replacement| - |target|`. */
  lemma {:induction false} ReplaceLength(s: string, target: string, replacement: string)
    requires target != []
    ensures |Replace(s, target, replacement)| == |s| + (|replacement| - |target|) * Count(s, target)
    decreases |s|
  {
    var d := |replacement| - |target|;
    if |s| >= |target| {
      if s[..|target|] == target {
        var tail := s[|target|..];
        var c := Count(tail, target);
        ReplaceLength(tail, target, replacement);
        assert Replace(s, target, replacement) == replacement + Replace(tail, target, replacement);
        assert |Replace(s, target, replacement)| == |replacement| + |tail| + d * c;
        assert Count(s, target) == 1 + c;
        Distribute(d, c);
      } else {
        ReplaceLength(s[1..], target, replacement);
        assert Replace(s, target, replacement) == [s[0]] + Replace(s[1..], target, replacement);
        assert Count(s, target) == Count(s[1..], target);
      }
    }
  }

  /** `d * (1 + c) == d + d * c`. */
  lemma Distribute(d: int, c: nat)
    ensures d * (1 + c) == d + d * c
  {
  }

  /** Every character of a suffix of `s` is a character of `s`. */
  lemma SuffixChars(s: string, k: nat)
    requires k <= |s|
    ensures forall ch :: ch in s[k..] ==> ch in s
  {
  }

  /** A string in which `target` does not occur is returned unchanged. */
  lemma {:induction false} ReplaceAbsent(s: string, target: string, replacement: string)
    requires target != [] && !Contains(s, target)
    ensures Replace(s, target, replacement) == s
    decreases |s|
  {
    if |target| <= |s| {
      if s[..|target|] == target {
        assert OccursAt(s, target, 0);
      } else {
        ContainsShift(s, target);
        ReplaceAbsent(s[1..], target, replacement);
        assert s == [s[0]] + s[1..];
      }
    }
  }

  /** `parsed_url.netloc.replace("www.", "")`. */
  function SiteName(netloc: string): (r: string)
    ensures |r| == |netloc| - 4 * Count(netloc, "www.")
    ensures forall ch :: ch in r ==> ch in netloc
  {
    ReplaceLength(netloc, "www.", "");
    Replace(netloc, "www.", "")
  }

  /** The folder name equals the network location exactly when that contains no `"www."`. */
  lemma SiteNameUnchangedIff(netloc: string)
    ensures SiteName(netloc) == netloc <==> !Contains(netloc, "www.")
  {
    if !Contains(netloc, "www.") {
      ReplaceAbsent(netloc, "www.", "");
    }
  }

  /** The intended case: a leading `"www."` is dropped from a host that has no other. */
  lemma SiteNameDropsLeadingWww(host: string)
    requires !Contains(host, "www.")
    ensures SiteName("www." + host) == host
  {
    var s := "www." + host;
    assert s[..4] == "www." && s[4..] == host;
    ReplaceAbsent(host, "www.", "");
  }

  /**
   * A prefix in which no occurrence of `target` starts is copied through
   * unchanged, and the scan goes on with the rest.
   */
  lemma {:induction false} ReplaceAfterFreePrefix(p: string, q: string, target: string, replacement: string)
    requires target != []
    requires forall i :: 0 <= i < |p| ==> !OccursAt(p + q, target, i)
    ensures Replace(p + q, target, replacement) == p + Replace(q, target, replacement)
    decreases |p|
  {
    if p == [] {
      assert p + q == q;
    } else {
      var s := p + q;
      assert s[1..] == p[1..] + q;
      forall i | 0 <= i < |p[1..]|
        ensures !OccursAt(p[1..] + q, target, i)
      {
        assert !OccursAt(s, target, i + 1);
        if i + |target| <= |s[1..]| {
          assert s[1..][i..i + |target|] == s[i + 1..i + 1 + |target|];
        }
      }
      ReplaceAfterFreePrefix(p[1..], q, target, replacement);
      assert !OccursAt(s, target, 0);
      ReplaceSkipsFirst(s, target, replacement);
      assert [p[0]] + (p[1..] + Replace(q, target, replacement)) == p + Replace(q, target, replacement);
    }
  }

  /** When no occurrence starts at the front, the first character is copied and the scan moves on. */
  lemma ReplaceSkipsFirst(s: string, target: string, replacement: string)
    requires target != [] && s != [] && !OccursAt(s, target, 0)
    ensures Replace(s, target, replacement) == [s[0]] + Replace(s[1..], target, replacement)
  {
  }

  /**
   * The leftmost occurrence is replaced in place: what precedes it is kept,
   * it becomes `replacement`, and the scan resumes right after it. With
   * `ReplaceAbsent` this determines the result for every input.
   */
  lemma ReplaceLeftmost(s: string, target: string, replacement: string, i: nat)
    requires target != [] && OccursAt(s, target, i)
    requires forall j :: 0 <= j < i ==> !OccursAt(s, target, j)
    ensures Replace(s, target, replacement)
         == s[..i] + replacement + Replace(s[i + |target|..], target, replacement)
  {
    var p, rest := s[..i], s[i..];
    assert s == p + rest;
    assert rest[..|target|] == target;
    assert rest[|target|..] == s[i + |target|..];
    ReplaceAfterFreePrefix(p, rest, target, replacement);
  }

  /**
   * The folder name keeps everything before the first `"www."`, drops that
   * occurrence, and continues with the rest of the network location.
   */
  lemma SiteNameLeftmost(netloc: string, i: nat)
    requires OccursAt(netloc, "www.", i)
    requires forall j :: 0 <= j < i ==> !OccursAt(netloc, "www.", j)
    ensures SiteName(netloc) == netloc[..i] + SiteName(netloc[i + 4..])
  {
    ReplaceLeftmost(netloc, "www.", "", i);
  }

  /**
   * Occurrences are removed anywhere in the host, not only at its start:
   * `web.www.example.com` becomes `web.example.com`.
   */
  lemma SiteNameRemovesInnerWww(subdomain: string, host: string)
    requires forall i :: 0 <= i < |subdomain| ==> !OccursAt(subdomain + "www." + host, "www.", i)
    requires !Contains(host, "www.")
    ensures SiteName(subdomain + "www." + host) == subdomain + host
  {
    var s := subdomain + "www." + host;
    assert s[|subdomain|..|subdomain| + 4] == "www.";
    assert s[..|subdomain|] == subdomain && s[|subdomain| + 4..] == host;
    SiteNameLeftmost(s, |subdomain|);
    ReplaceAbsent(host, "www.", "");
  }

  /**
   * The result is not re-scanned, so it may still contain `"www."`: removing
   * once is not idempotent.
   */
  lemma SiteNameNotIdempotent()
    ensures SiteName("wwwww.w.") == "www."
    ensures SiteName(SiteName("wwwww.w.")) == ""
  {
    var b := "wwwww.w.";
    var t := "www.";
    assert b[3] == 'w' && b[..4] != t;
    assert b[4] == 'w' && b[1..][..4] != t;
    assert b[2..][..4] == t;
    assert b[2..][4..] == "w.";
    assert Replace("w.", t, "") == "w.";
    assert Replace(b[1..], t, "") == "w" + Replace(b[2..], t, "");
    assert Replace(b, t, "") == "w" + Replace(b[1..], t, "");
    assert t[..4] == t && t[4..] == "";
  }

  /**
   * `output_dir`: the folder name joined onto the working directory. A
   * network location holds no `/`, so for a working directory that does not
   * end in `/` the folder is a direct child of it (the working directory
   * itself, with a trailing `/`, when nothing is left of the name).
   */
  function OutputDir(cwd: string, netloc: string): (r: string)
    ensures '/' !in netloc && cwd != [] && !EndsWith(cwd, "/") ==> r == cwd + "/" + SiteName(netloc)
  {
    var name := SiteName(netloc);
    assert '/' !in netloc ==> name == [] || name[0] != '/';
    Join(cwd, name)
  }
  /**
   * Run from the root directory, the folder is `/` followed by the name,
   * without a doubled separator.
   */
  lemma OutputDirAtRoot(netloc: string)
    requires '/' !in netloc
    ensures OutputDir("/", netloc) == "/" + SiteName(netloc)
  {
    var name := SiteName(netloc);
    assert name == [] || name[0] != '/' by {
      if name != [] { assert name[0] in name; }
    }
    assert EndsWith("/", "/");
  }


}
