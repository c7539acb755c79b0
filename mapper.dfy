/**
 * Where `save_file` (cloner.py) puts a downloaded asset: a category
 * sub-directory chosen by the URL path's extension, and the path's last
 * segment as the file name, under the output directory.
 */
module Mapper {
  import opened PosixPath

  /** The six fields of `urllib.parse.urlparse`; parsing itself is taken as given. */
  datatype ParsedUrl = ParsedUrl(
    scheme: string, netloc: string, path: string,
    params: string, query: string, fragment: string)

  /** `path.endswith(('.css', '.js'))`. */
  predicate IsStyleOrScript(path: string) {
    EndsWith(path, ".css") || EndsWith(path, ".js")
  }

  /** `path.endswith(('.png', '.jpg', '.jpeg', '.gif', '.svg'))`; case-sensitive. */
  predicate IsImage(path: string) {
    EndsWith(path, ".png") || EndsWith(path, ".jpg") || EndsWith(path, ".jpeg")
    || EndsWith(path, ".gif") || EndsWith(path, ".svg")
  }

  /** No path ends with both a style/script extension and an image extension. */
  lemma StyleScriptAndImageExclusive(path: string)
    ensures !(IsStyleOrScript(path) && IsImage(path))
    ensures !(EndsWith(path, ".css") && EndsWith(path, ".js"))
  {
    if EndsWith(path, ".css") {
      if EndsWith(path, ".js") { SuffixesNest(path, ".js", ".css"); }
      if EndsWith(path, ".png") { SuffixesNest(path, ".css", ".png"); }
      if EndsWith(path, ".jpg") { SuffixesNest(path, ".css", ".jpg"); }
      if EndsWith(path, ".jpeg") { SuffixesNest(path, ".css", ".jpeg"); }
      if EndsWith(path, ".gif") { SuffixesNest(path, ".css", ".gif"); }
      if EndsWith(path, ".svg") { SuffixesNest(path, ".css", ".svg"); }
    }
    if EndsWith(path, ".js") {
      if EndsWith(path, ".png") { SuffixesNest(path, ".js", ".png"); }
      if EndsWith(path, ".jpg") { SuffixesNest(path, ".js", ".jpg"); }
      if EndsWith(path, ".jpeg") { SuffixesNest(path, ".js", ".jpeg"); }
      if EndsWith(path, ".gif") { SuffixesNest(path, ".js", ".gif"); }
      if EndsWith(path, ".svg") { SuffixesNest(path, ".js", ".svg"); }
    }
  }

  /** For a style sheet or script, the text after the last `.` is the extension without its dot. */
  lemma ExtensionOfStyleOrScript(path: string)
    ensures EndsWith(path, ".css") ==> AfterLast(path, '.') == "css"
    ensures EndsWith(path, ".js") ==> AfterLast(path, '.') == "js"
  {
    if EndsWith(path, ".css") { AfterLastOfSuffix(path, '.', "css"); }
    if EndsWith(path, ".js") { AfterLastOfSuffix(path, '.', "js"); }
  }

  /**
   * The category sub-directory (`subdir` in `save_file`): the text after the
   * last `.` for style sheets and scripts, `imagens` for images and `outros`
   * for everything else. The result is always one of the four names, and
   * each name is chosen exactly when its extension test holds.
   */
  function Category(path: string): (r: string)
    ensures r == "css" || r == "js" || r == "imagens" || r == "outros"
    ensures r == "css" <==> EndsWith(path, ".css")
    ensures r == "js" <==> EndsWith(path, ".js")
    ensures r == "imagens" <==> IsImage(path)
    ensures r == "outros" <==> !IsStyleOrScript(path) && !IsImage(path)
  {
    StyleScriptAndImageExclusive(path);
    ExtensionOfStyleOrScript(path);
    if IsStyleOrScript(path) then AfterLast(path, '.')
    else if IsImage(path) then "imagens"
    else "outros"
  }

  /** `full_dir`: the category directory under the output directory. */
  function LocalDir(outputDir: string, path: string): (r: string)
    ensures |outputDir| <= |r| && r[..|outputDir|] == outputDir
    ensures EndsWith(r, Category(path))
  {
    Join(outputDir, Category(path))
  }

  /** The category directory is never empty and never ends in `/`. */
  lemma LocalDirIsNotSlashTerminated(outputDir: string, path: string)
    ensures LocalDir(outputDir, path) != [] && !EndsWith(LocalDir(outputDir, path), "/")
  {
    var dir, cat := LocalDir(outputDir, path), Category(path);
    assert dir[|dir| - 1] == cat[|cat| - 1];
  }

  /** `filepath`: where the body of a successful download of `url` is written. */
  function LocalTarget(outputDir: string, url: ParsedUrl): (r: string)
    ensures |outputDir| <= |r| && r[..|outputDir|] == outputDir
    ensures Basename(r) == Basename(url.path)
  {
    var dir := LocalDir(outputDir, url.path);
    var name := Basename(url.path);
    LocalDirIsNotSlashTerminated(outputDir, url.path);
    JoinSegment(dir, name);
    PrefixOfJoin(outputDir, dir, name);
    Join(dir, name)
  }

  /**
   * The target is the category directory, a `/` and the path's last segment;
   * for an output directory that does not end in `/`, the four pieces are
   * separated by single slashes.
   */
  lemma TargetLayout(outputDir: string, url: ParsedUrl)
    ensures LocalTarget(outputDir, url) == LocalDir(outputDir, url.path) + "/" + Basename(url.path)
    ensures outputDir != [] && !EndsWith(outputDir, "/") ==>
      LocalTarget(outputDir, url) == outputDir + "/" + Category(url.path) + "/" + Basename(url.path)
  {
    LocalDirIsNotSlashTerminated(outputDir, url.path);
  }

  /**
   * Only the URL's path matters: two URLs that differ in scheme, host,
   * parameters, query or fragment but share a path land in the same file.
   */
  lemma TargetDependsOnlyOnPath(outputDir: string, u: ParsedUrl, v: ParsedUrl)
    requires u.path == v.path
    ensures Category(u.path) == Category(v.path)
    ensures Basename(u.path) == Basename(v.path)
    ensures LocalTarget(outputDir, u) == LocalTarget(outputDir, v)
  {
  }

  /**
   * A path ending in `/` (or the empty path) has an empty file name, so the
   * target is the category directory itself followed by `/`.
   */
  lemma DirectoryUrlTarget(outputDir: string, url: ParsedUrl)
    requires url.path == [] || EndsWith(url.path, "/")
    ensures Category(url.path) == "outros"
    ensures LocalTarget(outputDir, url) == Join(outputDir, "outros") + "/"
  {
    if url.path != [] {
      assert !EndsWith(url.path, ".css") && !EndsWith(url.path, ".js") by {
        if EndsWith(url.path, ".css") { SuffixesNest(url.path, "/", ".css"); }
        if EndsWith(url.path, ".js") { SuffixesNest(url.path, "/", ".js"); }
      }
      assert !IsImage(url.path) by {
        if EndsWith(url.path, ".png") { SuffixesNest(url.path, "/", ".png"); }
        if EndsWith(url.path, ".jpg") { SuffixesNest(url.path, "/", ".jpg"); }
        if EndsWith(url.path, ".jpeg") { SuffixesNest(url.path, "/", ".jpeg"); }
        if EndsWith(url.path, ".gif") { SuffixesNest(url.path, "/", ".gif"); }
        if EndsWith(url.path, ".svg") { SuffixesNest(url.path, "/", ".svg"); }
      }
    }
    TargetLayout(outputDir, url);
  }

  /** Extension tests are case-sensitive: an upper-case image extension goes to `outros`. */
  lemma UpperCaseExtensionIsOther()
    ensures Category("/img/logo.PNG") == "outros"
    ensures Category("/static/app.CSS") == "outros"
  {
  }

}
