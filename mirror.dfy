/**
 * Where an asset of a cloned page ends up on disk: `save_file`'s target
 * under the folder `clone_page` derives from the page's host.
 */
module Mirror {
  import opened PosixPath
  import opened Mapper
  import opened SiteFolder

  /** The file written for `asset` when cloning `page` from the working directory `cwd`. */
  function AssetFile(cwd: string, page: ParsedUrl, asset: ParsedUrl): (r: string)
    ensures Basename(r) == Basename(asset.path)
  {
    LocalTarget(OutputDir(cwd, page.netloc), asset)
  }

  /**
   * For a working directory not ending in `/` and a page host that keeps a
   * non-empty folder name, the asset lands at
   * `cwd/site/category/basename`; the asset's own host plays no part.
   */
  lemma AssetFileLayout(cwd: string, page: ParsedUrl, asset: ParsedUrl)
    requires cwd != [] && !EndsWith(cwd, "/")
    requires '/' !in page.netloc && SiteName(page.netloc) != []
    ensures AssetFile(cwd, page, asset)
         == cwd + "/" + SiteName(page.netloc) + "/" + Category(asset.path) + "/" + Basename(asset.path)
  {
    var name := SiteName(page.netloc);
    var dir := OutputDir(cwd, page.netloc);
    assert dir == cwd + "/" + name;
    assert !EndsWith(dir, "/") by {
      assert dir[|dir| - 1] == name[|name| - 1];
      assert name[|name| - 1] in name;
    }
    TargetLayout(dir, asset);
  }

  /**
   * When nothing is left of the page host's folder name, the output folder
   * is the working directory with a trailing `/`, and the asset lands at
   * `cwd/category/basename` with no doubled separator.
   */
  lemma AssetFileEmptySite(cwd: string, page: ParsedUrl, asset: ParsedUrl)
    requires cwd != [] && !EndsWith(cwd, "/")
    requires SiteName(page.netloc) == []
    ensures AssetFile(cwd, page, asset)
         == cwd + "/" + Category(asset.path) + "/" + Basename(asset.path)
  {
    var dir := OutputDir(cwd, page.netloc);
    assert dir == cwd + "/";
    assert EndsWith(dir, "/");
    TargetLayout(dir, asset);
  }

}
