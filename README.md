# Site cloner: local paths, output folder, asset list and cookie jar

This project models the deterministic core of `cloner.py`, a script that
downloads one web page and the images, style sheets and scripts it
references into a local folder. The network, file-system and browser
calls stay out. What remains are four calculations, each lifted out of
the asynchronous function that contains it:

- **Local file of an asset** (`save_file`). The asset URL's path picks a
  category sub-directory:
  - `css` or `js`, the text after the last `.`, for paths ending in `.css` or `.js`;
  - `imagens` for `.png`, `.jpg`, `.jpeg`, `.gif` and `.svg`;
  - `outros` for anything else.

  The file name is `os.path.basename` of the path. The file is written to
  `output_dir/subdir/filename`. Modules `PosixPath` and `Mapper`.
- **Output folder** (`clone_page`). The page's network location with every
  `"www."` removed by `str.replace`, joined onto the working directory.
  Module `SiteFolder`.
- **Asset list** (`fetch_assets`). A nested loop over the pairs (img, src),
  (link, href), (script, src). Within each pair it walks the page's
  elements in document order. For every element whose attribute is present
  and non-empty, it appends `urljoin(page_url, value)`. Module `Scanner`;
  the loop is the method `CollectAssets`.
- **Cookie jar**. The login step's cookie list becomes a dict through a
  comprehension, or `None` when the list is absent or empty. Module `Cookies`.

Module `Mirror` composes the output folder with the local file of an asset.

`urlparse` is taken as given: a `ParsedUrl` record with its six fields.
`urljoin` is a function-valued parameter. Its result is otherwise unconstrained, but the model assumes it returns for every reference. `os.path` is modelled as `posixpath`, with `/` as the only separator.
The parsed HTML is a sequence of elements in document order. Each element
is a tag name plus an attribute map. The working directory (`os.getcwd()`)
is a parameter.

The model follows what the code does, including where a page mirror might
be expected to behave otherwise. The code does not put the host into local paths, so assets on two
hosts with the same path land in the same file (`Mapper.TargetDependsOnlyOnPath`).
It does not substitute `index.html` for a path ending in `/`; the file name
is then empty (`Mapper.DirectoryUrlTarget`). It does not deduplicate asset
URLs, does not reject `..` segments and does not rewrite the page's markup.
None of these are modelled.

## Model

| member | source | states |
|---|---|---|
| `PosixPath.EndsWith` | cloner.py:41-43 | `str.endswith` for one suffix: the suffix fits in the string and equals its last characters |
| `PosixPath.AfterLast` | cloner.py:42 | `s.split(c)[-1]`: the result has no `c`, is a suffix of `s`, and is preceded by `c` whenever it is shorter than `s` |
| `PosixPath.AfterLastOfJoined` | cloner.py:42 | whatever precedes the last separator, the text after it is exactly the final piece |
| `PosixPath.AfterLastOfSuffix` | cloner.py:41-42 | a path ending in `.ext` (with no `.` in `ext`) splits to `ext` |
| `PosixPath.Basename` | cloner.py:51 | `os.path.basename`: no `/` in the name, the name ends the path, `/` precedes it, and it is empty when the path ends in `/` |
| `PosixPath.Join` | cloner.py:46-52 | `os.path.join`: the result ends with the component; a relative component is appended as `a + "/" + b` to a non-empty directory not ending in `/`, and as `a + b` to an empty one or one ending in `/`; an absolute one replaces the directory |
| `PosixPath.JoinSegment` | cloner.py:52 | joining a directory with a `/`-free name gives `dir + "/" + name`, whose basename is the name |
| `Mapper.StyleScriptAndImageExclusive` | cloner.py:41-44 | no path ends in both `.css` and `.js`, nor in a style/script and an image extension, so the order of the tests decides nothing |
| `Mapper.IsStyleOrScript` | cloner.py:41 | `path.endswith(('.css', '.js'))`: the path ends in one of the two suffixes |
| `Mapper.IsImage` | cloner.py:43 | `path.endswith(('.png', '.jpg', '.jpeg', '.gif', '.svg'))`: the path ends in one of the five suffixes, case-sensitively |
| `Mapper.ExtensionOfStyleOrScript` | cloner.py:41-42 | for a path ending in `.css` the text after the last `.` is `css`, and for `.js` it is `js` |
| `Mapper.Category` | cloner.py:40-44 | the sub-directory is one of `css`, `js`, `imagens`, `outros`; `css` exactly for `.css` paths, `js` exactly for `.js`, `imagens` exactly for the five image extensions, `outros` exactly when none applies |
| `Mapper.LocalDir` | cloner.py:46 | `full_dir` starts with the output directory and ends with the category name |
| `Mapper.LocalTarget` | cloner.py:51-52 | the target starts with the output directory and its basename is the basename of the URL path |
| `Mapper.TargetLayout` | cloner.py:46-52 | the target is `full_dir + "/" + basename`, and `output_dir/category/basename` when the output directory does not end in `/` |
| `Mapper.TargetDependsOnlyOnPath` | cloner.py:39-52 | URLs that share a path get the same category, file name and target, whatever their host, query or fragment |
| `Mapper.DirectoryUrlTarget` | cloner.py:40-52 | an empty path or one ending in `/` goes to `outros` with an empty file name, so the target is that directory followed by `/` |
| `Mapper.UpperCaseExtensionIsOther` | cloner.py:41-44 | the extension tests are case-sensitive: `logo.PNG` and `app.CSS` go to `outros` |
| `SiteFolder.Count` | cloner.py:103 | the number of occurrences that `replace` on this line substitutes (left to right, no overlap): zero exactly when the pattern does not occur |
| `SiteFolder.Replace` | cloner.py:103 | `str.replace`: every character of the result comes from the input or the replacement; its content is fixed by `ReplaceAbsent` and `ReplaceLeftmost` |
| `SiteFolder.ReplaceLength` | cloner.py:103 | the length changes by `len(new) - len(old)` for each occurrence `str.count` finds |
| `SiteFolder.ReplaceAbsent` | cloner.py:103 | a string without the pattern is returned unchanged |
| `SiteFolder.ReplaceAfterFreePrefix` | cloner.py:103 | a prefix in which no occurrence starts is copied and the scan continues after it |
| `SiteFolder.ReplaceLeftmost` | cloner.py:103 | the leftmost occurrence is replaced in place: the text before it is kept, it becomes the replacement, and the scan resumes right after it; with `ReplaceAbsent` this fixes the result for every input |
| `SiteFolder.SiteName` | cloner.py:103 | the folder name is four characters shorter per `"www."` removed from the network location, and introduces no new characters |
| `SiteFolder.SiteNameLeftmost` | cloner.py:103 | the folder name keeps the text before the first `"www."`, drops that occurrence, and continues with the rest of the network location |
| `SiteFolder.SiteNameUnchangedIff` | cloner.py:103 | the folder name equals the network location if and only if that contains no `"www."` |
| `SiteFolder.SiteNameDropsLeadingWww` | cloner.py:101-103 | `www.` + a host without `"www."` gives the host |
| `SiteFolder.SiteNameRemovesInnerWww` | cloner.py:103 | a `"www."` after any label in which no `"www."` starts is removed too (`web.www.example.com` gives `web.example.com`) |
| `SiteFolder.SiteNameNotIdempotent` | cloner.py:103 | the result is not re-scanned: `wwwww.w.` gives `www.`, which a second pass would empty |
| `SiteFolder.OutputDir` | cloner.py:104 | for a `/`-free network location and a working directory not ending in `/`, the folder is `cwd + "/" + site name` |
| `SiteFolder.OutputDirAtRoot` | cloner.py:104 | run from `/`, the folder is `"/" + site name`, with no doubled separator |
| `Scanner.Targets` | cloner.py:132 | the (tag, attribute) pairs the loop visits, in its order: (img, src), (link, href), (script, src) |
| `Scanner.HasRef` | cloner.py:133-135 | the element is found by `find_all(tag)` and `element.get(attr)` is truthy: the attribute is present and non-empty |
| `Scanner.Hits` | cloner.py:133-135 | the positions of the elements that contribute a URL: increasing, in range, and exactly those with the tag and a present, non-empty attribute |
| `Scanner.RefsOf` | cloner.py:133-137 | one pass of the inner loop for a (tag, attribute) pair: at most one URL per element |
| `Scanner.RefsFollowHits` | cloner.py:133-137 | one pass yields one URL per qualifying element, the `k`-th from the `k`-th such element, so duplicates are kept and missing or empty attributes add nothing |
| `Scanner.RefsMembership` | cloner.py:133-137 | a URL is in a pass's output if and only if some qualifying element's attribute joins to it |
| `Scanner.RefsConcat` | cloner.py:133-137 | a pass over two consecutive stretches of the document is the concatenation of the two passes |
| `Scanner.AssetsOver` | cloner.py:132-137 | the list after the passes over a prefix of the pairs, in order: at most one URL per element and pass |
| `Scanner.Assets` | cloner.py:131-137 | the complete asset list: at most three URLs per element (one pass each) |
| `Scanner.AssetsAtMostOnePerElement` | cloner.py:131-137 | an element has one tag name and so qualifies for at most one pass: at most one URL per element |
| `Scanner.AssetsGrouped` | cloner.py:131-137 | the asset list is all image sources, then all link targets, then all script sources |
| `Scanner.CollectAssets` | cloner.py:131-137 | the loop builds exactly that list |
| `Cookies.CookieDict` | cloner.py:115 | the comprehension: the last cookie's name maps to its value, and there are no more entries than cookies |
| `Cookies.CookieDictLastWins` | cloner.py:115 | the dict's keys are the cookie names, and each name maps to the value of its last occurrence |
| `Cookies.CookieDictConcat` | cloner.py:115 | the dict of a concatenated list is the first part's dict overridden by the second's |
| `Cookies.SessionCookies` | cloner.py:127 | no jar exactly when the cookie list is absent or empty; otherwise a non-empty jar keyed by the names, last occurrence winning |
| `Mirror.AssetFile` | cloner.py:140 | the asset's file keeps the basename of the asset's URL path |
| `Mirror.AssetFileLayout` | cloner.py:102-104 | the asset lands at `cwd/site/category/basename`; the asset's own host plays no part |
| `Mirror.AssetFileEmptySite` | cloner.py:102-104 | when the folder name is empty, the asset lands at `cwd/category/basename` |

## Left out

- Login through Selenium (cloner.py:60-84) and the runtime `pip install` of Selenium (cloner.py:23-29): browser automation and process calls. Only the cookie list the login returns is modelled, and only each cookie's `name` and `value`.
- HTTP sessions, GET requests and the status-200 checks (cloner.py:49-50, 114-124): network I/O. So the model does not capture that `save_file` creates the category directory before the request, and writes the file only on status 200.
- On a non-200 root page, `fetch_content` returns `None`. `main` then fails to unpack the result instead of reaching its `if page_content` guard (cloner.py:123-147). This belongs to the network part and is not modelled.
- Directory creation, file writes and the `index.html` write (cloner.py:32-34, 47, 53-54, 119-120): file-system I/O. An empty file name makes the write target a directory; the resulting error is caught and logged in the source, and is not modelled.
- The concurrent download fan-out with `asyncio.as_completed` and the progress bar (cloner.py:139-143): concurrency and UI.
- `zip_directory` (cloner.py:87-95): a directory walk feeding an archive library.
- `Scanner.CollectAssets`: treats `urljoin` as total. In the source, a malformed reference makes `urljoin` raise `ValueError` at cloner.py:136. An example is `<img src="//[x/a.png">`, whose IPv6 bracket is never closed. Nothing in `fetch_assets` catches the error, so it aborts the whole asset pass, and the run ends before the archive is made (cloner.py:153).
- Windows paths: `os.path` is `ntpath` there, which joins with `\` and also splits base names on `\`. The model covers `posixpath` only, so the `/`-layout lemmas do not describe a Windows run.
- HTML parsing by BeautifulSoup and the internals of `urlparse` and `urljoin`. The parse is an input sequence of elements; `urljoin` is a parameter; `urlparse` yields the `ParsedUrl` record. The element sequence holds the tag and attribute names lower-cased, as `html.parser` produces them, so `find_all("img")` matches them exactly.
- The interactive prompts, timing and logging (cloner.py:19-20, 156-172).
- `SiteFolder.Replace`: models `str.replace` only for a non-empty pattern. The source always calls it with the pattern `"www."`.
