/**
 * The asset list built by `fetch_assets` (cloner.py): for each of the pairs
 * (img, src), (link, href), (script, src) in that order, every element with
 * that tag in document order contributes the page URL joined with the
 * attribute's value, when the attribute is present and non-empty.
 */
module Scanner {

  /** An element of the parsed page: its tag name and its attributes. */
  datatype Element = Element(name: string, attrs: map<string, string>)

  /** The (tag, attribute) pairs the loop visits, in its order. */
  const Targets: seq<(string, string)> := [("img", "src"), ("link", "href"), ("script", "src")]

  /** `e` is found by `find_all(tag)` and `e.get(attr)` is truthy. */
  predicate HasRef(e: Element, tag: string, attr: string) {
    e.name == tag && attr in e.attrs && e.attrs[attr] != ""
  }

  /**
   * The positions, in document order, of the elements that contribute a
   * reference for (`tag`, `attr`): exactly the qualifying ones, increasing.
   */
  function Hits(soup: seq<Element>, tag: string, attr: string): (ix: seq<nat>)
    ensures forall k :: 0 <= k < |ix| ==> ix[k] < |soup| && HasRef(soup[ix[k]], tag, attr)
    ensures forall k, l :: 0 <= k < l < |ix| ==> ix[k] < ix[l]
    ensures forall i :: 0 <= i < |soup| && HasRef(soup[i], tag, attr) ==> i in ix
  {
    if soup == [] then []
    else
      var n := |soup| - 1;
      Hits(soup[..n], tag, attr) + (if HasRef(soup[n], tag, attr) then [n] else [])
  }

  /**
   * The URLs one (`tag`, `attr`) pass appends, each `urljoin(url, value)`:
   * at most one per element.
   */
  function RefsOf(url: string, soup: seq<Element>, tag: string, attr: string,
                  urljoin: (string, string) -> string): (refs: seq<string>)
    ensures |refs| <= |soup|
  {
    if soup == [] then []
    else
      var n := |soup| - 1;
      RefsOf(url, soup[..n], tag, attr, urljoin)
      + (if HasRef(soup[n], tag, attr) then [urljoin(url, soup[n].attrs[attr])] else [])
  }

  /**
   * One pass yields exactly one URL per qualifying element, in document
   * order: its `k`-th entry comes from the `k`-th qualifying element, so
   * repeated references are all kept and elements with a missing or empty
   * attribute contribute nothing.
   */
  lemma {:induction false} RefsFollowHits(url: string, soup: seq<Element>, tag: string, attr: string,
                                          urljoin: (string, string) -> string)
    ensures |RefsOf(url, soup, tag, attr, urljoin)| == |Hits(soup, tag, attr)|
    ensures forall k :: 0 <= k < |Hits(soup, tag, attr)| ==>
      RefsOf(url, soup, tag, attr, urljoin)[k] == urljoin(url, soup[Hits(soup, tag, attr)[k]].attrs[attr])
  {
    if soup != [] {
      var n := |soup| - 1;
      RefsFollowHits(url, soup[..n], tag, attr, urljoin);
      var ix, ix' := Hits(soup, tag, attr), Hits(soup[..n], tag, attr);
      forall k | 0 <= k < |ix'|
        ensures soup[ix[k]] == soup[..n][ix'[k]]
      {
        assert ix[k] == ix'[k];
      }
    }
  }

  /**
   * A URL is in a pass's output exactly when some qualifying element's
   * attribute joins to it.
   */
  lemma RefsMembership(url: string, soup: seq<Element>, tag: string, attr: string,
                       urljoin: (string, string) -> string, u: string)
    ensures u in RefsOf(url, soup, tag, attr, urljoin) <==>
      exists i :: 0 <= i < |soup| && HasRef(soup[i], tag, attr) && u == urljoin(url, soup[i].attrs[attr])
  {
    var refs, ix := RefsOf(url, soup, tag, attr, urljoin), Hits(soup, tag, attr);
    RefsFollowHits(url, soup, tag, attr, urljoin);
    if u in refs {
      var k :| 0 <= k < |refs| && refs[k] == u;
      assert HasRef(soup[ix[k]], tag, attr);
    }
    if exists i :: 0 <= i < |soup| && HasRef(soup[i], tag, attr) && u == urljoin(url, soup[i].attrs[attr]) {
      var i :| 0 <= i < |soup| && HasRef(soup[i], tag, attr) && u == urljoin(url, soup[i].attrs[attr]);
      var k :| 0 <= k < |ix| && ix[k] == i;
      assert refs[k] == u;
    }
  }

  /** A pass over two consecutive stretches of the document is the two passes concatenated. */
  lemma {:induction false} RefsConcat(url: string, xs: seq<Element>, ys: seq<Element>, tag: string, attr: string,
                                      urljoin: (string, string) -> string)
    ensures RefsOf(url, xs + ys, tag, attr, urljoin)
         == RefsOf(url, xs, tag, attr, urljoin) + RefsOf(url, ys, tag, attr, urljoin)
    decreases |ys|
  {
    if ys == [] {
      assert xs + ys == xs;
    } else {
      var n := |ys| - 1;
      assert (xs + ys)[..|xs + ys| - 1] == xs + ys[..n];
      RefsConcat(url, xs, ys[..n], tag, attr, urljoin);
    }
  }

  /** The list after the passes over `pairs`, in their order: at most one URL per element and pass. */
  function AssetsOver(url: string, soup: seq<Element>, pairs: seq<(string, string)>,
                      urljoin: (string, string) -> string): (assets: seq<string>)
    ensures |assets| <= |pairs| * |soup|
  {
    if pairs == [] then []
    else
      var n := |pairs| - 1;
      MulStep(|pairs|, |soup|);
      AssetsOver(url, soup, pairs[..n], urljoin) + RefsOf(url, soup, pairs[n].0, pairs[n].1, urljoin)
  }

  /** `n * m == (n - 1) * m + m`. */
  lemma MulStep(n: nat, m: nat)
    requires n > 0
    ensures n * m == (n - 1) * m + m
  {
  }

  /** The complete asset list of a page: at most three URLs per element, and at most one by `AssetsAtMostOnePerElement`. */
  function Assets(url: string, soup: seq<Element>, urljoin: (string, string) -> string): (assets: seq<string>)
    ensures |assets| <= 3 * |soup|
  {
    AssetsOver(url, soup, Targets, urljoin)
  }

  /** All image sources come first, then all link targets, then all script sources. */
  lemma AssetsGrouped(url: string, soup: seq<Element>, urljoin: (string, string) -> string)
    ensures Assets(url, soup, urljoin)
         == RefsOf(url, soup, "img", "src", urljoin)
          + RefsOf(url, soup, "link", "href", urljoin)
          + RefsOf(url, soup, "script", "src", urljoin)
  {
    var one, two := Targets[..1], Targets[..2];
    assert one[..0] == [] && two[..1] == one && Targets[..2] == two;
    assert AssetsOver(url, soup, one, urljoin) == RefsOf(url, soup, "img", "src", urljoin);
    assert AssetsOver(url, soup, two, urljoin)
        == AssetsOver(url, soup, one, urljoin) + RefsOf(url, soup, "link", "href", urljoin);
  }

  /**
   * An element has one tag name, so it qualifies for at most one of the three
   * passes: the asset list has at most one URL per element.
   */
  lemma {:induction false} AssetsAtMostOnePerElement(url: string, soup: seq<Element>,
                                                     urljoin: (string, string) -> string)
    ensures |Assets(url, soup, urljoin)| <= |soup|
    decreases |soup|
  {
    AssetsGrouped(url, soup, urljoin);
    if soup != [] {
      var n := |soup| - 1;
      AssetsAtMostOnePerElement(url, soup[..n], urljoin);
      AssetsGrouped(url, soup[..n], urljoin);
    }
  }

  /** The loop of `fetch_assets`, appending to `assets` as it goes. */
  method CollectAssets(url: string, soup: seq<Element>, urljoin: (string, string) -> string)
    returns (assets: seq<string>)
    ensures assets == Assets(url, soup, urljoin)
    ensures assets == RefsOf(url, soup, "img", "src", urljoin)
                    + RefsOf(url, soup, "link", "href", urljoin)
                    + RefsOf(url, soup, "script", "src", urljoin)
  {
    assets := [];
    var t := 0;
    while t < |Targets|
      invariant 0 <= t <= |Targets|
      invariant assets == AssetsOver(url, soup, Targets[..t], urljoin)
    {
      var (tag, attr) := Targets[t];
      var i := 0;
      while i < |soup|
        invariant 0 <= i <= |soup|
        invariant assets == AssetsOver(url, soup, Targets[..t], urljoin) + RefsOf(url, soup[..i], tag, attr, urljoin)
      {
        var element := soup[i];
        if element.name == tag {
          var urlAsset := if attr in element.attrs then element.attrs[attr] else "";
          if urlAsset != "" {
            var fullUrl := urljoin(url, urlAsset);
            assets := assets + [fullUrl];
          }
        }
        assert soup[..i + 1][..i] == soup[..i];
        i := i + 1;
      }
      assert soup[..i] == soup;
      assert Targets[..t + 1][..t] == Targets[..t];
      t := t + 1;
    }
    assert Targets[..t] == Targets;
    AssetsGrouped(url, soup, urljoin);
  }

}
