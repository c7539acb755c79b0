/**
 * The cookie jar handed to each HTTP session in cloner.py: the login
 * collaborator's list of `{name, value}` cookies turned into a dictionary by
 * a comprehension, or no cookies at all when the list is absent or empty.
 */
module Cookies {
  import opened Wrappers

  /** A cookie as the login step returns it; only `name` and `value` are read. */
  datatype Cookie = Cookie(name: string, value: string)

  /** No cookie after position `i` has the same name as the one at `i`. */
  predicate LastWithName(cookies: seq<Cookie>, i: nat)
    requires i < |cookies|
  {
    forall j :: i < j < |cookies| ==> cookies[j].name != cookies[i].name
  }

  /**
   * `{cookie['name']: cookie['value'] for cookie in cookies}`, entry by
   * entry: the last cookie's value is always in the dictionary, which has
   * no more entries than the list.
   */
  function CookieDict(cookies: seq<Cookie>): (m: map<string, string>)
    ensures cookies != [] ==>
      cookies[|cookies| - 1].name in m && m[cookies[|cookies| - 1].name] == cookies[|cookies| - 1].value
    ensures |m| <= |cookies|
  {
    if cookies == [] then map[]
    else
      var n := |cookies| - 1;
      CookieDict(cookies[..n])[cookies[n].name := cookies[n].value]
  }

  /**
   * The keys of the dictionary are the cookie names, and a name repeated in
   * the list keeps the value of its last occurrence.
   */
  lemma {:induction false} CookieDictLastWins(cookies: seq<Cookie>)
    ensures CookieDict(cookies).Keys == set c | c in cookies :: c.name
    ensures forall i :: 0 <= i < |cookies| && LastWithName(cookies, i) ==>
      CookieDict(cookies)[cookies[i].name] == cookies[i].value
  {
    if cookies != [] {
      var n := |cookies| - 1;
      var front := cookies[..n];
      assert cookies == front + [cookies[n]];
      CookieDictLastWins(front);
      assert forall i :: 0 <= i < n && LastWithName(cookies, i) ==> LastWithName(front, i);
    }
  }

  /**
   * The dictionary of a list is that of its first part overridden by that
   * of the rest: later cookies win.
   */
  lemma {:induction false} CookieDictConcat(xs: seq<Cookie>, ys: seq<Cookie>)
    ensures CookieDict(xs + ys) == CookieDict(xs) + CookieDict(ys)
    decreases |ys|
  {
    if ys == [] {
      assert xs + ys == xs;
    } else {
      var n := |ys| - 1;
      var last := ys[n];
      assert (xs + ys)[..|xs + ys| - 1] == xs + ys[..n] && (xs + ys)[|xs + ys| - 1] == last;
      CookieDictConcat(xs, ys[..n]);
      var a, b := CookieDict(xs), CookieDict(ys[..n]);
      assert CookieDict(xs + ys) == (a + b)[last.name := last.value];
      assert CookieDict(ys) == b[last.name := last.value];
      assert (a + b)[last.name := last.value] == a + b[last.name := last.value];
    }
  }

  /**
   * `{...} if cookies else None`: no jar when the login produced nothing
   * (absent or empty list), otherwise a non-empty one keyed by the names.
   */
  function SessionCookies(cookies: Option<seq<Cookie>>): (jar: Option<map<string, string>>)
    ensures jar.None? <==> cookies.None? || cookies.value == []
    ensures jar.Some? ==> jar.value != map[] && jar.value.Keys == set c | c in cookies.value :: c.name
    ensures jar.Some? ==> forall i :: 0 <= i < |cookies.value| && LastWithName(cookies.value, i) ==>
      jar.value[cookies.value[i].name] == cookies.value[i].value
  {
    match cookies
    case None => None
    case Some(list) =>
      if list == [] then None
      else
        CookieDictLastWins(list);
        assert list[0].name in CookieDict(list);
        Some(CookieDict(list))
  }

}
