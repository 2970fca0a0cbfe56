/**
 * The authentication gate of `middleware.ts`: from whether the request
 * carries a session and the request path, it lets the request through,
 * sends a signed-in user away from the auth pages to `/`, or sends a
 * signed-out user to `/auth/signin`, recording the original path in the
 * `redirectedFrom` query parameter.
 */
module Middleware {

  import opened Wrappers
  import opened Text

  /** The parts of a request URL the middleware reads or rewrites; the query is its list of pairs, in order. */
  datatype Url = Url(origin: string, pathname: string, query: seq<(string, string)>)

  /** `NextResponse.next()` or `NextResponse.redirect(url)`. */
  datatype Response = Next | Redirect(location: Url)

  const SignInPath: string := "/auth/signin"
  const HomePath: string := "/"
  const RedirectedFrom: string := "redirectedFrom"

  /** `searchParams.get(key)`: the value of the first pair with that key. */
  function GetParam(query: seq<(string, string)>, key: string): (v: Option<string>)
    ensures v.None? <==> forall k :: 0 <= k < |query| ==> query[k].0 != key
  {
    if query == [] then None
    else if query[0].0 == key then Some(query[0].1)
    else GetParam(query[1..], key)
  }

  /** The pairs whose key is not `key`, in order. */
  function WithoutKey(query: seq<(string, string)>, key: string): (q: seq<(string, string)>)
    ensures forall k :: 0 <= k < |q| ==> q[k].0 != key
  {
    if query == [] then []
    else if query[0].0 == key then WithoutKey(query[1..], key)
    else [query[0]] + WithoutKey(query[1..], key)
  }

  /** The position of the first pair with key `key`, or the length of the query when there is none. */
  function FirstKeyIndex(query: seq<(string, string)>, key: string): (i: nat)
    ensures i <= |query|
    ensures forall k :: 0 <= k < i ==> query[k].0 != key
    ensures i < |query| ==> query[i].0 == key
  {
    if query == [] || query[0].0 == key then 0 else FirstKeyIndex(query[1..], key) + 1
  }

  /**
   * `searchParams.set(key, value)`: the first pair with that key gets the
   * new value and every later pair with that key is removed; when there is
   * none the pair is appended. So exactly one pair carries the key, it sits
   * where the first one did (or at the end), reading the key gives the new
   * value, and the pairs with other keys are kept, in their order.
   */
  function SetParam(query: seq<(string, string)>, key: string, value: string): (r: seq<(string, string)>)
    ensures GetParam(r, key) == Some(value)
    ensures WithoutKey(r, key) == WithoutKey(query, key)
    ensures |r| == |WithoutKey(r, key)| + 1
    ensures FirstKeyIndex(r, key) == FirstKeyIndex(query, key)
    ensures r[..FirstKeyIndex(query, key)] == query[..FirstKeyIndex(query, key)]
    ensures GetParam(query, key).None? ==> r == query + [(key, value)]
  {
    if query == [] then
      [(key, value)]
    else if query[0].0 == key then
      WithoutAbsentKey(WithoutKey(query[1..], key), key);
      [(key, value)] + WithoutKey(query[1..], key)
    else
      var rest := SetParam(query[1..], key, value);
      assert query == [query[0]] + query[1..];
      ConsOtherKey(query[0], query[1..], key);
      ConsOtherKey(query[0], rest, key);
      [query[0]] + rest
  }

  /** Putting a pair with another key in front shifts the first index of `key` by one and keeps it in the rest. */
  lemma ConsOtherKey(p: (string, string), s: seq<(string, string)>, key: string)
    requires p.0 != key
    ensures GetParam([p] + s, key) == GetParam(s, key)
    ensures WithoutKey([p] + s, key) == [p] + WithoutKey(s, key)
    ensures FirstKeyIndex([p] + s, key) == FirstKeyIndex(s, key) + 1
    ensures ([p] + s)[..FirstKeyIndex(s, key) + 1] == [p] + s[..FirstKeyIndex(s, key)]
  {
    assert ([p] + s)[1..] == s;
  }

  /** Removing a key that does not occur changes nothing. */
  lemma {:induction false} WithoutAbsentKey(query: seq<(string, string)>, key: string)
    requires forall k :: 0 <= k < |query| ==> query[k].0 != key
    ensures WithoutKey(query, key) == query
  {
    if query != [] {
      WithoutAbsentKey(query[1..], key);
    }
  }

  lemma {:induction false} GetWithoutKey(query: seq<(string, string)>, key: string, other: string)
    requires other != key
    ensures GetParam(WithoutKey(query, key), other) == GetParam(query, other)
  {
    if query != [] {
      GetWithoutKey(query[1..], key, other);
    }
  }

  /** After `set`, `get` of every other key reads as before. */
  lemma {:induction false} SetThenGet(query: seq<(string, string)>, key: string, value: string, other: string)
    requires other != key
    ensures GetParam(SetParam(query, key, value), other) == GetParam(query, other)
  {
    if query != [] {
      SetThenGet(query[1..], key, value, other);
      if query[0].0 == key {
        GetWithoutKey(query[1..], key, other);
      }
    }
  }

  /** `pathname.startsWith('/auth')`; a plain prefix test. */
  predicate IsAuthPage(path: string) {
    StartsWith(path, "/auth")
  }

  /** `pathname.startsWith('/api')`. */
  predicate IsApiPage(path: string) {
    StartsWith(path, "/api")
  }

  /** The middleware's decision for a request. */
  function Decide(hasSession: bool, url: Url): (r: Response)
    ensures hasSession && IsAuthPage(url.pathname) ==> r == Redirect(url.(pathname := HomePath))
    ensures !hasSession && !IsAuthPage(url.pathname) && !IsApiPage(url.pathname) ==>
      r.Redirect? && r.location.origin == url.origin && r.location.pathname == SignInPath
      && r.location.query == SetParam(url.query, RedirectedFrom, url.pathname)
      && GetParam(r.location.query, RedirectedFrom) == Some(url.pathname)
    ensures (hasSession && !IsAuthPage(url.pathname)) || (!hasSession && (IsAuthPage(url.pathname) || IsApiPage(url.pathname))) ==>
      r == Next
  {
    if hasSession && IsAuthPage(url.pathname) then
      Redirect(url.(pathname := HomePath))
    else if !hasSession && !IsAuthPage(url.pathname) && !IsApiPage(url.pathname) then
      Redirect(url.(pathname := SignInPath, query := SetParam(url.query, RedirectedFrom, url.pathname)))
    else Next
  }

  /**
   * A redirect never leaves the request's origin, and keeps every query
   * pair whose key is not `redirectedFrom`, repeats and order included.
   */
  lemma RedirectKeepsOriginAndQuery(hasSession: bool, url: Url, key: string)
    requires Decide(hasSession, url).Redirect?
    ensures Decide(hasSession, url).location.origin == url.origin
    ensures WithoutKey(Decide(hasSession, url).location.query, RedirectedFrom) == WithoutKey(url.query, RedirectedFrom)
    ensures key != RedirectedFrom ==> GetParam(Decide(hasSession, url).location.query, key) == GetParam(url.query, key)
  {
    if !hasSession && key != RedirectedFrom {
      SetThenGet(url.query, RedirectedFrom, url.pathname, key);
    }
  }

  /** The target of a redirect is let through for the same session: the gate cannot loop. */
  lemma NoRedirectLoop(hasSession: bool, url: Url)
    requires Decide(hasSession, url).Redirect?
    ensures Decide(hasSession, Decide(hasSession, url).location) == Next
  {
    if hasSession {
      assert !IsAuthPage(HomePath);
    } else {
      assert SignInPath[..5] == "/auth";
    }
  }

  /** The auth test is a prefix test: `/authors` counts as an auth page and is closed to signed-in users. */
  lemma AuthorsCountsAsAuthPage(url: Url)
    requires url.pathname == "/authors"
    ensures Decide(true, url) == Redirect(url.(pathname := HomePath))
  {
    assert url.pathname[..5] == "/auth";
  }
}
