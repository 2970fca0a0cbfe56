/**
 * The OAuth callback of `app/auth/callback/route.ts`: it reads `code` and
 * `next` from the query, exchanges the code for a session, and redirects
 * with `new URL(target, requestUrl.origin)`. Both the exchange and the URL
 * construction run inside one `try`, so a `new URL` that throws ends on the
 * error page like a failed exchange does.
 *
 * The exchange is an abstract outcome. Resolving the target against the
 * request's origin (an `http` or `https` URL) follows the WHATWG URL
 * parser: strip leading and trailing C0 controls and spaces, delete tabs
 * and newlines, read a scheme if there is one, and then tell apart a path
 * on the request's own origin, a reference that brings its own authority
 * or scheme, and a reference the parser rejects because its host is
 * missing or malformed.
 */
module AuthCallback {

  import opened Wrappers
  import opened Text
  import opened Seqs

  /** How `exchangeCodeForSession` ended: it resolved, resolved with an `error` the code ignores, or threw. */
  datatype Exchange = Exchanged | ErrorReturned | Threw

  /** The scheme of the request URL, whose origin is the base every target is resolved against. */
  datatype WebScheme = Http | Https

  /**
   * Where a redirect leads: a path on the request's origin, or a reference
   * that names its own scheme or host, so the request's origin does not
   * decide where it goes.
   */
  datatype Location = SameOrigin(path: string) | ExternalUrl(reference: string)

  /** The code handed to the exchange, if the exchange was attempted, and the redirect. */
  datatype Outcome = Outcome(exchangedCode: Option<string>, location: Location)

  const ErrorPage: string := "/auth/auth-code-error"
  const DefaultNext: string := "/dashboard"

  function SchemeName(s: WebScheme): string {
    match s
    case Http => "http"
    case Https => "https"
  }

  /** The schemes the URL standard calls special; their URLs always have a host. */
  predicate IsSpecialScheme(name: string) {
    name == "http" || name == "https" || name == "ws" || name == "wss" || name == "ftp" || name == "file"
  }

  /** A C0 control or space (U+0000 to U+0020). */
  predicate IsC0OrSpace(c: char) {
    c as int <= 0x20
  }

  predicate IsTabOrNewline(c: char) {
    c == '\t' || c == '\n' || c == '\r'
  }

  /** `/` or `\`, which the parser treats alike for special URLs. */
  predicate IsSlash(c: char) {
    c == '/' || c == '\\'
  }

  predicate IsAsciiAlpha(c: char) {
    'a' <= c <= 'z' || 'A' <= c <= 'Z'
  }

  predicate IsAsciiDigit(c: char) {
    '0' <= c <= '9'
  }

  predicate IsSchemeChar(c: char) {
    IsAsciiAlpha(c) || IsAsciiDigit(c) || c == '+' || c == '-' || c == '.'
  }

  function StripLeading(s: string): (r: string)
    ensures |r| <= |s| && r == s[|s| - |r|..]
    ensures s != [] && !IsC0OrSpace(s[0]) ==> r == s
  {
    if s != [] && IsC0OrSpace(s[0]) then StripLeading(s[1..]) else s
  }

  function StripTrailing(s: string): (r: string)
    ensures |r| <= |s| && r == s[..|r|]
    ensures forall k :: 0 <= k < |s| && !IsC0OrSpace(s[k]) ==> k < |r|
  {
    if s != [] && IsC0OrSpace(s[|s| - 1]) then StripTrailing(s[..|s| - 1]) else s
  }

  function RemoveTabsAndNewlines(s: string): (r: string)
    ensures (forall k :: 0 <= k < |s| ==> !IsTabOrNewline(s[k])) ==> r == s
    ensures s != [] && !IsTabOrNewline(s[0]) ==> r != [] && r[0] == s[0] && r[1..] == RemoveTabsAndNewlines(s[1..])
  {
    if s == [] then []
    else (if IsTabOrNewline(s[0]) then [] else [s[0]]) + RemoveTabsAndNewlines(s[1..])
  }

  /** What the parser looks at once the input has been cleaned. */
  function Preprocess(ref: string): string
  {
    RemoveTabsAndNewlines(StripTrailing(StripLeading(ref)))
  }

  /** Text without C0 controls or spaces at its ends and without tabs or newlines is not changed by cleaning. */
  lemma PreprocessKeepsClean(s: string)
    requires s != [] && !IsC0OrSpace(s[0]) && !IsC0OrSpace(s[|s| - 1])
    requires forall k :: 0 <= k < |s| ==> !IsTabOrNewline(s[k])
    ensures Preprocess(s) == s
  {
    assert StripLeading(s) == s;
    assert StripTrailing(s) == s;
  }

  /** The length of the run of scheme characters starting at `i`, plus `i`. */
  function SchemeEnd(s: string, i: nat): (j: nat)
    requires i <= |s|
    ensures i <= j <= |s|
    ensures forall k :: i <= k < j ==> IsSchemeChar(s[k])
    ensures j < |s| ==> !IsSchemeChar(s[j])
    decreases |s| - i
  {
    if i < |s| && IsSchemeChar(s[i]) then SchemeEnd(s, i + 1) else i
  }

  /** The input starts with `scheme:`. */
  predicate HasScheme(s: string) {
    s != [] && IsAsciiAlpha(s[0]) && SchemeEnd(s, 1) < |s| && s[SchemeEnd(s, 1)] == ':'
  }

  /** The slashes and backslashes the authority state skips before the authority. */
  function SkipSlashes(s: string): (r: string)
    ensures |r| <= |s| && r == s[|s| - |r|..]
    ensures r == [] || !IsSlash(r[0])
    ensures forall k :: 0 <= k < |s| - |r| ==> IsSlash(s[k])
  {
    if s != [] && IsSlash(s[0]) then
      var r := SkipSlashes(s[1..]);
      assert forall k :: 1 <= k < |s| ==> s[k] == s[1..][k - 1];
      r
    else s
  }

  predicate IsAuthorityEnd(c: char) {
    IsSlash(c) || c == '?' || c == '#'
  }

  /** The authority: everything up to the first `/`, `\`, `?` or `#`. */
  function AuthorityOf(s: string): (a: string)
    ensures |a| <= |s| && a == s[..|a|]
    ensures forall k :: 0 <= k < |a| ==> !IsAuthorityEnd(a[k])
    ensures |a| < |s| ==> IsAuthorityEnd(s[|a|])
  {
    if s == [] || IsAuthorityEnd(s[0]) then []
    else
      var a := AuthorityOf(s[1..]);
      assert forall k :: 1 <= k <= |a| ==> ([s[0]] + a)[k] == a[k - 1];
      [s[0]] + a
  }

  /** The host and port of an authority: what follows its last `@`, where the credentials end. */
  function HostPort(authority: string): (hp: string)
    ensures '@' !in hp
    ensures '@' !in authority ==> hp == authority
  {
    var pieces := Split(authority, '@');
    SplitLast(authority, '@');
    pieces[|pieces| - 1]
  }

  /** The host of a host and port that is not an IPv6 literal: everything up to the first `:`. */
  function HostOf(hp: string): (h: string)
    ensures |h| <= |hp| && h == hp[..|h|]
    ensures ':' !in h
    ensures |h| < |hp| ==> hp[|h|] == ':'
  {
    if hp == [] || hp[0] == ':' then []
    else
      var h := HostOf(hp[1..]);
      assert forall k :: 1 <= k <= |h| ==> ([hp[0]] + h)[k] == h[k - 1];
      [hp[0]] + h
  }

  /** A code point that may not appear in a domain: C0 controls, space, DEL and `#/:<>?@[\]^|`. */
  predicate IsForbiddenDomainChar(c: char) {
    c as int <= 0x20 || c as int == 0x7F
    || c == '#' || c == '/' || c == ':' || c == '<' || c == '>' || c == '?' || c == '@'
    || c == '[' || c == '\\' || c == ']' || c == '^' || c == '|'
  }

  predicate AllDigits(p: string) {
    forall k :: 0 <= k < |p| ==> IsAsciiDigit(p[k])
  }

  /** The number a run of decimal digits denotes. */
  function DigitsValue(p: string): (n: nat)
    requires AllDigits(p)
    ensures p == [] ==> n == 0
  {
    if p == [] then 0 else DigitsValue(p[..|p| - 1]) * 10 + (p[|p| - 1] as int - '0' as int)
  }

  /** The port state's test: digits only, and at most 65535. An empty port is allowed. */
  predicate ValidPort(p: string) {
    AllDigits(p) && DigitsValue(p) <= 65535
  }

  /**
   * The host state's and host parser's test of what follows the
   * credentials: a non-empty host, either a bracketed IPv6 literal or a
   * domain free of forbidden code points, optionally followed by `:` and a
   * valid port.
   */
  predicate ValidHostPort(hp: string) {
    if hp == [] then false
    else if hp[0] == '[' then
      ']' in hp && var i := IndexOf(hp, ']');
      i + 1 == |hp| || (hp[i + 1] == ':' && ValidPort(hp[i + 2..]))
    else
      var host := HostOf(hp);
      && host != []
      && (forall k :: 0 <= k < |host| ==> !IsForbiddenDomainChar(host[k]))
      && (|host| == |hp| || ValidPort(hp[|host| + 1..]))
  }

  /** The authority states: skip the slashes, read the authority, and fail unless its host parses. */
  function AuthorityTarget(rest: string, ref: string): (loc: Option<Location>)
    ensures loc.None? || loc == Some(ExternalUrl(ref))
  {
    if ValidHostPort(HostPort(AuthorityOf(SkipSlashes(rest)))) then Some(ExternalUrl(ref)) else None
  }

  /** The relative states: two leading slashes start an authority; anything else is a path on the origin. */
  function RelativeTarget(rest: string, ref: string): (loc: Option<Location>)
    ensures loc.Some? && loc.value.SameOrigin? ==>
      loc.value.path != [] && loc.value.path[0] == '/' && (|loc.value.path| == 1 || !IsSlash(loc.value.path[1]))
  {
    if |rest| >= 2 && IsSlash(rest[0]) && IsSlash(rest[1]) then AuthorityTarget(rest, ref)
    else if rest != [] && IsSlash(rest[0]) then Some(SameOrigin("/" + rest[1..]))
    else Some(SameOrigin("/" + rest))
  }

  /**
   * `new URL(ref, origin)` reduced to where it leads, or `None` when it
   * throws. A scheme equal to the origin's is followed by a relative
   * reference; another special scheme other than `file` by an authority;
   * `file` and non-special schemes lead elsewhere.
   */
  function Resolve(ref: string, base: WebScheme): (loc: Option<Location>)
    ensures loc.Some? && loc.value.SameOrigin? ==>
      loc.value.path != [] && loc.value.path[0] == '/' && (|loc.value.path| == 1 || !IsSlash(loc.value.path[1]))
  {
    var r := Preprocess(ref);
    if HasScheme(r) then
      var end := SchemeEnd(r, 1);
      var scheme := Lower(r[..end]);
      var rest := r[end + 1..];
      if scheme == SchemeName(base) then RelativeTarget(rest, ref)
      else if scheme == "file" || !IsSpecialScheme(scheme) then Some(ExternalUrl(ref))
      else AuthorityTarget(rest, ref)
    else RelativeTarget(r, ref)
  }

  /** The redirect for a resolved target: a target that does not parse ends in the `catch`, on the error page. */
  function RedirectFor(target: Option<Location>): Location
  {
    match target
    case Some(loc) => loc
    case None => SameOrigin(ErrorPage)
  }

  /** The target `GET` resolves: `next` when present and not empty, else `/dashboard`. */
  function NextTarget(next: Option<string>): (t: string)
    ensures next.GetOr("") == "" ==> t == DefaultNext
    ensures next.GetOr("") != "" ==> t == next.value
  {
    if next.GetOr("") == "" then DefaultNext else next.value
  }

  /** `GET` as written: `next` is used whenever it is present and not empty. */
  function Callback(code: Option<string>, next: Option<string>, exchange: Exchange, base: WebScheme): (o: Outcome)
    ensures code.GetOr("") == "" ==> o == Outcome(None, SameOrigin(ErrorPage))
    ensures code.GetOr("") != "" ==> o.exchangedCode == code
    ensures code.GetOr("") != "" && exchange == Threw ==> o.location == SameOrigin(ErrorPage)
    ensures code.GetOr("") != "" && exchange != Threw && next.GetOr("") == "" ==>
      o.location == SameOrigin(DefaultNext)
    ensures code.GetOr("") != "" && exchange != Threw && Resolve(NextTarget(next), base).None? ==>
      o.location == SameOrigin(ErrorPage)
    ensures code.GetOr("") != "" && exchange != Threw && Resolve(NextTarget(next), base).Some? ==>
      o.location == Resolve(NextTarget(next), base).value
  {
    DefaultNextResolves(base);
    if code.GetOr("") == "" then Outcome(None, SameOrigin(ErrorPage))
    else
      match exchange
      case Threw => Outcome(code, SameOrigin(ErrorPage))
      case _ => Outcome(code, RedirectFor(Resolve(NextTarget(next), base)))
  }

  /** The `error` the exchange may return is not looked at: it redirects like a successful exchange. */
  lemma ReturnedErrorIsIgnored(code: Option<string>, next: Option<string>, base: WebScheme)
    ensures Callback(code, next, ErrorReturned, base) == Callback(code, next, Exchanged, base)
  {
  }

  /** Without a scheme, the cleaned input is read as a relative reference. */
  lemma ResolveWithoutScheme(ref: string, base: WebScheme)
    requires !HasScheme(Preprocess(ref))
    ensures Resolve(ref, base) == RelativeTarget(Preprocess(ref), ref)
  {
  }

  /** With the origin's own scheme, what follows the colon is read as a relative reference. */
  lemma ResolveSameScheme(ref: string, base: WebScheme)
    requires HasScheme(Preprocess(ref))
    requires Lower(Preprocess(ref)[..SchemeEnd(Preprocess(ref), 1)]) == SchemeName(base)
    ensures Resolve(ref, base) == RelativeTarget(Preprocess(ref)[SchemeEnd(Preprocess(ref), 1) + 1..], ref)
  {
  }

  /** A letter, digit, `.` or `-`: enough to spell an ordinary host name. */
  predicate IsHostNameChar(c: char) {
    IsAsciiAlpha(c) || IsAsciiDigit(c) || c == '.' || c == '-'
  }

  /** Text without `/`, `\`, `?` or `#` is an authority all the way to its end. */
  lemma {:induction false} AuthorityOfWhole(s: string)
    requires forall k :: 0 <= k < |s| ==> !IsAuthorityEnd(s[k])
    ensures AuthorityOf(s) == s
  {
    if s != [] {
      AuthorityOfWhole(s[1..]);
      assert s == [s[0]] + s[1..];
    }
  }

  /** Text without `:` is a host all the way to its end. */
  lemma {:induction false} HostOfWhole(s: string)
    requires ':' !in s
    ensures HostOf(s) == s
  {
    if s != [] {
      assert s == [s[0]] + s[1..];
      HostOfWhole(s[1..]);
    }
  }

  /** A host without `[`, `:` or forbidden code points, and no port, passes the host parser. */
  lemma PlainHostIsValid(host: string)
    requires host != [] && host[0] != '[' && ':' !in host
    requires forall k :: 0 <= k < |host| ==> !IsForbiddenDomainChar(host[k])
    ensures ValidHostPort(host)
  {
    HostOfWhole(host);
  }

  /** A host name character ends no authority and is allowed in a domain. */
  lemma HostNameCharIsAllowed(c: char)
    requires IsHostNameChar(c)
    ensures !IsAuthorityEnd(c) && !IsForbiddenDomainChar(c) && !IsTabOrNewline(c)
  {
  }

  /** An ordinary host name is a valid authority on its own. */
  lemma HostNameIsValidAuthority(host: string)
    requires host != [] && forall k :: 0 <= k < |host| ==> IsHostNameChar(host[k])
    ensures ValidHostPort(HostPort(AuthorityOf(host)))
  {
    forall k | 0 <= k < |host| ensures !IsAuthorityEnd(host[k]) && !IsForbiddenDomainChar(host[k]) {
      HostNameCharIsAllowed(host[k]);
    }
    AuthorityOfWhole(host);
    assert HostPort(host) == host by {
      assert '@' !in host;
    }
    assert ':' !in host && host[0] != '[';
    PlainHostIsValid(host);
  }

  /** The authority state skips a run of slashes and stops at the first other character. */
  lemma {:induction false} SkipSlashesOver(slashes: string, s: string)
    requires forall k :: 0 <= k < |slashes| ==> IsSlash(slashes[k])
    requires s == [] || !IsSlash(s[0])
    ensures SkipSlashes(slashes + s) == s
  {
    if slashes == [] {
      assert slashes + s == s;
    } else {
      assert (slashes + s)[1..] == slashes[1..] + s;
      SkipSlashesOver(slashes[1..], s);
    }
  }

  /** Two slashes in front of a host name survive the parser's cleaning. */
  lemma HostReferenceIsClean(host: string)
    requires host != [] && forall k :: 0 <= k < |host| ==> IsHostNameChar(host[k])
    ensures Preprocess("//" + host) == "//" + host
  {
    var next := "//" + host;
    assert next[|next| - 1] == host[|host| - 1];
    HostNameCharIsAllowed(host[|host| - 1]);
    assert forall k :: 0 <= k < |next| ==> !IsTabOrNewline(next[k]) by {
      forall k | 0 <= k < |next| ensures !IsTabOrNewline(next[k]) {
        if k >= 2 {
          assert next[k] == host[k - 2];
          HostNameCharIsAllowed(host[k - 2]);
        }
      }
    }
    PreprocessKeepsClean(next);
  }

  /** A clean reference starting with two slashes is read by the authority states. */
  lemma TwoSlashesStartAuthority(ref: string, base: WebScheme)
    requires Preprocess(ref) == ref
    requires |ref| >= 2 && IsSlash(ref[0]) && IsSlash(ref[1])
    ensures Resolve(ref, base) == AuthorityTarget(ref, ref)
  {
    assert !HasScheme(ref) by {
      assert !IsAsciiAlpha(ref[0]);
    }
    ResolveWithoutScheme(ref, base);
  }

  /** Two slashes and a host name are read by the authority states. */
  lemma HostReferenceIsAuthority(host: string, base: WebScheme)
    requires host != [] && forall k :: 0 <= k < |host| ==> IsHostNameChar(host[k])
    ensures Resolve("//" + host, base) == AuthorityTarget("//" + host, "//" + host)
  {
    var next := "//" + host;
    HostReferenceIsClean(host);
    assert next[0] == '/' && next[1] == '/';
    TwoSlashesStartAuthority(next, base);
  }

  /** The authority states accept two slashes and a host name. */
  lemma HostReferenceHasValidAuthority(host: string)
    requires host != [] && forall k :: 0 <= k < |host| ==> IsHostNameChar(host[k])
    ensures AuthorityTarget("//" + host, "//" + host) == Some(ExternalUrl("//" + host))
  {
    HostNameCharIsAllowed(host[0]);
    var slashes := "//";
    assert forall k :: 0 <= k < |slashes| ==> IsSlash(slashes[k]) by {
      assert slashes[0] == '/' && slashes[1] == '/';
    }
    SkipSlashesOver(slashes, host);
    HostNameIsValidAuthority(host);
  }

  /** Two slashes and a host name form a reference to that host. */
  lemma HostReferenceResolvesElsewhere(host: string, base: WebScheme)
    requires host != [] && forall k :: 0 <= k < |host| ==> IsHostNameChar(host[k])
    ensures Resolve("//" + host, base) == Some(ExternalUrl("//" + host))
  {
    HostReferenceHasValidAuthority(host);
    HostReferenceIsAuthority(host, base);
  }

  /**
   * As written, a `next` made of two slashes and a host name
   * (`//evil.example`) is a reference to that host: after a successful
   * sign-in the user is sent off the application's origin.
   */
  lemma SchemeRelativeNextLeavesOrigin(code: string, host: string, exchange: Exchange, base: WebScheme)
    requires code != "" && exchange != Threw
    requires host != [] && forall k :: 0 <= k < |host| ==> IsHostNameChar(host[k])
    ensures Callback(Some(code), Some("//" + host), exchange, base).location == ExternalUrl("//" + host)
  {
    HostReferenceResolvesElsewhere(host, base);
    assert NextTarget(Some("//" + host)) == "//" + host;
  }

  /**
   * A `next` made of slashes only (`//`, `///`) names no host: `new URL`
   * throws and the user lands on the error page.
   */
  lemma HostlessNextFails(code: string, next: string, exchange: Exchange, base: WebScheme)
    requires code != "" && exchange != Threw
    requires |next| >= 2 && forall k :: 0 <= k < |next| ==> IsSlash(next[k])
    ensures Callback(Some(code), Some(next), exchange, base).location == SameOrigin(ErrorPage)
  {
    assert IsSlash(next[0]) && IsSlash(next[1]) && IsSlash(next[|next| - 1]);
    PreprocessKeepsClean(next);
    assert !HasScheme(next);
    ResolveWithoutScheme(next, base);
    assert next + [] == next;
    SkipSlashesOver(next, []);
    assert AuthorityOf([]) == [];
    assert HostPort([]) == [];
    assert AuthorityTarget(next, next) == None;
    assert RelativeTarget(next, next) == None;
    assert Resolve(next, base) == None;
    assert NextTarget(Some(next)) == next;
  }

  /** The scheme run starting at `i` ends at the first character that cannot be part of a scheme. */
  lemma {:induction false} SchemeEndAt(s: string, i: nat, j: nat)
    requires i <= j < |s|
    requires forall k :: i <= k < j ==> IsSchemeChar(s[k])
    requires !IsSchemeChar(s[j])
    ensures SchemeEnd(s, i) == j
    decreases j - i
  {
    if i < j {
      SchemeEndAt(s, i + 1, j);
    }
  }

  /** The origin's scheme, a colon and a clean path survive the parser's cleaning. */
  lemma SchemeReferenceIsClean(name: string, p: string)
    requires name != [] && forall k :: 0 <= k < |name| ==> 'a' <= name[k] <= 'z'
    requires p != [] && !IsC0OrSpace(p[|p| - 1])
    requires forall k :: 0 <= k < |p| ==> !IsTabOrNewline(p[k])
    ensures Preprocess(name + ":" + p) == name + ":" + p
  {
    var r := name + ":" + p;
    assert r[|r| - 1] == p[|p| - 1];
    assert forall k :: 0 <= k < |r| ==> !IsTabOrNewline(r[k]) by {
      forall k | 0 <= k < |r| ensures !IsTabOrNewline(r[k]) {
        if k > |name| {
          assert r[k] == p[k - |name| - 1];
        } else if k < |name| {
          assert r[k] == name[k];
        }
      }
    }
    PreprocessKeepsClean(r);
  }

  /** A run of lower-case letters followed by a colon is read as that scheme. */
  lemma SchemeIsRead(name: string, p: string)
    requires name != [] && forall k :: 0 <= k < |name| ==> 'a' <= name[k] <= 'z'
    ensures HasScheme(name + ":" + p)
    ensures SchemeEnd(name + ":" + p, 1) == |name|
    ensures Lower((name + ":" + p)[..|name|]) == name
  {
    var r := name + ":" + p;
    assert forall k :: 1 <= k < |name| ==> IsSchemeChar(r[k]) by {
      forall k | 1 <= k < |name| ensures IsSchemeChar(r[k]) {
        assert r[k] == name[k];
      }
    }
    assert r[|name|] == ':';
    SchemeEndAt(r, 1, |name|);
    assert r[..|name|] == name;
    LowerKeepsLowercase(name);
    assert r[0] == name[0];
  }

  /**
   * A reference with the origin's own scheme and no slash after the colon
   * stays on the origin: on an https origin, `https:foo` is `/foo`.
   */
  lemma SameSchemeWithoutSlashesStaysOnOrigin(base: WebScheme, p: string)
    requires p != [] && !IsSlash(p[0]) && !IsC0OrSpace(p[|p| - 1])
    requires forall k :: 0 <= k < |p| ==> !IsTabOrNewline(p[k])
    ensures Resolve(SchemeName(base) + ":" + p, base) == Some(SameOrigin("/" + p))
  {
    var name := SchemeName(base);
    var r := name + ":" + p;
    assert name != [] && forall k :: 0 <= k < |name| ==> 'a' <= name[k] <= 'z';
    SchemeReferenceIsClean(name, p);
    SchemeIsRead(name, p);
    ResolveSameScheme(r, base);
    assert r[|name| + 1..] == p;
  }

  /** A `next` that is a path on this origin: one leading `/`, not followed by a second slash, and no tab or newline. */
  predicate SafeNext(next: string) {
    && next != [] && next[0] == '/'
    && (|next| == 1 || !IsSlash(next[1]))
    && forall k :: 0 <= k < |next| ==> !IsTabOrNewline(next[k])
  }

  /** A safe `next` resolves to a path on the request's origin. */
  lemma SafeNextStaysOnOrigin(next: string, base: WebScheme)
    requires SafeNext(next)
    ensures Resolve(next, base).Some? && Resolve(next, base).value.SameOrigin?
  {
    var a := StripLeading(next);
    assert a == next;
    var b := StripTrailing(a);
    assert b != [] && b[0] == '/';
    assert forall k :: 0 <= k < |b| ==> !IsTabOrNewline(b[k]) by {
      forall k | 0 <= k < |b| ensures !IsTabOrNewline(b[k]) {
        assert b[k] == next[k];
      }
    }
    assert Preprocess(next) == b;
    if |b| >= 2 {
      assert b[1] == next[1];
    }
  }

  lemma DefaultNextIsSafe()
    ensures SafeNext(DefaultNext)
  {
    forall k | 0 <= k < |DefaultNext| ensures !IsTabOrNewline(DefaultNext[k]) {
      assert DefaultNext[k] in "/dashboard";
    }
  }

  /** A safe path that does not end in a space or control character resolves to itself. */
  lemma CleanPathResolvesToItself(p: string, base: WebScheme)
    requires SafeNext(p) && !IsC0OrSpace(p[|p| - 1])
    ensures Resolve(p, base) == Some(SameOrigin(p))
  {
    PreprocessKeepsClean(p);
    assert !HasScheme(p) by {
      assert p[0] == '/';
    }
    ResolveWithoutScheme(p, base);
    assert "/" + p[1..] == p;
  }

  /** `/dashboard` resolves to itself on the request's origin. */
  lemma DefaultNextResolves(base: WebScheme)
    ensures Resolve(DefaultNext, base) == Some(SameOrigin(DefaultNext))
  {
    DefaultNextIsSafe();
    assert DefaultNext[|DefaultNext| - 1] == 'd';
    CleanPathResolvesToItself(DefaultNext, base);
  }

  /** The callback with `next` accepted only when it is safe, and `/dashboard` otherwise. */
  function CallbackSafeNext(code: Option<string>, next: Option<string>, exchange: Exchange, base: WebScheme): (o: Outcome)
    ensures o.location.SameOrigin?
    ensures code.GetOr("") == "" ==> o == Outcome(None, SameOrigin(ErrorPage))
    ensures code.GetOr("") != "" ==> o.exchangedCode == code
    ensures code.GetOr("") != "" && exchange == Threw ==> o.location == SameOrigin(ErrorPage)
  {
    var target := if next.Some? && SafeNext(next.value) then next.value else DefaultNext;
    DefaultNextIsSafe();
    SafeNextStaysOnOrigin(target, base);
    if code.GetOr("") == "" then Outcome(None, SameOrigin(ErrorPage))
    else
      match exchange
      case Threw => Outcome(code, SameOrigin(ErrorPage))
      case _ => Outcome(code, RedirectFor(Resolve(target, base)))
  }

  /** The guard changes nothing for a missing, empty or safe `next`. */
  lemma SafeNextAgreesWithCallback(code: Option<string>, next: Option<string>, exchange: Exchange, base: WebScheme)
    requires next.GetOr("") == "" || SafeNext(next.value)
    ensures CallbackSafeNext(code, next, exchange, base) == Callback(code, next, exchange, base)
  {
  }
}
