/** The path of an `Fn-Http-Request-Url`: absolute form, origin form, or a bare name. */
module RequestTarget {
  import opened Text

  predicate SchemeAt(s: string, i: nat) {
    i + 3 <= |s| && s[i] == ':' && s[i + 1] == '/' && s[i + 2] == '/'
  }

  /** Where `://` first occurs at or after `i`, or the length of the text. */
  function SchemeFrom(s: string, i: nat): (k: nat)
    requires i <= |s|
    ensures i <= k <= |s|
    ensures k < |s| ==> SchemeAt(s, k)
    ensures forall j :: i <= j < k ==> !SchemeAt(s, j)
    decreases |s| - i
  {
    if i == |s| || SchemeAt(s, i) then i else SchemeFrom(s, i + 1)
  }

  function SchemeEnd(s: string): nat {
    SchemeFrom(s, 0)
  }

  predicate HasScheme(s: string) {
    SchemeEnd(s) < |s|
  }

  function FromFirstSlash(s: string): string {
    var i := IndexOf(s, '/');
    if i < |s| then s[i..] else "/"
  }

  /** The part before the first `?` or `#`. */
  function BeforeQuery(s: string): (r: string)
    ensures r <= s
    ensures '?' !in r && '#' !in r
    ensures |r| < |s| ==> s[|r|] == '?' || s[|r|] == '#'
  {
    if s == "" || s[0] == '?' || s[0] == '#' then "" else [s[0]] + BeforeQuery(s[1..])
  }

  function RequestPath(value: string): string {
    var trimmed := Trim(value);
    var target := if HasScheme(trimmed) then FromFirstSlash(trimmed[SchemeEnd(trimmed) + 3..]) else trimmed;
    var path := Trim(BeforeQuery(target));
    if path == "" then "/" else if path[0] == '/' then path else "/" + path
  }

  predicate CleanPath(path: string) {
    path != "" && path[0] == '/' && Trimmed(path) && '?' !in path && '#' !in path
  }

  /** The result is a clean path, whatever the header held. */
  lemma PathIsClean(value: string)
    ensures CleanPath(RequestPath(value))
  {
    hide Trim, BeforeQuery, SchemeEnd, FromFirstSlash;
  }

  predicate IsQuery(q: string) {
    q == "" || q[0] == '?' || q[0] == '#'
  }

  lemma {:induction false} BeforeQueryOf(path: string, q: string)
    requires '?' !in path && '#' !in path && IsQuery(q)
    ensures BeforeQuery(path + q) == path
  {
    if path == "" {
      assert path + q == q;
    } else {
      assert path[0] in path;
      assert (path + q)[1..] == path[1..] + q;
      BeforeQueryOf(path[1..], q);
    }
  }

  lemma SchemeEndAt(scheme: string, rest: string)
    requires !HasScheme(scheme)
    ensures SchemeEnd(scheme + "://" + rest) == |scheme|
    ensures (scheme + "://" + rest)[|scheme| + 3..] == rest
  {
    var s := scheme + "://" + rest;
    assert forall i :: 0 <= i < |scheme| ==> s[i] == scheme[i];
    assert SchemeAt(s, |scheme|);
    forall j | 0 <= j < |scheme|
      ensures !SchemeAt(s, j)
    {
      assert !SchemeAt(scheme, j);
    }
  }

  /** Trimming never reaches past the last visible character before the query. */
  lemma TrimKeepsInside(a: string, q: string) returns (r: string)
    requires a != "" && !IsWhite(a[0]) && !IsWhite(a[|a| - 1]) && IsQuery(q)
    ensures r <= q && IsQuery(r) && Trim(a + q) == a + r
  {
    var s := a + q;
    VisibleStart(s);
    hide TrimStart, TrimEnd;
    var t := TrimEnd(s);
    assert s[|a| - 1] == a[|a| - 1] && |t| >= |a|;
    r := t[|a|..];
    assert t == s[..|t|] && s[..|t|] == a + q[..|t| - |a|];
  }

  lemma VisibleStart(s: string)
    requires s != "" && !IsWhite(s[0])
    ensures TrimStart(s) == s
  {}

  lemma AbsoluteEnds(scheme: string, rest: string)
    requires scheme == "" || !IsWhite(scheme[0])
    ensures var a := scheme + "://" + rest;
            && a != "" && !IsWhite(a[0])
            && (rest != "" ==> a[|a| - 1] == rest[|rest| - 1]) && (rest == "" ==> a[|a| - 1] == '/')
  {}

  /** Origin form: without a `://` anywhere, the path comes back and the query is dropped. */
  lemma OriginForm(path: string, q: string)
    requires CleanPath(path) && IsQuery(q) && !HasScheme(path + q)
    ensures RequestPath(path + q) == path
  {
    var r := TrimKeepsInside(path, q);
    assert path + q == path + r + q[|r|..];
    NoSchemeInPrefix(path + r, q[|r|..]);
    BeforeQueryOf(path, r);
    TrimOfTrimmed(path);
    hide Trim, SchemeEnd, BeforeQuery;
  }

  lemma NoSchemeInPrefix(p: string, rest: string)
    requires !HasScheme(p + rest)
    ensures !HasScheme(p)
  {
    var i := SchemeEnd(p);
    var s := p + rest;
    assert forall j :: 0 <= j < |p| ==> s[j] == p[j];
    assert i < |p| ==> SchemeAt(s, i);
  }

  /** Absolute form: the path after the authority comes back, query and fragment dropped. */
  lemma AbsoluteForm(scheme: string, authority: string, path: string, q: string)
    requires !HasScheme(scheme) && (scheme == "" || !IsWhite(scheme[0]))
    requires '/' !in authority && CleanPath(path) && IsQuery(q)
    ensures RequestPath(scheme + "://" + (authority + path) + q) == path
  {
    hide Trim, SchemeFrom, RequestPath;
    var a := scheme + "://" + (authority + path);
    AbsoluteEnds(scheme, authority + path);
    var r := TrimKeepsInside(a, q);
    Extend(scheme, "://", authority + path, r);
    AbsoluteTarget(a + q, scheme, authority, path, r);
  }

  lemma Extend(a: string, b: string, c: string, d: string)
    ensures a + b + c + d == a + b + (c + d)
  {}

  lemma AbsoluteTarget(value: string, scheme: string, authority: string, path: string, r: string)
    requires !HasScheme(scheme) && '/' !in authority && CleanPath(path) && IsQuery(r)
    requires Trim(value) == scheme + "://" + (authority + path + r)
    ensures RequestPath(value) == path
  {
    hide Trim, SchemeFrom, BeforeQuery, FromFirstSlash;
    SchemeEndAt(scheme, authority + path + r);
    FirstSlashAt(authority, path, r);
    BeforeQueryOf(path, r);
    TrimOfTrimmed(path);
  }

  lemma FirstSlashAt(authority: string, path: string, r: string)
    requires '/' !in authority && path != "" && path[0] == '/'
    ensures FromFirstSlash(authority + path + r) == path + r
  {
    var tail := path + r;
    assert authority + path + r == authority + ['/'] + tail[1..];
    IndexOfFirst(authority, '/', tail[1..]);
    assert (authority + path + r)[|authority|..] == tail;
  }

  /** A target with an authority and nothing after it names the root. */
  lemma AuthorityOnly(scheme: string, authority: string)
    requires !HasScheme(scheme) && (scheme == "" || !IsWhite(scheme[0]))
    requires '/' !in authority && Trimmed(authority)
    ensures RequestPath(scheme + "://" + authority) == "/"
  {
    hide Trim, SchemeFrom, BeforeQuery;
    var a := scheme + "://" + authority;
    AbsoluteEnds(scheme, authority);
    TrimOfTrimmed(a);
    SchemeEndAt(scheme, authority);
    RootPath();
  }

  lemma RootPath()
    ensures Trim(BeforeQuery("/")) == "/"
  {
    BeforeQueryOf("/", "");
  }

  /** What extraction makes of everything that follows `://`. */
  function AfterScheme(rest: string): string {
    var path := Trim(BeforeQuery(FromFirstSlash(rest)));
    if path == "" then "/" else path
  }

  lemma SchemeDropped(scheme: string, rest: string)
    requires !HasScheme(scheme) && (scheme == "" || !IsWhite(scheme[0])) && Trimmed(rest)
    ensures RequestPath(scheme + "://" + rest) == AfterScheme(rest)
  {
    hide Trim, SchemeFrom, RequestPath, AfterScheme;
    var a := scheme + "://" + rest;
    AbsoluteEnds(scheme, rest);
    TrimOfTrimmed(a);
    SchemeEndAt(scheme, rest);
    SchemedTarget(a, a, rest);
  }

  lemma SchemedTarget(value: string, trimmed: string, rest: string)
    requires Trim(value) == trimmed && HasScheme(trimmed) && trimmed[SchemeEnd(trimmed) + 3..] == rest
    ensures RequestPath(value) == AfterScheme(rest)
  {
    hide Trim, SchemeEnd, BeforeQuery, FromFirstSlash, Trimmed;
    FirstIsSlash(rest);
    SlashPathLength(FromFirstSlash(rest));
  }

  lemma FirstIsSlash(rest: string)
    ensures FromFirstSlash(rest) != "" && FromFirstSlash(rest)[0] == '/'
  {}

  /**
   An authority is taken to end only at `/` (section 3.2 of RFC 3986 ends it at `?` and `#`
   too), so a target that has a query but no path is not always the root: it is exactly when
   the query holds no slash, or holds nothing but white space between its first slash and the
   next `?` or `#`.
   */
  lemma NoPathIsRootIff(scheme: string, authority: string, q: string)
    requires !HasScheme(scheme) && (scheme == "" || !IsWhite(scheme[0]))
    requires '/' !in authority && IsQuery(q) && Trimmed(authority + q)
    ensures RequestPath(scheme + "://" + (authority + q)) == "/"
       <==> '/' !in q || AllWhite(BeforeQuery(q[IndexOf(q, '/') + 1..]))
    ensures '/' in q ==>
              RequestPath(scheme + "://" + (authority + q)) == Trim(BeforeQuery(q[IndexOf(q, '/')..]))
  {
    SchemeDropped(scheme, authority + q);
    hide Trim, SchemeFrom, BeforeQuery, RequestPath;
    if '/' in q {
      var i := IndexOf(q, '/');
      SlashInQuery(authority, q);
      SlashPathLength(q[i..]);
      OnlySlashLeft(q[i..]);
      assert q[i..][1..] == q[i + 1..];
    } else {
      assert '/' !in authority + q;
      RootPath();
    }
  }

  /** A path is just its slash when nothing but white space stands between the slash and the query. */
  lemma OnlySlashLeft(target: string)
    requires target != "" && target[0] == '/'
    ensures Trim(BeforeQuery(target)) == "/" <==> AllWhite(BeforeQuery(target[1..]))
  {
    var rest := BeforeQuery(target[1..]);
    assert BeforeQuery(target) == "/" + rest;
    hide Trim, BeforeQuery, AllWhite;
    TrimIs("/" + rest, "/");
    assert Trimmed("/");
    if AllWhite(rest) {
      SlashPadded(rest);
    } else if TrimsTo("/" + rest, "/") {
      var before, after :| Padded("/" + rest, before, "/", after);
      SlashUnpadded(rest, before, after);
    }
  }

  lemma SlashPadded(rest: string)
    requires AllWhite(rest)
    ensures Padded("/" + rest, "", "/", rest)
  {
    assert "" + "/" + rest == "/" + rest;
  }

  lemma SlashUnpadded(rest: string, before: string, after: string)
    requires Padded("/" + rest, before, "/", after)
    ensures AllWhite(rest)
  {
    var s := before + "/" + after;
    assert !IsWhite('/');
    WhiteFirst(before, "/" + after);
    Rejoin(before, "/", after);
    assert s[1..] == rest;
    assert "" + "/" + after == "/" + after;
  }

  lemma WhiteFirst(before: string, rest: string)
    requires AllWhite(before)
    ensures before == "" || IsWhite((before + rest)[0])
  {
    assert before == "" || before[0] in before;
  }

  lemma SlashInQuery(authority: string, q: string)
    requires '/' !in authority && '/' in q
    ensures FromFirstSlash(authority + q) == q[IndexOf(q, '/')..]
  {
    var i := IndexOf(q, '/');
    hide IndexOf, FromFirstSlash;
    CutAtSlash(q, i);
    Rejoin(authority, q[..i], q[i..]);
    FirstSlashAt(authority + q[..i], q[i..], "");
    Rejoin(authority + q[..i], q[i..], "");
  }

  lemma CutAtSlash(q: string, i: nat)
    requires i < |q| && q[i] == '/' && forall j :: 0 <= j < i ==> q[j] != '/'
    ensures q[..i] + q[i..] == q && '/' !in q[..i] && q[i..] != "" && q[i..][0] == '/' && q[i..] + "" == q[i..]
  {}

  /** A slash in the query is then taken for the path. */
  lemma QueryMistakenForPath()
    ensures RequestPath("http" + "://" + ("host" + ("?next=" + "/admin"))) == "/admin"
  {
    hide RequestPath, Trim, BeforeQuery, IndexOf, SchemeFrom;
    var start, path := "?next=", "/admin";
    PlainHost(start, path);
    CleanInQuery(start, path);
    NoPathIsRootIff("http", "host", start + path);
  }

  lemma PlainHost(start: string, path: string)
    requires start == "?next=" && path == "/admin"
    ensures !HasScheme("http") && '/' !in "host" && '/' !in start && IsQuery(start + path)
    ensures Trimmed("host" + (start + path)) && CleanPath(path)
  {}

  lemma CleanInQuery(start: string, path: string)
    requires '/' !in start && CleanPath(path)
    ensures var q := start + path; '/' in q && Trim(BeforeQuery(q[IndexOf(q, '/')..])) == path
  {
    hide Trim, BeforeQuery;
    var q := start + path;
    assert q == start + ['/'] + path[1..];
    IndexOfFirst(start, '/', path[1..]);
    assert q[|start|] == '/' && q[|start|..] == path && path + "" == path;
    BeforeQueryOf(path, "");
    TrimOfTrimmed(path);
  }

  /** Extracting the path of an extracted path changes it exactly when it still holds `://`. */
  lemma IdempotentIff(value: string)
    ensures RequestPath(RequestPath(value)) == RequestPath(value) <==> !HasScheme(RequestPath(value))
  {
    var path := RequestPath(value);
    PathIsClean(value);
    hide RequestPath;
    if HasScheme(path) {
      SchemeShortens(path);
    } else {
      assert path + "" == path;
      OriginForm(path, "");
    }
  }

  lemma SchemeShortens(path: string)
    requires CleanPath(path) && HasScheme(path)
    ensures |RequestPath(path)| < |path|
  {
    TrimOfTrimmed(path);
    hide Trim, BeforeQuery;
    assert SchemeEnd(path) != 0;
    var target := FromFirstSlash(path[SchemeEnd(path) + 3..]);
    assert |target| < |path| && target[0] == '/';
    SlashPathLength(target);
  }

  lemma SlashPathLength(target: string)
    requires target != "" && target[0] == '/'
    ensures var p := Trim(BeforeQuery(target)); p != "" && p[0] == '/' && |p| <= |target|
  {
    var b := BeforeQuery(target);
    assert b[0] == '/';
    assert TrimStart(b) == b;
    assert TrimEnd(b) <= b;
    assert TrimEnd(b) != "";
  }

  /** A path segment can hold `://`, and then extraction is not idempotent. */
  lemma NotAlwaysIdempotent()
    ensures RequestPath("http" + "://" + ("host" + "/x://a/y") + "") == "/x://a/y"
    ensures RequestPath("/x://a/y") != "/x://a/y"
  {
    hide RequestPath;
    AbsoluteForm("http", "host", "/x://a/y", "");
    assert SchemeAt("/x://a/y", 2);
    SchemeShortens("/x://a/y");
  }

  // ---- every target ----

  /** The part of a trimmed target that holds the path: everything, or what follows the authority. */
  ghost predicate PathPart(t: string, target: string) {
    || (!HasScheme(t) && target == t)
    || exists scheme, rest :: SchemeSplit(t, scheme, rest) && AfterAuthority(rest, target)
  }

  predicate SchemeSplit(t: string, scheme: string, rest: string) {
    t == scheme + "://" + rest && !HasScheme(scheme)
  }

  ghost predicate AfterAuthority(rest: string, target: string) {
    || ('/' !in rest && target == "/")
    || exists authority :: rest == authority + target && '/' !in authority && target != "" && target[0] == '/'
  }

  lemma AfterAuthorityIs(rest: string, target: string)
    requires AfterAuthority(rest, target)
    ensures FromFirstSlash(rest) == target
  {
    if authority :| rest == authority + target && '/' !in authority && target != "" && target[0] == '/' {
      hide FromFirstSlash;
      FirstSlashAt(authority, target, "");
      assert authority + target + "" == rest && target + "" == target;
    }
  }

  /** What is left of the target is made to start with a slash. */
  function Rooted(path: string): string {
    if path == "" then "/" else if path[0] == '/' then path else "/" + path
  }

  /**
   The path of any target whatever: trim it, take the part after the authority if there is a
   scheme, take that up to its first `?` or `#`, trim it, and start it with a slash.
   */
  lemma RequestPathIs(value: string, t: string, target: string, cut: string, q: string, path: string)
    requires TrimsTo(value, t) && PathPart(t, target)
    requires target == cut + q && '?' !in cut && '#' !in cut && IsQuery(q)
    requires TrimsTo(cut, path)
    ensures RequestPath(value) == Rooted(path)
  {
    hide Trim, TrimsTo, SchemeFrom, BeforeQuery, FromFirstSlash, AfterAuthority;
    TrimIs(value, t);
    TrimIs(cut, path);
    BeforeQueryOf(cut, q);
    if scheme, rest :| SchemeSplit(t, scheme, rest) && AfterAuthority(rest, target) {
      SchemeEndAt(scheme, rest);
      AfterAuthorityIs(rest, target);
      SchemeIsThere(t, scheme, rest);
    }
  }

  lemma SchemeIsThere(t: string, scheme: string, rest: string)
    requires SchemeSplit(t, scheme, rest)
    ensures HasScheme(t)
  {
    SchemeEndAt(scheme, rest);
  }

  /** A bare name is taken as a path under the root. */
  lemma BareName(name: string, q: string)
    requires name != "" && name[0] != '/' && Trimmed(name + q) && Trimmed(name) && !HasScheme(name + q)
    requires '?' !in name && '#' !in name && IsQuery(q)
    ensures RequestPath(name + q) == "/" + name
  {
    hide RequestPath, HasScheme, Trimmed, Trim;
    TrimOfTrimmed(name + q);
    TrimOfTrimmed(name);
    TrimPads(name + q);
    TrimPads(name);
    RequestPathIs(name + q, name + q, name + q, name, q, name);
  }
}
