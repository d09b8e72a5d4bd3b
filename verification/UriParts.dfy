/** Splitting finds the parts that a URI string is written from. */
module UriParts {
  import opened Uri

  predicate Free(s: string, cs: set<char>) {
    forall x :: 0 <= x < |s| ==> s[x] !in cs
  }

  function Marked(mark: string, part: Option<string>): string {
    if part.None? then "" else mark + part.value
  }

  /** The generic syntax of section 3 of RFC 3986; a query or a fragment may be empty. */
  function Written(scheme: string, authority: Option<string>, path: string, query: Option<string>, fragment: Option<string>): string {
    scheme + ":" + (Marked("//", authority) + (path + (Marked("?", query) + Marked("#", fragment))))
  }

  /** What keeps the parts apart: no part has the mark of a later one, and without an authority the path does not look like one. */
  predicate AreParts(scheme: string, authority: Option<string>, path: string, query: Option<string>) {
    && Free(scheme, {':'}) && Free(path, {'?', '#'})
    && (authority.Some? ==> Free(authority.value, {'/', '?', '#'}) && (path == "" || path[0] == '/'))
    && (authority.None? ==> path != "" && path[0] == '/' && (|path| > 1 ==> path[1] != '/'))
    && (query.Some? ==> Free(query.value, {'#'}))
  }

  lemma FindIs(s: string, c: char, i: nat, j: nat)
    requires i <= j <= |s| && (forall x :: i <= x < j ==> s[x] != c) && (j < |s| ==> s[j] == c)
    ensures FindFrom(s, c, i) == if j < |s| then j else NOT_FOUND
  {
    FindSkips(s, c, i, j);
  }

  lemma {:induction false} AuthorityEndIs(s: string, i: nat, j: nat)
    requires i <= j <= |s| && (forall x :: i <= x < j ==> s[x] !in {'/', '?', '#'}) && (j < |s| ==> s[j] in {'/', '?', '#'})
    ensures AuthorityEnd(s, i) == j
    decreases j - i
  {
    if i < j {
      AuthorityEndIs(s, i + 1, j);
    }
  }

  lemma {:induction false} PathEndIs(s: string, i: nat, j: nat)
    requires i <= j <= |s| && (forall x :: i <= x < j ==> s[x] !in {'?', '#'}) && (j < |s| ==> s[j] in {'?', '#'})
    ensures PathEnd(s, i) == j
    decreases j - i
  {
    if i < j {
      PathEndIs(s, i + 1, j);
    }
  }

  lemma Joint(a: string, b: string)
    ensures (a + b)[..|a|] == a && (a + b)[|a|..] == b
  {
  }

  lemma Slice(s: string, i: nat, part: string, rest: string)
    requires i <= |s| && s[i..] == part + rest
    ensures i + |part| <= |s| && s[i..i + |part|] == part && s[i + |part|..] == rest
  {
    assert s[i..i + |part|] == s[i..][..|part|];
    assert s[i + |part|..] == s[i..][|part|..];
  }

  /** Where each part stands. */
  predicate Stand(s: string, scheme: string, authority: string, path: string, query: string, fragment: string) {
    var i := |scheme| + 1;
    var p := i + |authority|;
    var e := p + |path|;
    var k := e + |query|;
    && k + |fragment| == |s| && s[..|scheme|] == scheme && s[|scheme|] == ':'
    && s[i..p] == authority && s[p..e] == path && s[e..k] == query && s[k..] == fragment
  }

  lemma WrittenStand(scheme: string, authority: string, path: string, query: string, fragment: string)
    ensures Stand(scheme + ":" + (authority + (path + (query + fragment))), scheme, authority, path, query, fragment)
  {
    var s := scheme + ":" + (authority + (path + (query + fragment)));
    var i := |scheme| + 1;
    Joint(scheme + ":", authority + (path + (query + fragment)));
    Slice(s, i, authority, path + (query + fragment));
    Slice(s, i + |authority|, path, query + fragment);
    Slice(s, i + |authority| + |path|, query, fragment);
    Joint(scheme, ":");
    assert s[..i][|scheme|] == ':' && s[..i][..|scheme|] == s[..|scheme|];
  }

  lemma SchemeFound(s: string, scheme: string)
    requires |scheme| < |s| && s[..|scheme|] == scheme && s[|scheme|] == ':' && Free(scheme, {':'})
    ensures SchemeSeparator(s) == |scheme| && ParseScheme(s) == Some(scheme)
  {
    assert forall x :: 0 <= x < |scheme| ==> s[x] == s[..|scheme|][x];
    FindIs(s, ':', 0, |scheme|);
  }

  /** The authority and the path behind the scheme, up to a question mark, a number sign or the end at `e`. */
  lemma HeadFound(s: string, i: nat, authority: Option<string>, p: nat, e: nat, path: string)
    requires 1 <= i <= p <= e <= |s| && SchemeSeparator(s) == i - 1 && (e < |s| ==> s[e] in {'?', '#'})
    requires s[i..p] == Marked("//", authority) && s[p..e] == path && Free(path, {'?', '#'})
    requires authority.Some? ==> Free(authority.value, {'/', '?', '#'}) && (path == "" || path[0] == '/')
    requires authority.None? ==> path != "" && path[0] == '/' && (|path| > 1 ==> path[1] != '/')
    ensures Hierarchical(s) && PathStart(s) == p && PathEnd(s, p) == e && ParseAuthority(s) == authority && ParsePath(s) == Some(path)
  {
    hide AuthorityEnd, PathEnd, SchemeSeparator;
    assert forall x :: p <= x < e ==> s[x] == path[x - p];
    PathEndIs(s, p, e);
    if authority.Some? {
      var a := authority.value;
      assert |s[i..p]| == 2 + |a|;
      assert s[i..p][0] == '/' && s[i..p][1] == '/' && s[i..p][2..] == a;
      assert s[i + 2..p] == a;
      assert forall x :: i + 2 <= x < p ==> s[x] == a[x - (i + 2)];
      AuthorityEndIs(s, i + 2, p);
    } else {
      assert i == p && s[p] == '/';
    }
  }

  /** Where the separators are, when the path ends at `e` and the query at `k`. */
  lemma MarksFound(s: string, e: nat, k: nat, query: Option<string>, fragment: Option<string>)
    requires e <= k <= |s| && s[e..k] == Marked("?", query) && s[k..] == Marked("#", fragment)
    requires query.Some? ==> Free(query.value, {'#'})
    ensures FindFrom(s, '#', e) == if fragment.Some? then k else NOT_FOUND
    ensures if query.Some? then FindFrom(s, '?', e) == e && e + 1 <= k && s[e + 1..k] == query.value else k == e
    ensures if fragment.Some? then k < |s| && s[k + 1..] == fragment.value else k == |s|
  {
    hide FindFrom;
    if query.Some? {
      var q := s[e..k];
      assert q[0] == '?' && q[1..] == query.value;
      assert s[e + 1..k] == q[1..];
      assert forall x :: e + 1 <= x < k ==> s[x] == query.value[x - (e + 1)];
      FindIs(s, '?', e, e);
    }
    if fragment.Some? {
      var f := s[k..];
      assert f[0] == '#' && f[1..] == fragment.value;
      assert s[k + 1..] == f[1..];
    }
    FindIs(s, '#', e, k);
  }

  lemma TailFound(s: string, e: nat, k: nat, query: Option<string>, fragment: Option<string>)
    requires Hierarchical(s) && PathEnd(s, PathStart(s)) == e <= k <= |s|
    requires s[e..k] == Marked("?", query) && s[k..] == Marked("#", fragment) && (query.Some? ==> Free(query.value, {'#'}))
    ensures ParseQuery(s) == query && ParseFragment(s) == fragment
  {
    hide FindFrom, PathEnd, PathStart, SchemeSeparator, Hierarchical, Free, Marked, FragmentSeparator, IndexOf;
    Separators(s);
    MarksFound(s, e, k, query, fragment);
    NothingFound(s, e);
    if query.Some? && fragment.None? {
      assert s[e + 1..] == s[e + 1..k];
    }
  }

  lemma NothingFound(s: string, e: nat)
    requires e <= |s|
    ensures FindFrom(s, '?', e) == NOT_FOUND || (e <= FindFrom(s, '?', e) && FindFrom(s, '?', e) < |s| && s[FindFrom(s, '?', e)] == '?')
  {
  }

  /** Every part is found again. */
  lemma PartsBack(scheme: string, authority: Option<string>, path: string, query: Option<string>, fragment: Option<string>)
    requires AreParts(scheme, authority, path, query)
    ensures var s := Written(scheme, authority, path, query, fragment);
            && ParseScheme(s) == Some(scheme) && ParseAuthority(s) == authority && ParsePath(s) == Some(path)
            && ParseQuery(s) == query && ParseFragment(s) == fragment
  {
    hide ParseScheme, ParseAuthority, ParsePath, ParseQuery, ParseFragment, Hierarchical, PathEnd, PathStart, SchemeSeparator, Free, Marked;
    var s := Written(scheme, authority, path, query, fragment);
    var q, f := Marked("?", query), Marked("#", fragment);
    WrittenStand(scheme, Marked("//", authority), path, q, f);
    var i := |scheme| + 1;
    var p := i + |Marked("//", authority)|;
    var e := p + |path|;
    SchemeFound(s, scheme);
    NextMark(s, e, e + |q|, query, fragment);
    HeadFound(s, i, authority, p, e, path);
    TailFound(s, e, e + |q|, query, fragment);
  }

  lemma NextMark(s: string, e: nat, k: nat, query: Option<string>, fragment: Option<string>)
    requires e <= k <= |s| && s[e..k] == Marked("?", query) && s[k..] == Marked("#", fragment)
    ensures e < |s| ==> s[e] in {'?', '#'}
  {
    if query.Some? {
      assert s[e..k][0] == s[e];
    } else if fragment.Some? {
      assert k == e && s[k..][0] == s[e];
    }
  }

  /** Without a slash behind the scheme there is no authority, path or query, and all up to the fragment is one part. */
  lemma OpaqueParts(scheme: string, ssp: string, fragment: Option<string>)
    requires Free(scheme, {':'}) && Free(ssp, {'#'}) && (ssp == "" || ssp[0] != '/')
    ensures var s := scheme + ":" + (ssp + Marked("#", fragment));
            && !Hierarchical(s) && ParseScheme(s) == Some(scheme) && ParsePath(s).None? && ParseAuthority(s).None?
            && ParseSsp(s) == ssp && ParseFragment(s) == fragment
  {
    hide FindFrom, AuthorityEnd, PathEnd;
    var f := Marked("#", fragment);
    var s := scheme + ":" + (ssp + f);
    var i := |scheme| + 1;
    var k := i + |ssp|;
    Joint(scheme + ":", ssp + f);
    Joint(scheme, ":");
    assert s[..i][|scheme|] == ':' && s[..i][..|scheme|] == s[..|scheme|];
    SchemeFound(s, scheme);
    Slice(s, i, ssp, f);
    assert ssp != "" ==> s[i] == s[i..k][0];
    assert f != "" ==> s[k] == s[k..][0];
    assert forall x :: i <= x < k ==> s[x] == ssp[x - i];
    FindIs(s, '#', |scheme|, k);
    if fragment.Some? {
      assert s[k..][1..] == s[k + 1..] == fragment.value;
    } else {
      assert s[i..] == s[i..k];
    }
  }

  /** A port is part of the authority: only the first colon ends a scheme. */
  lemma WithPort()
    ensures var s := "http://h:80/p?a:b#c";
            && ParseScheme(s) == Some("http") && ParseAuthority(s) == Some("h:80") && ParsePath(s) == Some("/p")
            && ParseQuery(s) == Some("a:b") && ParseFragment(s) == Some("c")
  {
    PartsBack("http", Some("h:80"), "/p", Some("a:b"), Some("c"));
    assert Written("http", Some("h:80"), "/p", Some("a:b"), Some("c")) == "http://h:80/p?a:b#c";
  }
}
