/** Splitting a URI string and putting it together again. */
module Uri {

  const NOT_FOUND := -1
  const NOT_CALCULATED := -2

  datatype Option<T> = None | Some(value: T)

  datatype Cache<T> = NotCached | Cached(value: T)

  // ---------- splitting ----------

  function FindFrom(s: string, c: char, i: nat): (r: int)
    requires i <= |s|
    ensures r == NOT_FOUND || (i <= r < |s| && s[r] == c)
    decreases |s| - i
  {
    if i == |s| then NOT_FOUND else if s[i] == c then i else FindFrom(s, c, i + 1)
  }

  /** String.indexOf, which takes a negative start for zero. */
  function IndexOf(s: string, c: char, from: int): (r: int)
    ensures r == NOT_FOUND || (0 <= r < |s| && from <= r && s[r] == c)
  {
    if from > |s| then NOT_FOUND else FindFrom(s, c, if from < 0 then 0 else from)
  }

  function SchemeSeparator(s: string): (r: int)
    ensures -1 <= r < |s|
  {
    IndexOf(s, ':', 0)
  }

  function FragmentSeparator(s: string): int {
    IndexOf(s, '#', SchemeSeparator(s))
  }

  predicate Hierarchical(s: string) {
    var ssi := SchemeSeparator(s);
    ssi == NOT_FOUND || (|s| != ssi + 1 && s[ssi + 1] == '/')
  }

  function ParseScheme(s: string): Option<string> {
    var ssi := SchemeSeparator(s);
    if ssi == NOT_FOUND then None else Some(s[..ssi])
  }

  function ParseSsp(s: string): string {
    var ssi, fsi := SchemeSeparator(s), FragmentSeparator(s);
    if fsi == NOT_FOUND then s[ssi + 1..] else s[ssi + 1..fsi]
  }

  predicate HasAuthority(s: string) {
    var ssi := SchemeSeparator(s);
    |s| > ssi + 2 && s[ssi + 1] == '/' && s[ssi + 2] == '/'
  }

  function AuthorityEnd(s: string, i: nat): (e: nat)
    requires i <= |s|
    ensures i <= e <= |s|
    decreases |s| - i
  {
    if i == |s| || s[i] == '/' || s[i] == '?' || s[i] == '#' then i else AuthorityEnd(s, i + 1)
  }

  function PathEnd(s: string, i: nat): (e: nat)
    requires i <= |s|
    ensures i <= e <= |s|
    decreases |s| - i
  {
    if i == |s| || s[i] == '?' || s[i] == '#' then i else PathEnd(s, i + 1)
  }

  function ParseAuthority(s: string): Option<string> {
    var ssi := SchemeSeparator(s);
    if HasAuthority(s) then Some(s[ssi + 3..AuthorityEnd(s, ssi + 3)]) else None
  }

  /** Where the path starts: behind the authority, or behind the scheme. */
  function PathStart(s: string): (p: nat)
    ensures p <= |s|
  {
    var ssi := SchemeSeparator(s);
    if HasAuthority(s) then AuthorityEnd(s, ssi + 3) else ssi + 1
  }

  function ParsePath(s: string): Option<string> {
    if Hierarchical(s) then Some(s[PathStart(s)..PathEnd(s, PathStart(s))]) else None
  }

  function ParseQuery(s: string): Option<string> {
    var qsi, fsi := IndexOf(s, '?', SchemeSeparator(s)), FragmentSeparator(s);
    if qsi == NOT_FOUND then None
    else if fsi == NOT_FOUND then Some(s[qsi + 1..])
    else if fsi < qsi then None
    else Some(s[qsi + 1..fsi])
  }

  function ParseFragment(s: string): Option<string> {
    var fsi := FragmentSeparator(s);
    if fsi == NOT_FOUND then None else Some(s[fsi + 1..])
  }

  // ---------- building ----------

  /** A part without a value is one with null values; a part can be empty, too. */
  datatype Built =
    | Opaque(scheme: string, ssp: string, fragment: Option<string>)
    | Parts(schemeOrNull: Option<string>, authority: Option<string>, path: string, query: Option<string>, fragment: Option<string>)

  predicate Empty(part: Option<string>) {
    part.None? || part.value == ""
  }

  function MakeAbsolute(path: string): string {
    if path == "" || path[0] == '/' then path else "/" + path
  }

  /** appendSspTo */
  function SspString(authority: Option<string>, path: string, query: Option<string>): string {
    (if authority.None? then "" else "//" + authority.value) + path + (if Empty(query) then "" else "?" + query.value)
  }

  /** toString of the two kinds of URI */
  function ToString(u: Built): string {
    match u
    case Opaque(scheme, ssp, fragment) =>
      scheme + ":" + ssp + (if Empty(fragment) then "" else "#" + fragment.value)
    case Parts(scheme, authority, path, query, fragment) =>
      (if scheme.None? then "" else scheme.value + ":") + SspString(authority, path, query)
      + (if Empty(fragment) then "" else "#" + fragment.value)
  }

  /** What is built from the parts of `s`. */
  function Rebuilt(s: string): Built {
    var ssi := SchemeSeparator(s);
    if Hierarchical(s) then
      var scheme, authority, path := ParseScheme(s), ParseAuthority(s), ParsePath(s).value;
      Parts(scheme, authority, if scheme.Some? || authority.Some? then MakeAbsolute(path) else path, ParseQuery(s), ParseFragment(s))
    else Opaque(s[..ssi], ParseSsp(s), ParseFragment(s))
  }

  // ---------- the parts make up the string ----------

  lemma {:induction false} FindSkips(s: string, c: char, i: nat, j: nat)
    requires i <= j <= |s| && forall x :: i <= x < j ==> s[x] != c
    ensures FindFrom(s, c, i) == FindFrom(s, c, j)
    decreases j - i
  {
    if i < j {
      FindSkips(s, c, i + 1, j);
    }
  }

  lemma {:induction false} AuthorityChars(s: string, i: nat)
    requires i <= |s|
    ensures var e := AuthorityEnd(s, i);
            && (forall x :: i <= x < e ==> s[x] != '/' && s[x] != '?' && s[x] != '#')
            && (e < |s| ==> s[e] == '/' || s[e] == '?' || s[e] == '#')
    decreases |s| - i
  {
    if AuthorityEnd(s, i) != i {
      AuthorityChars(s, i + 1);
    }
  }

  lemma {:induction false} PathChars(s: string, i: nat)
    requires i <= |s|
    ensures var e := PathEnd(s, i);
            && (forall x :: i <= x < e ==> s[x] != '?' && s[x] != '#')
            && (e < |s| ==> s[e] == '?' || s[e] == '#')
    decreases |s| - i
  {
    if PathEnd(s, i) != i {
      PathChars(s, i + 1);
    }
  }

  /** Behind the path comes the query, the fragment, or nothing. */
  lemma Separators(s: string)
    requires Hierarchical(s)
    ensures var ssi, p := SchemeSeparator(s), PathStart(s); var e := PathEnd(s, p);
            && ssi + 1 <= p <= e
            && (forall x :: ssi + 1 <= x < e ==> s[x] != '?' && s[x] != '#')
            && (e < |s| ==> s[e] == '?' || s[e] == '#')
            && FragmentSeparator(s) == FindFrom(s, '#', e)
            && IndexOf(s, '?', ssi) == FindFrom(s, '?', e)
  {
    var ssi, p := SchemeSeparator(s), PathStart(s);
    var e := PathEnd(s, p);
    if HasAuthority(s) {
      AuthorityChars(s, ssi + 3);
    }
    PathChars(s, p);
    var from := if ssi < 0 then 0 else ssi;
    FindSkips(s, '#', from, e);
    FindSkips(s, '?', from, e);
  }

  /** The path need not be made absolute: it is already. */
  lemma PathIsAbsolute(s: string)
    requires Hierarchical(s) && (ParseScheme(s).Some? || ParseAuthority(s).Some?)
    ensures MakeAbsolute(ParsePath(s).value) == ParsePath(s).value
  {
    var ssi := SchemeSeparator(s);
    if HasAuthority(s) {
      AuthorityChars(s, ssi + 3);
    }
  }

  /** The empty query or fragment that is lost, because its separator is not written. */
  predicate LosesQuery(s: string) {
    Hierarchical(s) && ParseQuery(s) == Some("")
  }

  predicate LosesFragment(s: string) {
    ParseFragment(s) == Some("")
  }

  lemma SchemeFirst(s: string)
    ensures FragmentSeparator(s) == NOT_FOUND || SchemeSeparator(s) < FragmentSeparator(s) < |s|
  {
    hide FindFrom;
  }

  /** The head of a hierarchical URI: everything up to the path's end. */
  lemma HeadBack(s: string)
    requires Hierarchical(s)
    ensures var u := Rebuilt(s); var e := PathEnd(s, PathStart(s));
            (if u.schemeOrNull.None? then "" else u.schemeOrNull.value + ":")
            + ((if u.authority.None? then "" else "//" + u.authority.value) + u.path) == s[..e]
  {
    hide *;
    HeadParts(s);
    Separators(s);
    Spliced(s, SchemeSeparator(s) + 1, PathStart(s), PathEnd(s, PathStart(s)));
  }

  lemma Spliced(s: string, i: nat, j: nat, k: nat)
    requires i <= j <= k <= |s|
    ensures s[..i] + (s[i..j] + s[j..k]) == s[..k]
  {
  }

  lemma HeadParts(s: string)
    requires Hierarchical(s)
    ensures var u, ssi, p := Rebuilt(s), SchemeSeparator(s), PathStart(s);
            && u.Parts? && ssi + 1 <= p
            && (if u.schemeOrNull.None? then "" else u.schemeOrNull.value + ":") == s[..ssi + 1]
            && (if u.authority.None? then "" else "//" + u.authority.value) == s[ssi + 1..p]
            && u.path == s[p..PathEnd(s, p)]
  {
    hide MakeAbsolute, ParseQuery, ParseFragment, PathEnd, AuthorityEnd, FindFrom;
    if ParseScheme(s).Some? || ParseAuthority(s).Some? {
      PathIsAbsolute(s);
    }
  }

  /** How a string goes on behind the path, which ends at `e`. */
  predicate TailShape(s: string, e: nat, query: Option<string>, fragment: Option<string>, fsi: int) {
    if e >= |s| then e == |s| && query.None? && fragment.None?
    else if s[e] == '#' then query.None? && fragment == Some(s[e + 1..])
    else if fsi == NOT_FOUND then s[e] == '?' && query == Some(s[e + 1..]) && fragment.None?
    else s[e] == '?' && e < fsi < |s| && s[fsi] == '#' && query == Some(s[e + 1..fsi]) && fragment == Some(s[fsi + 1..])
  }

  lemma TailParts(s: string)
    requires Hierarchical(s)
    ensures TailShape(s, PathEnd(s, PathStart(s)), ParseQuery(s), ParseFragment(s), FragmentSeparator(s))
  {
    hide PathEnd, PathStart, SchemeSeparator, FragmentSeparator, IndexOf, Hierarchical;
    Separators(s);
  }

  lemma TailJoined(s: string, e: nat, query: Option<string>, fragment: Option<string>, fsi: int)
    requires TailShape(s, e, query, fragment, fsi)
    ensures var tail := (if Empty(query) then "" else "?" + query.value) + (if Empty(fragment) then "" else "#" + fragment.value);
            && |tail| == |s| - e - (if query == Some("") then 1 else 0) - (if fragment == Some("") then 1 else 0)
            && (query != Some("") && fragment != Some("") ==> tail == s[e..])
  {
    if e < |s| && s[e] == '?' && fsi != NOT_FOUND {
      assert s[e..] == ("?" + s[e + 1..fsi]) + ("#" + s[fsi + 1..]);
    }
  }

  /** The tail: the query and the fragment, unless they are there and empty. */
  lemma TailBack(s: string)
    requires Hierarchical(s)
    ensures var q, f, e := ParseQuery(s), ParseFragment(s), PathEnd(s, PathStart(s));
            var tail := (if Empty(q) then "" else "?" + q.value) + (if Empty(f) then "" else "#" + f.value);
            && |tail| == |s| - e - (if LosesQuery(s) then 1 else 0) - (if LosesFragment(s) then 1 else 0)
            && (!LosesQuery(s) && !LosesFragment(s) ==> tail == s[e..])
  {
    hide PathEnd, PathStart, ParseQuery, ParseFragment, FragmentSeparator, TailShape, Empty;
    TailParts(s);
    TailJoined(s, PathEnd(s, PathStart(s)), ParseQuery(s), ParseFragment(s), FragmentSeparator(s));
  }

  /**
   Splitting a string and putting it together through buildUpon, build and toString gives the string back
   exactly when it has no empty query, in a hierarchical URI, and no empty fragment; each of these costs its mark.
   */
  lemma RoundTrip(s: string)
    ensures ToString(Rebuilt(s)) == s <==> !LosesQuery(s) && !LosesFragment(s)
    ensures |ToString(Rebuilt(s))| == |s| - (if LosesQuery(s) then 1 else 0) - (if LosesFragment(s) then 1 else 0)
  {
    var u, ssi, fsi := Rebuilt(s), SchemeSeparator(s), FragmentSeparator(s);
    if Hierarchical(s) {
      HierarchicalBack(s);
    } else if fsi == NOT_FOUND {
      assert ToString(u) == s[..ssi] + ":" + s[ssi + 1..] == s;
    } else {
      OpaqueBack(s);
    }
  }

  /** A question mark with nothing behind it is lost, and so is a number sign. */
  lemma LostMarks()
    ensures ToString(Rebuilt("a?")) != "a?" && ToString(Rebuilt("b:c#")) != "b:c#"
  {
    var q, f := "a?", "b:c#";
    assert FindFrom(q, ':', 0) == NOT_FOUND && FindFrom(q, '?', 0) == 1 && FindFrom(q, '#', 0) == NOT_FOUND;
    assert SchemeSeparator(q) == -1 && q[2..] == "";
    assert LosesQuery(q);
    assert FindFrom(f, ':', 0) == 1 && FindFrom(f, '#', 1) == 3;
    assert SchemeSeparator(f) == 1 && f[4..] == "";
    assert LosesFragment(f);
    RoundTrip("a?");
    RoundTrip("b:c#");
  }

  lemma OpaqueBack(s: string)
    requires !Hierarchical(s) && FragmentSeparator(s) != NOT_FOUND
    ensures ToString(Rebuilt(s)) == s <==> !LosesFragment(s)
    ensures |ToString(Rebuilt(s))| == |s| - if LosesFragment(s) then 1 else 0
  {
    hide FindFrom, PathEnd, MakeAbsolute;
    var ssi, fsi := SchemeSeparator(s), FragmentSeparator(s);
    assert ssi < fsi;
    assert s[..ssi] + ":" + s[ssi + 1..fsi] == s[..fsi];
    if fsi + 1 == |s| {
      assert |ToString(Rebuilt(s))| == fsi;
    } else {
      assert ToString(Rebuilt(s)) == s[..fsi] + ("#" + s[fsi + 1..]) == s;
    }
  }

  lemma HierarchicalBack(s: string)
    requires Hierarchical(s)
    ensures ToString(Rebuilt(s)) == s <==> !LosesQuery(s) && !LosesFragment(s)
    ensures |ToString(Rebuilt(s))| == |s| - (if LosesQuery(s) then 1 else 0) - (if LosesFragment(s) then 1 else 0)
  {
    hide ParseQuery, ParseFragment, ParsePath, ParseScheme, ParseAuthority, PathEnd, PathStart, MakeAbsolute, Hierarchical, Rebuilt, SchemeSeparator;
    HeadBack(s);
    TailBack(s);
    RebuiltParts(s);
    var u, e := Rebuilt(s), PathEnd(s, PathStart(s));
    var a := if u.schemeOrNull.None? then "" else u.schemeOrNull.value + ":";
    var b := if u.authority.None? then "" else "//" + u.authority.value;
    var c := if Empty(u.query) then "" else "?" + u.query.value;
    var d := if Empty(u.fragment) then "" else "#" + u.fragment.value;
    Regroup(a, b, u.path, c, d);
    assert ToString(u) == s[..e] + (c + d);
    assert s == s[..e] + s[e..];
  }

  lemma RebuiltParts(s: string)
    requires Hierarchical(s)
    ensures Rebuilt(s).Parts? && Rebuilt(s).query == ParseQuery(s) && Rebuilt(s).fragment == ParseFragment(s)
  {
    hide ParseQuery, ParseFragment;
  }

  lemma Regroup(a: string, b: string, p: string, c: string, d: string)
    ensures a + (b + p + c) + d == (a + (b + p)) + (c + d)
  {
  }

  // ---------- the classes ----------

  /** A URI that is kept as a string; its parts are parsed when they are asked for, and kept. */
  class StringUri {
    const uriString: string
    var cachedSsi: int
    var cachedFsi: int
    var scheme: Cache<Option<string>>
    var ssp: Cache<string>
    var authority: Cache<Option<string>>
    var path: Cache<Option<string>>
    var query: Cache<Option<string>>
    var fragment: Cache<Option<string>>

    /** Whatever is kept is what parsing gives. */
    ghost predicate Valid()
      reads this
    {
      && (cachedSsi == NOT_CALCULATED || cachedSsi == SchemeSeparator(uriString))
      && (cachedFsi == NOT_CALCULATED || cachedFsi == FragmentSeparator(uriString))
      && (scheme.Cached? ==> scheme.value == ParseScheme(uriString))
      && (ssp.Cached? ==> ssp.value == ParseSsp(uriString))
      && (authority.Cached? ==> authority.value == ParseAuthority(uriString))
      && (path.Cached? ==> path.value == ParsePath(uriString))
      && (query.Cached? ==> query.value == ParseQuery(uriString))
      && (fragment.Cached? ==> fragment.value == ParseFragment(uriString))
    }

    constructor (uriString: string)
      ensures Valid() && this.uriString == uriString
    {
      this.uriString := uriString;
      cachedSsi, cachedFsi := NOT_CALCULATED, NOT_CALCULATED;
      scheme, ssp, authority, path, query, fragment := NotCached, NotCached, NotCached, NotCached, NotCached, NotCached;
    }

    method FindSchemeSeparator() returns (ssi: int)
      requires Valid()
      modifies `cachedSsi
      ensures Valid() && ssi == SchemeSeparator(uriString)
    {
      if cachedSsi == NOT_CALCULATED {
        cachedSsi := IndexOf(uriString, ':', 0);
      }
      return cachedSsi;
    }

    method FindFragmentSeparator() returns (fsi: int)
      requires Valid()
      modifies `cachedSsi, `cachedFsi
      ensures Valid() && fsi == FragmentSeparator(uriString)
    {
      if cachedFsi == NOT_CALCULATED {
        var ssi := FindSchemeSeparator();
        cachedFsi := IndexOf(uriString, '#', ssi);
      }
      return cachedFsi;
    }

    method IsHierarchical() returns (hierarchical: bool)
      requires Valid()
      modifies `cachedSsi
      ensures Valid() && hierarchical == Hierarchical(uriString)
    {
      var ssi := FindSchemeSeparator();
      if ssi == NOT_FOUND {
        return true;
      }
      if |uriString| == ssi + 1 {
        return false;
      }
      return uriString[ssi + 1] == '/';
    }

    method GetScheme() returns (r: Option<string>)
      requires Valid()
      modifies `cachedSsi, `scheme
      ensures Valid() && r == ParseScheme(uriString)
    {
      if scheme.NotCached? {
        var ssi := FindSchemeSeparator();
        scheme := Cached(if ssi == NOT_FOUND then None else Some(uriString[..ssi]));
      }
      return scheme.value;
    }

    method GetSsp() returns (r: string)
      requires Valid()
      modifies `cachedSsi, `cachedFsi, `ssp
      ensures Valid() && r == ParseSsp(uriString)
    {
      hide ParseScheme, ParseAuthority, ParsePath, ParseQuery, ParseFragment, IndexOf, SchemeSeparator, FragmentSeparator;
      SchemeFirst(uriString);
      if ssp.NotCached? {
        var ssi := FindSchemeSeparator();
        var fsi := FindFragmentSeparator();
        ssp := Cached(if fsi == NOT_FOUND then uriString[ssi + 1..] else uriString[ssi + 1..fsi]);
      }
      return ssp.value;
    }

    /** The loop that looks for the end of the authority. */
    method ScanAuthority() returns (r: Option<string>)
      requires Valid()
      modifies `cachedSsi
      ensures Valid() && r == ParseAuthority(uriString)
    {
      var ssi := FindSchemeSeparator();
      var length := |uriString|;
      if length > ssi + 2 && uriString[ssi + 1] == '/' && uriString[ssi + 2] == '/' {
        var end := ssi + 3;
        while end < length && uriString[end] != '/' && uriString[end] != '?' && uriString[end] != '#'
          invariant ssi + 3 <= end <= length && AuthorityEnd(uriString, end) == AuthorityEnd(uriString, ssi + 3)
        {
          end := end + 1;
        }
        return Some(uriString[ssi + 3..end]);
      }
      return None;
    }

    method GetAuthorityPart() returns (r: Option<string>)
      requires Valid()
      modifies `cachedSsi, `authority
      ensures Valid() && r == ParseAuthority(uriString)
    {
      if authority.NotCached? {
        var a := ScanAuthority();
        authority := Cached(a);
      }
      return authority.value;
    }

    /** The two loops that look for the start and the end of the path. */
    method ScanPath(ssi: int) returns (r: string)
      requires ssi == SchemeSeparator(uriString) && Hierarchical(uriString)
      ensures Some(r) == ParsePath(uriString)
    {
      hide SchemeSeparator, Hierarchical;
      var length := |uriString|;
      var pathStart := ssi + 1;
      if length > ssi + 2 && uriString[ssi + 1] == '/' && uriString[ssi + 2] == '/' {
        pathStart := ssi + 3;
        while pathStart < length && uriString[pathStart] != '/'
          invariant ssi + 3 <= pathStart <= length && AuthorityEnd(uriString, pathStart) == AuthorityEnd(uriString, ssi + 3)
        {
          if uriString[pathStart] == '?' || uriString[pathStart] == '#' {
            assert uriString[pathStart..PathEnd(uriString, pathStart)] == "";
            return "";
          }
          pathStart := pathStart + 1;
        }
      }
      var pathEnd := pathStart;
      while pathEnd < length && uriString[pathEnd] != '?' && uriString[pathEnd] != '#'
        invariant pathStart <= pathEnd <= length && PathEnd(uriString, pathEnd) == PathEnd(uriString, pathStart)
      {
        pathEnd := pathEnd + 1;
      }
      return uriString[pathStart..pathEnd];
    }

    method GetPathPart() returns (r: Option<string>)
      requires Valid()
      modifies `cachedSsi, `path
      ensures Valid() && r == ParsePath(uriString)
    {
      hide ParseScheme, ParseSsp, ParseAuthority, ParseQuery, ParseFragment;
      if path.NotCached? {
        var ssi := FindSchemeSeparator();
        if ssi > -1 && (ssi + 1 == |uriString| || uriString[ssi + 1] != '/') {
          path := Cached(None);
        } else {
          var p := ScanPath(ssi);
          path := Cached(Some(p));
        }
      }
      return path.value;
    }

    method GetQueryPart() returns (r: Option<string>)
      requires Valid()
      modifies `cachedSsi, `cachedFsi, `query
      ensures Valid() && r == ParseQuery(uriString)
    {
      hide ParseScheme, ParseSsp, ParseAuthority, ParsePath, ParseFragment;
      if query.NotCached? {
        var ssi := FindSchemeSeparator();
        var qsi := IndexOf(uriString, '?', ssi);
        if qsi == NOT_FOUND {
          query := Cached(None);
        } else {
          var fsi := FindFragmentSeparator();
          if fsi == NOT_FOUND {
            query := Cached(Some(uriString[qsi + 1..]));
          } else if fsi < qsi {
            query := Cached(None);
          } else {
            query := Cached(Some(uriString[qsi + 1..fsi]));
          }
        }
      }
      return query.value;
    }

    method GetFragmentPart() returns (r: Option<string>)
      requires Valid()
      modifies `cachedSsi, `cachedFsi, `fragment
      ensures Valid() && r == ParseFragment(uriString)
    {
      hide ParseScheme, ParseSsp, ParseAuthority, ParseQuery, ParsePath;
      if fragment.NotCached? {
        var fsi := FindFragmentSeparator();
        fragment := Cached(if fsi == NOT_FOUND then None else Some(uriString[fsi + 1..]));
      }
      return fragment.value;
    }

    /** buildUpon: a builder with the parts of this URI. */
    method BuildUpon() returns (builder: Builder)
      requires Valid()
      modifies this
      ensures Valid() && fresh(builder) && builder.Result() == Some(Rebuilt(uriString))
    {
      hide SchemeSeparator, FragmentSeparator, ParsePath, ParseAuthority, ParseQuery, ParseFragment, MakeAbsolute, ParseSsp;
      builder := new Builder();
      var hierarchical := IsHierarchical();
      var s := GetScheme();
      builder.SetScheme(s);
      if hierarchical {
        var a := GetAuthorityPart();
        builder.SetAuthority(a);
        var p := GetPathPart();
        builder.SetPath(p);
        var q := GetQueryPart();
        builder.SetQuery(q);
      } else {
        var o := GetSsp();
        builder.SetOpaquePart(o);
      }
      var f := GetFragmentPart();
      builder.SetFragment(f);
      RebuiltFrom(uriString);
    }
  }

  lemma RebuiltFrom(s: string)
    ensures Hierarchical(s) ==> ParsePath(s).Some?
    ensures !Hierarchical(s) ==> ParseScheme(s) == Some(s[..SchemeSeparator(s)])
  {
  }

  class Builder {
    var scheme: Option<string>
    var opaquePart: Option<string>
    var authority: Option<string>
    var path: Option<string>
    var query: Option<string>
    var fragment: Option<string>

    constructor ()
      ensures scheme == None && opaquePart == None && authority == None && path == None && query == None && fragment == None
    {
      scheme, opaquePart, authority, path, query, fragment := None, None, None, None, None, None;
    }

    method SetScheme(scheme: Option<string>)
      modifies `scheme
      ensures this.scheme == scheme
    {
      this.scheme := scheme;
    }

    method SetOpaquePart(opaquePart: string)
      modifies `opaquePart
      ensures this.opaquePart == Some(opaquePart)
    {
      this.opaquePart := Some(opaquePart);
    }

    /** With an authority, a path or a query the URI is hierarchical. */
    method SetAuthority(authority: Option<string>)
      modifies `opaquePart, `authority
      ensures opaquePart == None && this.authority == authority
    {
      opaquePart := None;
      this.authority := authority;
    }

    method SetPath(path: Option<string>)
      modifies `opaquePart, `path
      ensures opaquePart == None && this.path == path
    {
      opaquePart := None;
      this.path := path;
    }

    method SetQuery(query: Option<string>)
      modifies `opaquePart, `query
      ensures opaquePart == None && this.query == query
    {
      opaquePart := None;
      this.query := query;
    }

    method SetFragment(fragment: Option<string>)
      modifies `fragment
      ensures this.fragment == fragment
    {
      this.fragment := fragment;
    }

    /** What build returns; nothing when an opaque URI has no scheme. */
    ghost function Result(): Option<Built>
      reads this
    {
      if opaquePart.Some? then
        if scheme.None? then None else Some(Opaque(scheme.value, opaquePart.value, fragment))
      else
        var p := if path.None? then "" else path.value;
        Some(Parts(scheme, authority, if scheme.Some? || authority.Some? then MakeAbsolute(p) else p, query, fragment))
    }

    /** build */
    method Build() returns (u: Option<Built>)
      ensures u == Result()
    {
      if opaquePart.Some? {
        if scheme.None? {
          return None;
        }
        return Some(Opaque(scheme.value, opaquePart.value, fragment));
      }
      var p := "";
      if path.Some? {
        p := path.value;
        if scheme.Some? || authority.Some? {
          p := MakeAbsolute(p);
        }
      }
      return Some(Parts(scheme, authority, p, query, fragment));
    }
  }

  /** Splitting a string, building from its parts, and writing that down. */
  method Rebuild(s: string) returns (t: string)
    ensures t == s <==> !LosesQuery(s) && !LosesFragment(s)
    ensures |t| == |s| - (if LosesQuery(s) then 1 else 0) - (if LosesFragment(s) then 1 else 0)
  {
    hide Rebuilt, ToString, LosesQuery, LosesFragment;
    var uri := new StringUri(s);
    var builder := uri.BuildUpon();
    var built := builder.Build();
    t := ToString(built.value);
    RoundTrip(s);
  }
}
