/** Which links a crawl may follow: URL normalisation, the scope rule and the
  * include / exclude filters. */
module Scope {
  import opened Wrappers
  import Glob
  import Text

  /** A parsed URL.  Its serialisation is taken to be one-to-one. */
  datatype Url = Url(scheme: string, userInfo: string, host: Option<string>, port: Option<nat>, path: string,
                     query: Option<string>, fragment: Option<string>)

  function NormalizeUrl(url: Url, ignoreQuery: bool): Url {
    var cloned := url.(fragment := None);
    if ignoreQuery then cloned.(query := None) else cloned
  }

  predicate InScope(seed: Url, candidate: Url, allowSubdomains: bool, allowExternal: bool) {
    if allowExternal then true
    else match (seed.host, candidate.host)
      case (Some(s), Some(c)) => s == c || (allowSubdomains && Text.EndsWith(c, "." + s))
      case _ => false
  }

  /** An exclude pattern wins over every include pattern; an empty include
    * list includes everything. */
  predicate ShouldVisit(url: Url, includes: seq<string>, excludes: seq<string>) {
    var path := Text.TrimStartOf(url.path, '/');
    if exists pat | pat in excludes :: Glob.Matches(pat, path) then false
    else includes == [] || exists pat | pat in includes :: Glob.Matches(pat, path)
  }

  /** Two URLs are one page exactly when they differ at most in the fragment
    * and, if the query is ignored, in the query. */
  lemma SameKeyIff(u: Url, v: Url, ignoreQuery: bool)
    ensures NormalizeUrl(u, ignoreQuery) == NormalizeUrl(v, ignoreQuery) <==>
      && u.scheme == v.scheme && u.userInfo == v.userInfo && u.host == v.host && u.port == v.port
      && u.path == v.path && (ignoreQuery || u.query == v.query)
    ensures NormalizeUrl(NormalizeUrl(u, ignoreQuery), ignoreQuery) == NormalizeUrl(u, ignoreQuery)
  {
  }

  /** The scope rule: any page if external links are allowed, else only pages of the
    * seed's own host and, if subdomains are allowed, of hosts below it. */
  lemma InScopeIff(seed: Url, candidate: Url, allowSubdomains: bool, allowExternal: bool)
    ensures InScope(seed, candidate, allowSubdomains, allowExternal) <==>
      || allowExternal
      || (seed.host.Some? && candidate.host == seed.host)
      || (allowSubdomains && seed.host.Some? && candidate.host.Some?
          && exists sub: string :: candidate.host.value == sub + "." + seed.host.value)
  {
    if seed.host.Some? && candidate.host.Some? {
      var suffix, c := "." + seed.host.value, candidate.host.value;
      if Text.EndsWith(c, suffix) {
        assert c == c[..|c| - |suffix|] + "." + seed.host.value;
      }
      forall sub: string | c == sub + "." + seed.host.value ensures Text.EndsWith(c, suffix) {
        assert c[|sub|..] == suffix;
      }
    }
  }

  /** The filter in terms of globs: a page is visited exactly when its path,
    * without leading slashes, matches no exclude pattern and, if there are
    * include patterns, one of those. */
  lemma ShouldVisitMeansGlobs(url: Url, includes: seq<string>, excludes: seq<string>)
    ensures var path := Text.TrimStartOf(url.path, '/');
      ShouldVisit(url, includes, excludes) <==>
        && (forall e | e in excludes :: !Glob.Glob(e, path, false))
        && (includes == [] || exists i | i in includes :: Glob.Glob(i, path, false))
  {
    hide Glob.Matches, Glob.Glob;
    var path := Text.TrimStartOf(url.path, '/');
    forall pat: string ensures Glob.Matches(pat, path) == Glob.Glob(pat, path, false) {
      Glob.CompilationPreservesMeaning(pat, path);
    }
  }
}
