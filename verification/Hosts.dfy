/** Host names: normalisation, the walk up the domain tree, the FlareSolverr
  * allowlist, and the one domain-match rule (section 5.1.3 of RFC 6265, without
  * its IP-address clause) that the program writes in several ways. */
module Hosts {
  import opened Wrappers
  import opened Text
  import Scope

  predicate DomainMatch(host: string, domain: string) {
    host == domain || EndsWith(host, "." + domain)
  }

  function NormalizeHost(host: string): string {
    ToAsciiLower(TrimStartOf(Trim(host), '.'))
  }

  // ----- normalisation -----

  lemma LowerFacts(s: string)
    ensures |ToAsciiLower(s)| == |s|
    ensures forall i | 0 <= i < |s| :: ToAsciiLower(s)[i] == LowerChar(s[i])
    ensures ToAsciiLower(ToAsciiLower(s)) == ToAsciiLower(s)
  {
  }

  lemma {:induction false} TrimStartOfShape(s: string, c: char)
    ensures |TrimStartOf(s, c)| <= |s| && TrimStartOf(s, c) == s[|s| - |TrimStartOf(s, c)|..]
    ensures TrimStartOf(s, c) != "" ==> TrimStartOf(s, c)[0] != c
  {
    if s != "" && s[0] == c {
      TrimStartOfShape(s[1..], c);
    }
  }

  lemma NormalizedShape(host: string)
    ensures var n := NormalizeHost(host); n != "" ==> n[0] != '.' && !IsWhitespace(n[|n| - 1])
  {
    var trimmed := Trim(host);
    TrimIsTrimmed(host);
    TrimStartOfShape(trimmed, '.');
    LowerFacts(TrimStartOf(trimmed, '.'));
  }

  lemma TrimShortensLeadingSpace(s: string)
    requires s != "" && IsWhitespace(s[0])
    ensures |Trim(s)| < |s|
  {
    TrimStartShape(s[1..]);
    TrimEndShape(TrimStart(s));
  }

  /** Blanks around a host, dots before it and the case of its letters do not matter. */
  lemma NormalizeHostForgets(before: string, dots: string, core: string, after: string)
    requires AllWhitespace(before) && AllWhitespace(after) && forall i | 0 <= i < |dots| :: dots[i] == '.'
    requires core != "" && core[0] != '.' && !IsWhitespace(core[|core| - 1]) && (dots == "" ==> !IsWhitespace(core[0]))
    ensures NormalizeHost(before + (dots + core) + after) == ToAsciiLower(core)
  {
    var host := dots + core;
    assert host[0] == (if dots == "" then core[0] else '.') && host[|host| - 1] == core[|core| - 1];
    assert !IsWhitespace('.');
    TrimStrips(before, host, after);
    TrimStartOfStrips(dots, '.', core);
  }

  /** Normalising again changes nothing exactly when the trimmed host has no white
    * space behind its leading dots. */
  lemma NormalizeTwice(host: string)
    ensures var inner := TrimStartOf(Trim(host), '.');
      NormalizeHost(NormalizeHost(host)) == NormalizeHost(host) <==> inner == "" || !IsWhitespace(inner[0])
  {
    var inner, n := TrimStartOf(Trim(host), '.'), NormalizeHost(host);
    NormalizedShape(host);
    LowerFacts(inner);
    assert inner != "" ==> n[0] == LowerChar(inner[0]) && IsWhitespace(n[0]) == IsWhitespace(inner[0]);
    hide ToAsciiLower, Trim, IsWhitespace;
    LowerFacts(TrimStartOf(Trim(n), '.'));
    if n != "" && IsWhitespace(n[0]) {
      TrimStartOfShape(Trim(n), '.');
      TrimShortensLeadingSpace(n);
    } else {
      TrimKeepsTrimmed(n);
      assert TrimStartOf(n, '.') == n;
    }
  }

  /** One such host. */
  lemma NormalizeTwiceCanDiffer()
    ensures NormalizeHost(". a") == " a" && NormalizeHost(" a") == "a"
  {
    assert ". a"[1..] == " a" && " a"[1..] == "a";
    assert Trim(". a") == ". a" && Trim(" a") == "a";
    assert ToAsciiLower(" a") == " a" && ToAsciiLower("a") == "a";
  }

  // ----- the walk up the domain tree -----

  function FindDot(s: string): Option<nat> {
    if s == "" then None
    else if s[0] == '.' then Some(0)
    else match FindDot(s[1..]) case None => None case Some(i) => Some(i + 1)
  }

  lemma {:induction false} FindDotIsFirst(s: string)
    ensures match FindDot(s)
      case None => forall k | 0 <= k < |s| :: s[k] != '.'
      case Some(i) => i < |s| && s[i] == '.' && forall k | 0 <= k < i :: s[k] != '.'
  {
    if s != "" {
      FindDotIsFirst(s[1..]);
      assert forall k | 0 < k < |s| :: s[k] == s[1..][k - 1];
    }
  }

  function Parents(domain: string): seq<string>
    decreases |domain|
  {
    FindDotIsFirst(domain);
    match FindDot(domain)
    case None => []
    case Some(i) =>
      var rest := domain[i + 1..];
      if rest == "" then [] else [rest] + Parents(rest)
  }

  /** One step up the tree, with the domains listed so far. */
  lemma ParentsUnfold(domain: string, done: seq<string>)
    ensures match FindDot(domain)
      case None => done + Parents(domain) == done
      case Some(i) =>
        && domain != "" && i < |domain|
        && var rest := domain[i + 1..];
           done + Parents(domain) == (if rest == "" then done else (done + [rest]) + Parents(rest))
  {
    FindDotIsFirst(domain);
  }

  /** The host, then each parent domain. */
  function Candidates(host: string): seq<string> {
    if host == "" then [] else [host] + Parents(host)
  }

  method HostCandidates(host: string) returns (out: seq<string>)
    ensures out == Candidates(NormalizeHost(host))
  {
    var normalized := NormalizeHost(host);
    out := [];
    if normalized == "" {
      return;
    }
    out := out + [normalized];
    assert [] + [normalized] == [normalized];
    hide NormalizeHost, Parents, FindDot;
    var current := normalized;
    var idx := FindDot(current);
    while idx.Some?
      invariant idx == FindDot(current)
      invariant out + Parents(current) == Candidates(normalized)
      decreases |current|
    {
      ParentsUnfold(current, out);
      current := current[idx.value + 1..];
      if current == "" {
        break;
      }
      out := out + [current];
      idx := FindDot(current);
    }
    ParentsUnfold(current, out);
  }

  lemma {:induction false} ParentsAreSuffixes(s: string, d: string)
    ensures d in Parents(s) <==> d != "" && EndsWith(s, "." + d)
    decreases |s|
  {
    FindDotIsFirst(s);
    if FindDot(s).Some? {
      var i := FindDot(s).value;
      var rest := s[i + 1..];
      ParentsAreSuffixes(rest, d);
      SuffixBelowFirstDot(s, i, d);
    } else if EndsWith(s, "." + d) {
      var k := SuffixFollowsADot(s, d);
    }
  }

  lemma SuffixFollowsADot(s: string, d: string) returns (k: nat)
    requires EndsWith(s, "." + d)
    ensures k < |s| && s[k] == '.' && s[k + 1..] == d
  {
    k := |s| - |"." + d|;
    assert s[k] == s[k..][0] && s[k + 1..] == s[k..][1..];
  }

  /** A dotted suffix starts at the first dot or lies beyond it. */
  lemma SuffixBelowFirstDot(s: string, i: nat, d: string)
    requires i < |s| && s[i] == '.' && forall k | 0 <= k < i :: s[k] != '.'
    ensures var rest := s[i + 1..]; EndsWith(s, "." + d) <==> rest == d || EndsWith(rest, "." + d)
  {
    hide EndsWith;
    SuffixAbove(s, i, d);
    if EndsWith(s, "." + d) {
      SuffixSplits(s, i, d);
    }
  }

  lemma SuffixAbove(s: string, i: nat, d: string)
    requires i < |s| && s[i] == '.'
    ensures var rest := s[i + 1..]; rest == d || EndsWith(rest, "." + d) ==> EndsWith(s, "." + d)
  {
    var rest, suffix := s[i + 1..], "." + d;
    if rest == d {
      assert s[i..] == suffix && |s| - |suffix| == i;
    } else if EndsWith(rest, suffix) {
      assert s[|s| - |suffix|..] == rest[|rest| - |suffix|..];
    }
  }

  lemma SuffixSplits(s: string, i: nat, d: string)
    requires i < |s| && s[i] == '.' && EndsWith(s, "." + d) && forall k | 0 <= k < i :: s[k] != '.'
    ensures s[i + 1..] == d || EndsWith(s[i + 1..], "." + d)
  {
    var k := SuffixFollowsADot(s, d);
    assert k >= i;
    if k > i {
      assert s[i + 1..][k - i - 1..] == s[k..] == "." + d;
    }
  }

  /** The candidates are exactly the domains the host domain-matches. */
  lemma CandidatesAreDomainMatches(host: string, d: string)
    requires host != ""
    ensures d in Candidates(host) <==> d != "" && DomainMatch(host, d)
  {
    ParentsAreSuffixes(host, d);
  }

  predicate LengthsDescend(words: seq<string>) {
    forall i, j | 0 <= i < j < |words| :: |words[i]| > |words[j]|
  }

  lemma {:induction false} ParentsAreShorter(s: string)
    ensures LengthsDescend([s] + Parents(s))
    decreases |s|
  {
    FindDotIsFirst(s);
    if Parents(s) != [] {
      var rest := s[FindDot(s).value + 1..];
      ParentsAreShorter(rest);
      var below := [rest] + Parents(rest);
      assert Parents(s) == below && |below[0]| < |s|;
      assert forall j | 0 < j < |below| :: |below[0]| > |below[j]|;
    }
  }

  /** They come longest first, each once. */
  lemma CandidatesDescend(host: string)
    ensures LengthsDescend(Candidates(host))
  {
    if host != "" {
      ParentsAreShorter(host);
    }
  }

  // ----- the FlareSolverr allowlist -----

  datatype Allowlist = Allowlist(hosts: set<string>, wildcards: seq<string>)

  /** What one configured entry allows, for a lower-case host. */
  predicate EntryAllows(entry: string, host: string) {
    var trimmed := Trim(entry);
    if trimmed == "" then false
    else if "*." <= trimmed then EndsWith(host, "." + trimmed[2..])
    else DomainMatch(host, ToAsciiLower(trimmed))
  }

  predicate ListAllows(list: Allowlist, host: string) {
    || (exists d | d in list.hosts :: DomainMatch(host, d))
    || (exists suffix | suffix in list.wildcards :: EndsWith(host, suffix))
  }

  method FromHosts(entries: seq<string>) returns (list: Allowlist)
    ensures "" !in list.hosts
    ensures forall host :: ListAllows(list, host) <==> exists e | e in entries :: EntryAllows(e, host)
  {
    list := Allowlist({}, []);
    for i := 0 to |entries|
      invariant "" !in list.hosts
      invariant forall host :: ListAllows(list, host) <==> exists e | e in entries[..i] :: EntryAllows(e, host)
    {
      assert entries[..i + 1] == entries[..i] + [entries[i]];
      var trimmed := Trim(entries[i]);
      if trimmed == "" {
        continue;
      }
      ghost var before := list;
      LowerFacts(trimmed);
      if "*." <= trimmed {
        list := list.(wildcards := list.wildcards + ["." + trimmed[2..]]);
        forall host ensures ListAllows(list, host) <==> ListAllows(before, host) || EntryAllows(entries[i], host) {
          assert "." + trimmed[2..] in list.wildcards;
          assert forall w :: w in list.wildcards <==> w in before.wildcards || w == "." + trimmed[2..];
        }
      } else {
        list := list.(hosts := list.hosts + {ToAsciiLower(trimmed)});
        forall host ensures ListAllows(list, host) <==> ListAllows(before, host) || EntryAllows(entries[i], host) {
          assert ToAsciiLower(trimmed) in list.hosts;
        }
      }
    }
    assert entries[..|entries|] == entries;
  }

  method IsAllowed(list: Allowlist, rawHost: string) returns (allowed: bool)
    requires "" !in list.hosts
    ensures allowed == ListAllows(list, ToAsciiLower(rawHost))
  {
    var host := ToAsciiLower(rawHost);
    if host in list.hosts {
      return true;
    }
    for i := 0 to |host|
      invariant forall k | 0 <= k < i :: host[k] == '.' ==> host[k + 1..] !in list.hosts
    {
      if host[i] == '.' {
        var apex := host[i + 1..];
        if apex in list.hosts {
          assert host[|host| - |"." + apex|..] == "." + apex;
          return true;
        }
      }
    }
    forall d | d in list.hosts ensures !DomainMatch(host, d) {
      if EndsWith(host, "." + d) {
        ghost var k := SuffixFollowsADot(host, d);
      }
    }
    for i := 0 to |list.wildcards|
      invariant forall k | 0 <= k < i :: !EndsWith(host, list.wildcards[k])
    {
      if EndsWith(host, list.wildcards[i]) {
        return true;
      }
    }
    return false;
  }

  /** An entry can allow some host exactly when it is not blank and, if it is a
    * wildcard, was typed in lower case: wildcards are kept as typed. */
  lemma EntryAllowsSomeHostIff(entry: string)
    ensures var trimmed := Trim(entry);
      (exists host :: EntryAllows(entry, ToAsciiLower(host))) <==>
        trimmed != "" && ("*." <= trimmed ==> ToAsciiLower(trimmed) == trimmed)
  {
    hide ToAsciiLower, Trim;
    var trimmed := Trim(entry);
    LowerFacts(trimmed);
    if "*." <= trimmed {
      WildcardNeedsLowerCase(trimmed);
      if ToAsciiLower(trimmed) == trimmed {
        assert EntryAllows(entry, ToAsciiLower(trimmed[1..]));
      }
    } else if trimmed != "" {
      assert EntryAllows(entry, ToAsciiLower(trimmed));
    }
  }

  lemma WildcardNeedsLowerCase(trimmed: string)
    requires "*." <= trimmed
    ensures ToAsciiLower(trimmed) == trimmed ==> EndsWith(ToAsciiLower(trimmed[1..]), "." + trimmed[2..])
    ensures forall host | EndsWith(ToAsciiLower(host), "." + trimmed[2..]) :: ToAsciiLower(trimmed) == trimmed
  {
    hide ToAsciiLower;
    LowerFacts(trimmed);
    LowerFacts(trimmed[1..]);
    assert trimmed[1..] == "." + trimmed[2..];
    assert ToAsciiLower(trimmed) == trimmed ==> ToAsciiLower(trimmed[1..]) == trimmed[1..];
    forall host | EndsWith(ToAsciiLower(host), "." + trimmed[2..]) ensures ToAsciiLower(trimmed) == trimmed {
      LowerFacts(host);
      var lower := ToAsciiLower(host);
      forall i | 2 <= i < |trimmed| ensures LowerChar(trimmed[i]) == trimmed[i] {
        assert trimmed[i] == trimmed[1..][i - 1] == lower[|lower| - |trimmed| + i];
      }
    }
  }

  /** One rule, four ways of writing it: for a normalised host, the FlareSolverr
    * cookie test, the allowlist's suffix walk over any set of entries and the
    * crawler's subdomain test all ask about membership in the jar's candidate list. */
  lemma OneDomainRule(host: string, domain: string)
    requires host != "" && NormalizeHost(host) == host && domain != ""
    ensures DomainMatch(host, domain) <==> domain in Candidates(NormalizeHost(host))
    ensures forall hosts: set<string> | "" !in hosts ::
      ListAllows(Allowlist(hosts, []), host) <==> exists d | d in Candidates(host) :: d in hosts
    ensures forall seed: Scope.Url, page: Scope.Url | seed.host == Some(domain) && page.host == Some(host) ::
      Scope.InScope(seed, page, true, false) <==> domain in Candidates(host)
  {
    hide Candidates, NormalizeHost;
    CandidatesAreDomainMatches(host, domain);
    forall hosts: set<string> | "" !in hosts
      ensures ListAllows(Allowlist(hosts, []), host) <==> exists d | d in Candidates(host) :: d in hosts
    {
      forall d: string ensures d in Candidates(host) <==> d != "" && DomainMatch(host, d) {
        CandidatesAreDomainMatches(host, d);
      }
    }
  }
}
