/** The connector network policy decision without a DNS lookup (core/network_security.py,
    check_network_policy with resolve=False). */
module NetworkPolicy {
  import opened Options
  import opened Text
  import opened HostAllowlist
  import opened HostSelection
  import opened DotSegments
  import opened DotSpellings

  /** What urlparse gives; a port that does not parse is Some(None). */
  datatype Url = Malformed | Url(
    scheme: string, username: Option<string>, password: Option<string>,
    hostname: Option<string>, port: Option<Option<nat>>, path: string)

  datatype Policy = Policy(
    httpsOnly: bool,
    allowedHosts: seq<string>,
    allowedPaths: map<string, seq<string>>,
    instancePaths: seq<string>,
    redirectHosts: seq<string>,
    redirectPaths: map<string, seq<string>>)

  /** What the caller says about the request. */
  datatype Request = Request(verb: Option<string>, hasAuthorization: Option<bool>)

  /** Library behaviour: decoding of bytes above 127, host normalisation, upper case. */
  datatype Library = Library(high: seq<int> -> string, normalize: string -> string, upper: string -> string)

  datatype Reason =
    NoPolicy | MalformedUrl | Credentials | SchemeNotHttps | PortNot443 | DotSegment
    | RedirectNeedsPlainGet | HostNotAllowed | PathNotAllowed | SchemeNotAllowed

  datatype Decision = Safe | Unsafe(reason: Reason)

  // ---- the parts of the decision ----------------------------------------------------------

  function HostOfUrl(url: Url): string
    requires url.Url?
  {
    if url.hostname.Some? then url.hostname.value else ""
  }

  function PathOfUrl(url: Url): string
    requires url.Url?
  {
    if url.path == "" then "/" else url.path
  }

  /** _transport_problem. */
  function TransportProblem(url: Url, policy: Policy): Option<Reason>
    requires url.Url?
  {
    if url.port == Some(None) then Some(MalformedUrl)
    else if url.username.Some? || url.password.Some? then Some(Credentials)
    else if policy.httpsOnly && url.scheme != "https" then Some(SchemeNotHttps)
    else if policy.httpsOnly && url.port.Some? && url.port != Some(Some(443)) then Some(PortNot443)
    else None
  }

  predicate PathAllowed(path: string, prefixes: seq<string>) {
    exists k: nat :: k < |prefixes| && StartsWith(path, prefixes[k])
  }

  function PathsOf(paths: map<string, seq<string>>, entry: string): seq<string> {
    if entry in paths then paths[entry] else []
  }

  /** A host the user configured. */
  predicate Configured(host: string, extraHosts: seq<string>, lib: Library) {
    host != "" && exists k: nat :: k < |extraHosts| && host == lib.normalize(extraHosts[k])
  }

  /** GET, and known to carry no authorization. */
  predicate PlainGet(request: Request, lib: Library) {
    && request.verb.Some? && lib.upper(request.verb.value) == "GET"
    && request.hasAuthorization == Some(false)
  }

  /** What decides a host: a static entry, the user's list, or a redirect entry. */
  datatype Authority = Static(entry: string) | Instance | Redirect(entry: string) | Nobody

  function AuthorityOf(host: string, policy: Policy, extraHosts: seq<string>, lib: Library): Authority {
    var matched := Governing(host, policy.allowedHosts);
    if matched.Some? then Static(matched.value)
    else if policy.instancePaths != [] && Configured(host, extraHosts, lib) then Instance
    else
      var redirect := Governing(host, policy.redirectHosts);
      if redirect.Some? then Redirect(redirect.value) else Nobody
  }

  function Prefixes(authority: Authority, policy: Policy): seq<string> {
    match authority
    case Static(entry) => PathsOf(policy.allowedPaths, entry)
    case Instance => policy.instancePaths
    case Redirect(entry) => PathsOf(policy.redirectPaths, entry)
    case Nobody => []
  }

  /** A dot segment at some decoding round, or still decoding after the last. */
  ghost predicate Dotted(path: string, lib: Library) {
    || EverHasDots(path, lib.high)
    || Decoded(path, DECODE_ROUNDS, lib.high) != Decoded(path, DECODE_ROUNDS - 1, lib.high)
  }

  /** A prefix the policy lists for the host: under the governing static entry; else under the
      instance paths for a host the user configured; else under the governing redirect entry,
      for a GET known to carry no authorization. */
  ghost predicate Listed(
    prefix: string, host: string, policy: Policy, extraHosts: seq<string>, request: Request, lib: Library)
  {
    var entry := Governing(host, policy.allowedHosts);
    var redirect := Governing(host, policy.redirectHosts);
    if entry.Some? then entry.value in policy.allowedPaths && prefix in policy.allowedPaths[entry.value]
    else if policy.instancePaths != [] && host != "" && exists e :: e in extraHosts && lib.normalize(e) == host then
      prefix in policy.instancePaths
    else
      && redirect.Some? && redirect.value in policy.redirectPaths && prefix in policy.redirectPaths[redirect.value]
      && request.verb.Some? && lib.upper(request.verb.value) == "GET" && request.hasAuthorization == Some(false)
  }

  /** When a URL is accepted. */
  ghost predicate Accepts(
    url: Url, policy: Policy, extraHosts: seq<string>, request: Request, lib: Library)
    requires url.Url?
  {
    var path := if url.path == "" then "/" else url.path;
    && url.port != Some(None) && url.username.None? && url.password.None?
    && (url.scheme == "https" || (url.scheme == "http" && !policy.httpsOnly))
    && (policy.httpsOnly ==> url.port.None? || url.port == Some(Some(443)))
    && !Dotted(path, lib)
    && exists prefix, rest :: path == prefix + rest
         && Listed(prefix, if url.hostname.Some? then url.hostname.value else "", policy, extraHosts, request, lib)
  }

  /** Why a URL is refused: the first check that fails, in the order they are made. */
  ghost function Decide(
    url: Url, policy: Option<Policy>, extraHosts: seq<string>, request: Request, lib: Library): Decision
  {
    if policy.None? then Unsafe(NoPolicy)
    else if url.Malformed? then Unsafe(MalformedUrl)
    else
      var problem := TransportProblem(url, policy.value);
      if problem.Some? then Unsafe(problem.value)
      else if Dotted(PathOfUrl(url), lib) then Unsafe(DotSegment)
      else
        var authority := AuthorityOf(HostOfUrl(url), policy.value, extraHosts, lib);
        if authority.Nobody? then Unsafe(HostNotAllowed)
        else if authority.Redirect? && !PlainGet(request, lib) then Unsafe(RedirectNeedsPlainGet)
        else if !PathAllowed(PathOfUrl(url), Prefixes(authority, policy.value)) then Unsafe(PathNotAllowed)
        else if url.scheme != "http" && url.scheme != "https" then Unsafe(SchemeNotAllowed)
        else Safe
  }

  /** check_network_policy with resolve=False; no policy means an unknown connector. Accepted
      exactly when every condition holds, in whatever order, and then the path shows no dot
      segment at any number of decoding rounds. */
  method CheckNetworkPolicy(
    url: Url, policy: Option<Policy>, extraHosts: seq<string>, request: Request, lib: Library)
    returns (decision: Decision)
    ensures decision == Decide(url, policy, extraHosts, request, lib)
    ensures decision == Safe <==> policy.Some? && url.Url? && Accepts(url, policy.value, extraHosts, request, lib)
    ensures decision == Safe ==> forall n: nat :: !HasDots(Decoded(PathOfUrl(url), n, lib.high))
  {
    hide HasDots, Decoded, Governing, StartsWith, Accepts;
    SafeExactlyWhen(url, policy, extraHosts, request, lib);
    if policy.None? {
      return Unsafe(NoPolicy);
    }
    if url.Malformed? {
      return Unsafe(MalformedUrl);
    }
    var p := policy.value;
    var problem := TransportProblem(url, p);
    if problem.Some? {
      return Unsafe(problem.value);
    }
    var hostname := if url.hostname.Some? then url.hostname.value else "";
    var path := if url.path == "" then "/" else url.path;
    var dotted := HasDotSegment(path, lib.high);
    if dotted {
      return Unsafe(DotSegment);
    }
    var allowedPaths, refused := FindPaths(hostname, p, extraHosts, request, lib);
    if refused {
      return Unsafe(RedirectNeedsPlainGet);
    }
    if allowedPaths.None? {
      return Unsafe(HostNotAllowed);
    }
    if !PathAllowed(path, allowedPaths.value) {
      return Unsafe(PathNotAllowed);
    }
    if url.scheme != "http" && url.scheme != "https" {
      return Unsafe(SchemeNotAllowed);
    }
    return Safe;
  }

  /** The path list that governs a host, or none; `refused` when a redirect host is closed to
      the request. */
  method FindPaths(hostname: string, policy: Policy, extraHosts: seq<string>, request: Request, lib: Library)
    returns (allowedPaths: Option<seq<string>>, refused: bool)
    ensures var authority := AuthorityOf(hostname, policy, extraHosts, lib);
            && (refused <==> authority.Redirect? && !PlainGet(request, lib))
            && (!refused ==> allowedPaths
                             == if authority.Nobody? then None else Some(Prefixes(authority, policy)))
  {
    hide Governing, Configured, HostMatches;
    NoEntries(hostname);
    allowedPaths, refused := None, false;
    var matched := MatchHostPattern(hostname, policy.allowedHosts);
    if matched.Some? {
      allowedPaths := Some(PathsOf(policy.allowedPaths, matched.value));
    } else if policy.instancePaths != [] {
      var configured := FindConfigured(hostname, extraHosts, lib);
      if configured {
        allowedPaths := Some(policy.instancePaths);
      }
    }
    if allowedPaths.None? && policy.redirectHosts != [] {
      var redirect := MatchHostPattern(hostname, policy.redirectHosts);
      if redirect.Some? {
        if request.verb.None? || lib.upper(request.verb.value) != "GET" || request.hasAuthorization != Some(false) {
          return None, true;
        }
        allowedPaths := Some(PathsOf(policy.redirectPaths, redirect.value));
      }
    }
  }

  /** The loop over the user's hosts. */
  method FindConfigured(hostname: string, extraHosts: seq<string>, lib: Library) returns (r: bool)
    ensures r == Configured(hostname, extraHosts, lib)
  {
    for i: nat := 0 to |extraHosts|
      invariant forall k: nat :: k < i ==> hostname == "" || hostname != lib.normalize(extraHosts[k])
    {
      if hostname != "" && hostname == lib.normalize(extraHosts[i]) {
        return true;
      }
    }
    return false;
  }

  /** The first transport rule a URL breaks: port, credentials, scheme, port number. */
  lemma TransportProblemMeans(url: Url, policy: Policy)
    requires url.Url?
    ensures var problem := TransportProblem(url, policy);
            var badPort := url.port.Some? && url.port.value.None?;
            var credentials := url.username.Some? || url.password.Some?;
            var badScheme := policy.httpsOnly && url.scheme != "https";
            var otherPort := policy.httpsOnly && url.port.Some? && url.port.value.Some? && url.port.value.value != 443;
            && (problem == Some(MalformedUrl) <==> badPort)
            && (problem == Some(Credentials) <==> credentials && !badPort)
            && (problem == Some(SchemeNotHttps) <==> badScheme && !credentials && !badPort)
            && (problem == Some(PortNot443) <==> otherPort && !badScheme && !credentials && !badPort)
            && (problem == None <==> !badPort && !credentials && !badScheme && !otherPort)
  {
  }

  /** Below one of the prefixes means: that prefix and something more. */
  lemma PathAllowedMeans(path: string, prefixes: seq<string>)
    ensures PathAllowed(path, prefixes) <==> exists prefix, rest :: path == prefix + rest && prefix in prefixes
  {
    if PathAllowed(path, prefixes) {
      var k: nat :| k < |prefixes| && StartsWith(path, prefixes[k]);
      assert path == prefixes[k] + path[|prefixes[k]|..] && prefixes[k] in prefixes;
    }
    if prefix, rest :| path == prefix + rest && prefix in prefixes {
      var k: nat :| k < |prefixes| && prefixes[k] == prefix;
      assert path[..|prefix|] == prefix;
    }
  }

  lemma ConfiguredMeans(host: string, extraHosts: seq<string>, lib: Library)
    ensures Configured(host, extraHosts, lib) <==> host != "" && exists e :: e in extraHosts && lib.normalize(e) == host
  {
    if k: nat :| k < |extraHosts| && host == lib.normalize(extraHosts[k]) {
      assert extraHosts[k] in extraHosts;
    }
  }

  /** The prefixes of the governing authority are the listed ones. */
  lemma ListedMeans(prefix: string, host: string, policy: Policy, extraHosts: seq<string>, request: Request, lib: Library)
    ensures Listed(prefix, host, policy, extraHosts, request, lib) <==>
            var authority := AuthorityOf(host, policy, extraHosts, lib);
            prefix in Prefixes(authority, policy) && (authority.Redirect? ==> PlainGet(request, lib))
  {
    hide Governing;
    ConfiguredMeans(host, extraHosts, lib);
  }

  /** Accepted exactly when every condition holds, in whatever order it is checked. */
  lemma SafeExactlyWhen(url: Url, policy: Option<Policy>, extraHosts: seq<string>, request: Request, lib: Library)
    ensures Decide(url, policy, extraHosts, request, lib) == Safe
            <==> policy.Some? && url.Url? && Accepts(url, policy.value, extraHosts, request, lib)
  {
    hide AuthorityOf, Dotted, Listed, PlainGet, PathAllowed, Prefixes;
    if policy.Some? && url.Url? {
      var host, path := HostOfUrl(url), PathOfUrl(url);
      var authority := AuthorityOf(host, policy.value, extraHosts, lib);
      PathAllowedMeans(path, Prefixes(authority, policy.value));
      NobodyHasNone(policy.value);
      forall prefix ensures Listed(prefix, host, policy.value, extraHosts, request, lib) <==>
        prefix in Prefixes(authority, policy.value) && (authority.Redirect? ==> PlainGet(request, lib))
      {
        ListedMeans(prefix, host, policy.value, extraHosts, request, lib);
      }
    }
  }

  lemma NobodyHasNone(policy: Policy)
    ensures Prefixes(Nobody, policy) == []
  {
  }

  /** A path with a dot segment is refused, however its dots and slashes are escaped, once or
      twice, and whatever the policy. */
  lemma DisguisedDotsRefused(
    url: Url, policy: Option<Policy>, extraHosts: seq<string>, request: Request, lib: Library,
    before: string, sep: string, dots: string, end: string, after: string, ds: seq<Disguise>)
    requires url.Url? && Marks(before, sep, dots, end, after) && FitAll(sep + dots + end, ds)
    requires url.path == before + WrittenAll(sep + dots + end, ds) + after && url.path != ""
    ensures Decide(url, policy, extraHosts, request, lib) != Safe
  {
    hide EverHasDots, Decoded, Marks, FitAll, WrittenAll, TransportProblem, AuthorityOf;
    DisguisedDotsShow(before, sep, dots, end, after, ds, lib.high);
  }

  lemma NoEntries(host: string)
    ensures Governing(host, []).None?
  {
  }

  // ---- what a decision means ------------------------------------------------------------

  /** A host no static entry covers and the user did not configure is reached by a plain GET only,
      through a redirect entry that covers it. */
  lemma RedirectOnlyForPlainGet(url: Url, policy: Policy, extraHosts: seq<string>, request: Request, lib: Library)
    requires Decide(url, Some(policy), extraHosts, request, lib) == Safe
    requires forall e :: e in policy.allowedHosts ==> !HostMatches(HostOfUrl(url), e)
    requires !Configured(HostOfUrl(url), extraHosts, lib)
    ensures request.verb.Some? && lib.upper(request.verb.value) == "GET" && request.hasAuthorization == Some(false)
    ensures exists e :: e in policy.redirectHosts && HostMatches(HostOfUrl(url), e)
  {
    hide HostMatches, Dotted, Governing, Governs, TransportProblem, Configured, PathAllowed;
    GoverningGoverns(HostOfUrl(url), policy.allowedHosts);
    GoverningGoverns(HostOfUrl(url), policy.redirectHosts);
    MatchedCovers(HostOfUrl(url), policy.allowedHosts);
    MatchedCovers(HostOfUrl(url), policy.redirectHosts);
  }

  lemma MatchedCovers(host: string, patterns: seq<string>)
    ensures var r := Governing(host, patterns);
            if r.Some? then r.value in patterns && HostMatches(host, r.value)
            else forall e :: e in patterns ==> !HostMatches(host, e)
  {
    hide HostMatches, Governing, Governs;
    GoverningGoverns(host, patterns);
    var r := Governing(host, patterns);
    if r.Some? {
      var k: nat :| k < |patterns| && patterns[k] == r.value && Governs(host, patterns, k);
      GovernsMatches(host, patterns, k);
    }
  }

  /** The user's hosts never change the answer for a host the static list covers. */
  lemma ExtraHostsKeepStatic(
    url: Url, policy: Policy, extraHosts: seq<string>, others: seq<string>, request: Request, lib: Library, entry: string)
    requires url.Url? && entry in policy.allowedHosts && HostMatches(HostOfUrl(url), entry)
    ensures Decide(url, Some(policy), extraHosts, request, lib) == Decide(url, Some(policy), others, request, lib)
  {
    hide HostMatches, Dotted, Governing, PlainGet, TransportProblem, Configured, PathAllowed;
    MatchedCovers(HostOfUrl(url), policy.allowedHosts);
  }

  /** They decide only a host the user named exactly, and hold it to the instance paths. */
  lemma ExtraHostsDecideOnlyThemselves(url: Url, policy: Policy, extraHosts: seq<string>, request: Request, lib: Library)
    requires url.Url?
    requires Decide(url, Some(policy), extraHosts, request, lib) != Decide(url, Some(policy), [], request, lib)
    ensures Configured(HostOfUrl(url), extraHosts, lib)
    ensures Decide(url, Some(policy), extraHosts, request, lib) == Safe
            ==> PathAllowed(PathOfUrl(url), policy.instancePaths)
  {
    hide HostMatches, Dotted, Governing, PlainGet, TransportProblem, PathAllowed;
  }

  /** Where an exact entry covers the host, a wildcard never replaces its path list. */
  lemma ExactEntryGoverns(url: Url, policy: Policy, extraHosts: seq<string>, lib: Library, entry: string)
    requires url.Url? && entry in policy.allowedHosts && !IsWild(entry) && HostMatches(HostOfUrl(url), entry)
    ensures var authority := AuthorityOf(HostOfUrl(url), policy, extraHosts, lib);
            && authority.Static? && !IsWild(authority.entry)
            && authority.entry in policy.allowedHosts
            && EntryOf(authority.entry) == HostOf(HostOfUrl(url))
  {
    hide HostMatches, IsWild, Governing, EntryOf, HostOf;
    var host := HostOfUrl(url);
    MatchedCovers(host, policy.allowedHosts);
    AtLeast(host, policy.allowedHosts, entry);
    ExactMatch(host, Governing(host, policy.allowedHosts).value);
  }
}
