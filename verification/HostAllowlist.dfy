/** Host allowlist entries (core/network_security.py): an exact host, `*.suffix`, or a glob in
    the first label. */
module HostAllowlist {
  import opened Text

  // ---- globs in one label ---------------------------------------------------------

  /** What a `*` may stand for, character by character. */
  predicate IsLabelChar(c: char) {
    'a' <= c <= 'z' || '0' <= c <= '9' || c == '-'
  }

  predicate IsRun(s: string) {
    forall k :: 0 <= k < |s| ==> IsLabelChar(s[k])
  }

  /** _glob_label_regex and fullmatch: the literal parts, joined by runs of label characters. */
  predicate MatchesParts(parts: seq<string>, s: string)
    requires parts != []
    decreases |parts|
  {
    && StartsWith(s, parts[0])
    && var tail := s[|parts[0]|..];
       if |parts| == 1 then tail == "" else exists n :: 0 <= n <= |tail| && IsRun(tail[..n]) && MatchesParts(parts[1..], tail[n..])
  }

  /** A run of n label characters, then the parts. */
  predicate RunThen(s: string, n: nat, parts: seq<string>)
    requires parts != [] && n <= |s|
  {
    IsRun(s[..n]) && MatchesParts(parts, s[n..])
  }

  /** The same language, read off the glob one character at a time. */
  predicate GlobMatch(glob: string, s: string)
    decreases |glob| + |s|
  {
    if glob == "" then s == ""
    else if glob[0] == '*' then
      GlobMatch(glob[1..], s) || (s != "" && IsLabelChar(s[0]) && GlobMatch(glob, s[1..]))
    else s != "" && s[0] == glob[0] && GlobMatch(glob[1..], s[1..])
  }

  predicate RunThenGlob(s: string, n: nat, glob: string)
    requires n <= |s|
  {
    IsRun(s[..n]) && GlobMatch(glob, s[n..])
  }

  lemma {:induction false} StarIsRun(glob: string, s: string)
    ensures GlobMatch("*" + glob, s) <==> exists n :: 0 <= n <= |s| && RunThenGlob(s, n, glob)
    decreases |s|
  {
    hide MatchesParts;
    assert ("*" + glob)[1..] == glob;
    assert s[0..] == s;
    if s != "" {
      var t := s[1..];
      StarIsRun(glob, t);
      if IsLabelChar(s[0]) && GlobMatch("*" + glob, t) {
        var n :| 0 <= n <= |t| && RunThenGlob(t, n, glob);
        assert s[..n + 1] == [s[0]] + t[..n] && s[n + 1..] == t[n..];
        assert RunThenGlob(s, n + 1, glob);
      }
      if n :| 0 < n <= |s| && RunThenGlob(s, n, glob) {
        assert s[..n][0] == s[0];
        assert s[n..] == t[n - 1..] && t[..n - 1] == s[..n][1..];
        assert RunThenGlob(t, n - 1, glob);
      }
    }
    if GlobMatch(glob, s) {
      assert RunThenGlob(s, 0, glob);
    }
  }

  /** The regular expression built by splitting on `*` accepts exactly the glob's language. */
  lemma {:induction false} GlobIsParts(glob: string, s: string)
    ensures MatchesParts(Split(glob, '*'), s) <==> GlobMatch(glob, s)
    decreases |glob|
  {
    hide IsRun, IsLabelChar;
    if glob == "" {
      assert StartsWith(s, "") && s[0..] == s;
    } else {
      var rest := glob[1..];
      var parts := Split(rest, '*');
      if glob[0] == '*' {
        StarParts(parts, s);
        forall n | 0 <= n <= |s| ensures MatchesParts(parts, s[n..]) <==> GlobMatch(rest, s[n..]) {
          GlobIsParts(rest, s[n..]);
        }
        assert glob == "*" + rest;
        StarIsRun(rest, s);
        RunsAgree(parts, rest, s);
      } else {
        LiteralParts(glob[0], parts, s);
        if s != "" {
          GlobIsParts(rest, s[1..]);
        }
      }
    }
  }

  lemma StarParts(parts: seq<string>, s: string)
    requires parts != []
    ensures MatchesParts([""] + parts, s) <==> exists n :: 0 <= n <= |s| && RunThen(s, n, parts)
  {
    var all := [""] + parts;
    assert all[0] == "" && all[1..] == parts;
    assert StartsWith(s, "") && s[|all[0]|..] == s;
    if n :| 0 <= n <= |s| && RunThen(s, n, parts) {
      assert IsRun(s[..n]) && MatchesParts(all[1..], s[n..]);
    }
    if MatchesParts(all, s) {
      var n :| 0 <= n <= |s| && IsRun(s[..n]) && MatchesParts(parts, s[n..]);
      assert RunThen(s, n, parts);
    }
  }

  lemma RunsAgree(parts: seq<string>, glob: string, s: string)
    requires parts != []
    requires forall n :: 0 <= n <= |s| ==> MatchesParts(parts, s[n..]) == GlobMatch(glob, s[n..])
    ensures (exists n :: 0 <= n <= |s| && RunThen(s, n, parts))
            <==> (exists n :: 0 <= n <= |s| && RunThenGlob(s, n, glob))
  {
    hide IsRun, GlobMatch;
    if n :| 0 <= n <= |s| && RunThen(s, n, parts) {
      assert RunThenGlob(s, n, glob);
    }
    if n :| 0 <= n <= |s| && RunThenGlob(s, n, glob) {
      assert RunThen(s, n, parts);
    }
  }

  lemma LiteralParts(c: char, parts: seq<string>, s: string)
    requires parts != []
    ensures MatchesParts([[c] + parts[0]] + parts[1..], s) <==> s != "" && s[0] == c && MatchesParts(parts, s[1..])
  {
    hide RunThen;
    var all := [[c] + parts[0]] + parts[1..];
    assert all[1..] == parts[1..];
    if s != "" && s[0] == c {
      var n := |parts[0]|;
      if n < |s| {
        assert s[..n + 1] == [c] + s[1..][..n];
        assert s[n + 1..] == s[1..][n..];
      }
      assert StartsWith(s, all[0]) <==> StartsWith(s[1..], parts[0]);
    } else {
      StartsWithFirst(s, all[0]);
    }
  }

  // ---- one entry -------------------------------------------------------------------

  /** str.rstrip("."). */
  function RStripDots(s: string): string {
    if s != "" && s[|s| - 1] == '.' then RStripDots(s[..|s| - 1]) else s
  }

  /** The first dot, or |s| when there is none. */
  function FirstDot(s: string): (d: nat)
    ensures d <= |s| && '.' !in s[..d]
    ensures d < |s| ==> s[d] == '.'
  {
    if s == "" || s[0] == '.' then 0
    else
      var d := FirstDot(s[1..]);
      assert s[..d + 1] == [s[0]] + s[1..][..d];
      d + 1
  }

  function HostOf(hostname: string): string { RStripDots(Lower(hostname)) }

  function EntryOf(pattern: string): string { Lower(Strip(pattern)) }

  /** host_matches. */
  predicate HostMatches(hostname: string, pattern: string) {
    Matches(HostOf(hostname), EntryOf(pattern))
  }

  predicate Matches(host: string, entry: string) {
    if host == "" || entry == "" then false
    else if '*' !in entry then host == entry
    else
      var d := FirstDot(entry);
      d < |entry| && MatchesWild(host, entry[..d], entry[d + 1..])
  }

  predicate MatchesWild(host: string, first: string, rest: string) {
    if rest == "" || '*' in rest then false
    else if first == "*" then host == rest || EndsWith(host, "." + rest)
    else MatchesFirst(host, first, rest)
  }

  predicate MatchesFirst(host: string, first: string, rest: string) {
    var d := FirstDot(host);
    d < |host| && host[d + 1..] == rest && MatchesParts(Split(first, '*'), host[..d])
  }

  function Labels(s: string): (r: seq<string>)
    ensures r != []
  {
    Split(s, '.')
  }

  predicate NoStar(labels: seq<string>) {
    forall l :: l in labels ==> '*' !in l
  }

  predicate IsSuffix(a: seq<string>, b: seq<string>) {
    |a| <= |b| && b[|b| - |a|..] == a
  }

  /** What an entry covers, label by label. */
  predicate Covers(host: seq<string>, entry: seq<string>)
    requires host != [] && entry != []
  {
    if NoStar(entry) then host == entry
    else |entry| > 1 && CoversWild(host, entry[0], entry[1..])
  }

  predicate CoversWild(host: seq<string>, first: string, rest: seq<string>)
    requires host != []
  {
    && rest != [""] && NoStar(rest)
    && if first == "*" then IsSuffix(rest, host)
       else |host| > 1 && host[1..] == rest && GlobMatch(first, host[0])
  }

  lemma LabelsAtDot(s: string)
    ensures FirstDot(s) == |s| ==> Labels(s) == [s]
    ensures FirstDot(s) < |s| ==> Labels(s) == [s[..FirstDot(s)]] + Labels(s[FirstDot(s) + 1..])
  {
    hide Labels, FirstDot;
    var d := FirstDot(s);
    if d == |s| {
      assert s[..d] == s;
      LabelsOfFirst(s, "");
    } else {
      LabelsOfFirst(s[..d], s[d + 1..]);
      assert s == s[..d] + ['.'] + s[d + 1..];
    }
  }

  lemma LabelsOfFirst(first: string, rest: string)
    requires '.' !in first
    ensures Labels(first) == [first] && Labels(first + ['.'] + rest) == [first] + Labels(rest)
  {
    hide Split;
    SplitPrefix(first, rest, '.');
  }

  lemma {:induction false} StarInLabels(s: string)
    ensures '*' in s <==> !NoStar(Labels(s))
  {
    hide IsRun;
    if s != "" {
      var tail := Labels(s[1..]);
      StarInLabels(s[1..]);
      assert s == [s[0]] + s[1..];
      assert tail == [tail[0]] + tail[1..];
      if s[0] == '.' {
        assert Labels(s) == [""] + tail;
      } else {
        assert Labels(s) == [[s[0]] + tail[0]] + tail[1..];
        assert '*' in [s[0]] + tail[0] <==> s[0] == '*' || '*' in tail[0];
      }
    }
  }

  lemma SameLabels(a: string, b: string)
    ensures Labels(a) == Labels(b) <==> a == b
  {
    JoinSplit(a, '.');
    JoinSplit(b, '.');
  }

  lemma SuffixLabels(host: string, rest: string)
    ensures IsSuffix(Labels(rest), Labels(host)) <==> host == rest || EndsWith(host, "." + rest)
  {
    hide Split, Join;
    var h, r := Labels(host), Labels(rest);
    if EndsWith(host, "." + rest) {
      var before := host[..|host| - |"." + rest|];
      assert host == before + ['.'] + rest;
      SplitConcat(before, rest, '.');
    }
    if IsSuffix(r, h) {
      JoinSplit(host, '.');
      JoinSplit(rest, '.');
      var before := h[..|h| - |r|];
      assert h == before + r;
      if before != [] {
        JoinConcat(before, r, '.');
        assert host == Join(before, '.') + ("." + rest);
      }
    }
  }

  lemma FirstByLabels(host: string, first: string, rest: string)
    ensures MatchesFirst(host, first, rest)
            <==> |Labels(host)| > 1 && Labels(host)[1..] == Labels(rest) && GlobMatch(first, Labels(host)[0])
  {
    hide MatchesParts, GlobMatch, Labels;
    var d := FirstDot(host);
    LabelsAtDot(host);
    if d < |host| {
      SameLabels(host[d + 1..], rest);
      assert Labels(host)[1..] == Labels(host[d + 1..]);
      GlobIsParts(first, host[..d]);
    }
  }

  lemma WildByLabels(host: string, first: string, rest: string)
    ensures MatchesWild(host, first, rest) <==> CoversWild(Labels(host), first, Labels(rest))
  {
    hide MatchesFirst, GlobMatch, NoStar, Labels, IsSuffix, EndsWith;
    EmptyLabels(rest);
    StarInLabels(rest);
    SuffixLabels(host, rest);
    FirstByLabels(host, first, rest);
  }

  /** An entry covers a host exactly as its labels say. */
  lemma HostMatchesByLabels(hostname: string, pattern: string)
    ensures HostMatches(hostname, pattern)
            <==> HostOf(hostname) != "" && EntryOf(pattern) != ""
                 && Covers(Labels(HostOf(hostname)), Labels(EntryOf(pattern)))
  {
    hide NoStar, Labels, HostOf, EntryOf, MatchesWild, CoversWild;
    var host, entry := HostOf(hostname), EntryOf(pattern);
    StarInLabels(entry);
    SameLabels(host, entry);
    LabelsAtDot(entry);
    var d := FirstDot(entry);
    if d < |entry| {
      assert Labels(entry)[1..] == Labels(entry[d + 1..]);
      WildByLabels(host, entry[..d], entry[d + 1..]);
    }
  }

  lemma EmptyLabels(s: string)
    ensures Labels(s) == [""] <==> s == ""
  {
    SameLabels(s, "");
  }
}
