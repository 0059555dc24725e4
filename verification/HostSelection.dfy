/** Which allowlist entry governs a host (core/network_security.py, match_host_pattern). */
module HostSelection {
  import opened Options
  import opened Text
  import opened HostAllowlist

  predicate IsWild(entry: string) { '*' in entry }

  /** Literal characters in an entry. */
  function Specificity(entry: string): nat {
    if entry == "" then 0 else (if entry[0] == '*' then 0 else 1) + Specificity(entry[1..])
  }

  function Wilds(entries: seq<string>): (r: seq<string>)
    ensures forall e :: e in r ==> IsWild(e)
  {
    if entries == [] then [] else (if IsWild(entries[0]) then [entries[0]] else []) + Wilds(entries[1..])
  }

  /** Stable sort by descending specificity. */
  function Insert(entry: string, sorted: seq<string>): seq<string> {
    if sorted == [] || Specificity(sorted[0]) <= Specificity(entry) then [entry] + sorted
    else [sorted[0]] + Insert(entry, sorted[1..])
  }

  function Sorted(entries: seq<string>): seq<string> {
    if entries == [] then [] else Insert(entries[0], Sorted(entries[1..]))
  }

  /** The k-th entry governs `host`: an exact entry comes first, then the most specific
      wildcard; the list order only decides between equals. */
  predicate Governs(host: string, entries: seq<string>, k: nat)
    requires k < |entries|
  {
    && HostMatches(host, entries[k])
    && forall j: nat | j < |entries| && j != k && HostMatches(host, entries[j]) :: Beats(entries, k, j)
  }

  /** Entry k goes before entry j. */
  predicate Beats(entries: seq<string>, k: nat, j: nat)
    requires k < |entries| && j < |entries|
  {
    if IsWild(entries[k]) != IsWild(entries[j]) then !IsWild(entries[k])
    else if IsWild(entries[k]) && Specificity(entries[k]) != Specificity(entries[j]) then
      Specificity(entries[k]) > Specificity(entries[j])
    else k < j
  }

  /** match_host_pattern. */
  method MatchHostPattern(host: string, patterns: seq<string>) returns (r: Option<string>)
    ensures r.None? <==> forall e :: e in patterns ==> !HostMatches(host, e)
    ensures r.Some? ==> exists k: nat :: k < |patterns| && patterns[k] == r.value && Governs(host, patterns, k)
    ensures r == Governing(host, patterns)
  {
    hide HostMatches, IsWild, Specificity, Governs, Wilds, Sorted;
    GoverningGoverns(host, patterns);
    var i := 0;
    while i < |patterns|
      invariant 0 <= i <= |patterns|
      invariant FirstExact(host, patterns) == FirstExact(host, patterns[i..])
    {
      if !IsWild(patterns[i]) && HostMatches(host, patterns[i]) {
        return Some(patterns[i]);
      }
      i := i + 1;
    }
    var wildcards := Sorted(Wilds(patterns));
    i := 0;
    while i < |wildcards|
      invariant 0 <= i <= |wildcards|
      invariant First(host, wildcards) == First(host, wildcards[i..])
    {
      if HostMatches(host, wildcards[i]) {
        return Some(wildcards[i]);
      }
      i := i + 1;
    }
    return None;
  }

  function FirstExact(host: string, entries: seq<string>): Option<string> {
    if entries == [] then None
    else if !IsWild(entries[0]) && HostMatches(host, entries[0]) then Some(entries[0])
    else FirstExact(host, entries[1..])
  }

  function First(host: string, entries: seq<string>): Option<string> {
    if entries == [] then None
    else if HostMatches(host, entries[0]) then Some(entries[0])
    else First(host, entries[1..])
  }

  /** The answer as a function of the list. */
  function Governing(host: string, patterns: seq<string>): Option<string> {
    var exact := FirstExact(host, patterns);
    if exact.Some? then exact else First(host, Sorted(Wilds(patterns)))
  }

  // ---- sorting and taking the first is taking the best ------------------------------

  /** The index of the governing entry, found in one pass from the back. */
  function Best(host: string, entries: seq<string>): (r: Option<nat>)
    ensures r.Some? ==> r.value < |entries|
  {
    if entries == [] then None
    else
      var later := Best(host, entries[1..]);
      if !HostMatches(host, entries[0]) then (if later.Some? then Some(later.value + 1) else None)
      else if later.None? then Some(0)
      else if Before(entries[0], entries[1..][later.value]) then Some(0) else Some(later.value + 1)
  }

  /** `a`, earlier in the list, goes before `b`. */
  predicate Before(a: string, b: string) {
    if IsWild(a) then IsWild(b) && Specificity(a) >= Specificity(b) else true
  }

  lemma FirstOfInsert(host: string, entry: string, sorted: seq<string>)
    requires Descending(sorted)
    ensures First(host, Insert(entry, sorted))
            == if HostMatches(host, entry)
                  && (First(host, sorted).None? || Specificity(First(host, sorted).value) <= Specificity(entry))
               then Some(entry) else First(host, sorted)
    ensures Descending(Insert(entry, sorted))
  {
    hide HostMatches, Specificity;
    var all := Insert(entry, sorted);
    if sorted != [] {
      FirstIsIn(host, sorted);
      if Specificity(sorted[0]) <= Specificity(entry) {
        assert all[1..] == sorted;
      } else {
        FirstOfInsert(host, entry, sorted[1..]);
        assert all[0] == sorted[0] && all[1..] == Insert(entry, sorted[1..]);
        InsertIsIn(entry, sorted[1..]);
      }
    }
  }

  predicate Descending(entries: seq<string>) {
    forall i: nat, j: nat | i < j < |entries| :: Specificity(entries[i]) >= Specificity(entries[j])
  }

  lemma FirstIsIn(host: string, entries: seq<string>)
    ensures First(host, entries).Some? ==> First(host, entries).value in entries && HostMatches(host, First(host, entries).value)
  {
    hide HostMatches;
  }

  lemma InsertIsIn(entry: string, sorted: seq<string>)
    ensures forall e :: e in Insert(entry, sorted) <==> e == entry || e in sorted
  {
    hide Specificity;
  }

  lemma {:induction false} ExactIsBest(host: string, patterns: seq<string>)
    ensures var exact, best := FirstExact(host, patterns), Best(host, patterns);
            if exact.Some? then best.Some? && patterns[best.value] == exact.value
            else best.Some? ==> IsWild(patterns[best.value])
    ensures FirstExact(host, patterns).Some? ==> !IsWild(FirstExact(host, patterns).value)
  {
    hide HostMatches, IsWild, Specificity;
    if patterns != [] {
      ExactIsBest(host, patterns[1..]);
    }
  }

  lemma {:induction false} WildIsBest(host: string, patterns: seq<string>)
    requires FirstExact(host, patterns).None?
    ensures Descending(Sorted(Wilds(patterns)))
    ensures var best := Best(host, patterns);
            First(host, Sorted(Wilds(patterns))) == if best.Some? then Some(patterns[best.value]) else None
  {
    hide HostMatches, IsWild, Specificity, Insert, Descending;
    if patterns == [] {
      NoneIsDescending();
    } else {
      var rest := patterns[1..];
      WildIsBest(host, rest);
      ExactIsBest(host, rest);
      if IsWild(patterns[0]) {
        assert Wilds(patterns)[1..] == Wilds(rest);
        FirstOfInsert(host, patterns[0], Sorted(Wilds(rest)));
      } else {
        assert Wilds(patterns) == Wilds(rest);
      }
    }
  }

  lemma NoneIsDescending()
    ensures Descending([])
  {
  }

  /** Sorting and searching finds what one pass finds. */
  lemma GoverningIsBest(host: string, patterns: seq<string>)
    ensures var best := Best(host, patterns);
            Governing(host, patterns) == if best.Some? then Some(patterns[best.value]) else None
  {
    hide HostMatches, IsWild, Best, FirstExact, First, Sorted, Wilds, Descending;
    ExactIsBest(host, patterns);
    if FirstExact(host, patterns).None? {
      WildIsBest(host, patterns);
    }
  }

  lemma {:induction false} BestGoverns(host: string, entries: seq<string>)
    ensures var best := Best(host, entries);
            if best.None? then forall e :: e in entries ==> !HostMatches(host, e)
            else Governs(host, entries, best.value)
  {
    hide HostMatches, IsWild, Specificity;
    if entries != [] {
      var rest := entries[1..];
      BestGoverns(host, rest);
      var best, later := Best(host, entries), Best(host, rest);
      if best.Some? {
        forall j: nat | j < |entries| && j != best.value && HostMatches(host, entries[j])
          ensures Beats(entries, best.value, j)
        {
          if j > 0 {
            assert rest[j - 1] == entries[j];
            assert later.Some?;
            assert j - 1 != later.value ==> Beats(rest, later.value, j - 1);
          }
        }
      }
    }
  }

  lemma GoverningGoverns(host: string, patterns: seq<string>)
    ensures var r := Governing(host, patterns);
            if r.None? then forall e :: e in patterns ==> !HostMatches(host, e)
            else exists k: nat :: k < |patterns| && patterns[k] == r.value && Governs(host, patterns, k)
  {
    hide HostMatches, IsWild, Specificity, Governs, Governing;
    GoverningIsBest(host, patterns);
    BestGoverns(host, patterns);
  }

  /** Reordering, repeating or adding entries that do not cover the host keeps the kind and the
      specificity of the answer; an exact answer keeps its host. */
  lemma OrderIsIrrelevant(host: string, a: seq<string>, b: seq<string>)
    requires forall e :: HostMatches(host, e) ==> (e in a <==> e in b)
    ensures var x, y := Governing(host, a), Governing(host, b);
            && (x.Some? <==> y.Some?)
            && (x.Some? && y.Some? ==>
                  && IsWild(x.value) == IsWild(y.value)
                  && (IsWild(x.value) ==> Specificity(x.value) == Specificity(y.value))
                  && (!IsWild(x.value) ==> EntryOf(x.value) == EntryOf(y.value) == HostOf(host)))
  {
    hide HostMatches, IsWild, Specificity, Governing, EntryOf, HostOf, Governs;
    GoverningGoverns(host, a);
    GoverningGoverns(host, b);
    var x, y := Governing(host, a), Governing(host, b);
    if x.Some? {
      var i: nat :| i < |a| && a[i] == x.value && Governs(host, a, i);
      GovernsMatches(host, a, i);
      assert x.value in b;
    }
    if y.Some? {
      var j: nat :| j < |b| && b[j] == y.value && Governs(host, b, j);
      GovernsMatches(host, b, j);
      assert y.value in a;
    }
    if x.Some? && y.Some? {
      AtLeast(host, a, y.value);
      AtLeast(host, b, x.value);
      if !IsWild(x.value) && !IsWild(y.value) {
        ExactMatch(host, x.value);
        ExactMatch(host, y.value);
      }
    }
  }

  lemma GovernsMatches(host: string, entries: seq<string>, k: nat)
    requires k < |entries| && Governs(host, entries, k)
    ensures HostMatches(host, entries[k])
  {
    hide HostMatches;
  }

  /** The governing entry is at least as specific as any entry that covers the host. */
  lemma AtLeast(host: string, entries: seq<string>, e: string)
    requires e in entries && HostMatches(host, e)
    ensures var r := Governing(host, entries);
            r.Some? && (IsWild(r.value) ==> IsWild(e) && Specificity(r.value) >= Specificity(e))
  {
    hide HostMatches, IsWild, Specificity, Governing;
    GoverningGoverns(host, entries);
    var k: nat :| k < |entries| && entries[k] == Governing(host, entries).value && Governs(host, entries, k);
    var j: nat :| j < |entries| && entries[j] == e;
    assert j != k ==> Beats(entries, k, j);
  }

  lemma ExactMatch(host: string, entry: string)
    requires HostMatches(host, entry) && !IsWild(entry)
    ensures EntryOf(entry) == HostOf(host)
  {
    hide RStrip, LStrip, HostOf;
    LStripPart(entry, '*');
    RStripPart(LStrip(entry), '*');
    var stripped := Strip(entry);
    assert forall k :: 0 <= k < |stripped| ==> stripped[k] in stripped;
    assert '*' !in Lower(stripped);
  }
}
