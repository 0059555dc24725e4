/** Hosts, entries and globs of the allowlist, character by character
    (core/network_security.py, host_matches). */
module HostMeaning {
  import opened Text
  import opened TextMeaning
  import opened HostAllowlist
  import opened HostSelection

  /** What a `*` may stand for: a small ASCII letter, a digit or a hyphen, by code. */
  predicate LabelCode(n: int) { 97 <= n <= 122 || 48 <= n <= 57 || n == 45 }

  // ---- the texts that are compared ------------------------------------------------------

  ghost predicate AllDots(s: string) {
    forall k :: 0 <= k < |s| ==> s[k] == '.'
  }

  lemma {:induction false} WithoutDots(s: string, dots: string)
    requires AllDots(dots) && (s == "" || s[|s| - 1] != '.')
    ensures RStripDots(s + dots) == s
  {
    if dots == "" {
      assert s + dots == s;
    } else {
      var n := |dots| - 1;
      assert (s + dots)[..|s + dots| - 1] == s + dots[..n];
      WithoutDots(s, dots[..n]);
    }
  }

  /** A host is compared without its final dots and with its ASCII capitals made small. */
  lemma HostOfIs(hostname: string, dots: string, small: string)
    requires AllDots(dots) && (hostname == "" || hostname[|hostname| - 1] != '.') && Lowered(hostname, small)
    ensures HostOf(hostname + dots) == small
  {
    hide RStripDots;
    LowerIs(hostname + dots);
    var lower := Lower(hostname + dots);
    forall k | 0 <= k < |hostname| ensures lower[k] == small[k] {
      assert SameLetter((hostname + dots)[k], lower[k]) && !('A' <= lower[k] <= 'Z');
      assert (hostname + dots)[k] == hostname[k];
    }
    assert lower[..|hostname|] == small;
    assert lower == small + lower[|hostname|..];
    WithoutDots(small, lower[|hostname|..]);
  }

  /** An entry is compared without its outer white space, with its ASCII capitals made small. */
  lemma EntryOfIs(pattern: string, i: nat, j: nat, small: string)
    requires Core(pattern, i, j) && Lowered(pattern[i..j], small)
    ensures EntryOf(pattern) == small
  {
    hide Strip, AllSpace;
    StripIsCore(pattern, i, j);
    LowerIs(pattern[i..j]);
    var lower := Lower(pattern[i..j]);
    forall k | 0 <= k < |lower| ensures lower[k] == small[k] {
      assert SameLetter(pattern[i..j][k], lower[k]) && SameLetter(pattern[i..j][k], small[k]);
    }
    assert lower == small;
  }

  // ---- the language of a glob ---------------------------------------------------------------

  ghost predicate LabelText(s: string) {
    forall k :: 0 <= k < |s| ==> LabelCode(s[k] as int)
  }

  /** The glob with its stars replaced, in order, by these texts. */
  ghost predicate Fills(glob: string, texts: seq<string>, s: string) {
    if glob == "" then texts == [] && s == ""
    else if glob[0] == '*' then
      && texts != [] && |texts[0]| <= |s| && s[..|texts[0]|] == texts[0]
      && Fills(glob[1..], texts[1..], s[|texts[0]|..])
    else s != "" && s[0] == glob[0] && Fills(glob[1..], texts, s[1..])
  }

  ghost predicate FilledBy(glob: string, texts: seq<string>, s: string) {
    Fills(glob, texts, s) && forall t :: t in texts ==> LabelText(t)
  }

  /** A glob accepts exactly the texts made from it by replacing each star by letters, digits and
      hyphens. */
  lemma {:induction false} GlobLanguage(glob: string, s: string)
    ensures GlobMatch(glob, s) <==> exists texts: seq<string> :: FilledBy(glob, texts, s)
    decreases |glob|, 0
  {
    hide LabelText, IsLabelChar;
    if glob == "" {
      assert s == "" ==> FilledBy(glob, [], s);
    } else if glob[0] == '*' {
      StarLanguage(glob[1..], s);
      assert glob == "*" + glob[1..];
    } else {
      if s != "" {
        GlobLanguage(glob[1..], s[1..]);
      }
      if GlobMatch(glob, s) {
        var texts: seq<string> :| FilledBy(glob[1..], texts, s[1..]);
        assert FilledBy(glob, texts, s);
      }
      if texts: seq<string> :| FilledBy(glob, texts, s) {
        assert FilledBy(glob[1..], texts, s[1..]);
      }
    }
  }

  lemma RunIsLabelText(s: string)
    ensures IsRun(s) <==> LabelText(s)
  {
  }

  lemma {:induction false} StarLanguage(rest: string, s: string)
    ensures GlobMatch("*" + rest, s) <==>
            exists texts: seq<string> :: FilledBy("*" + rest, texts, s)
    decreases |rest|, 1
  {
    hide LabelText, IsLabelChar, IsRun;
    StarIsRun(rest, s);
    var glob := "*" + rest;
    assert glob[1..] == rest;
    if n :| 0 <= n <= |s| && RunThenGlob(s, n, rest) {
      GlobLanguage(rest, s[n..]);
      RunIsLabelText(s[..n]);
      var texts: seq<string> :| FilledBy(rest, texts, s[n..]);
      assert ([s[..n]] + texts)[1..] == texts;
      assert s[..|s[..n]|] == s[..n];
      assert FilledBy(glob, [s[..n]] + texts, s);
    }
    if texts: seq<string> :| FilledBy(glob, texts, s) {
      var n := |texts[0]|;
      GlobLanguage(rest, s[n..]);
      RunIsLabelText(s[..n]);
      assert FilledBy(rest, texts[1..], s[n..]);
      assert RunThenGlob(s, n, rest);
    }
  }

  // ---- literal characters ------------------------------------------------------------------

  /** Specificity counts: a star nothing, any other character one, and parts add up. */
  lemma {:induction false} SpecificityAddsUp(a: string, b: string)
    ensures Specificity(a + b) == Specificity(a) + Specificity(b)
    ensures Specificity("*") == 0 && forall c: char :: c != '*' ==> Specificity([c]) == 1
  {
    assert "*"[1..] == "";
    forall c: char | c != '*' ensures Specificity([c]) == 1 {
      assert [c][1..] == "";
    }
    if a == "" {
      assert a + b == b;
    } else {
      assert (a + b)[1..] == a[1..] + b;
      SpecificityAddsUp(a[1..], b);
    }
  }
}
