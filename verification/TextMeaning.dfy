/** What the Python string operations do, character by character. */
module TextMeaning {
  import opened Text

  /** The code points str.isspace() accepts. */
  const SPACES: set<int> := {9, 10, 11, 12, 13, 28, 29, 30, 31, 32, 133, 160, 5760, 8192, 8193, 8194, 8195, 8196, 8197,
                             8198, 8199, 8200, 8201, 8202, 8232, 8233, 8239, 8287, 12288}

  lemma SpacesAre(c: char)
    ensures IsSpace(c) <==> c as int in SPACES
  {
  }

  ghost predicate AllSpace(s: string) {
    forall k :: 0 <= k < |s| ==> IsSpace(s[k])
  }

  /** s[i..j] is what is left of `s` without its outer white space. */
  ghost predicate Core(s: string, i: nat, j: nat) {
    && i <= j <= |s| && AllSpace(s[..i]) && AllSpace(s[j..])
    && (i < j ==> !IsSpace(s[i]) && !IsSpace(s[j - 1]))
  }

  lemma {:induction false} LStripOf(before: string, rest: string)
    requires AllSpace(before) && (rest != "" ==> !IsSpace(rest[0]))
    ensures LStrip(before + rest) == rest
  {
    hide IsSpace;
    if before == "" {
      assert before + rest == rest;
    } else {
      assert (before + rest)[1..] == before[1..] + rest;
      LStripOf(before[1..], rest);
    }
  }

  lemma {:induction false} RStripOf(rest: string, after: string)
    requires AllSpace(after) && (rest != "" ==> !IsSpace(rest[|rest| - 1]))
    ensures RStrip(rest + after) == rest
  {
    hide IsSpace;
    if after == "" {
      assert rest + after == rest;
    } else {
      var n := |after| - 1;
      assert (rest + after)[..|rest + after| - 1] == rest + after[..n];
      RStripOf(rest, after[..n]);
    }
  }

  lemma {:induction false} LStripSpace(s: string)
    requires AllSpace(s)
    ensures LStrip(s) == ""
  {
    hide IsSpace;
    if s != "" {
      LStripSpace(s[1..]);
    }
  }

  /** White space on both sides goes, and nothing else does. */
  lemma StripOf(before: string, core: string, after: string)
    requires AllSpace(before) && AllSpace(after)
    requires core != "" ==> !IsSpace(core[0]) && !IsSpace(core[|core| - 1])
    ensures Strip(before + core + after) == core
  {
    hide IsSpace, LStrip, RStrip;
    if core == "" {
      assert before + core + after == before + after;
      LStripSpace(before + after);
      RStripOf("", "");
      assert "" + "" == "";
    } else {
      assert before + core + after == before + (core + after);
      LStripOf(before, core + after);
      RStripOf(core, after);
    }
  }

  /** strip() returns the core, whichever way its ends are found. */
  lemma StripIsCore(s: string, i: nat, j: nat)
    requires Core(s, i, j)
    ensures Strip(s) == s[i..j]
  {
    hide IsSpace, Strip;
    assert s == s[..i] + s[i..j] + s[j..];
    StripOf(s[..i], s[i..j], s[j..]);
  }

  /** Every text has a core. */
  lemma {:induction false} CoreExists(s: string) returns (i: nat, j: nat)
    ensures Core(s, i, j)
  {
    hide IsSpace;
    if s == "" {
      i, j := 0, 0;
    } else if IsSpace(s[0]) {
      var t := s[1..];
      var a, b := CoreExists(t);
      i, j := a + 1, b + 1;
      assert s[..i] == [s[0]] + t[..a] && s[j..] == t[b..];
      forall k | 0 <= k < |s[..i]| ensures IsSpace(s[..i][k]) {
        assert k > 0 ==> s[..i][k] == t[..a][k - 1];
      }
    } else if IsSpace(s[|s| - 1]) {
      var n := |s| - 1;
      var t := s[..n];
      var a, b := CoreExists(t);
      FirstStays(t, a, b);
      i, j := a, b;
      assert s[..i] == t[..a];
      forall k | 0 <= k < |s[j..]| ensures IsSpace(s[j..][k]) {
        assert k < n - j ==> s[j..][k] == t[b..][k];
      }
    } else {
      i, j := 0, |s|;
    }
  }

  lemma FirstStays(s: string, i: nat, j: nat)
    requires Core(s, i, j) && s != "" && !IsSpace(s[0])
    ensures i == 0 && j > 0
  {
    hide IsSpace;
    assert forall k :: 0 <= k < i ==> s[k] == s[..i][k];
    assert forall k :: j <= k < |s| ==> s[k] == s[j..][k - j];
  }

  // ---- case ------------------------------------------------------------------------

  /** The same character, ASCII letters compared without case. */
  predicate SameLetter(c: char, d: char) {
    || c == d
    || ('A' <= c <= 'Z' && d as int == c as int + 32)
    || ('A' <= d <= 'Z' && c as int == d as int + 32)
  }

  ghost predicate SameLetters(a: string, b: string) {
    |a| == |b| && forall k :: 0 <= k < |a| ==> SameLetter(a[k], b[k])
  }

  lemma LowerMeans(a: string, b: string)
    ensures Lower(a) == Lower(b) <==> SameLetters(a, b)
  {
    assert |Lower(a)| == |a| && |Lower(b)| == |b|;
    if Lower(a) == Lower(b) {
      forall k | 0 <= k < |a| ensures SameLetter(a[k], b[k]) {
        assert Lower(a)[k] == LowerChar(a[k]) && Lower(b)[k] == LowerChar(b[k]);
      }
    }
    if SameLetters(a, b) {
      forall k | 0 <= k < |a| ensures Lower(a)[k] == Lower(b)[k] {
        assert SameLetter(a[k], b[k]);
      }
    }
  }

  /** `t` is `s` with its ASCII capitals made small. */
  ghost predicate Lowered(s: string, t: string) {
    && |s| == |t|
    && forall k :: 0 <= k < |s| ==> SameLetter(s[k], t[k]) && !('A' <= t[k] <= 'Z')
  }

  lemma LowerIs(s: string)
    ensures Lowered(s, Lower(s))
  {
  }

  /** `sub in s`: the text is something, `sub`, and something more. */
  lemma ContainsMeans(s: string, sub: string)
    ensures Contains(s, sub) <==> exists a: string, b: string :: s == a + sub + b
  {
    if Contains(s, sub) {
      var k :| 0 <= k <= |s| && StartsWith(s[k..], sub);
      assert s == s[..k] + sub + s[k + |sub|..];
    }
    if a: string, b: string :| s == a + sub + b {
      assert s[|a|..][..|sub|] == sub;
      assert StartsWith(s[|a|..], sub);
    }
  }
}
