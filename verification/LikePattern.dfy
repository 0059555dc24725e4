/** The memory search pattern (services/memory.py, build_search_pattern) under LIKE. */
module LikePattern {
  import opened Options
  import opened Text
  import opened TextMeaning

  const LIKE_ESCAPE: char := '\\'

  // ---- the pattern as the code builds it ---------------------------------------------

  /** str.replace of one character. */
  function Replace(s: string, c: char, put: string): string {
    if s == "" then "" else (if s[0] == c then put else [s[0]]) + Replace(s[1..], c, put)
  }

  /** The three replaces, in the order they are made. */
  function Thrice(s: string): string {
    Replace(Replace(Replace(s, LIKE_ESCAPE, [LIKE_ESCAPE, LIKE_ESCAPE]), '%', [LIKE_ESCAPE, '%']), '_', [LIKE_ESCAPE, '_'])
  }

  function Term(query: Option<string>): string {
    Strip(if query.Some? then query.value else "")
  }

  /** The pattern for a search term, or none for "no filter". */
  function BuildSearchPattern(query: Option<string>): Option<string> {
    if Term(query) == "" then None else Some("%" + Thrice(Term(query)) + "%")
  }

  // ---- LIKE ---------------------------------------------------------------------------

  /** The <like predicate> with the backslash as escape character. Characters are compared
      through `fold`: the identity for LIKE, a case folding for ILIKE. */
  predicate Like(s: string, p: string, fold: char -> char)
    decreases |s| + |p|
  {
    if p == "" then s == ""
    else if p[0] == '%' then Like(s, p[1..], fold) || (s != "" && Like(s[1..], p, fold))
    else if p[0] == '_' then s != "" && Like(s[1..], p[1..], fold)
    else if p[0] == '\\' && |p| > 1 then s != "" && fold(s[0]) == fold(p[1]) && Like(s[1..], p[2..], fold)
    else s != "" && fold(s[0]) == fold(p[0]) && Like(s[1..], p[1..], fold)
  }

  /** Every escape character is followed by `%`, `_` or itself; otherwise LIKE raises an error. */
  predicate ValidPattern(p: string) {
    if p == "" then true
    else if p[0] == '\\' then |p| > 1 && (p[1] == '%' || p[1] == '_' || p[1] == '\\') && ValidPattern(p[2..])
    else ValidPattern(p[1..])
  }

  /** Unescaped, `_` is any one character and `%` any text: what the escaping keeps from
      happening. */
  lemma WildcardsMatchAnything(c: char, s: string, fold: char -> char)
    ensures Like([c], "_", fold) && !Like("", "_", fold) && Like(s, "%", fold)
  {
    assert "_"[1..] == "" && [c][1..] == "";
    LikeAnything(s, fold);
  }

  // ---- the three replaces are one map ----------------------------------------------------

  function EscapeChar(c: char): string {
    if c == '\\' || c == '%' || c == '_' then ['\\', c] else [c]
  }

  function EscapeAll(s: string): string {
    if s == "" then "" else EscapeChar(s[0]) + EscapeAll(s[1..])
  }

  lemma {:induction false} ReplaceConcat(a: string, b: string, c: char, put: string)
    ensures Replace(a + b, c, put) == Replace(a, c, put) + Replace(b, c, put)
  {
    if a == "" {
      assert a + b == b;
    } else {
      assert (a + b)[1..] == a[1..] + b;
      ReplaceConcat(a[1..], b, c, put);
    }
  }

  lemma ReplaceOne(x: char, c: char, put: string)
    ensures Replace([x], c, put) == if x == c then put else [x]
  {
    assert [x][1..] == "";
    assert Replace("", c, put) == "";
  }

  lemma ReplaceTwo(x: char, y: char, c: char, put: string)
    ensures Replace([x, y], c, put) == (if x == c then put else [x]) + (if y == c then put else [y])
  {
    hide Replace;
    assert [x, y] == [x] + [y];
    ReplaceConcat([x], [y], c, put);
    ReplaceOne(x, c, put);
    ReplaceOne(y, c, put);
  }

  lemma ThriceConcat(a: string, b: string)
    ensures Thrice(a + b) == Thrice(a) + Thrice(b)
  {
    hide Replace;
    ReplaceConcat(a, b, '\\', ['\\', '\\']);
    var a1, b1 := Replace(a, '\\', ['\\', '\\']), Replace(b, '\\', ['\\', '\\']);
    ReplaceConcat(a1, b1, '%', ['\\', '%']);
    ReplaceConcat(Replace(a1, '%', ['\\', '%']), Replace(b1, '%', ['\\', '%']), '_', ['\\', '_']);
  }

  lemma ThriceOne(c: char)
    ensures Thrice([c]) == EscapeChar(c)
  {
    hide Replace;
    ReplaceOne(c, '\\', ['\\', '\\']);
    ReplaceOne(c, '%', ['\\', '%']);
    ReplaceOne(c, '_', ['\\', '_']);
    ReplaceTwo('\\', '\\', '%', ['\\', '%']);
    ReplaceTwo('\\', '\\', '_', ['\\', '_']);
    ReplaceTwo('\\', '%', '_', ['\\', '_']);
    assert ['\\'] + ['\\'] == ['\\', '\\'] && ['\\'] + ['%'] == ['\\', '%'];
  }

  /** The order of the replaces escapes every special character once. */
  lemma {:induction false} ThreeReplacesAreOneMap(s: string)
    ensures Thrice(s) == EscapeAll(s)
  {
    hide EscapeChar;
    if s != "" {
      assert s == [s[0]] + s[1..];
      hide Thrice;
      ThriceConcat([s[0]], s[1..]);
      ThriceOne(s[0]);
      ThreeReplacesAreOneMap(s[1..]);
    }
  }

  // ---- what the pattern matches ------------------------------------------------------------

  predicate SameFolded(a: string, b: string, fold: char -> char) {
    |a| == |b| && forall k :: 0 <= k < |a| ==> fold(a[k]) == fold(b[k])
  }

  /** `term` occurs in `text` at k, compared through `fold`. */
  predicate OccursAt(text: string, term: string, k: nat, fold: char -> char) {
    k + |term| <= |text| && SameFolded(text[k..k + |term|], term, fold)
  }

  lemma LikeEscaped(s: string, c: char, rest: string, fold: char -> char)
    ensures Like(s, EscapeChar(c) + rest, fold) <==> s != "" && fold(s[0]) == fold(c) && Like(s[1..], rest, fold)
  {
    var p := EscapeChar(c) + rest;
    if |EscapeChar(c)| == 2 {
      assert p[2..] == rest;
    } else {
      assert p[1..] == rest;
    }
  }

  lemma {:induction false} LikeTerm(s: string, term: string, rest: string, fold: char -> char)
    ensures Like(s, EscapeAll(term) + rest, fold)
            <==> |term| <= |s| && SameFolded(s[..|term|], term, fold) && Like(s[|term|..], rest, fold)
  {
    hide EscapeChar, Like;
    if term == "" {
      assert EscapeAll(term) + rest == rest && s[0..] == s;
    } else {
      var t := term[1..];
      assert EscapeAll(term) + rest == EscapeChar(term[0]) + (EscapeAll(t) + rest);
      LikeEscaped(s, term[0], EscapeAll(t) + rest, fold);
      if s != "" {
        LikeTerm(s[1..], t, rest, fold);
        if |term| <= |s| {
          assert s[1..][|t|..] == s[|term|..];
          SameFoldedStep(s[..|term|], term, fold);
          assert s[1..][..|t|] == s[..|term|][1..];
        }
      }
    }
  }

  lemma SameFoldedStep(a: string, b: string, fold: char -> char)
    requires |a| == |b| > 0
    ensures SameFolded(a, b, fold) <==> fold(a[0]) == fold(b[0]) && SameFolded(a[1..], b[1..], fold)
  {
    if fold(a[0]) == fold(b[0]) && SameFolded(a[1..], b[1..], fold) {
      forall k | 0 <= k < |a| ensures fold(a[k]) == fold(b[k]) {
        assert k > 0 ==> a[1..][k - 1] == a[k] && b[1..][k - 1] == b[k];
      }
    }
  }

  lemma {:induction false} LikeAnything(s: string, fold: char -> char)
    ensures Like(s, "%", fold)
  {
    assert "%"[1..] == "";
    if s != "" {
      LikeAnything(s[1..], fold);
    }
  }

  /** A leading `%` matches at some position. */
  lemma {:induction false} LikePercent(s: string, p: string, fold: char -> char)
    ensures Like(s, "%" + p, fold) <==> exists k: nat :: k <= |s| && Like(s[k..], p, fold)
  {
    assert ("%" + p)[1..] == p && s[0..] == s;
    if s != "" {
      var t := s[1..];
      LikePercent(t, p, fold);
      if k: nat :| k <= |t| && Like(t[k..], p, fold) {
        assert t[k..] == s[k + 1..];
      }
      if k: nat :| 0 < k <= |s| && Like(s[k..], p, fold) {
        assert s[k..] == t[k - 1..];
      }
    }
  }

  /** A text matches the built pattern exactly when it contains the trimmed term. */
  lemma SearchFindsTerm(query: Option<string>, text: string, fold: char -> char)
    requires BuildSearchPattern(query).Some?
    ensures Like(text, BuildSearchPattern(query).value, fold)
            <==> exists k: nat :: OccursAt(text, Term(query), k, fold)
  {
    hide Like, Term, EscapeAll, Replace, SameFolded;
    var term := Term(query);
    var escaped := EscapeAll(term);
    ThreeReplacesAreOneMap(term);
    assert BuildSearchPattern(query).value == "%" + (escaped + "%");
    LikePercent(text, escaped + "%", fold);
    forall k: nat | k <= |text| ensures Like(text[k..], escaped + "%", fold) <==> OccursAt(text, term, k, fold) {
      LikeTerm(text[k..], term, "%", fold);
      if |term| <= |text[k..]| {
        LikeAnything(text[k..][|term|..], fold);
        assert text[k..][..|term|] == text[k..k + |term|];
      }
    }
  }

  /** The same for the query without its outer white space, however its ends are found. */
  lemma SearchFindsCore(query: string, i: nat, j: nat, text: string, fold: char -> char)
    requires Core(query, i, j)
    ensures BuildSearchPattern(Some(query)).Some? <==> i < j
    ensures i < j ==> (Like(text, BuildSearchPattern(Some(query)).value, fold)
                       <==> exists k: nat :: OccursAt(text, query[i..j], k, fold))
  {
    hide Like, Strip, AllSpace, Thrice, OccursAt;
    StripIsCore(query, i, j);
    if i < j {
      SearchFindsTerm(Some(query), text, fold);
    }
  }

  /** Without folding that is `term in text`. */
  lemma ExactSearchIsContains(query: Option<string>, text: string)
    requires BuildSearchPattern(query).Some?
    ensures Like(text, BuildSearchPattern(query).value, (c: char) => c) <==> Contains(text, Term(query))
  {
    hide Like, Term, BuildSearchPattern;
    var fold := (c: char) => c;
    var term := Term(query);
    SearchFindsTerm(query, text, fold);
    forall k: nat ensures OccursAt(text, term, k, fold) <==> k <= |text| && StartsWith(text[k..], term) {
      if k + |term| <= |text| {
        assert text[k..][..|term|] == text[k..k + |term|];
        assert SameFolded(text[k..k + |term|], term, fold) <==> text[k..k + |term|] == term;
      }
    }
  }

  lemma {:induction false} EscapedIsValid(s: string, rest: string)
    ensures ValidPattern(EscapeAll(s) + rest) <==> ValidPattern(rest)
  {
    if s == "" {
      assert EscapeAll(s) + rest == rest;
    } else {
      var tail := EscapeAll(s[1..]) + rest;
      assert EscapeAll(s) + rest == EscapeChar(s[0]) + tail;
      EscapedIsValid(s[1..], rest);
      if |EscapeChar(s[0])| == 2 {
        assert (EscapeChar(s[0]) + tail)[2..] == tail;
      } else {
        assert (EscapeChar(s[0]) + tail)[1..] == tail;
      }
    }
  }

  /** The built pattern never raises the invalid-escape error; a blank term builds none. */
  lemma PatternIsValid(query: Option<string>)
    ensures BuildSearchPattern(query).None? <==> query.None? || forall k :: 0 <= k < |query.value| ==> IsSpace(query.value[k])
    ensures BuildSearchPattern(query).Some? ==> ValidPattern(BuildSearchPattern(query).value)
  {
    hide Replace, EscapeAll, IsSpace, Strip;
    var text := if query.Some? then query.value else "";
    var term := Term(query);
    BlankStrip(text);
    ThreeReplacesAreOneMap(term);
    var body := EscapeAll(term) + "%";
    EscapedIsValid(term, "%");
    assert "%"[1..] == "";
    if term != "" {
      assert BuildSearchPattern(query).value == "%" + body;
      assert ("%" + body)[1..] == body;
    }
  }

  lemma {:induction false} BlankStrip(s: string)
    ensures Strip(s) == "" <==> forall k :: 0 <= k < |s| ==> IsSpace(s[k])
    decreases |s|
  {
    hide IsSpace;
    if s != "" && IsSpace(s[0]) {
      var t := s[1..];
      BlankStrip(t);
      if forall k :: 0 <= k < |t| ==> IsSpace(t[k]) {
        assert forall k :: 0 < k < |s| ==> s[k] == t[k - 1];
      } else {
        var k :| 0 <= k < |t| && !IsSpace(t[k]);
        assert s[k + 1] == t[k];
      }
    } else if s != "" {
      KeepsFirst(s);
    }
  }

  lemma {:induction false} KeepsFirst(s: string)
    requires s != "" && !IsSpace(s[0])
    ensures RStrip(s) != ""
  {
    hide IsSpace;
    if IsSpace(s[|s| - 1]) {
      KeepsFirst(s[..|s| - 1]);
    }
  }
}
