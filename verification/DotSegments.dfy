/** Dot segments under repeated percent-decoding (core/network_security.py, _has_dot_segment). */
module DotSegments {

  // ---- segments ---------------------------------------------------------------------

  predicate IsSlash(c: char) { c == '/' || c == '\\' }

  /** _SEGMENT_SPLIT_RE.split: the pieces between slashes of both kinds. */
  function Segments(s: string): (r: seq<string>)
    ensures r != []
  {
    if s == "" then [""]
    else
      var tail := Segments(s[1..]);
      if IsSlash(s[0]) then [""] + tail else [[s[0]] + tail[0]] + tail[1..]
  }

  /** segment.split(";", 1)[0]. */
  function Head(segment: string): string {
    if segment == "" || segment[0] == ';' then "" else [segment[0]] + Head(segment[1..])
  }

  predicate IsDots(s: string) { s == "." || s == ".." }

  /** The text up to the first slash, `;` or the end. */
  function Stem(s: string): string {
    if s == "" || IsSlash(s[0]) || s[0] == ';' then "" else [s[0]] + Stem(s[1..])
  }

  /** A segment starts at i and is `.` or `..`, apart from a `;` suffix. */
  predicate DotAt(s: string, i: nat)
    requires i <= |s|
  {
    (i == 0 || IsSlash(s[i - 1])) && IsDots(Stem(s[i..]))
  }

  predicate HasDots(s: string) {
    exists i: nat :: i <= |s| && DotAt(s, i)
  }

  predicate DotIn(segments: seq<string>) {
    exists k: nat :: k < |segments| && IsDots(Head(segments[k]))
  }

  lemma {:induction false} HeadOfFirst(s: string)
    ensures Head(Segments(s)[0]) == Stem(s)
  {
    if s != "" && !IsSlash(s[0]) {
      HeadOfFirst(s[1..]);
      assert Segments(s)[0][1..] == Segments(s[1..])[0];
    }
  }

  /** Dots in some segment past the first start after a slash. */
  lemma {:induction false} LaterDots(s: string)
    ensures DotIn(Segments(s)[1..]) <==> exists i: nat :: 0 < i <= |s| && DotAt(s, i)
  {
    hide IsDots, Head, Stem;
    if s != "" {
      var t := s[1..];
      LaterDots(t);
      HeadOfFirst(t);
      assert t[0..] == t;
      forall i: nat | 0 < i <= |t| ensures DotAt(t, i) <==> DotAt(s, i + 1) {
        assert t[i..] == s[i + 1..];
      }
      if i: nat :| 0 < i <= |s| && DotAt(s, i) {
        assert s[i..] == t[i - 1..];
        assert i == 1 || DotAt(t, i - 1);
      }
      FirstOrLater(Segments(t));
      if IsSlash(s[0]) {
        assert Segments(s)[1..] == Segments(t);
        assert DotAt(s, 1) <==> IsDots(Stem(t));
      } else {
        assert Segments(s)[1..] == Segments(t)[1..];
        assert !DotAt(s, 1);
      }
    }
  }

  lemma FirstOrLater(segments: seq<string>)
    requires segments != []
    ensures DotIn(segments) <==> IsDots(Head(segments[0])) || DotIn(segments[1..])
  {
    hide IsDots, Head;
    if k: nat :| k < |segments| && IsDots(Head(segments[k])) {
      assert k > 0 ==> segments[1..][k - 1] == segments[k];
    }
    if k: nat :| k < |segments[1..]| && IsDots(Head(segments[1..][k])) {
      assert segments[k + 1] == segments[1..][k];
    }
  }

  /** Looking through the segments finds a dot segment wherever one starts. */
  lemma SegmentsFindDots(s: string)
    ensures DotIn(Segments(s)) <==> HasDots(s)
  {
    hide IsDots, Head, Stem, Segments;
    HeadOfFirst(s);
    LaterDots(s);
    FirstOrLater(Segments(s));
    assert s[0..] == s;
    assert DotAt(s, 0) <==> IsDots(Stem(s));
  }

  // ---- percent-decoding ----------------------------------------------------------------

  predicate IsHex(c: char) { '0' <= c <= '9' || 'a' <= c <= 'f' || 'A' <= c <= 'F' }

  function HexValue(c: char): (v: int)
    requires IsHex(c)
    ensures 0 <= v < 16
  {
    if c <= '9' then c as int - '0' as int else if c <= 'F' then c as int - 'A' as int + 10 else c as int - 'a' as int + 10
  }

  /** `%` and two hex digits. */
  predicate Escaped(s: string) { |s| >= 3 && s[0] == '%' && IsHex(s[1]) && IsHex(s[2]) }

  function ByteOf(s: string): (b: int)
    requires Escaped(s)
    ensures 0 <= b < 256
  {
    HexValue(s[1]) * 16 + HexValue(s[2])
  }

  /** The bytes above 127 that a run of escapes at the start stands for. */
  function HighRun(s: string): (r: seq<int>)
    ensures 3 * |r| <= |s|
    ensures Escaped(s) && ByteOf(s) >= 128 ==> r != []
  {
    if Escaped(s) && ByteOf(s) >= 128 then [ByteOf(s)] + HighRun(s[3..]) else []
  }

  /** How much of the text is decoded at once: an escape, a run of escapes above 127, or one
      character. */
  function Step(s: string): (n: nat)
    requires s != ""
    ensures 0 < n <= |s|
  {
    if !Escaped(s) then 1 else if ByteOf(s) < 128 then 3 else 3 * |HighRun(s)|
  }

  function Piece(s: string, high: seq<int> -> string): string
    requires s != ""
  {
    if !Escaped(s) then [s[0]] else if ByteOf(s) < 128 then [ByteOf(s) as char] else high(HighRun(s))
  }

  /** urllib's unquote. `high` decodes a run of bytes above 127 (UTF-8 with replacement). */
  function Unquote(s: string, high: seq<int> -> string): string {
    if s == "" then "" else Piece(s, high) + Unquote(s[Step(s)..], high)
  }

  /** Each byte decodes to at most one character. */
  ghost predicate Shrinks(high: seq<int> -> string) {
    forall run :: |high(run)| <= |run|
  }

  predicate HasEscape(s: string) {
    exists i: nat :: i < |s| && Escaped(s[i..])
  }

  lemma {:induction false} UnquoteLength(s: string, high: seq<int> -> string)
    requires Shrinks(high)
    ensures |Unquote(s, high)| <= |s|
  {
    if s != "" {
      PieceLength(s, high);
      UnquoteLength(s[Step(s)..], high);
    }
  }

  lemma PieceLength(s: string, high: seq<int> -> string)
    requires Shrinks(high) && s != ""
    ensures |Piece(s, high)| <= Step(s)
    ensures Escaped(s) ==> |Piece(s, high)| < Step(s)
  {
  }

  /** Decoding changes a text exactly when an escape is left in it. */
  lemma {:induction false} UnquoteChanges(s: string, high: seq<int> -> string)
    requires Shrinks(high)
    ensures Unquote(s, high) == s <==> !HasEscape(s)
  {
    hide ByteOf;
    if s == "" {
    } else if Escaped(s) {
      assert s[0..] == s && HasEscape(s);
      ShorterAfterEscape(s, high);
    } else {
      var t := s[1..];
      UnquoteChanges(t, high);
      assert s == [s[0]] + t;
      if i: nat :| i < |s| && Escaped(s[i..]) {
        assert s[0..] == s && t[i - 1..] == s[i..];
      }
      if i: nat :| i < |t| && Escaped(t[i..]) {
        assert t[i..] == s[i + 1..];
      }
    }
  }

  lemma ShorterAfterEscape(s: string, high: seq<int> -> string)
    requires Shrinks(high) && Escaped(s)
    ensures |Unquote(s, high)| < |s|
  {
    hide Piece, Step;
    PieceLength(s, high);
    UnquoteLength(s[Step(s)..], high);
  }

  // ---- dot segments outlive decoding ---------------------------------------------------

  /** A run of escapes ends before a slash. */
  lemma {:induction false} HighRunBeforeSlash(a: string, b: string)
    requires a != "" && IsSlash(a[|a| - 1])
    ensures HighRun(a + b) == HighRun(a) && 3 * |HighRun(a)| < |a|
    decreases |a|
  {
    hide ByteOf;
    EscapedBeforeSlash(a, b);
    if Escaped(a) && ByteOf(a) >= 128 {
      assert (a + b)[3..] == a[3..] + b;
      HighRunBeforeSlash(a[3..], b);
    }
  }

  lemma EscapedBeforeSlash(a: string, b: string)
    requires a != "" && IsSlash(a[|a| - 1])
    ensures Escaped(a + b) == Escaped(a)
    ensures Escaped(a) ==> |a| > 3 && ByteOf(a + b) == ByteOf(a)
  {
    var s := a + b;
    assert s[0] == a[0] && (|a| > 1 ==> s[1] == a[1]) && (|a| > 2 ==> s[2] == a[2]);
  }

  /** Decoding goes on independently after a slash, and keeps it. */
  lemma {:induction false} UnquoteAfterSlash(a: string, b: string, high: seq<int> -> string)
    requires a != "" && IsSlash(a[|a| - 1])
    ensures var u := Unquote(a, high);
            u != "" && IsSlash(u[|u| - 1]) && Unquote(a + b, high) == u + Unquote(b, high)
    decreases |a|
  {
    hide Escaped, Step, Piece;
    StepBeforeSlash(a, b, high);
    var k := Step(a);
    assert (a + b)[k..] == a[k..] + b;
    if k < |a| {
      UnquoteAfterSlash(a[k..], b, high);
    } else {
      OneSlash(a, high);
      assert a[k..] + b == b;
    }
  }

  lemma StepBeforeSlash(a: string, b: string, high: seq<int> -> string)
    requires a != "" && IsSlash(a[|a| - 1])
    ensures Step(a + b) == Step(a) && Piece(a + b, high) == Piece(a, high)
    ensures Step(a) == |a| ==> |a| == 1
  {
    hide ByteOf, Escaped, HighRun;
    EscapedBeforeSlash(a, b);
    HighRunBeforeSlash(a, b);
  }

  lemma OneSlash(a: string, high: seq<int> -> string)
    requires |a| == 1 && IsSlash(a[0])
    ensures !Escaped(a) && Unquote(a, high) == a
  {
    assert a[1..] == "";
    assert Unquote("", high) == "";
  }

  /** What is not an escape at the start stays. */
  lemma UnquoteFirst(s: string, high: seq<int> -> string)
    requires s != "" && s[0] != '%'
    ensures Unquote(s, high) == [s[0]] + Unquote(s[1..], high)
  {
  }

  /** A `.` or `..` segment at the start is still there after decoding. */
  lemma StemStays(s: string, high: seq<int> -> string)
    requires IsDots(Stem(s))
    ensures IsDots(Stem(Unquote(s, high)))
  {
    var n := |Stem(s)|;
    StemIs(s);
    var rest := s[n..];
    var decoded := Unquote(rest, high);
    hide Unquote;
    if rest != "" {
      UnquoteFirst(rest, high);
    } else {
      NothingDecodes(high);
    }
    UnquoteFirst(s, high);
    if n == 2 {
      UnquoteFirst(s[1..], high);
      assert s[1..][1..] == rest;
      TwoDots(decoded);
      assert Unquote(s, high) == ".." + decoded;
    } else {
      OneDot(decoded);
      assert Unquote(s, high) == "." + decoded;
    }
  }

  lemma NothingDecodes(high: seq<int> -> string)
    ensures Unquote("", high) == ""
  {
  }

  /** Where a stem ends. */
  predicate Ends(s: string) { s == "" || IsSlash(s[0]) || s[0] == ';' }

  lemma {:induction false} StemIs(s: string)
    ensures Stem(s) <= s && Ends(s[|Stem(s)|..])
  {
    if !Ends(s) {
      StemIs(s[1..]);
    }
  }

  lemma OneDot(t: string)
    requires Ends(t)
    ensures Stem("." + t) == "."
  {
    assert ("." + t)[1..] == t;
  }

  lemma TwoDots(t: string)
    requires Ends(t)
    ensures Stem(".." + t) == ".."
  {
    assert (".." + t)[1..] == "." + t;
    OneDot(t);
  }

  /** A dot segment is never decoded away. */
  lemma DotsStay(s: string, high: seq<int> -> string)
    requires HasDots(s)
    ensures HasDots(Unquote(s, high))
  {
    hide Stem, IsDots, Unquote;
    var i: nat :| i <= |s| && DotAt(s, i);
    var u := Unquote(s, high);
    StemStays(s[i..], high);
    if i == 0 {
      assert s[0..] == s && u[0..] == u;
      assert DotAt(u, 0);
    } else {
      UnquoteAfterSlash(s[..i], s[i..], high);
      assert s == s[..i] + s[i..];
      var before := Unquote(s[..i], high);
      assert u[|before|..] == Unquote(s[i..], high) && u[|before| - 1] == before[|before| - 1];
      assert DotAt(u, |before|);
    }
  }

  // ---- the check -------------------------------------------------------------------------

  const DECODE_ROUNDS: nat := 3

  /** The path after n rounds of decoding. */
  function Decoded(path: string, n: nat, high: seq<int> -> string): string {
    if n == 0 then path else Unquote(Decoded(path, n - 1, high), high)
  }

  /** A dot segment shows at some number of decoding rounds, however large. */
  ghost predicate EverHasDots(path: string, high: seq<int> -> string) {
    exists n: nat :: HasDots(Decoded(path, n, high))
  }

  /** _has_dot_segment: true exactly when a dot segment ever shows or the last round still decoded. */
  method HasDotSegment(path: string, high: seq<int> -> string) returns (r: bool)
    ensures r <==> EverHasDots(path, high)
                   || Decoded(path, 3, high) != Decoded(path, 2, high)
  {
    hide HasDots, Unquote, IsDots, Head, Segments;
    var current := path;
    for i: nat := 0 to DECODE_ROUNDS
      invariant current == Decoded(path, i, high)
      invariant forall j: nat | j < i :: !HasDots(Decoded(path, j, high))
      invariant i > 0 ==> current != Decoded(path, i - 1, high)
    {
      var segments := Segments(current);
      SegmentsFindDots(current);
      for k: nat := 0 to |segments|
        invariant forall j: nat | j < k :: !IsDots(Head(segments[j]))
      {
        if IsDots(Head(segments[k])) {
          return true;
        }
      }
      var decoded := Unquote(current, high);
      if decoded == current {
        SettledStays(path, i, high);
        return false;
      }
      current := decoded;
    }
    return true;
  }

  /** A round that changes nothing is the last one that matters. */
  lemma {:induction false} Settled(path: string, i: nat, n: nat, high: seq<int> -> string)
    requires i <= n && Decoded(path, i + 1, high) == Decoded(path, i, high)
    ensures Decoded(path, n, high) == Decoded(path, i, high)
  {
    hide Unquote;
    if i < n {
      Settled(path, i, n - 1, high);
    }
  }

  lemma SettledStays(path: string, i: nat, high: seq<int> -> string)
    requires i < DECODE_ROUNDS && Decoded(path, i + 1, high) == Decoded(path, i, high)
    requires forall j: nat | j <= i :: !HasDots(Decoded(path, j, high))
    ensures !EverHasDots(path, high)
    ensures Decoded(path, DECODE_ROUNDS, high) == Decoded(path, DECODE_ROUNDS - 1, high)
  {
    hide Decoded, HasDots;
    forall n: nat ensures !HasDots(Decoded(path, n, high)) {
      if i < n {
        Settled(path, i, n, high);
      }
    }
    Settled(path, i, DECODE_ROUNDS, high);
    Settled(path, i, DECODE_ROUNDS - 1, high);
  }

  lemma {:induction false} DotsStayFor(path: string, m: nat, n: nat, high: seq<int> -> string)
    requires m <= n && HasDots(Decoded(path, m, high))
    ensures HasDots(Decoded(path, n, high))
  {
    hide HasDots, Unquote;
    if m < n {
      DotsStayFor(path, m, n - 1, high);
      DotsStay(Decoded(path, n - 1, high), high);
    }
  }

  /** The answer read off the path after two rounds of decoding: it holds a dot segment or
      still an escape. */
  lemma RefusedExactlyWhen(path: string, high: seq<int> -> string)
    requires Shrinks(high)
    ensures var last := Decoded(path, DECODE_ROUNDS - 1, high);
            EverHasDots(path, high) || Decoded(path, DECODE_ROUNDS, high) != last <==> HasDots(last) || HasEscape(last)
  {
    hide HasDots, Unquote, HasEscape;
    var last := Decoded(path, DECODE_ROUNDS - 1, high);
    UnquoteChanges(last, high);
    if n: nat :| HasDots(Decoded(path, n, high)) {
      if n < DECODE_ROUNDS {
        DotsStayFor(path, n, DECODE_ROUNDS - 1, high);
      } else if Decoded(path, DECODE_ROUNDS, high) == last {
        Settled(path, DECODE_ROUNDS - 1, n, high);
      }
    }
  }
}
