/** Percent-spellings and the dot segments they hide (core/network_security.py,
    _has_dot_segment; section 2.1 of RFC 3986). */
module DotSpellings {
  import opened Options
  import opened DotSegments

  // ---- what an escape decodes to -------------------------------------------------------

  const SMALL_DIGITS: string := "0123456789abcdef"
  const LARGE_DIGITS: string := "0123456789ABCDEF"

  /** Which of the two hex digits are written in capitals. */
  datatype Case = Case(first: bool, second: bool)

  function Digit(v: int, large: bool): char
    requires 0 <= v < 16
  {
    if large then LARGE_DIGITS[v] else SMALL_DIGITS[v]
  }

  /** `%` and the two hex digits of a byte. */
  function Spelled(b: int, cases: Case): string
    requires 0 <= b < 256
  {
    ['%', Digit(b / 16, cases.first), Digit(b % 16, cases.second)]
  }

  lemma DigitIsHex(v: int, large: bool)
    requires 0 <= v < 16
    ensures IsHex(Digit(v, large)) && HexValue(Digit(v, large)) == v
  {
  }

  lemma SpelledIsByte(b: int, cases: Case, rest: string)
    requires 0 <= b < 256
    ensures Escaped(Spelled(b, cases) + rest) && ByteOf(Spelled(b, cases) + rest) == b
    ensures (Spelled(b, cases) + rest)[3..] == rest
  {
    DigitIsHex(b / 16, cases.first);
    DigitIsHex(b % 16, cases.second);
    hide HexValue, IsHex;
    var s := Spelled(b, cases) + rest;
    assert s[0] == '%' && s[1] == Digit(b / 16, cases.first) && s[2] == Digit(b % 16, cases.second);
  }

  /** The two-digit spelling of a byte below 128 decodes to that character. */
  lemma SpellingDecodes(b: int, cases: Case, rest: string, high: seq<int> -> string)
    requires 0 <= b < 128
    ensures Unquote(Spelled(b, cases) + rest, high) == [b as char] + Unquote(rest, high)
  {
    hide ByteOf, Escaped;
    SpelledIsByte(b, cases, rest);
    assert Spelled(b, cases) + rest != "";
  }

  /** A text written out in escapes, byte by byte. */
  function SpellAll(bytes: seq<int>, cases: seq<Case>): string
    requires |bytes| == |cases| && forall k :: 0 <= k < |bytes| ==> 0 <= bytes[k] < 256
  {
    if bytes == [] then "" else Spelled(bytes[0], cases[0]) + SpellAll(bytes[1..], cases[1..])
  }

  function Codes(text: string): seq<int> {
    seq(|text|, i requires 0 <= i < |text| => text[i] as int)
  }

  /** Decoding the fully escaped text gives the text back, however the digits are written. */
  lemma {:induction false} SpellingRoundTrip(text: string, cases: seq<Case>, high: seq<int> -> string)
    requires |text| == |cases| && forall k :: 0 <= k < |text| ==> text[k] as int < 128
    ensures Unquote(SpellAll(Codes(text), cases), high) == text
  {
    hide Unquote, Spelled;
    if text == "" {
      NothingDecodes(high);
    } else {
      assert Codes(text)[1..] == Codes(text[1..]);
      SpellingDecodes(text[0] as int, cases[0], SpellAll(Codes(text[1..]), cases[1..]), high);
      SpellingRoundTrip(text[1..], cases[1..], high);
    }
  }

  /** A run of escapes above 127 is decoded together, in order. */
  lemma {:induction false} HighRunOf(bytes: seq<int>, cases: seq<Case>, rest: string)
    requires |bytes| == |cases| && forall k :: 0 <= k < |bytes| ==> 128 <= bytes[k] < 256
    requires HighRun(rest) == []
    ensures HighRun(SpellAll(bytes, cases) + rest) == bytes
    ensures |SpellAll(bytes, cases)| == 3 * |bytes|
  {
    hide ByteOf, Escaped;
    if bytes == [] {
      assert SpellAll(bytes, cases) + rest == rest;
    } else {
      var more := SpellAll(bytes[1..], cases[1..]);
      assert SpellAll(bytes, cases) + rest == Spelled(bytes[0], cases[0]) + (more + rest);
      SpelledIsByte(bytes[0], cases[0], more + rest);
      HighRunOf(bytes[1..], cases[1..], rest);
    }
  }

  lemma HighBytesDecode(bytes: seq<int>, cases: seq<Case>, rest: string, high: seq<int> -> string)
    requires |bytes| == |cases| > 0 && forall k :: 0 <= k < |bytes| ==> 128 <= bytes[k] < 256
    requires HighRun(rest) == []
    ensures Unquote(SpellAll(bytes, cases) + rest, high) == high(bytes) + Unquote(rest, high)
  {
    hide ByteOf, Escaped, HighRun, Spelled, Unquote;
    var all := SpellAll(bytes, cases);
    FirstIsByte(bytes, cases, rest);
    hide SpellAll;
    HighRunOf(bytes, cases, rest);
    assert (all + rest)[3 * |bytes|..] == rest;
    StepOfHigh(all + rest, bytes, high);
    hide Step, Piece;
    UnquoteStep(all + rest, high);
  }

  lemma FirstIsByte(bytes: seq<int>, cases: seq<Case>, rest: string)
    requires |bytes| == |cases| > 0 && forall k :: 0 <= k < |bytes| ==> 0 <= bytes[k] < 256
    ensures var s := SpellAll(bytes, cases) + rest; s != "" && Escaped(s) && ByteOf(s) == bytes[0]
  {
    hide ByteOf, Escaped, Spelled;
    var more := SpellAll(bytes[1..], cases[1..]);
    assert SpellAll(bytes, cases) + rest == Spelled(bytes[0], cases[0]) + (more + rest);
    SpelledIsByte(bytes[0], cases[0], more + rest);
    hide SpellAll;
    EscapedIsLong(SpellAll(bytes, cases) + rest);
  }

  lemma EscapedIsLong(s: string)
    ensures Escaped(s) ==> s != ""
  {
  }

  lemma StepOfHigh(s: string, bytes: seq<int>, high: seq<int> -> string)
    requires s != "" && Escaped(s) && ByteOf(s) >= 128 && HighRun(s) == bytes
    ensures Step(s) == 3 * |bytes| && Piece(s, high) == high(bytes)
  {
  }

  lemma UnquoteStep(s: string, high: seq<int> -> string)
    requires s != ""
    ensures Unquote(s, high) == Piece(s, high) + Unquote(s[Step(s)..], high)
  {
  }

  // ---- where decoding can be cut ----------------------------------------------------------

  /** No escape that began before can reach into `r`. */
  predicate Cuts(r: string) {
    r == "" || (!IsHex(r[0]) && HighRun(r) == [])
  }

  lemma EscapedBeforeCut(a: string, r: string)
    requires a != "" && Cuts(r)
    ensures Escaped(a + r) == Escaped(a) && (Escaped(a) ==> ByteOf(a + r) == ByteOf(a))
  {
    var s := a + r;
    assert s[0] == a[0] && (|a| > 1 ==> s[1] == a[1]) && (|a| > 2 ==> s[2] == a[2]);
    assert r != "" ==> s[|a|] == r[0];
  }

  lemma {:induction false} HighRunBeforeCut(a: string, r: string)
    requires Cuts(r)
    ensures HighRun(a + r) == HighRun(a)
    decreases |a|
  {
    hide ByteOf, Escaped;
    if a == "" {
      assert a + r == r;
      NoRun(r);
    } else {
      EscapedBeforeCut(a, r);
      if Escaped(a) && ByteOf(a) >= 128 {
        ThreeLong(a);
        assert (a + r)[3..] == a[3..] + r;
        HighRunBeforeCut(a[3..], r);
      }
    }
  }

  lemma NoRun(r: string)
    requires Cuts(r)
    ensures HighRun(r) == [] && HighRun("") == []
  {
  }

  lemma ThreeLong(a: string)
    ensures Escaped(a) ==> |a| >= 3
  {
  }

  lemma StepBeforeCut(a: string, r: string, high: seq<int> -> string)
    requires a != "" && Cuts(r)
    ensures Step(a + r) == Step(a) && Piece(a + r, high) == Piece(a, high)
  {
    EscapedBeforeCut(a, r);
    HighRunBeforeCut(a, r);
    hide Cuts, Escaped, ByteOf, HighRun;
    assert (a + r)[0] == a[0];
  }

  lemma {:induction false} UnquoteCut(a: string, r: string, high: seq<int> -> string)
    requires Cuts(r)
    ensures Unquote(a + r, high) == Unquote(a, high) + Unquote(r, high)
    decreases |a|
  {
    hide Cuts, Step, Piece, Unquote;
    if a == "" {
      assert a + r == r;
      NothingDecodes(high);
    } else {
      StepBeforeCut(a, r, high);
      assert (a + r)[Step(a)..] == a[Step(a)..] + r;
      UnquoteCut(a[Step(a)..], r, high);
      UnquoteStep(a, high);
      UnquoteStep(a + r, high);
    }
  }

  // ---- disguised characters ------------------------------------------------------------------

  /** How a character of a path is written: as it is, escaped, or escaped with its `%` escaped. */
  datatype Disguise = Plain | Once(cases: Case) | Twice(cases: Case)

  predicate Fits(c: char, d: Disguise) {
    d.Plain? || c as int < 128
  }

  function Written(c: char, d: Disguise): string
    requires Fits(c, d)
  {
    match d
    case Plain => [c]
    case Once(cases) => Spelled(c as int, cases)
    case Twice(cases) => "%25" + Spelled(c as int, cases)[1..]
  }

  /** What is left of the disguise after one round of decoding. */
  function Less(d: Disguise): Disguise {
    match d
    case Plain => Plain
    case Once(_) => Plain
    case Twice(cases) => Once(cases)
  }

  ghost predicate FitAll(text: string, ds: seq<Disguise>) {
    |text| == |ds| && forall k :: 0 <= k < |text| ==> Fits(text[k], ds[k])
  }

  function WrittenAll(text: string, ds: seq<Disguise>): string
    requires FitAll(text, ds)
  {
    if text == "" then "" else Written(text[0], ds[0]) + WrittenAll(text[1..], ds[1..])
  }

  function LessAll(ds: seq<Disguise>): seq<Disguise> {
    seq(|ds|, i requires 0 <= i < |ds| => Less(ds[i]))
  }

  /** The characters of a dot segment and its ends. */
  predicate Mark(c: char) {
    c == '.' || c == '/' || c == '\\' || c == ';'
  }

  lemma MarkIsNoHex(c: char, d: Disguise, rest: string)
    requires Mark(c) && Fits(c, d)
    ensures var s := Written(c, d) + rest; s != "" && !IsHex(s[0]) && HighRun(s) == []
  {
    match d
    case Plain =>
      assert (Written(c, d) + rest)[0] == c;
    case Once(cases) =>
      SpelledIsLow(c as int, cases, rest);
    case Twice(cases) =>
      var more := Spelled(c as int, cases)[1..] + rest;
      assert Written(c, d) + rest == Spelled(37, Case(false, false)) + more;
      SpelledIsLow(37, Case(false, false), more);
  }

  lemma SpelledIsLow(b: int, cases: Case, rest: string)
    requires 0 <= b < 128
    ensures var s := Spelled(b, cases) + rest; s != "" && s[0] == '%' && !IsHex(s[0]) && HighRun(s) == []
  {
    hide ByteOf, Escaped;
    SpelledIsByte(b, cases, rest);
  }

  /** One round of decoding takes off one layer. */
  lemma MarkDecodes(c: char, d: Disguise, rest: string, high: seq<int> -> string)
    requires Mark(c) && Fits(c, d)
    ensures Unquote(Written(c, d) + rest, high) == Written(c, Less(d)) + Unquote(rest, high)
  {
    hide Unquote, HighRun;
    match d
    case Plain =>
      assert Written(c, d) + rest == [c] + rest;
      UnquoteFirst([c] + rest, high);
      assert ([c] + rest)[1..] == rest;
    case Once(cases) => SpellingDecodes(c as int, cases, rest, high);
    case Twice(cases) =>
      var digits := Spelled(c as int, cases)[1..];
      assert Written(c, d) + rest == Spelled(37, Case(false, false)) + (digits + rest);
      SpellingDecodes(37, Case(false, false), digits + rest, high);
      DigitsStay(digits, rest, high);
      assert ['%'] + digits == Spelled(c as int, cases);
      assert [37 as char] == "%";
  }

  lemma DigitsStay(digits: string, rest: string, high: seq<int> -> string)
    requires |digits| == 2 && digits[0] != '%' && digits[1] != '%'
    ensures Unquote(digits + rest, high) == digits + Unquote(rest, high)
  {
    hide Unquote;
    var s := digits + rest;
    UnquoteFirst(s, high);
    UnquoteFirst(s[1..], high);
    assert s[1..][1..] == rest;
  }

  lemma {:induction false} MarksDecode(text: string, ds: seq<Disguise>, rest: string, high: seq<int> -> string)
    requires FitAll(text, ds) && forall k :: 0 <= k < |text| ==> Mark(text[k])
    ensures FitAll(text, LessAll(ds))
    ensures Unquote(WrittenAll(text, ds) + rest, high) == WrittenAll(text, LessAll(ds)) + Unquote(rest, high)
  {
    hide Unquote, Written, Less;
    LessFits(text, ds);
    if text == "" {
      assert WrittenAll(text, ds) + rest == rest;
    } else {
      var more := WrittenAll(text[1..], ds[1..]);
      assert WrittenAll(text, ds) + rest == Written(text[0], ds[0]) + (more + rest);
      MarkDecodes(text[0], ds[0], more + rest, high);
      MarksDecode(text[1..], ds[1..], rest, high);
      assert LessAll(ds)[1..] == LessAll(ds[1..]);
    }
  }

  lemma LessFits(text: string, ds: seq<Disguise>)
    requires FitAll(text, ds)
    ensures FitAll(text, LessAll(ds))
  {
  }

  lemma {:induction false} TwiceLess(text: string, ds: seq<Disguise>)
    requires FitAll(text, ds)
    ensures FitAll(text, LessAll(LessAll(ds))) && WrittenAll(text, LessAll(LessAll(ds))) == text
  {
    LessFits(text, ds);
    LessFits(text, LessAll(ds));
    if text != "" {
      TwiceLess(text[1..], ds[1..]);
      assert LessAll(LessAll(ds))[1..] == LessAll(LessAll(ds[1..]));
      assert text == [text[0]] + text[1..];
    }
  }

  // ---- dot segments, literally -----------------------------------------------------------------

  /** `d` is a dot segment between `a` and `z`. */
  predicate Between(a: string, d: string, z: string) {
    && (d == "." || d == "..")
    && (a == "" || a[|a| - 1] == '/' || a[|a| - 1] == '\\')
    && (z == "" || z[0] == '/' || z[0] == '\\' || z[0] == ';')
  }

  /** A text holds a dot segment exactly when it is something that ends in a slash of either
      kind, a dot or two, and something that begins with a slash or `;`. */
  lemma HasDotsMeans(s: string)
    ensures HasDots(s) <==> exists a: string, d: string, z: string :: s == a + d + z && Between(a, d, z)
  {
    hide HasDots, Between;
    if HasDots(s) {
      var a, d, z := FindDots(s);
    }
    if a: string, d: string, z: string :| s == a + d + z && Between(a, d, z) {
      BetweenShows(a, d, z);
    }
  }

  lemma FindDots(s: string) returns (a: string, d: string, z: string)
    requires HasDots(s)
    ensures s == a + d + z && Between(a, d, z)
  {
    hide Stem, Between;
    var i: nat :| i <= |s| && DotAt(s, i);
    StemIs(s[i..]);
    a, d, z := s[..i], Stem(s[i..]), s[i..][|Stem(s[i..])|..];
    hide DotAt, HasDots, Ends, IsDots;
    assert s == a + s[i..] && s[i..] == d + z;
    CutBetween(s, i, z);
  }

  lemma CutBetween(s: string, i: nat, z: string)
    requires i <= |s| && DotAt(s, i) && Ends(z)
    ensures Between(s[..i], Stem(s[i..]), z)
  {
    hide Stem;
  }

  lemma BetweenShows(a: string, d: string, z: string)
    requires Between(a, d, z)
    ensures HasDots(a + d + z)
  {
    hide Stem;
    var s := a + d + z;
    assert s[|a|..] == d + z;
    StemOf(d, z);
    assert a != "" ==> s[|a| - 1] == a[|a| - 1];
    assert DotAt(s, |a|);
  }

  lemma StemOf(d: string, z: string)
    requires d == "." || d == ".."
    requires z == "" || z[0] == '/' || z[0] == '\\' || z[0] == ';'
    ensures Stem(d + z) == d
  {
    if d == "." {
      OneDot(z);
    } else {
      TwoDots(z);
    }
  }

  /** A dot segment with its slashes and end: what may be disguised. */
  predicate Marks(before: string, sep: string, dots: string, end: string, after: string) {
    && (dots == "." || dots == "..")
    && (sep == "/" || sep == "\\" || (sep == "" && before == ""))
    && (end == "/" || end == "\\" || end == ";" || (end == "" && after == ""))
  }

  /** However its dots and slashes are escaped, once or twice, in whatever case and between
      whatever else, a dot segment shows after two rounds of decoding. */
  lemma DisguisedDotsShow(before: string, sep: string, dots: string, end: string, after: string, ds: seq<Disguise>,
                          high: seq<int> -> string)
    requires Marks(before, sep, dots, end, after) && FitAll(sep + dots + end, ds)
    ensures HasDots(Decoded(before + WrittenAll(sep + dots + end, ds) + after, 2, high))
    ensures EverHasDots(before + WrittenAll(sep + dots + end, ds) + after, high)
  {
    hide Unquote, HasDots;
    var text := sep + dots + end;
    var path := before + WrittenAll(text, ds) + after;
    RoundOfMarks(before, text, ds, after, high);
    LessFits(text, ds);
    RoundOfMarks(Unquote(before, high), text, LessAll(ds), Unquote(after, high), high);
    TwiceLess(text, ds);
    NothingDecodes(high);
    var b, a := Unquote(Unquote(before, high), high), Unquote(Unquote(after, high), high);
    TwoRounds(path, high);
    hide WrittenAll, LessAll, FitAll, Decoded;
    assert Decoded(path, 2, high) == b + text + a;
    MarksBetween(before, sep, dots, end, after, b, a);
  }

  lemma MarksBetween(before: string, sep: string, dots: string, end: string, after: string, b: string, a: string)
    requires Marks(before, sep, dots, end, after) && (before == "" ==> b == "") && (after == "" ==> a == "")
    ensures HasDots(b + (sep + dots + end) + a)
  {
    hide HasDots;
    assert b + (sep + dots + end) + a == (b + sep) + dots + (end + a);
    BetweenShows(b + sep, dots, end + a);
  }

  lemma TwoRounds(path: string, high: seq<int> -> string)
    ensures Decoded(path, 2, high) == Unquote(Unquote(path, high), high)
  {
    hide Unquote;
    assert Decoded(path, 1, high) == Unquote(Decoded(path, 0, high), high);
  }

  lemma RoundOfMarks(before: string, text: string, ds: seq<Disguise>, after: string, high: seq<int> -> string)
    requires FitAll(text, ds) && text != "" && forall k :: 0 <= k < |text| ==> Mark(text[k])
    ensures FitAll(text, LessAll(ds))
    ensures Unquote(before + WrittenAll(text, ds) + after, high)
            == Unquote(before, high) + WrittenAll(text, LessAll(ds)) + Unquote(after, high)
  {
    hide Unquote, Written, HighRun;
    var r := WrittenAll(text, ds) + after;
    assert r == Written(text[0], ds[0]) + (WrittenAll(text[1..], ds[1..]) + after);
    MarkIsNoHex(text[0], ds[0], WrittenAll(text[1..], ds[1..]) + after);
    assert before + WrittenAll(text, ds) + after == before + r;
    UnquoteCut(before, r, high);
    MarksDecode(text, ds, after, high);
  }
}
