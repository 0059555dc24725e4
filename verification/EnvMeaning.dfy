/** What the installer's reader takes from a line, and what its validators accept, said
    character by character (installer/bootstrap.py). */
module EnvMeaning {
  import opened Options
  import opened Text
  import opened TextMeaning
  import opened KeyLines
  import opened KeyLineMeaning
  import opened EnvKeys
  import opened EnvFiles
  import opened EnvReading

  // ---- values without quotes ----------------------------------------------------------

  ghost predicate NoCommentIn(v: string) {
    forall k :: 0 <= k && k + 1 < |v| ==> !(v[k] == ' ' && v[k + 1] == '#')
  }

  /** No outer white space, no quote in front, no " #" inside. */
  ghost predicate Bare(v: string) {
    NoCommentIn(v) && (v != "" ==> !IsSpace(v[0]) && !IsSpace(v[|v| - 1]) && v[0] != '\'' && v[0] != '"')
  }

  lemma {:induction false} CommentAt(s: string, from: nat, k: nat)
    requires from <= k <= |s|
    requires k < |s| ==> k + 1 < |s| && s[k] == ' ' && s[k + 1] == '#'
    requires forall j :: from <= j < k && j + 1 < |s| ==> !(s[j] == ' ' && s[j + 1] == '#')
    ensures FindComment(s, from) == k
    decreases k - from
  {
    if from < k {
      CommentAt(s, from + 1, k);
    }
  }

  lemma {:induction false} QuoteAt(s: string, q: char, from: nat, k: nat)
    requires from <= k <= |s| && (k < |s| ==> s[k] == q)
    requires forall j :: from <= j < k ==> s[j] != q
    ensures FindChar(s, q, from) == k
    decreases k - from
  {
    if from < k {
      QuoteAt(s, q, from + 1, k);
    }
  }

  /** A bare value reads as it stands, with or without white space around it. */
  lemma BareIsRead(before: string, v: string, after: string)
    requires AllSpace(before) && AllSpace(after) && Bare(v)
    ensures EnvValue(before + v + after) == v
  {
    hide Strip, RStrip, FindComment, FindChar, IsSpace;
    StripOf(before, v, after);
    CommentAt(v, 0, |v|);
  }

  /** The end of a text that begins with a visible character, white space cut. */
  lemma EndOf(c: char, rest: string) returns (j: nat)
    requires !IsSpace(c)
    ensures 0 < j <= |rest| + 1
    ensures var t := [c] + rest; !IsSpace(t[j - 1]) && AllSpace(t[j..]) && t == [c] + t[1..j] + t[j..]
  {
    hide IsSpace;
    var t := [c] + rest;
    var i;
    i, j := CoreExists(t);
    FirstStays(t, i, j);
  }

  /** A trailing comment is cut, with the white space before it. */
  lemma CommentIsCut(before: string, v: string, gap: string, rest: string)
    requires AllSpace(before) && AllSpace(gap) && Bare(v) && v != ""
    ensures EnvValue(before + v + gap + " #" + rest) == v
  {
    hide Strip, RStrip, FindComment, FindChar;
    var j := EndOf('#', rest);
    hide IsSpace;
    var t := ['#'] + rest;
    var core := v + gap + " " + t[..j];
    assert core[|core| - 1] == t[j - 1];
    assert before + v + gap + " #" + rest == before + core + t[j..];
    StripOf(before, core, t[j..]);
    var n := |v| + |gap|;
    assert core[n] == ' ' && core[n + 1] == t[0] == '#';
    forall k | 0 <= k < n ensures !(core[k] == ' ' && core[k + 1] == '#') {
      InValueOrGap(v, gap, t[..j], k);
    }
    CommentAt(core, 0, n);
    assert core[..n] == v + gap;
    RStripOf(v, gap);
  }

  lemma InValueOrGap(v: string, gap: string, tail: string, k: nat)
    requires Bare(v) && v != "" && AllSpace(gap) && k < |v| + |gap| && tail != ""
    ensures var core := v + gap + " " + tail; !(core[k] == ' ' && core[k + 1] == '#')
  {
    var core := v + gap + " " + tail;
    if k < |v| - 1 {
      assert core[k] == v[k] && core[k + 1] == v[k + 1];
    } else if k == |v| - 1 {
      assert core[k] == v[k];
    } else if k + 1 < |v| + |gap| {
      assert core[k + 1] == gap[k + 1 - |v|];
    } else {
      assert core[k + 1] == ' ';
    }
  }

  /** With no value in front of it a comment is the value: there is nothing to cut it from. */
  lemma CommentAlone(before: string, rest: string, after: string)
    requires AllSpace(before) && AllSpace(after) && Bare("#" + rest)
    ensures EnvValue(before + ("#" + rest) + after) == "#" + rest
  {
    BareIsRead(before, "#" + rest, after);
  }

  // ---- quoted values --------------------------------------------------------------------

  /** Between two quotes everything counts; after the second one nothing does. */
  lemma QuotedIsRead(before: string, q: char, v: string, rest: string)
    requires AllSpace(before) && (q == '\'' || q == '"') && q !in v
    ensures EnvValue(before + [q] + v + [q] + rest) == v
  {
    hide Strip, RStrip, FindComment, FindChar;
    var j := EndOf(q, rest);
    assert !IsSpace(q);
    hide IsSpace;
    var t := [q] + rest;
    var core := [q] + v + t[..j];
    assert core[|core| - 1] == t[j - 1];
    assert before + [q] + v + [q] + rest == before + core + t[j..];
    StripOf(before, core, t[j..]);
    assert core[|v| + 1] == t[0] == q;
    forall k | 1 <= k < |v| + 1 ensures core[k] != q {
      assert core[k] == v[k - 1];
    }
    QuoteAt(core, q, 1, |v| + 1);
    assert core[1..|v| + 1] == v;
  }

  /** Without a second quote the value goes to the end, white space cut there. */
  lemma UnclosedIsRead(before: string, q: char, v: string, after: string)
    requires AllSpace(before) && AllSpace(after) && (q == '\'' || q == '"') && q !in v
    requires v != "" ==> !IsSpace(v[|v| - 1])
    ensures EnvValue(before + [q] + v + after) == v
  {
    hide Strip, RStrip, FindComment, FindChar;
    assert !IsSpace(q);
    hide IsSpace;
    var core := [q] + v;
    assert before + [q] + v + after == before + core + after;
    assert v != "" ==> core[|core| - 1] == v[|v| - 1];
    StripOf(before, core, after);
    forall k | 1 <= k < |core| ensures core[k] != q {
      assert core[k] == v[k - 1];
    }
    QuoteAt(core, q, 1, |core|);
    assert core[1..|core|] == v;
  }

  // ---- lines --------------------------------------------------------------------------------

  /** Line k of the text assigns `name` this raw value, and no later line assigns it. */
  ghost predicate LastAssigned(lines: seq<string>, k: nat, name: KeyName, raw: string) {
    && k < |lines| && ValueAt(lines[k], name) == Some(raw)
    && forall j :: k < j < |lines| ==> ValueAt(lines[j], name).None?
  }

  lemma {:induction false} NoneAssigned(lines: seq<string>, name: KeyName)
    requires forall j :: 0 <= j < |lines| ==> ValueAt(lines[j], name).None?
    ensures LastIn(lines, name).None?
  {
    hide ValueAt;
    if lines != [] {
      assert forall j :: 0 <= j < |lines| - 1 ==> lines[1..][j] == lines[j + 1];
      NoneAssigned(lines[1..], name);
    }
  }

  lemma {:induction false} LastAssignedIsLast(lines: seq<string>, k: nat, name: KeyName, raw: string)
    requires LastAssigned(lines, k, name, raw)
    ensures LastIn(lines, name) == Some(raw)
  {
    hide ValueAt;
    var later := lines[1..];
    assert forall j :: 0 <= j < |lines| - 1 ==> later[j] == lines[j + 1];
    if k == 0 {
      NoneAssigned(later, name);
    } else {
      LastAssignedIsLast(later, k - 1, name, raw);
    }
  }

  /** The reader reports what the last written assignment's value reads as. */
  lemma StatusOfLine(
    text: string, k: nat, line: KeyLine, gap: string, v: string, decode: string -> Option<nat>)
    requires k < |Lines(text)| && Written(line, gap, Lines(text)[k]) && EnvValue(line.value) == v
    requires forall j :: k < j < |Lines(text)| ==> ValueAt(Lines(text)[j], line.name).None?
    ensures ReadBack(text, line.name) == Some(v)
    ensures Status(text, line.name, decode) <==> LooksReal(line.name, v, decode)
  {
    hide Lines, LooksReal, EnvValue, Written, ParseKeyLine;
    WrittenParses(line, gap, Lines(text)[k]);
    assert ValueAt(Lines(text)[k], line.name) == Some(line.value);
    LastAssignedIsLast(Lines(text), k, line.name, line.value);
  }

  lemma {:induction false} OneLineText(text: string)
    requires '\n' !in text && '\r' !in text
    ensures Lines(text) == [text]
  {
    hide Lines;
    LinesOfLast(text);
    SplitPrefix(text, "", '\r');
  }

  /** A short SECRET_KEY is not reported as set, whatever its comment says. */
  lemma ShortKeyIsNotSet(v: string, gap: string, rest: string, decode: string -> Option<nat>)
    requires Bare(v) && v != "" && AllSpace(gap) && |v| < 32
    requires var text := "SECRET_KEY=" + (v + gap + " #" + rest); '\n' !in text && '\r' !in text
    ensures !Status("SECRET_KEY=" + (v + gap + " #" + rest), SecretKey, decode)
  {
    hide Lines, EnvValue, HasMarker, Status, Bare;
    var raw := v + gap + " #" + rest;
    var text := "SECRET_KEY=" + raw;
    OneLineText(text);
    assert "" + v + gap + " #" + rest == raw;
    CommentIsCut("", v, gap, rest);
    var line := KeyLine("", "", SecretKey, raw);
    assert text == "" + ("" + ("SECRET_KEY" + ("" + ("=" + raw))));
    assert Written(line, "", text);
    StatusOfLine(text, 0, line, "", v, decode);
    StripShorter(v);
  }

  lemma StripShorter(v: string)
    ensures |Strip(v)| <= |v|
  {
    hide Strip, AllSpace;
    var i, j := CoreExists(v);
    StripIsCore(v, i, j);
  }
}
