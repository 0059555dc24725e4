/** What a rewritten `.env` file keeps and reads back as (installer/bootstrap.py). */
module EnvRoundTrip {
  import opened Options
  import opened Text
  import opened KeyLines
  import opened EnvKeys
  import opened EnvFiles
  import opened EnvReading

  lemma AcceptedIsOneLine(keys: Keys, decode: string -> Option<nat>)
    requires Accepted(keys, decode)
    ensures OneLine(keys)
  {
    hide Accepted;
    forall name ensures '\n' !in ValueOf(keys, name) && '\r' !in ValueOf(keys, name) {
      AcceptedIsRead(keys, name, decode);
    }
  }

  // ---- what the parts of the result are --------------------------------------------

  lemma {:induction false} LastPartConcat(a: seq<string>, b: seq<string>, name: KeyName)
    ensures LastPart(a + b, name) == if LastPart(b, name).Some? then LastPart(b, name) else LastPart(a, name)
  {
    hide Pieces, LastIn;
    if a == [] {
      assert a + b == b;
    } else {
      assert (a + b)[1..] == a[1..] + b;
      LastPartConcat(a[1..], b, name);
    }
  }

  lemma EmptyPart(name: KeyName)
    ensures LastPart([""], name).None? && NameAt("").None?
  {
    hide ParseKeyLine;
    EmptyIsNoKeyLine();
    NoPieces();
    assert LastIn([""], name) == ValueAt("", name);
  }

  lemma LastPartWhole(parts: seq<string>, name: KeyName)
    ensures LastPart(Whole(parts), name) == LastPart(parts, name)
  {
    hide LastPart, NameAt;
    if parts != [] && Last(parts) == "" {
      assert parts == parts[..|parts| - 1] + [""];
      LastPartConcat(parts[..|parts| - 1], [""], name);
      EmptyPart(name);
    }
  }

  lemma AssignmentParses(keys: Keys, name: KeyName)
    requires OneLine(keys)
    ensures var a := Assignment(keys, name);
            && NameAt(a) == Some(name)
            && RewritePart(a, keys) == a
            && Pieces(a) == [a]
            && ParseKeyLine(a) == Some(KeyLine("", "", name, ValueOf(keys, name)))
  {
    hide ParseKeyLine, OneLine;
    var line := KeyLine("", "", name, "");
    var value := ValueOf(keys, name);
    var a := Assignment(keys, name);
    assert Render(line, value) == a;
    ParseRendered(line, value);
    OneValue(keys, name);
    RenderedChars(line, value, '\r');
    assert Body(a) == a;
    SplitPrefix(a, "", '\r');
  }

  /** The value a list of appended assignments gives. */
  lemma LastOfAssignment(keys: Keys, name: KeyName, other: KeyName)
    requires OneLine(keys)
    ensures LastPart([Assignment(keys, other)], name) == if name == other then Some(ValueOf(keys, name)) else None
  {
    hide ParseKeyLine, NameAt, OneLine, Assignment, Pieces;
    var a := Assignment(keys, other);
    AssignmentParses(keys, other);
    assert [a][1..] == [];
    assert LastIn([a], name) == ValueAt(a, name);
  }

  lemma LastOfMissing(parts: seq<string>, keys: Keys, name: KeyName)
    requires OneLine(keys)
    ensures LastPart(Missing(parts, keys), name) == if Assigns(parts, name) then None else Some(ValueOf(keys, name))
  {
    hide Assigns, OneLine, Assignment, LastPart;
    var a := if Assigns(parts, SecretKey) then [] else [Assignment(keys, SecretKey)];
    var b := if Assigns(parts, EncryptionKey) then [] else [Assignment(keys, EncryptionKey)];
    assert Missing(parts, keys) == a + b;
    LastPartConcat(a, b, name);
    LastOfAssignment(keys, name, SecretKey);
    LastOfAssignment(keys, name, EncryptionKey);
    NoParts(name);
  }

  lemma NoParts(name: KeyName)
    ensures LastPart([], name).None?
  {
  }

  /** What the rewriter leaves in force against its own value of an assigned key. */
  function Shadow(text: string, name: KeyName): Option<string> {
    var parts := Split(text, '\n');
    if Assigns(parts, name) then Stray(parts, name) else None
  }

  lemma LastReplaced(parts: seq<string>, keys: Keys, name: KeyName)
    requires OneLine(keys)
    ensures LastPart(ReplacedParts(parts, keys), name)
            == if Assigns(parts, name) && Stray(parts, name).Some? then Stray(parts, name)
               else Some(ValueOf(keys, name))
  {
    hide Assigns, OneLine, LastPart, Stray, RewriteParts, Whole, NameAt;
    var rewritten, missing := RewriteParts(parts, keys), Missing(parts, keys);
    LastRewritten(parts, keys, name);
    LastOfMissing(parts, keys, name);
    if missing == [] {
      NoParts(name);
    } else {
      LastPartWhole(rewritten, name);
      LastPartConcat(Whole(rewritten), missing, name);
      LastPartConcat(Whole(rewritten) + missing, [""], name);
      EmptyPart(name);
    }
  }

  /** Exactly what is read back: the written key, unless a lone carriage return hides an
      assignment from the rewriter. */
  lemma ReadBackRewritten(text: string, keys: Keys, name: KeyName, decode: string -> Option<nat>)
    requires Accepted(keys, decode)
    ensures ReadBack(Replaced(text, keys), name)
            == if Shadow(text, name).Some? then Some(EnvValue(Shadow(text, name).value))
               else Some(ValueOf(keys, name))
  {
    hide Accepted, OneLine, ReplacedParts, Replaced, Split, LastIn, Lines, Stray, Assigns, LastPart, EnvValue;
    var parts := Split(text, '\n');
    var result := Replaced(text, keys);
    AcceptedIsOneLine(keys, decode);
    ReplacedSplits(text, keys);
    JoinSplit(result, '\n');
    SplitParts(result, '\n');
    LastByParts(Split(result, '\n'), name);
    LastReplaced(parts, keys, name);
    AcceptedIsRead(keys, name, decode);
  }

  /** The file reads back as both keys iff no hidden assignment gives another value. */
  lemma RoundTrip(text: string, keys: Keys, decode: string -> Option<nat>)
    requires Accepted(keys, decode)
    ensures (forall name :: ReadBack(Replaced(text, keys), name) == Some(ValueOf(keys, name)))
            <==> (forall name :: Shadow(text, name).Some? ==> EnvValue(Shadow(text, name).value) == ValueOf(keys, name))
  {
    hide Accepted, Replaced, Shadow, EnvValue, ReadBack;
    forall name ensures
      (ReadBack(Replaced(text, keys), name) == Some(ValueOf(keys, name)))
      <==> (Shadow(text, name).Some? ==> EnvValue(Shadow(text, name).value) == ValueOf(keys, name))
    {
      ReadBackRewritten(text, keys, name, decode);
    }
  }

  // ---- no lone carriage return --------------------------------------------------------

  /** Every "\r" is followed by "\n". */
  predicate NoLoneCr(text: string) {
    forall k :: 0 <= k < |text| && text[k] == '\r' ==> k + 1 < |text| && text[k + 1] == '\n'
  }

  lemma {:induction false} CrOnlyEndsParts(text: string)
    requires NoLoneCr(text)
    ensures forall p :: p in Split(text, '\n') ==> '\r' !in Body(p)
  {
    if text != "" {
      var t := text[1..];
      forall k | 0 <= k < |t| && t[k] == '\r' ensures k + 1 < |t| && t[k + 1] == '\n' {
        assert text[k + 1] == t[k];
        assert text[k + 2] == t[k + 1];
      }
      CrOnlyEndsParts(t);
      var tail := Split(t, '\n');
      if text[0] != '\n' {
        FirstPart(text[0], t);
        assert tail[0] in tail;
      }
    }
  }

  lemma FirstPart(c: char, t: string)
    requires NoLoneCr([c] + t)
    requires '\r' !in Body(Split(t, '\n')[0])
    ensures '\r' !in Body([c] + Split(t, '\n')[0])
  {
    var first := Split(t, '\n')[0];
    if c == '\r' {
      assert ([c] + t)[0] == '\r' && ([c] + t)[1] == '\n';
      assert first == "";
      assert Body([c]) == "";
    } else if first != "" {
      assert Body([c] + first) == [c] + Body(first);
    }
  }

  lemma {:induction false} NoStray(parts: seq<string>, name: KeyName)
    requires forall p :: p in parts ==> '\r' !in Body(p)
    ensures Stray(parts, name).None?
  {
    hide Body, ParseKeyLine;
    if parts != [] {
      assert parts[0] in parts;
      NoStray(parts[1..], name);
      var body := Body(parts[0]);
      SplitPrefix(body, "", '\r');
      assert LastIn([body], name) == ValueAt(body, name);
    }
  }

  /** Without a lone carriage return the keys read back, and both are reported as set. */
  lemma RoundTripWithoutLoneCr(text: string, keys: Keys, name: KeyName, decode: string -> Option<nat>)
    requires NoLoneCr(text) && Accepted(keys, decode)
    ensures ReadBack(Replaced(text, keys), name) == Some(ValueOf(keys, name))
    ensures Status(Replaced(text, keys), name, decode)
  {
    hide NoLoneCr, Accepted, Replaced, ReadBack, Assigns, Stray, LooksReal, Body, Split;
    CrOnlyEndsParts(text);
    NoStray(Split(text, '\n'), name);
    ReadBackRewritten(text, keys, name, decode);
    AcceptedIsRead(keys, name, decode);
  }

  // ---- what the rewrite leaves alone ---------------------------------------------------

  /** The parts that assign no key, in order. */
  function Others(parts: seq<string>): seq<string> {
    if parts == [] then []
    else (if NameAt(parts[0]).None? then [parts[0]] else []) + Others(parts[1..])
  }

  lemma {:induction false} OthersConcat(a: seq<string>, b: seq<string>)
    ensures Others(a + b) == Others(a) + Others(b)
  {
    hide NameAt;
    if a == [] {
      assert a + b == b;
    } else {
      var rest := a[1..];
      assert (a + b)[0] == a[0] && (a + b)[1..] == rest + b;
      OthersConcat(rest, b);
    }
  }

  lemma {:induction false} OthersRewritten(parts: seq<string>, keys: Keys)
    requires OneLine(keys)
    ensures Others(RewriteParts(parts, keys)) == Others(parts)
  {
    hide NameAt, RewritePart, OneLine;
    if parts != [] {
      assert RewriteParts(parts, keys)[1..] == RewriteParts(parts[1..], keys);
      OthersRewritten(parts[1..], keys);
      RewriteTwice(parts[0], keys, keys);
      RewriteOther(parts[0], keys);
    }
  }

  lemma RewriteOther(part: string, keys: Keys)
    ensures NameAt(part).None? ==> RewritePart(part, keys) == part
  {
    hide ParseKeyLine;
  }

  lemma OthersOfMissing(parts: seq<string>, keys: Keys)
    requires OneLine(keys)
    ensures Others(Missing(parts, keys)) == []
  {
    hide Assigns, OneLine, Assignment, NameAt, Pieces, RewritePart, ParseKeyLine;
    AssignmentParses(keys, SecretKey);
    AssignmentParses(keys, EncryptionKey);
    forall p | p in Missing(parts, keys) ensures NameAt(p).Some? {
    }
    AllAssign(Missing(parts, keys));
  }

  lemma {:induction false} AllAssign(parts: seq<string>)
    requires forall p :: p in parts ==> NameAt(p).Some?
    ensures Others(parts) == []
  {
    hide NameAt;
    if parts != [] {
      assert parts[0] in parts;
      AllAssign(parts[1..]);
    }
  }

  lemma WholeRewritten(parts: seq<string>, keys: Keys)
    ensures Whole(RewriteParts(parts, keys)) == RewriteParts(Whole(parts), keys)
  {
    hide RewritePart;
    if parts != [] {
      RewriteEmpty(Last(parts), keys);
      assert Last(RewriteParts(parts, keys)) == RewritePart(Last(parts), keys);
    }
  }

  /** Every line that assigns no key is still there, byte for byte and in order, and no other
      such line appears. A line is what "\n" ends, or a last one without it. */
  lemma OtherLinesKept(text: string, keys: Keys)
    requires OneLine(keys)
    ensures Others(Whole(Split(Replaced(text, keys), '\n'))) == Others(Whole(Split(text, '\n')))
  {
    hide OneLine, Replaced, Split, Others, Missing, RewriteParts, NameAt;
    var parts := Split(text, '\n');
    var missing := Missing(parts, keys);
    ReplacedSplits(text, keys);
    WholeRewritten(parts, keys);
    OthersRewritten(Whole(parts), keys);
    if missing != [] {
      var result := ReplacedParts(parts, keys);
      assert Whole(result) == Whole(RewriteParts(parts, keys)) + missing;
      OthersConcat(Whole(RewriteParts(parts, keys)), missing);
      OthersOfMissing(parts, keys);
    }
  }

  // ---- rewriting twice ------------------------------------------------------------------

  lemma PartsTwice(parts: seq<string>, first: Keys, second: Keys)
    requires OneLine(first)
    ensures RewriteParts(RewriteParts(parts, first), second) == RewriteParts(parts, second)
    ensures forall name :: Assigns(RewriteParts(parts, first), name) <==> Assigns(parts, name)
  {
    hide NameAt, RewritePart, OneLine;
    var once := RewriteParts(parts, first);
    forall k: nat | k < |parts|
      ensures NameAt(once[k]) == NameAt(parts[k]) && RewritePart(once[k], second) == RewritePart(parts[k], second)
    {
      RewriteTwice(parts[k], first, second);
    }
    forall name ensures Assigns(once, name) <==> Assigns(parts, name) {
      if Assigns(parts, name) {
        var k :| 0 <= k < |parts| && NameAt(parts[k]) == Some(name);
        assert NameAt(once[k]) == Some(name);
      }
      if Assigns(once, name) {
        var k :| 0 <= k < |once| && NameAt(once[k]) == Some(name);
        assert NameAt(parts[k]) == Some(name);
      }
    }
  }

  lemma AssignmentRewritten(first: Keys, second: Keys, name: KeyName)
    requires OneLine(first)
    ensures RewritePart(Assignment(first, name), second) == Assignment(second, name)
  {
    hide ParseKeyLine, OneLine, Body;
    AssignmentParses(first, name);
    OneValue(first, name);
    BodyOf(Assignment(first, name), "");
    AssignmentBody(first, name);
    assert Render(KeyLine("", "", name, ValueOf(first, name)), ValueOf(second, name)) == Assignment(second, name);
  }

  lemma AssignmentBody(keys: Keys, name: KeyName)
    requires OneLine(keys)
    ensures Body(Assignment(keys, name)) == Assignment(keys, name) && Ending(Assignment(keys, name)) == ""
  {
    var a := Assignment(keys, name);
    assert ValueOf(keys, name) != "" ==> a[|a| - 1] in ValueOf(keys, name);
  }

  /** Appended assignments are found, and are rewritten to the second pair's. */
  lemma MissingTwice(parts: seq<string>, first: Keys, second: Keys)
    requires OneLine(first)
    ensures forall name :: !Assigns(parts, name) ==> Assigns(Missing(parts, first), name)
    ensures RewriteParts(Missing(parts, first), second) == Missing(parts, second)
  {
    hide Assigns, OneLine, Assignment, RewritePart, Pieces, NameAt;
    var a := if Assigns(parts, SecretKey) then [] else [Assignment(first, SecretKey)];
    var b := if Assigns(parts, EncryptionKey) then [] else [Assignment(first, EncryptionKey)];
    assert Missing(parts, first) == a + b;
    AssignsConcat(a, b);
    forall name ensures NameAt(Assignment(first, name)) == Some(name)
      && RewritePart(Assignment(first, name), second) == Assignment(second, name)
    {
      AssignmentParses(first, name);
      AssignmentRewritten(first, second, name);
    }
    forall name | !Assigns(parts, name) ensures Assigns(a + b, name) {
      AssignsOne(Assignment(first, name), name);
      assert name == SecretKey || name == EncryptionKey;
    }
  }

  lemma RewriteConcat(a: seq<string>, b: seq<string>, keys: Keys)
    ensures RewriteParts(a + b, keys) == RewriteParts(a, keys) + RewriteParts(b, keys)
  {
    hide RewritePart;
  }

  lemma ReplacedPartsTwice(parts: seq<string>, first: Keys, second: Keys)
    requires OneLine(first)
    ensures ReplacedParts(ReplacedParts(parts, first), second) == ReplacedParts(parts, second)
  {
    hide Assigns, OneLine, Assignment, RewriteParts, Whole, RewritePart;
    var once := RewriteParts(parts, first);
    var missing := Missing(parts, first);
    PartsTwice(parts, first, second);
    if missing != [] {
      var whole := Whole(parts);
      WholeRewritten(parts, first);
      WholeRewritten(parts, second);
      PartsTwice(whole, first, second);
      MissingTwice(parts, first, second);
      AssignsWhole(parts);
      AssignsConcat(Whole(once), missing);
      AssignsConcat(Whole(once) + missing, [""]);
      RewriteConcat(Whole(once), missing, second);
      RewriteConcat(Whole(once) + missing, [""], second);
      RewriteEmpty("", second);
      assert RewriteParts([""], second)[0] == RewritePart("", second);
      assert RewriteParts([""], second) == [""];
    }
  }

  lemma AssignsWhole(parts: seq<string>)
    ensures forall name :: Assigns(Whole(parts), name) <==> Assigns(parts, name)
  {
    hide Assigns, NameAt;
    if parts != [] && Last(parts) == "" {
      assert parts == Whole(parts) + [""];
      AssignsConcat(Whole(parts), [""]);
      forall name ensures !Assigns([""], name) {
        EmptyPart(name);
        AssignsOne("", name);
      }
    }
  }

  /** Rewriting twice is rewriting once with the second pair. */
  lemma RewritingTwice(text: string, first: Keys, second: Keys)
    requires OneLine(first) && OneLine(second)
    ensures Replaced(Replaced(text, first), second) == Replaced(text, second)
  {
    hide OneLine, Replaced, ReplacedParts, Split;
    ReplacedSplits(text, first);
    ReplacedSplits(text, second);
    ReplacedSplits(Replaced(text, first), second);
    ReplacedPartsTwice(Split(text, '\n'), first, second);
    JoinSplit(Replaced(Replaced(text, first), second), '\n');
    JoinSplit(Replaced(text, second), '\n');
  }

  // ---- a lone carriage return ------------------------------------------------------------

  const HIDDEN_LINE := "SECRET_KEY=old"
  const LONE_CR_TEXT := "SECRET_KEY=x" + ['\n'] + ("foo" + ['\r'] + HIDDEN_LINE)

  /** The carriage-return hypothesis is needed: here no accepted SECRET_KEY reads back. */
  lemma LoneCrHidesAssignment(keys: Keys, decode: string -> Option<nat>)
    requires Accepted(keys, decode)
    ensures ReadBack(Replaced(LONE_CR_TEXT, keys), SecretKey) == Some("old")
    ensures ValueOf(keys, SecretKey) != "old"
  {
    hide Accepted, Replaced, ReadBack, Shadow, EnvValue;
    HiddenIsShadow();
    ReadBackRewritten(LONE_CR_TEXT, keys, SecretKey, decode);
    OldIsRead();
    SecretLength(keys, decode);
  }

  lemma OldIsRead()
    ensures EnvValue("old") == "old"
  {
    hide EnvValue;
    PlainIsRead("old");
  }

  lemma SecretLength(keys: Keys, decode: string -> Option<nat>)
    requires Accepted(keys, decode)
    ensures |ValueOf(keys, SecretKey)| >= 32
  {
  }

  lemma HiddenIsShadow()
    ensures Shadow(LONE_CR_TEXT, SecretKey) == Some("old")
  {
    hide ParseKeyLine, Split, Join;
    var line := KeyLine("", "", SecretKey, "");
    var other := "foo" + ['\r'] + HIDDEN_LINE;
    SplitPrefix("SECRET_KEY=x", other, '\n');
    SplitPrefix(other, "", '\n');
    SplitPrefix("foo", HIDDEN_LINE, '\r');
    SplitPrefix(HIDDEN_LINE, "", '\r');
    assert Split(LONE_CR_TEXT, '\n') == ["SECRET_KEY=x", other];
    ParseRendered(line, "x");
    ParseRendered(line, "old");
    assert Render(line, "x") == "SECRET_KEY=x" && Render(line, "old") == HIDDEN_LINE;
    NotAKeyLine(other);
    assert Body("SECRET_KEY=x") == "SECRET_KEY=x" && Body(other) == other;
    LastOfTwo("foo", HIDDEN_LINE);
    HiddenBehind("SECRET_KEY=x", other, SecretKey, "old");
  }

  lemma NotAKeyLine(other: string)
    requires |other| > 0 && other[0] == 'f'
    ensures ParseKeyLine(other).None?
  {
    StartsWithFirst(other, "export");
    StartsWithFirst(other, "SECRET_KEY");
    StartsWithFirst(other, "ENCRYPTION_KEY");
    assert other[..0] == "" && other[0..] == other;
  }

  lemma LastOfTwo(a: string, b: string)
    ensures ValueAt(b, SecretKey).Some? ==> LastIn([a, b], SecretKey) == ValueAt(b, SecretKey)
  {
    hide ValueAt;
    assert [a, b][1..] == [b] && [b][1..] == [];
    assert LastIn([b], SecretKey) == ValueAt(b, SecretKey);
  }

  /** A part that hides an assignment, after a key line for the same name. */
  lemma HiddenBehind(first: string, other: string, name: KeyName, value: string)
    requires NameAt(first) == Some(name) && NameAt(other).None? && LastIn(Pieces(other), name) == Some(value)
    ensures Assigns([first, other], name) && Stray([first, other], name) == Some(value)
  {
    hide NameAt, LastIn, Pieces;
    var parts := [first, other];
    assert parts[0] == first && parts[1..] == [other] && [other][1..] == [];
    assert Stray([], name).None? && !Assigns([], name);
    assert Stray([other], name) == Some(value);
  }
}
