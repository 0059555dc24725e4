/** The `.env` rewriter and its reader (installer/bootstrap.py): key lines are replaced in
    place, missing keys appended, and reading back takes the last assignment. */
module EnvFiles {
  import opened Options
  import opened Text
  import opened KeyLines
  import opened EnvKeys

  // ---- one part between "\n"s ----------------------------------------------------

  predicate EndsCr(part: string) { part != "" && part[|part| - 1] == '\r' }

  function Body(part: string): string {
    if EndsCr(part) then part[..|part| - 1] else part
  }

  function Ending(part: string): string {
    if EndsCr(part) then "\r" else ""
  }

  /** The key a part assigns. */
  function NameAt(part: string): Option<KeyName> {
    var line := ParseKeyLine(Body(part));
    if line.Some? then Some(line.value.name) else None
  }

  /** The part with its value replaced, when it assigns a key. */
  function RewritePart(part: string, keys: Keys): string {
    var line := ParseKeyLine(Body(part));
    if line.Some? then Render(line.value, ValueOf(keys, line.value.name)) + Ending(part) else part
  }

  predicate OneLine(keys: Keys) {
    forall name :: '\n' !in ValueOf(keys, name) && '\r' !in ValueOf(keys, name)
  }

  lemma BodyOf(part: string, ending: string)
    requires '\r' !in part && (ending == "" || ending == "\r")
    ensures Body(part + ending) == part && Ending(part + ending) == ending
  {
  }

  lemma RewrittenBody(part: string, keys: Keys)
    requires OneLine(keys)
    ensures var line := ParseKeyLine(Body(part));
            line.Some? ==>
              && '\r' !in Body(RewritePart(part, keys))
              && Ending(RewritePart(part, keys)) == Ending(part)
              && ParseKeyLine(Body(RewritePart(part, keys)))
                 == Some(KeyLine(line.value.indent, line.value.exported, line.value.name, ValueOf(keys, line.value.name)))
  {
    hide ParseKeyLine, Groups, Render;
    var line := ParseKeyLine(Body(part));
    if line.Some? {
      var value := ValueOf(keys, line.value.name);
      ParseGives(Body(part));
      ParseRendered(line.value, value);
      RenderedChars(line.value, value, '\r');
      BodyOf(Render(line.value, value), Ending(part));
    }
  }

  /** Rewriting keeps what a part assigns, and a second rewrite wins. */
  lemma RewriteTwice(part: string, first: Keys, second: Keys)
    requires OneLine(first)
    ensures NameAt(RewritePart(part, first)) == NameAt(part)
    ensures RewritePart(RewritePart(part, first), second) == RewritePart(part, second)
  {
    hide ParseKeyLine;
    RewrittenBody(part, first);
  }

  lemma RewriteKeepsNewlines(part: string, keys: Keys)
    requires OneLine(keys) && '\n' !in part
    ensures '\n' !in RewritePart(part, keys)
  {
    hide ParseKeyLine, Groups, Render;
    var line := ParseKeyLine(Body(part));
    if line.Some? {
      ParseGives(Body(part));
      RenderedChars(line.value, ValueOf(keys, line.value.name), '\n');
    }
  }

  lemma RewriteEmpty(part: string, keys: Keys)
    ensures (RewritePart(part, keys) == "") <==> (part == "")
  {
    hide ParseKeyLine;
    if part == "" {
      EmptyIsNoKeyLine();
    }
  }

  // ---- the rewriter -------------------------------------------------------------

  function RewriteParts(parts: seq<string>, keys: Keys): (r: seq<string>)
    ensures |r| == |parts|
    ensures forall k :: 0 <= k < |parts| ==> r[k] == RewritePart(parts[k], keys)
  {
    seq(|parts|, i requires 0 <= i < |parts| => RewritePart(parts[i], keys))
  }

  /** Some part assigns `name`. */
  predicate Assigns(parts: seq<string>, name: KeyName) {
    exists k :: 0 <= k < |parts| && NameAt(parts[k]) == Some(name)
  }

  function Assignment(keys: Keys, name: KeyName): string {
    NameText(name) + "=" + ValueOf(keys, name)
  }

  /** The assignments of the keys no part assigns. */
  function Missing(parts: seq<string>, keys: Keys): seq<string> {
    (if Assigns(parts, SecretKey) then [] else [Assignment(keys, SecretKey)])
    + (if Assigns(parts, EncryptionKey) then [] else [Assignment(keys, EncryptionKey)])
  }

  function Last(parts: seq<string>): string
    requires parts != []
  {
    parts[|parts| - 1]
  }

  /** The parts without an empty one at the end. */
  function Whole(parts: seq<string>): seq<string>
  {
    if parts != [] && Last(parts) == "" then parts[..|parts| - 1] else parts
  }

  /** The parts of the file after replace_keys. */
  function ReplacedParts(parts: seq<string>, keys: Keys): (r: seq<string>)
  {
    var rewritten := RewriteParts(parts, keys);
    if Missing(parts, keys) == [] then rewritten else Whole(rewritten) + Missing(parts, keys) + [""]
  }

  /** The text of the missing assignments, each with its newline. */
  function MissingText(parts: seq<string>, keys: Keys): string {
    (if Assigns(parts, SecretKey) then "" else Assignment(keys, SecretKey) + "\n")
    + (if Assigns(parts, EncryptionKey) then "" else Assignment(keys, EncryptionKey) + "\n")
  }

  /** Text that needs a newline before more is added. */
  predicate Open(result: string) { result != "" && result[|result| - 1] != '\n' }

  /** The file after replace_keys. */
  function Replaced(text: string, keys: Keys): string {
    var parts := Split(text, '\n');
    var result := Join(RewriteParts(parts, keys), '\n');
    var missing := MissingText(parts, keys);
    if missing == "" then result else (if Open(result) then result + "\n" else result) + missing
  }

  /** replace_keys. */
  method ReplaceKeys(text: string, keys: Keys) returns (result: string)
    ensures result == Replaced(text, keys)
  {
    hide NameAt, RewritePart, RewriteParts, Assignment, Assigns, SeenIn, Split, Join;
    var parts := Split(text, '\n');
    assert parts[..0] == [];
    NothingSeen(keys);
    var out: seq<string> := [];
    var seen: set<KeyName> := {};
    var i := 0;
    while i < |parts|
      invariant 0 <= i <= |parts|
      invariant out == RewriteParts(parts[..i], keys)
      invariant SeenIn(parts[..i], seen)
    {
      var rewritten, name := RewriteOne(parts[i], keys);
      RewriteSnoc(parts, i, keys, seen);
      out := out + [rewritten];
      if name.Some? {
        seen := seen + {name.value};
      }
      i := i + 1;
    }
    assert parts[..i] == parts;
    result := Join(out, '\n');
    var missing := (if SecretKey in seen then "" else Assignment(keys, SecretKey) + "\n")
                   + (if EncryptionKey in seen then "" else Assignment(keys, EncryptionKey) + "\n");
    SeenMissing(parts, keys, seen);
    if missing != "" {
      if result != "" && result[|result| - 1] != '\n' {
        result := result + "\n";
      }
      result := result + missing;
    }
  }

  method RewriteOne(part: string, keys: Keys) returns (rewritten: string, name: Option<KeyName>)
    ensures rewritten == RewritePart(part, keys) && name == NameAt(part)
  {
    hide ParseKeyLine, Render;
    var body := if EndsCr(part) then part[..|part| - 1] else part;
    var ending := if EndsCr(part) then "\r" else "";
    var line := ParseKeyLine(body);
    if line.Some? {
      return Render(line.value, ValueOf(keys, line.value.name)) + ending, Some(line.value.name);
    }
    return part, None;
  }

  ghost predicate SeenIn(parts: seq<string>, seen: set<KeyName>) {
    forall name :: name in seen <==> Assigns(parts, name)
  }

  lemma NothingSeen(keys: Keys)
    ensures SeenIn([], {}) && RewriteParts([], keys) == []
  {
  }

  lemma SeenMissing(parts: seq<string>, keys: Keys, seen: set<KeyName>)
    requires SeenIn(parts, seen)
    ensures MissingText(parts, keys) == (if SecretKey in seen then "" else Assignment(keys, SecretKey) + "\n")
                                        + (if EncryptionKey in seen then "" else Assignment(keys, EncryptionKey) + "\n")
  {
    hide Assigns, Assignment;
  }

  lemma RewriteSnoc(parts: seq<string>, i: nat, keys: Keys, seen: set<KeyName>)
    requires i < |parts| && SeenIn(parts[..i], seen)
    ensures RewriteParts(parts[..i + 1], keys) == RewriteParts(parts[..i], keys) + [RewritePart(parts[i], keys)]
    ensures SeenIn(parts[..i + 1], if NameAt(parts[i]).Some? then seen + {NameAt(parts[i]).value} else seen)
  {
    hide NameAt, RewritePart;
    assert parts[..i + 1] == parts[..i] + [parts[i]];
    AssignsConcat(parts[..i], [parts[i]]);
  }

  lemma AssignsConcat(a: seq<string>, b: seq<string>)
    ensures forall name :: Assigns(a + b, name) <==> Assigns(a, name) || Assigns(b, name)
  {
    hide NameAt;
    forall name ensures Assigns(a + b, name) <==> Assigns(a, name) || Assigns(b, name) {
      if Assigns(a, name) {
        var k :| 0 <= k < |a| && NameAt(a[k]) == Some(name);
        assert (a + b)[k] == a[k];
      }
      if Assigns(b, name) {
        var k :| 0 <= k < |b| && NameAt(b[k]) == Some(name);
        assert (a + b)[|a| + k] == b[k];
      }
    }
  }

  lemma MissingJoined(parts: seq<string>, keys: Keys)
    ensures Missing(parts, keys) != [] ==> Join(Missing(parts, keys) + [""], '\n') == MissingText(parts, keys)
    ensures (Missing(parts, keys) == []) <==> (MissingText(parts, keys) == "")
  {
    hide NameAt, Assignment, Assigns;
    var a, b := Assignment(keys, SecretKey), Assignment(keys, EncryptionKey);
    JoinLines(a, b);
  }

  lemma JoinLines(a: string, b: string)
    ensures Join([a] + [""], '\n') == a + "\n" && Join([b] + [""], '\n') == b + "\n"
    ensures Join([a] + [b] + [""], '\n') == a + "\n" + (b + "\n")
  {
    var all := [a] + [b] + [""];
    assert all[1..] == [b] + [""];
    assert ([a] + [""])[1..] == [""];
    assert ([b] + [""])[1..] == [""];
  }

  lemma OpenJoin(parts: seq<string>)
    requires parts != [] && forall p :: p in parts ==> '\n' !in p
    ensures Open(Join(parts, '\n')) <==> Last(parts) != ""
    ensures Last(parts) == "" && |parts| > 1 ==> Join(parts, '\n') == Join(Whole(parts), '\n') + "\n"
  {
    hide Join, Open;
    var last := Last(parts);
    assert last in parts;
    if |parts| > 1 {
      var most := parts[..|parts| - 1];
      assert parts == most + [last];
      JoinConcat(most, [last], '\n');
      JoinOne(last);
      OpenAfter(Join(most, '\n') + "\n", last);
    } else {
      assert parts == [last] && "" + last == last;
      JoinOne(last);
      OpenAfter("", last);
    }
  }

  lemma OpenAfter(before: string, last: string)
    requires '\n' !in last && (before == "" || before[|before| - 1] == '\n')
    ensures Open(before + last) <==> last != ""
  {
    if last != "" {
      assert last[|last| - 1] in last;
    }
  }

  lemma RewrittenHaveNoNewline(parts: seq<string>, keys: Keys)
    requires OneLine(keys) && forall p :: p in parts ==> '\n' !in p
    ensures forall p :: p in RewriteParts(parts, keys) ==> '\n' !in p
  {
    hide RewritePart;
    forall k: nat | k < |parts| ensures '\n' !in RewriteParts(parts, keys)[k] {
      RewriteKeepsNewlines(parts[k], keys);
    }
  }

  lemma MissingHaveNoNewline(parts: seq<string>, keys: Keys)
    requires OneLine(keys)
    ensures forall p :: p in Missing(parts, keys) ==> '\n' !in p
  {
    hide NameAt;
    forall name ensures '\n' !in Assignment(keys, name) {
      hide OneLine;
      OneValue(keys, name);
      assert '\n' !in NameText(name);
    }
  }

  lemma OneValue(keys: Keys, name: KeyName)
    requires OneLine(keys)
    ensures '\n' !in ValueOf(keys, name) && '\r' !in ValueOf(keys, name)
  {
  }

  /** The rewritten text's parts are the rewritten parts. */
  lemma ReplacedSplits(text: string, keys: Keys)
    requires OneLine(keys)
    ensures Split(Replaced(text, keys), '\n') == ReplacedParts(Split(text, '\n'), keys)
  {
    hide NameAt, RewritePart, Split, Join, Missing, MissingText, OneLine, Open;
    var parts := Split(text, '\n');
    var rewritten := RewriteParts(parts, keys);
    var missing := Missing(parts, keys);
    SplitParts(text, '\n');
    RewrittenHaveNoNewline(parts, keys);
    MissingHaveNoNewline(parts, keys);
    SplitJoin(rewritten, '\n');
    MissingJoined(parts, keys);
    OpenJoin(rewritten);
    if missing != [] {
      var whole := Whole(rewritten);
      if whole != [] {
        JoinConcat(whole, missing + [""], '\n');
        assert whole + (missing + [""]) == whole + missing + [""];
      } else {
        assert rewritten == [""];
        assert whole + missing + [""] == missing + [""];
        JoinOne("");
      }
      assert Replaced(text, keys) == Join(whole + missing + [""], '\n');
      SplitJoin(whole + missing + [""], '\n');
    }
  }

  lemma JoinOne(p: string)
    ensures Join([p], '\n') == p
  {
  }
}
