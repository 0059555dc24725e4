/** One line of a `.env` file that assigns a key (installer/bootstrap.py, _KEY_LINE_RE):
    indent, optional `export`, name, `=`, value. */
module KeyLines {
  import opened Options
  import opened Text

  datatype KeyName = SecretKey | EncryptionKey

  function NameText(name: KeyName): string {
    match name
    case SecretKey => "SECRET_KEY"
    case EncryptionKey => "ENCRYPTION_KEY"
  }

  predicate IsBlank(c: char) { c == ' ' || c == '\t' }

  /** The longest run of spaces and tabs at the start. */
  function Blanks(s: string): (n: nat)
    ensures n <= |s|
  {
    if s == "" || !IsBlank(s[0]) then 0 else 1 + Blanks(s[1..])
  }

  lemma {:induction false} BlanksAre(s: string)
    ensures forall k :: 0 <= k < Blanks(s) ==> IsBlank(s[k])
  {
    if s != "" && IsBlank(s[0]) {
      BlanksAre(s[1..]);
      forall k | 0 < k < Blanks(s) ensures IsBlank(s[k]) {
        assert s[1..][k - 1] == s[k];
      }
    }
  }

  /** The pattern's groups. */
  datatype KeyLine = KeyLine(indent: string, exported: string, name: KeyName, value: string)

  /** Name, blanks, `=`, value. */
  function ParseName(indent: string, exported: string, s: string): Option<KeyLine> {
    if StartsWith(s, NameText(SecretKey)) then ParseValue(indent, exported, SecretKey, s[|NameText(SecretKey)|..])
    else if StartsWith(s, NameText(EncryptionKey)) then
      ParseValue(indent, exported, EncryptionKey, s[|NameText(EncryptionKey)|..])
    else None
  }

  function ParseValue(indent: string, exported: string, name: KeyName, s: string): Option<KeyLine> {
    var n := Blanks(s);
    if n < |s| && s[n] == '=' then Some(KeyLine(indent, exported, name, s[n + 1..])) else None
  }

  /** `export` and its blanks, when they are there. */
  function ExportOf(s: string): (r: string)
    ensures r <= s
  {
    if StartsWith(s, "export") && Blanks(s[6..]) > 0 then s[..6 + Blanks(s[6..])] else ""
  }

  /** What follows the indent. */
  function ParseUnindented(s: string): Option<KeyLine> {
    ParseName("", ExportOf(s), s[|ExportOf(s)|..])
  }

  /** _KEY_LINE_RE.match on a line without its newline. */
  function ParseKeyLine(body: string): Option<KeyLine> {
    if body != "" && IsBlank(body[0]) then
      var line := ParseKeyLine(body[1..]);
      if line.Some? then Some(line.value.(indent := [body[0]] + line.value.indent)) else None
    else ParseUnindented(body)
  }

  function Render(line: KeyLine, value: string): string {
    line.indent + (line.exported + (NameText(line.name) + "=" + value))
  }

  /** What the first two groups can hold. */
  ghost predicate Groups(indent: string, exported: string) {
    && (forall k :: 0 <= k < |indent| ==> IsBlank(indent[k]))
    && (exported == "" || IsExport(exported))
  }

  ghost predicate IsExport(s: string) {
    |s| > 6 && s[..6] == "export" && forall k :: 6 <= k < |s| ==> IsBlank(s[k])
  }

  lemma {:induction false} BlanksOf(indent: string, rest: string)
    requires forall k :: 0 <= k < |indent| ==> IsBlank(indent[k])
    requires rest != "" ==> !IsBlank(rest[0])
    ensures Blanks(indent + rest) == |indent|
  {
    if indent == "" {
      assert indent + rest == rest;
    } else {
      assert (indent + rest)[1..] == indent[1..] + rest;
      BlanksOf(indent[1..], rest);
    }
  }

  lemma ExportGroup(s: string)
    ensures ExportOf(s) == "" || IsExport(ExportOf(s))
  {
    var r := ExportOf(s);
    if r != "" {
      BlanksAre(s[6..]);
      forall k | 6 <= k < |r| ensures IsBlank(r[k]) {
        assert s[6..][k - 6] == s[k];
      }
      assert r[..6] == s[..6];
    }
  }

  lemma NameKeepsGroups(indent: string, exported: string, s: string)
    ensures var line := ParseName(indent, exported, s);
            line.Some? ==> line.value.indent == indent && line.value.exported == exported
  {
  }

  lemma {:induction false} ParseGives(body: string)
    ensures var line := ParseKeyLine(body);
            line.Some? ==> Groups(line.value.indent, line.value.exported)
  {
    hide ExportOf, ParseName, IsExport;
    if body != "" && IsBlank(body[0]) {
      ParseGives(body[1..]);
    } else {
      ExportGroup(body);
      NameKeepsGroups("", ExportOf(body), body[|ExportOf(body)|..]);
    }
  }

  lemma ParseRenderedName(indent: string, exported: string, name: KeyName, value: string)
    ensures ParseName(indent, exported, NameText(name) + "=" + value) == Some(KeyLine(indent, exported, name, value))
  {
    hide ParseValue;
    var rest := "=" + value;
    var s := NameText(name) + rest;
    assert s == NameText(name) + "=" + value;
    assert s[|NameText(name)|..] == rest && s[..|NameText(name)|] == NameText(name);
    assert s[0] == NameText(name)[0];
    StartsWithFirst(s, NameText(SecretKey));
    ParseRenderedValue(indent, exported, name, value);
  }

  lemma ParseRenderedValue(indent: string, exported: string, name: KeyName, value: string)
    ensures ParseValue(indent, exported, name, "=" + value) == Some(KeyLine(indent, exported, name, value))
  {
    var rest := "=" + value;
    assert Blanks(rest) == 0 && rest[0] == '=' && rest[1..] == value;
  }

  lemma ExportFound(exported: string, named: string)
    requires exported == "" || IsExport(exported)
    requires named != "" && !IsBlank(named[0]) && named[0] != 'e'
    ensures ExportOf(exported + named) == exported
  {
    var s := exported + named;
    if exported == "" {
      assert s == named;
      StartsWithFirst(s, "export");
    } else {
      var gap := exported[6..];
      assert s[..6] == exported[..6] && s[6..] == gap + named;
      BlanksOf(gap, named);
      assert s[..|exported|] == exported;
    }
  }

  lemma {:induction false} RenderedGroups(indent: string, exported: string, named: string)
    requires Groups(indent, exported)
    requires named != "" && !IsBlank(named[0]) && named[0] != 'e'
    ensures ParseKeyLine(indent + (exported + named)) == ParseName(indent, exported, named)
  {
    hide ParseName, ExportOf;
    var s := exported + named;
    if indent == "" {
      ExportFound(exported, named);
      assert indent + s == s && !IsBlank(s[0]);
      assert s[|exported|..] == named;
    } else {
      assert (indent + s)[1..] == indent[1..] + s;
      RenderedGroups(indent[1..], exported, named);
      NameIndent(indent[1..], indent, exported, named);
      NameKeepsGroups(indent[1..], exported, named);
      assert (indent + s)[0] == indent[0];
      assert indent == [indent[0]] + indent[1..];
    }
  }

  /** The indent is only carried along. */
  lemma NameIndent(indent: string, other: string, exported: string, s: string)
    ensures ParseName(other, exported, s)
            == if ParseName(indent, exported, s).Some? then Some(ParseName(indent, exported, s).value.(indent := other)) else None
  {
  }

  /** A rendered line parses back to the same indent, export and name, with the new value. */
  lemma ParseRendered(line: KeyLine, value: string)
    requires Groups(line.indent, line.exported)
    ensures ParseKeyLine(Render(line, value)) == Some(KeyLine(line.indent, line.exported, line.name, value))
  {
    hide ParseKeyLine, ParseName, Groups;
    var named := NameText(line.name) + "=" + value;
    assert named[0] == NameText(line.name)[0];
    RenderedGroups(line.indent, line.exported, named);
    ParseRenderedName(line.indent, line.exported, line.name, value);
  }

  /** A rendered line holds no character that is neither blank, a letter of the pattern, nor of the value. */
  lemma RenderedChars(line: KeyLine, value: string, c: char)
    requires Groups(line.indent, line.exported)
    requires (c == '\n' || c == '\r') && c !in value
    ensures c !in Render(line, value)
  {
    assert c !in line.indent;
    if line.exported != "" {
      assert line.exported == line.exported[..6] + line.exported[6..];
      assert c !in line.exported[..6];
    }
    assert c !in NameText(line.name);
  }

  lemma EmptyIsNoKeyLine()
    ensures ParseKeyLine("").None?
  {
  }
}
