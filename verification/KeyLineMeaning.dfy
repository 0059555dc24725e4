/** Exactly which lines assign a key (installer/bootstrap.py, _KEY_LINE_RE). */
module KeyLineMeaning {
  import opened Options
  import opened Text
  import opened KeyLines

  ghost predicate SpacesOrTabs(s: string) {
    forall k :: 0 <= k < |s| ==> s[k] == ' ' || s[k] == '\t'
  }

  /** Nothing, or the word and at least one space or tab. */
  ghost predicate ExportWord(s: string) {
    s == "" || exists gap: string :: gap != "" && SpacesOrTabs(gap) && s == "export" + gap
  }

  /** `body` is written as indent, export, name, spaces or tabs, `=` and value. */
  ghost predicate Written(line: KeyLine, gap: string, body: string) {
    && SpacesOrTabs(line.indent) && ExportWord(line.exported) && SpacesOrTabs(gap)
    && body == line.indent + (line.exported
                              + ((if line.name == SecretKey then "SECRET_KEY" else "ENCRYPTION_KEY")
                                 + (gap + ("=" + line.value))))
  }

  lemma GroupsAreWritten(indent: string, exported: string)
    ensures Groups(indent, exported) <==> SpacesOrTabs(indent) && ExportWord(exported)
  {
    if IsExport(exported) {
      assert exported == "export" + exported[6..];
      assert SpacesOrTabs(exported[6..]);
    }
    if gap: string :| gap != "" && SpacesOrTabs(gap) && exported == "export" + gap {
      assert exported[..6] == "export" && exported[6..] == gap;
      forall k | 6 <= k < |exported| ensures IsBlank(exported[k]) {
        assert exported[k] == gap[k - 6];
      }
    }
  }

  lemma ValueAfterGap(indent: string, exported: string, name: KeyName, gap: string, value: string)
    requires SpacesOrTabs(gap)
    ensures ParseValue(indent, exported, name, gap + ("=" + value)) == Some(KeyLine(indent, exported, name, value))
  {
    var s := gap + ("=" + value);
    BlanksOf(gap, "=" + value);
    assert s[|gap|] == '=' && s[|gap| + 1..] == value;
  }

  lemma NameAfterGroups(indent: string, exported: string, name: KeyName, rest: string)
    ensures ParseName(indent, exported, NameText(name) + rest) == ParseValue(indent, exported, name, rest)
  {
    hide ParseValue;
    var s := NameText(name) + rest;
    assert s[|NameText(name)|..] == rest && s[..|NameText(name)|] == NameText(name);
    assert s[0] == NameText(name)[0];
    StartsWithFirst(s, NameText(SecretKey));
  }

  /** Whatever is written that way parses to those groups. */
  lemma WrittenParses(line: KeyLine, gap: string, body: string)
    requires Written(line, gap, body)
    ensures ParseKeyLine(body) == Some(line)
  {
    hide ParseKeyLine, ParseName, ParseValue, Groups, SpacesOrTabs, ExportWord;
    var named := NameText(line.name) + (gap + ("=" + line.value));
    assert named[0] == NameText(line.name)[0];
    GroupsAreWritten(line.indent, line.exported);
    RenderedGroups(line.indent, line.exported, named);
    NameAfterGroups(line.indent, line.exported, line.name, gap + ("=" + line.value));
    ValueAfterGap(line.indent, line.exported, line.name, gap, line.value);
  }

  lemma ParsedValueWritten(indent: string, exported: string, name: KeyName, s: string)
    ensures var line := ParseValue(indent, exported, name, s);
            line.Some? ==> SpacesOrTabs(s[..Blanks(s)]) && s == s[..Blanks(s)] + ("=" + line.value.value)
                           && line.value.name == name
  {
    BlanksAre(s);
    hide Blanks;
    var n := Blanks(s);
    if n < |s| && s[n] == '=' {
      assert s[n..] == "=" + s[n + 1..];
      assert s == s[..n] + s[n..];
    }
  }

  lemma ParsedNameWritten(indent: string, exported: string, s: string)
    ensures var line := ParseName(indent, exported, s);
            line.Some? ==> exists gap: string :: SpacesOrTabs(gap) && s == NameText(line.value.name) + (gap + ("=" + line.value.value))
  {
    hide ParseValue, SpacesOrTabs;
    var line := ParseName(indent, exported, s);
    if line.Some? {
      var name := if StartsWith(s, NameText(SecretKey)) then SecretKey else EncryptionKey;
      var rest := s[|NameText(name)|..];
      ParsedValueWritten(indent, exported, name, rest);
      assert s == NameText(name) + rest;
      assert SpacesOrTabs(rest[..Blanks(rest)]);
    }
  }

  lemma UnindentedIsWritten(s: string, line: KeyLine) returns (gap: string)
    requires ParseUnindented(s) == Some(line)
    ensures line.indent == "" && Written(line, gap, s)
  {
    hide ParseName, ExportOf, Groups, SpacesOrTabs, ExportWord;
    var exported := ExportOf(s);
    var named := s[|exported|..];
    NameKeepsGroups("", exported, named);
    ExportGroup(s);
    GroupsAreWritten("", exported);
    ParsedNameWritten("", exported, named);
    gap :| SpacesOrTabs(gap) && named == NameText(line.name) + (gap + ("=" + line.value));
    hide ParseUnindented;
    assert Groups("", exported) by { NoIndent(exported); }
    assert s == exported + named;
    assert s == "" + (exported + named);
  }

  lemma NoIndent(exported: string)
    requires exported == "" || IsExport(exported)
    ensures Groups("", exported)
  {
  }

  lemma {:induction false} ParsedIsWritten(body: string, line: KeyLine) returns (gap: string)
    requires ParseKeyLine(body) == Some(line)
    ensures Written(line, gap, body)
  {
    hide ParseUnindented, ExportWord, NameText;
    if body != "" && IsBlank(body[0]) {
      var inner := ParseKeyLine(body[1..]).value;
      gap := ParsedIsWritten(body[1..], inner);
      assert body == [body[0]] + body[1..];
    } else {
      gap := UnindentedIsWritten(body, line);
    }
  }

  /** A line parses to these groups exactly when it is written that way. */
  lemma ParsesExactlyWhen(body: string, line: KeyLine)
    ensures ParseKeyLine(body) == Some(line) <==> exists gap: string :: Written(line, gap, body)
  {
    hide Written, ParseKeyLine;
    if ParseKeyLine(body) == Some(line) {
      var gap := ParsedIsWritten(body, line);
    }
    if gap: string :| Written(line, gap, body) {
      WrittenParses(line, gap, body);
    }
  }
}
