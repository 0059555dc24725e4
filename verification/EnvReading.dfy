/** Reading a `.env` file back (installer/bootstrap.py, env_key_status) and what it sees after
    a rewrite. */
module EnvReading {
  import opened Options
  import opened Text
  import opened KeyLines
  import opened EnvKeys
  import opened EnvFiles

  // ---- the lines a text file is read as --------------------------------------------

  /** Universal newlines: "\r\n", "\r" and "\n" each end a line. */
  function Lines(text: string): (lines: seq<string>)
    ensures lines != []
  {
    if text == "" then [""]
    else if |text| > 1 && text[0] == '\r' && text[1] == '\n' then [""] + Lines(text[2..])
    else if text[0] == '\r' || text[0] == '\n' then [""] + Lines(text[1..])
    else
      var tail := Lines(text[1..]);
      [[text[0]] + tail[0]] + tail[1..]
  }

  /** The value a line assigns to `name`. */
  function ValueAt(line: string, name: KeyName): Option<string> {
    var parsed := ParseKeyLine(line);
    if parsed.Some? && parsed.value.name == name then Some(parsed.value.value) else None
  }

  /** The last value assigned to `name`. */
  function LastIn(lines: seq<string>, name: KeyName): Option<string> {
    if lines == [] then None
    else
      var later := LastIn(lines[1..], name);
      if later.Some? then later else ValueAt(lines[0], name)
  }

  /** The value read back for `name`: the last assignment wins. */
  function ReadBack(text: string, name: KeyName): Option<string> {
    var raw := LastIn(Lines(text), name);
    if raw.Some? then Some(EnvValue(raw.value)) else None
  }

  predicate Status(text: string, name: KeyName, decode: string -> Option<nat>) {
    var value := ReadBack(text, name);
    value.Some? && LooksReal(name, value.value, decode)
  }

  /** env_key_status on the text of the file. */
  method EnvKeyStatus(text: string, decode: string -> Option<nat>) returns (secret: bool, encryption: bool)
    ensures secret == Status(text, SecretKey, decode)
    ensures encryption == Status(text, EncryptionKey, decode)
  {
    hide Lines, LooksReal, ParseKeyLine, EnvValue;
    secret, encryption := false, false;
    var lines := Lines(text);
    var i := 0;
    while i < |lines|
      invariant 0 <= i <= |lines|
      invariant secret == Real(LastIn(lines[..i], SecretKey), SecretKey, decode)
      invariant encryption == Real(LastIn(lines[..i], EncryptionKey), EncryptionKey, decode)
    {
      var line := ParseKeyLine(lines[i]);
      LastSnoc(lines, i, SecretKey);
      LastSnoc(lines, i, EncryptionKey);
      if line.Some? {
        var looksReal := LooksReal(line.value.name, EnvValue(line.value.value), decode);
        if line.value.name == SecretKey {
          secret := looksReal;
        } else {
          encryption := looksReal;
        }
      }
      i := i + 1;
    }
    assert lines[..i] == lines;
  }

  predicate Real(raw: Option<string>, name: KeyName, decode: string -> Option<nat>) {
    raw.Some? && LooksReal(name, EnvValue(raw.value), decode)
  }

  lemma LastSnoc(lines: seq<string>, i: nat, name: KeyName)
    requires i < |lines|
    ensures LastIn(lines[..i + 1], name)
            == if ValueAt(lines[i], name).Some? then ValueAt(lines[i], name) else LastIn(lines[..i], name)
  {
    hide ValueAt;
    assert lines[..i + 1] == lines[..i] + [lines[i]];
    LastConcat(lines[..i], [lines[i]], name);
  }

  lemma {:induction false} LastConcat(a: seq<string>, b: seq<string>, name: KeyName)
    ensures LastIn(a + b, name) == if LastIn(b, name).Some? then LastIn(b, name) else LastIn(a, name)
  {
    hide ValueAt;
    if a == [] {
      assert a + b == b;
    } else {
      assert (a + b)[1..] == a[1..] + b;
      LastConcat(a[1..], b, name);
    }
  }

  // ---- the read lines against the parts between "\n"s ---------------------------------

  /** The lines read from a part that "\n" ends: a lone "\r" inside it splits it. */
  function Pieces(part: string): (r: seq<string>)
    ensures r != []
  {
    Split(Body(part), '\r')
  }

  lemma LinesStep(c: char, t: string)
    requires c == '\r' ==> t == "" || t[0] != '\n'
    ensures Lines([c] + t) == if c == '\r' || c == '\n' then [""] + Lines(t) else [[c] + Lines(t)[0]] + Lines(t)[1..]
  {
    assert ([c] + t)[1..] == t;
  }

  lemma PiecesStep(c: char, t: string)
    requires c == '\r' ==> t != ""
    ensures Pieces([c] + t) == if c == '\r' then [""] + Pieces(t) else [[c] + Pieces(t)[0]] + Pieces(t)[1..]
  {
    assert Body([c] + t) == [c] + Body(t);
    assert ([c] + Body(t))[1..] == Body(t);
  }

  lemma {:induction false} LinesOfPart(p: string, rest: string)
    requires '\n' !in p
    ensures Lines(p + ['\n'] + rest) == Pieces(p) + Lines(rest)
  {
    hide Lines, Pieces;
    if p == "" {
      assert p + ['\n'] + rest == ['\n'] + rest;
      LinesStep('\n', rest);
      NoPieces();
    } else if p == "\r" {
      CrLf(rest);
      NoPieces();
    } else {
      var t := p[1..];
      var after := t + ['\n'] + rest;
      assert p == [p[0]] + t && p + ['\n'] + rest == [p[0]] + after;
      assert t != "" ==> t[0] in p;
      assert after[0] == if t == "" then '\n' else t[0];
      LinesOfPart(t, rest);
      LinesStep(p[0], after);
      PiecesStep(p[0], t);
      PrependFirst(p[0], Pieces(t), Lines(rest));
    }
  }

  lemma PrependFirst(c: char, a: seq<string>, b: seq<string>)
    requires a != []
    ensures [[c] + (a + b)[0]] + (a + b)[1..] == [[c] + a[0]] + a[1..] + b
    ensures [""] + (a + b) == [""] + a + b
  {
  }

  lemma CrLf(rest: string)
    ensures Lines("\r" + ['\n'] + rest) == [""] + Lines(rest)
  {
    assert ("\r" + ['\n'] + rest)[2..] == rest;
  }

  lemma NoPieces()
    ensures Pieces("") == [""] && Pieces("\r") == [""]
  {
    assert Body("\r") == "";
  }

  lemma {:induction false} LinesOfLast(p: string)
    requires '\n' !in p
    ensures Lines(p) == Split(p, '\r')
  {
    if p != "" {
      LinesOfLast(p[1..]);
    }
  }

  /** The last value among the pieces of the parts. */
  function LastPart(parts: seq<string>, name: KeyName): Option<string> {
    if parts == [] then None
    else
      var later := LastPart(parts[1..], name);
      if later.Some? then later else LastIn(Pieces(parts[0]), name)
  }

  lemma {:induction false} SplitSuffix(p: string)
    ensures Split(p + "\r", '\r') == Split(p, '\r') + [""]
  {
    if p == "" {
      assert Split("\r", '\r') == [""] + Split("\r"[1..], '\r');
    } else {
      assert (p + "\r")[1..] == p[1..] + "\r";
      SplitSuffix(p[1..]);
    }
  }

  lemma LastOfLast(p: string, name: KeyName)
    ensures LastIn(Split(p, '\r'), name) == LastIn(Pieces(p), name)
  {
    hide ParseKeyLine, Split;
    if EndsCr(p) {
      assert p == Body(p) + "\r";
      SplitSuffix(Body(p));
      LastConcat(Split(Body(p), '\r'), [""], name);
      EmptyIsNoKeyLine();
      assert ValueAt("", name).None?;
    }
  }

  lemma {:induction false} LastByParts(parts: seq<string>, name: KeyName)
    requires parts != [] && forall p :: p in parts ==> '\n' !in p
    ensures LastIn(Lines(Join(parts, '\n')), name) == LastPart(parts, name)
  {
    hide Lines, LastIn, Pieces, Split;
    assert parts[0] in parts;
    if |parts| == 1 {
      LinesOfLast(parts[0]);
      LastOfLast(parts[0], name);
      assert LastPart(parts[1..], name).None?;
    } else {
      LinesOfPart(parts[0], Join(parts[1..], '\n'));
      LastConcat(Pieces(parts[0]), Lines(Join(parts[1..], '\n')), name);
      LastByParts(parts[1..], name);
    }
  }

  // ---- reading back a rewritten file --------------------------------------------------

  /** The last assignment of `name` that only the reader sees: behind a lone "\r" in a part
      that is no key line for the rewriter, with no part assigning `name` after it. */
  function Stray(parts: seq<string>, name: KeyName): Option<string> {
    if parts == [] then None
    else
      var later := Stray(parts[1..], name);
      if later.Some? then later
      else if Assigns(parts[1..], name) || NameAt(parts[0]).Some? then None
      else LastIn(Pieces(parts[0]), name)
  }

  lemma PiecesRewritten(part: string, keys: Keys, name: KeyName)
    requires OneLine(keys)
    ensures LastIn(Pieces(RewritePart(part, keys)), name)
            == if NameAt(part).None? then LastIn(Pieces(part), name)
               else if NameAt(part) == Some(name) then Some(ValueOf(keys, name)) else None
  {
    hide ParseKeyLine, Render, OneLine;
    var line := ParseKeyLine(Body(part));
    if line.Some? {
      var body := Body(RewritePart(part, keys));
      RewrittenBody(part, keys);
      SplitPrefix(body, "", '\r');
      assert Pieces(RewritePart(part, keys)) == [body];
      assert LastIn([body], name) == ValueAt(body, name);
    }
  }

  lemma {:induction false} LastRewritten(parts: seq<string>, keys: Keys, name: KeyName)
    requires OneLine(keys)
    ensures LastPart(RewriteParts(parts, keys), name)
            == if Stray(parts, name).Some? then Stray(parts, name)
               else if Assigns(parts, name) then Some(ValueOf(keys, name)) else None
  {
    hide NameAt, Pieces, LastIn, RewritePart, OneLine;
    if parts != [] {
      var rest := parts[1..];
      assert RewriteParts(parts, keys)[1..] == RewriteParts(rest, keys);
      LastRewritten(rest, keys, name);
      PiecesRewritten(parts[0], keys, name);
      assert parts == [parts[0]] + rest;
      AssignsConcat([parts[0]], rest);
      AssignsOne(parts[0], name);
    }
  }

  lemma AssignsOne(part: string, name: KeyName)
    ensures Assigns([part], name) <==> NameAt(part) == Some(name)
  {
    hide NameAt;
    assert [part][0] == part;
  }
}
