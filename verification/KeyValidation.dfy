/** What the installer's key checks accept, said without the checks (installer/bootstrap.py). */
module KeyValidation {
  import opened Options
  import opened Text
  import opened TextMeaning
  import opened KeyLines
  import opened EnvKeys

  /** Printable ASCII but for quotes, backtick, backslash, `$` and `#`. */
  predicate SafeChar(c: char) {
    c == '!' || c == '%' || c == '&' || '(' <= c <= '[' || c == ']' || c == '^' || c == '_' || 'a' <= c <= '~'
  }

  /** One of the four placeholder texts occurs, in any case. */
  ghost predicate LooksLikePlaceholder(s: string) {
    exists a: string, m: string, b: string :: s == a + m + b &&
      (SameLetters(m, "replace_me") || SameLetters(m, "changeme") || SameLetters(m, "change-me") || SameLetters(m, "your-secret"))
  }

  lemma LowerParts(a: string, m: string, b: string)
    ensures Lower(a + m + b) == Lower(a) + Lower(m) + Lower(b)
  {
  }

  lemma LowerSlice(s: string, i: nat, j: nat)
    requires i <= j <= |s|
    ensures Lower(s)[i..j] == Lower(s[i..j])
  {
  }

  lemma SmallStays(m: string)
    requires forall k :: 0 <= k < |m| ==> !('A' <= m[k] <= 'Z')
    ensures Lower(m) == m
  {
  }

  /** A text in small letters occurs in the lower-cased one where it occurs without regard to case. */
  lemma MarkerMeans(s: string, marker: string)
    requires forall k :: 0 <= k < |marker| ==> !('A' <= marker[k] <= 'Z')
    ensures Contains(Lower(s), marker) <==> exists a: string, m: string, b: string :: s == a + m + b && SameLetters(m, marker)
  {
    hide Contains, SameLetters, Lower;
    ContainsMeans(Lower(s), marker);
    SmallStays(marker);
    LowerIs(s);
    if a: string, b: string :| Lower(s) == a + marker + b {
      var i, j := |a|, |a| + |marker|;
      LowerSlice(s, i, j);
      assert Lower(s)[i..j] == marker;
      LowerMeans(s[i..j], marker);
      assert s == s[..i] + s[i..j] + s[j..];
    }
    if a: string, m: string, b: string :| s == a + m + b && SameLetters(m, marker) {
      LowerParts(a, m, b);
      LowerMeans(m, marker);
    }
  }

  lemma PlaceholderMeans(s: string)
    ensures HasMarker(s) <==> LooksLikePlaceholder(s)
  {
    hide Contains, SameLetters, Lower;
    MarkerMeans(s, "replace_me");
    MarkerMeans(s, "changeme");
    MarkerMeans(s, "change-me");
    MarkerMeans(s, "your-secret");
    assert PLACEHOLDER_MARKERS == ["replace_me", "changeme", "change-me", "your-secret"];
    assert HasMarker(s) <==>
      Contains(Lower(s), "replace_me") || Contains(Lower(s), "changeme") || Contains(Lower(s), "change-me")
      || Contains(Lower(s), "your-secret") by {
      assert PLACEHOLDER_MARKERS[0] == "replace_me" && PLACEHOLDER_MARKERS[1] == "changeme";
      assert PLACEHOLDER_MARKERS[2] == "change-me" && PLACEHOLDER_MARKERS[3] == "your-secret";
    }
  }

  /** No seven characters make up the text. */
  ghost predicate Varied(value: string) {
    forall few: set<char> :: |few| <= 7 ==> exists k :: 0 <= k < |value| && value[k] !in few
  }

  lemma {:induction false} Smaller(a: set<char>, b: set<char>)
    requires a <= b
    ensures |a| <= |b|
  {
    if a != {} {
      var c :| c in a;
      Smaller(a - {c}, b - {c});
    }
  }

  lemma VariedMeans(value: string)
    ensures |set k | 0 <= k < |value| :: value[k]| >= 8 <==> Varied(value)
  {
    var all := set k | 0 <= k < |value| :: value[k];
    if |all| >= 8 {
      forall few: set<char> | |few| <= 7 ensures exists k :: 0 <= k < |value| && value[k] !in few {
        if forall k :: 0 <= k < |value| ==> value[k] in few {
          Smaller(all, few);
        }
      }
    } else {
      assert forall k :: 0 <= k < |value| ==> value[k] in all;
    }
  }

  lemma SafeCharMeans(c: char)
    ensures SafeChar(c) <==> !IsSpace(c) && 0x21 <= c as int <= 0x7E && c !in ENV_UNSAFE_CHARS
  {
  }

  /** A SECRET_KEY is accepted exactly when it has 32 to 512 safe characters, at least eight of
      them different, and no placeholder in it. */
  lemma SecretKeyOkMeans(value: string)
    ensures SecretKeyOk(value) <==>
            && 32 <= |value| <= 512 && (forall k :: 0 <= k < |value| ==> SafeChar(value[k]))
            && Varied(value) && !LooksLikePlaceholder(value)
  {
    hide HasMarker, LooksLikePlaceholder, Varied, SafeChar, IsSpace;
    PlaceholderMeans(value);
    VariedMeans(value);
    forall k | 0 <= k < |value|
      ensures SafeChar(value[k]) <==> !IsSpace(value[k]) && 0x21 <= value[k] as int <= 0x7E && value[k] !in ENV_UNSAFE_CHARS
    {
      SafeCharMeans(value[k]);
    }
  }

  /** A SECRET_KEY in the file looks real exactly when, without outer white space, it has at
      least 32 characters and no placeholder in it. */
  lemma SecretLooksReal(value: string, i: nat, j: nat, decode: string -> Option<nat>)
    requires Core(value, i, j)
    ensures LooksReal(SecretKey, value, decode) <==> j - i >= 32 && !LooksLikePlaceholder(value[i..j])
  {
    hide HasMarker, LooksLikePlaceholder, AllSpace, Strip;
    StripIsCore(value, i, j);
    PlaceholderMeans(value[i..j]);
  }

  predicate Base64Letter(c: char) {
    'A' <= c <= 'Z' || 'a' <= c <= 'z' || '0' <= c <= '9' || c == '+' || c == '/' || c == '-' || c == '_'
  }

  /** The text in the standard alphabet: `+` for `-` and `/` for `_`. */
  ghost predicate InStandard(value: string, standard: string) {
    |value| == |standard| && forall k :: 0 <= k < |value| ==> standard[k] == (if value[k] == '-' then '+' else if value[k] == '_' then '/' else value[k])
  }

  /** Letters of the alphabet, then at most two `=`. */
  ghost predicate Base64Form(value: string, letters: string, pad: string) {
    && value == letters + pad && letters != "" && (pad == "" || pad == "=" || pad == "==")
    && forall k :: 0 <= k < |letters| ==> Base64Letter(letters[k])
  }

  lemma Base64Means(value: string)
    ensures IsBase64Text(value) <==> exists letters: string, pad: string :: Base64Form(value, letters, pad)
  {
    if n :| |value| - 2 <= n <= |value| && Padded(value, n) {
      assert value == value[..n] + value[n..];
      assert value[n..] == "" || value[n..] == "=" || value[n..] == "==";
      assert Base64Form(value, value[..n], value[n..]);
    }
    if letters: string, pad: string :| Base64Form(value, letters, pad) {
      forall k | 0 <= k < |letters| ensures IsBase64Char(value[k]) {
        assert value[k] == letters[k];
      }
      assert Padded(value, |letters|);
    }
  }

  /** An ENCRYPTION_KEY is accepted, and looks real, exactly when it is at most 128 characters of
      base64 text in either alphabet, at most two `=` at the end, that decode to 32 bytes. */
  lemma EncryptionKeyOkMeans(value: string, standard: string, decode: string -> Option<nat>)
    requires InStandard(value, standard)
    ensures EncryptionKeyOk(value, decode) <==> |value| <= 128 && IsBase64Text(value) && decode(standard) == Some(32)
    ensures LooksReal(EncryptionKey, value, decode) <==> EncryptionKeyOk(value, decode)
  {
    assert Standard(value) == standard;
    if IsBase64Text(value) {
      var n :| |value| - 2 <= n <= |value| && Padded(value, n);
      forall k | 0 <= k < |value| ensures !IsSpace(value[k]) {
        assert k < n ==> IsBase64Char(value[k]);
      }
    }
  }
}
