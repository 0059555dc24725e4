/** What the installer accepts as keys, and how it reads a value (installer/bootstrap.py). */
module EnvKeys {
  import opened Options
  import opened Text
  import opened KeyLines

  const SECRET_KEY_MIN := 32
  const SECRET_KEY_MAX := 512

  /** The markers and characters a SECRET_KEY may not contain. */
  const PLACEHOLDER_MARKERS: seq<string> := ["replace_me", "changeme", "change-me", "your-secret"]
  const ENV_UNSAFE_CHARS: set<char> := {'"', '\'', '`', '\\', '$', '#'}

  predicate HasMarker(s: string) {
    exists k :: 0 <= k < |PLACEHOLDER_MARKERS| && Contains(Lower(s), PLACEHOLDER_MARKERS[k])
  }

  /** secret_key_problem(value) is None. */
  predicate SecretKeyOk(value: string) {
    && value != ""
    && (forall k :: 0 <= k < |value| ==> !IsSpace(value[k]))
    && SECRET_KEY_MIN <= |value| <= SECRET_KEY_MAX
    && (forall k :: 0 <= k < |value| ==> 0x21 <= value[k] as int <= 0x7E)
    && (forall k :: 0 <= k < |value| ==> value[k] !in ENV_UNSAFE_CHARS)
    && !HasMarker(value)
    && |set k | 0 <= k < |value| :: value[k]| >= 8
  }

  predicate IsBase64Char(c: char) {
    'A' <= c <= 'Z' || 'a' <= c <= 'z' || '0' <= c <= '9' || c == '+' || c == '/' || c == '_' || c == '-'
  }

  /** _B64_RE.fullmatch: at least one alphabet character, then at most two `=`. */
  predicate IsBase64Text(value: string) {
    exists n :: |value| - 2 <= n <= |value| && Padded(value, n)
  }

  predicate Padded(value: string, n: int) {
    && 0 < n <= |value|
    && (forall k :: 0 <= k < n ==> IsBase64Char(value[k]))
    && (forall k :: n <= k < |value| ==> value[k] == '=')
  }

  /** The standard alphabet of a URL-safe text. */
  function Standard(value: string): string {
    seq(|value|, i requires 0 <= i < |value| =>
      if value[i] == '-' then '+' else if value[i] == '_' then '/' else value[i])
  }

  /** encryption_key_problem(value) is None. `decode` is the strict base64 decoder's
      result length, absent where the decoder refuses the text. */
  predicate EncryptionKeyOk(value: string, decode: string -> Option<nat>) {
    && value != ""
    && (forall k :: 0 <= k < |value| ==> !IsSpace(value[k]))
    && |value| <= 128 && IsBase64Text(value)
    && decode(Standard(value)) == Some(32)
  }

  /** str.find(c, from), or |s| when absent. */
  function FindChar(s: string, c: char, from: nat): (k: nat)
    requires from <= |s|
    ensures from <= k <= |s|
    ensures k < |s| ==> s[k] == c
    decreases |s| - from
  {
    if from == |s| || s[from] == c then from else FindChar(s, c, from + 1)
  }

  /** The start of the first " #", or |s| when absent. */
  function FindComment(s: string, from: nat): (k: nat)
    requires from <= |s|
    ensures from <= k <= |s|
    ensures k < |s| ==> k + 1 < |s| && s[k] == ' ' && s[k + 1] == '#'
    decreases |s| - from
  {
    if from == |s| || (from + 1 < |s| && s[from] == ' ' && s[from + 1] == '#') then from else FindComment(s, from + 1)
  }

  /** _env_value: strip, unquote, or drop a trailing comment. */
  function EnvValue(raw: string): string {
    var value := Strip(raw);
    if value != "" && (value[0] == '\'' || value[0] == '"') then
      var end := FindChar(value, value[0], 1);
      value[1..end]
    else if FindComment(value, 0) < |value| then RStrip(value[..FindComment(value, 0)])
    else value
  }

  /** _looks_real. */
  predicate LooksReal(name: KeyName, value: string, decode: string -> Option<nat>) {
    match name
    case SecretKey => |Strip(value)| >= SECRET_KEY_MIN && !HasMarker(Strip(value))
    case EncryptionKey => EncryptionKeyOk(value, decode)
  }

  /** The two keys to write. */
  datatype Keys = Keys(secret: string, encryption: string)

  function ValueOf(keys: Keys, name: KeyName): string {
    match name
    case SecretKey => keys.secret
    case EncryptionKey => keys.encryption
  }

  predicate Accepted(keys: Keys, decode: string -> Option<nat>) {
    SecretKeyOk(keys.secret) && EncryptionKeyOk(keys.encryption, decode)
  }

  /** No blank, quote or `#` in it: the reader takes it as it stands. */
  predicate Plain(value: string) {
    forall k :: 0 <= k < |value| ==> !IsSpace(value[k]) && value[k] != '\'' && value[k] != '"' && value[k] != '#'
  }

  lemma StripPlain(value: string)
    requires forall k :: 0 <= k < |value| ==> !IsSpace(value[k])
    ensures Strip(value) == value
  {
  }

  lemma PlainIsRead(value: string)
    requires Plain(value)
    ensures EnvValue(value) == value
  {
    hide Strip;
    StripPlain(value);
    NoComment(value);
  }

  lemma NoComment(value: string)
    requires Plain(value)
    ensures FindComment(value, 0) == |value|
  {
    hide FindComment;
  }

  /** Accepted keys are plain and look real: the reader undoes the writer's checks. */
  lemma AcceptedIsRead(keys: Keys, name: KeyName, decode: string -> Option<nat>)
    requires Accepted(keys, decode)
    ensures Plain(ValueOf(keys, name))
    ensures EnvValue(ValueOf(keys, name)) == ValueOf(keys, name)
    ensures LooksReal(name, EnvValue(ValueOf(keys, name)), decode)
  {
    var value := ValueOf(keys, name);
    if name == EncryptionKey {
      EncryptionIsPlain(value, decode);
    } else {
      SecretIsPlain(value);
    }
    hide HasMarker, SecretKeyOk, EncryptionKeyOk, EnvValue;
    PlainIsRead(value);
    StripPlain(value);
  }

  lemma SecretIsPlain(value: string)
    requires SecretKeyOk(value)
    ensures Plain(value) && |value| >= SECRET_KEY_MIN && !HasMarker(value)
  {
    hide HasMarker;
  }

  lemma EncryptionIsPlain(value: string, decode: string -> Option<nat>)
    requires EncryptionKeyOk(value, decode)
    ensures Plain(value)
  {
    var n :| |value| - 2 <= n <= |value| && Padded(value, n);
    forall k | 0 <= k < |value| ensures value[k] != '\'' && value[k] != '"' && value[k] != '#' {
      assert k < n ==> IsBase64Char(value[k]);
    }
  }
}
