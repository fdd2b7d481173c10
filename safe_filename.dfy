/** The filename sanitiser `safe_filename(name, ext, hash_hint)`: the title
    scraped from a detail page becomes the base of the saved file's name. */
module SafeName {
  import opened Text

  /** Characters of the title kept before the extension is appended. */
  const MAX_BASE_LEN: nat := 120

  /** The nine characters of the character class in `safe_filename`:
      backslash, slash, star, question mark, colon, double quote, the two
      angle brackets and the vertical bar. */
  predicate IsUnsafe(c: char) {
    c == '\\' || c == '/' || c == '*' || c == '?' || c == ':'
    || c == '"' || c == '<' || c == '>' || c == '|'
  }

  /** No filesystem-unsafe character and no ASCII space anywhere in `s`. */
  predicate IsClean(s: string) {
    forall i :: 0 <= i < |s| ==> !IsUnsafe(s[i]) && s[i] != ' '
  }

  /** The `re.sub` step: every unsafe character becomes an underscore. */
  function ReplaceUnsafe(s: string): (r: string)
    ensures |r| == |s|
  {
    seq(|s|, i requires 0 <= i < |s| => if IsUnsafe(s[i]) then '_' else s[i])
  }

  /** `re.sub(...).strip().replace(" ", "_")`: the sanitised title `safe`. */
  function Sanitize(name: string): string {
    ReplaceChar(Strip(ReplaceUnsafe(name)), ' ', '_')
  }

  /** `safe += "_" + hash_hint` when the hint is non-empty. */
  function WithHint(safe: string, hint: string): string {
    if hint != "" then safe + "_" + hint else safe
  }

  /** Python's slice `s[:n]`. */
  function Take(s: string, n: nat): (r: string)
    ensures |r| == if |s| <= n then |s| else n
    ensures r == s[..|r|]
  {
    if |s| <= n then s else s[..n]
  }

  /** `safe_filename(name, ext, hash_hint)`.  */
  function SafeFilename(name: string, ext: string, hint: string): string {
    Lower(Take(WithHint(Sanitize(name), hint), MAX_BASE_LEN) + ext)
  }

  /** The sanitised title has no unsafe character and no space, and stripping
      left no whitespace at either end. */
  lemma SanitizeClean(name: string)
    ensures IsClean(Sanitize(name))
    ensures var t := Sanitize(name);
      t == [] || (!IsSpace(t[0]) && !IsSpace(t[|t| - 1]))
  {
    var u := ReplaceUnsafe(name);
    var lead := TrimStart(u);
    var st := TrimEnd(lead);
    forall i | 0 <= i < |st| ensures !IsUnsafe(st[i]) {
      assert st[i] == lead[i] == u[|u| - |lead| + i];
    }
    assert st != [] ==> st[0] == lead[0];
    var t := ReplaceChar(st, ' ', '_');
    assert st != [] ==> t[0] == st[0] && t[|t| - 1] == st[|st| - 1];
  }

  /** Lowering neither creates nor removes unsafe characters or spaces. */
  lemma LowerKeepsClean(s: string)
    requires IsClean(s)
    ensures IsClean(Lower(s))
  {
  }

  /** The result contains none of `\ / * ? : " < > |` and no space, as long as
      the extension and the hint bring none in themselves. */
  lemma SafeFilenameClean(name: string, ext: string, hint: string)
    requires IsClean(ext) && IsClean(hint)
    ensures IsClean(SafeFilename(name, ext, hint))
  {
    SanitizeClean(name);
    var w := WithHint(Sanitize(name), hint);
    assert IsClean(w);
    var body := Take(w, MAX_BASE_LEN) + ext;
    assert IsClean(body);
    LowerKeepsClean(body);
  }

  /** Shape of the result: at most 120 characters from the sanitised title and
      hint, lower-cased, followed by the lower-cased extension; hence the
      length bound `120 + |ext|` and the final lower case. */
  lemma SafeFilenameShape(name: string, ext: string, hint: string)
    ensures var r, w := SafeFilename(name, ext, hint), WithHint(Sanitize(name), hint);
      && |r| <= MAX_BASE_LEN + |ext|
      && |r| == (if |w| <= MAX_BASE_LEN then |w| else MAX_BASE_LEN) + |ext|
      && EndsWith(r, Lower(ext))
      && r[..|r| - |ext|] == Lower(Take(w, MAX_BASE_LEN))
      && HasNoUpper(r)
  {
    var w := WithHint(Sanitize(name), hint);
    var r := SafeFilename(name, ext, hint);
    LowerConcat(Take(w, MAX_BASE_LEN), ext);
    LowerHasNoUpper(Take(w, MAX_BASE_LEN) + ext);
  }

  /** A title whose sanitised form already fills the 120 characters leaves no
      room for the hint: the hint is truncated away entirely. */
  lemma HintTruncatedAway(name: string, ext: string, hint: string)
    requires |Sanitize(name)| >= MAX_BASE_LEN
    ensures SafeFilename(name, ext, hint) == SafeFilename(name, ext, "")
  {
    var t := Sanitize(name);
    assert Take(WithHint(t, hint), MAX_BASE_LEN) == t[..MAX_BASE_LEN];
  }

  /** With a short title the whole hint survives, after an underscore. */
  lemma HintKeptWhenShort(name: string, ext: string, hint: string)
    requires hint != "" && |Sanitize(name)| + 1 + |hint| <= MAX_BASE_LEN
    ensures SafeFilename(name, ext, hint) == Lower(Sanitize(name) + "_" + hint + ext)
  {
  }

  /** A worked title: no unsafe character, no padding, three spaces. */
  const SIREN_TITLE: string := "Fire Alarm Loud Siren!!! (HD)"

  lemma SirenNoUnsafe()
    ensures ReplaceUnsafe(SIREN_TITLE) == SIREN_TITLE
  {
    forall i | 0 <= i < |SIREN_TITLE| ensures !IsUnsafe(SIREN_TITLE[i]) {
    }
  }

  lemma SirenStripped()
    ensures Strip(SIREN_TITLE) == SIREN_TITLE
  {
    var t := SIREN_TITLE;
    assert t[0] == 'F' && t[|t| - 1] == ')';
    StripUnpadded(t);
  }

  /** Text that neither starts nor ends with whitespace strips to itself. */
  lemma StripUnpadded(t: string)
    requires t != [] && !IsSpace(t[0]) && !IsSpace(t[|t| - 1])
    ensures Strip(t) == t
  {
  }

  lemma SirenSpaces()
    ensures ReplaceChar(SIREN_TITLE, ' ', '_') == "Fire_Alarm_Loud_Siren!!!_(HD)"
  {
  }

  lemma SirenLower()
    ensures Lower("Fire_Alarm_Loud_Siren!!!_(HD)" + ".mp3") == "fire_alarm_loud_siren!!!_(hd).mp3"
  {
  }

  /** `Fire Alarm Loud Siren!!! (HD)` with extension `.mp3` and no hint. */
  lemma SirenTitleExample()
    ensures SafeFilename(SIREN_TITLE, ".mp3", "") == "fire_alarm_loud_siren!!!_(hd).mp3"
  {
    SirenNoUnsafe();
    SirenStripped();
    SirenSpaces();
    SirenLower();
  }
}
