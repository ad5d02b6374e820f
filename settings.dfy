/**
 * The configuration of scripts/settings.py: the locale-code normalisation
 * (`_format_lang`, `_get_google_lang`), the `%appdata%` substitution
 * (`_replace_appdata`) and the fields `__init__` derives from `config.json`.
 * The parsed JSON document and the `APPDATA` environment variable are inputs.
 */
module Settings {
  import opened Errors
  import opened PyStr

  /*************************************************************
   * Locale codes
   *************************************************************/

  /** `_format_lang`: `language, region = code.split('_')`, then `language.lower() + '_' + region.upper()`. */
  function FormatLang(code: string): Result<string>
  {
    var parts := Split(code, '_');
    if |parts| == 2 then Ok(Lower(parts[0]) + "_" + Upper(parts[1]))
    else Err(LangCodeUnpack(code, |parts|))
  }

  /** `_format_lang` raises exactly when the code does not hold exactly one `_`. */
  lemma FormatLangOkIff(code: string)
    ensures FormatLang(code).Ok? <==> Count(code, '_') == 1
    ensures FormatLang(code).Err? ==> FormatLang(code).error == LangCodeUnpack(code, Count(code, '_') + 1)
  {
  }

  /** A code `l_r` formats to its language part lowered and its region part uppered. */
  lemma FormatLangParts(l: string, r: string)
    requires '_' !in l && '_' !in r
    ensures FormatLang(l + "_" + r) == Ok(Lower(l) + "_" + Upper(r))
  {
    assert l + "_" + r == l + ['_'] + r;
    SplitPair(l, r, '_');
  }

  /** A code `_format_lang` accepts is `l_r` for the two parts of its split. */
  lemma FormatLangDecomposes(code: string)
    requires FormatLang(code).Ok?
    ensures var parts := Split(code, '_');
      |parts| == 2 && code == parts[0] + "_" + parts[1] && '_' !in parts[0] && '_' !in parts[1]
  {
    JoinSplit(code, '_');
    var parts := Split(code, '_');
    assert Join(parts, "_") == parts[0] + "_" + Join(parts[1..], "_");
    assert parts[1..] == [parts[1]];
  }

  /** Formatting a formatted code gives it back unchanged. */
  lemma FormatLangIdempotent(code: string)
    requires FormatLang(code).Ok?
    ensures FormatLang(FormatLang(code).value) == FormatLang(code)
  {
    FormatLangDecomposes(code);
    var parts := Split(code, '_');
    var l, r := Lower(parts[0]), Upper(parts[1]);
    CaseMapKeepsChar(parts[0], '_');
    CaseMapKeepsChar(parts[1], '_');
    FormatLangParts(l, r);
    LowerIdempotent(parts[0]);
    UpperIdempotent(parts[1]);
  }

  /** `_get_google_lang`: the first part of `code.split('_')`. */
  function GoogleLang(code: string): string
  {
    Split(code, '_')[0]
  }

  /** The Google code is the text before the first `_`, or the whole code when it has none. */
  lemma GoogleLangIsPrefix(code: string)
    ensures var g := GoogleLang(code);
      '_' !in g && (g == code || (|g| < |code| && code[..|g| + 1] == g + "_"))
  {
    SplitHead(code, '_');
    var g := GoogleLang(code);
    if |g| < |code| {
      assert code[..|g| + 1] == code[..|g|] + [code[|g|]];
    } else {
      assert code[..|g|] == code;
    }
  }

  /** On a formatted code, the Google code is the lowered language part. */
  lemma GoogleLangOfFormatted(code: string)
    requires FormatLang(code).Ok?
    ensures GoogleLang(FormatLang(code).value) == Lower(Split(code, '_')[0])
  {
    FormatLangDecomposes(code);
    var parts := Split(code, '_');
    CaseMapKeepsChar(parts[0], '_');
    CaseMapKeepsChar(parts[1], '_');
    var l, r := Lower(parts[0]), Upper(parts[1]);
    assert l + "_" + r == l + ['_'] + r;
    SplitPair(l, r, '_');
  }

  /*************************************************************
   * `%appdata%` substitution
   *************************************************************/

  const Placeholder: string := "%appdata%"

  /**
   * `%appdata%` matches, ignoring case, at the start of `s`. The letters of the pattern
   * have no case variants other than their ASCII ones, so lowering is exact here.
   */
  predicate PlaceholderAt(s: string)
  {
    |s| >= |Placeholder| && Lower(s[..|Placeholder|]) == Placeholder
  }

  /**
   * `re.sub` of the case-insensitive `%appdata%` with the literal `rep`: the leftmost
   * match is replaced, scanning resumes after it, and other characters are copied.
   */
  function SubPlaceholder(s: string, rep: string): string
  {
    if PlaceholderAt(s) then rep + SubPlaceholder(s[|Placeholder|..], rep)
    else if s == [] then []
    else [s[0]] + SubPlaceholder(s[1..], rep)
  }

  /**
   * How `re.sub` reads a replacement template: `\\` stands for one backslash. Every
   * other backslash sequence is outside this model and gives an error.
   */
  function ExpandTemplate(t: string): Result<string>
  {
    if t == [] then Ok([])
    else if t[0] == '\\' then
      if |t| >= 2 && t[1] == '\\' then
        match ExpandTemplate(t[2..])
        case Ok(rest) => Ok(['\\'] + rest)
        case Err(e) => Err(e)
      else Err(BadReplacementTemplate)
    else
      match ExpandTemplate(t[1..])
      case Ok(rest) => Ok([t[0]] + rest)
      case Err(e) => Err(e)
  }

  /** `_replace_appdata`: the `APPDATA` value, backslashes doubled, as the template of `re.sub`. */
  function ReplaceAppdata(path: string, appdata: Option<string>): Result<string>
  {
    match appdata
    case None => Err(AppdataUnset)
    case Some(a) =>
      match ExpandTemplate(Replace(a, "\\", "\\\\"))
      case Err(e) => Err(e)
      case Ok(rep) => Ok(SubPlaceholder(path, rep))
  }

  /** Doubling the backslashes cancels the template's escape processing. */
  lemma {:induction false} EscapeCancels(a: string)
    ensures ExpandTemplate(Replace(a, "\\", "\\\\")) == Ok(a)
  {
    if a != [] {
      EscapeCancels(a[1..]);
      if a[0] == '\\' {
        assert StartsWith(a, "\\");
        var t := Replace(a, "\\", "\\\\");
        assert t == "\\\\" + Replace(a[1..], "\\", "\\\\");
        assert t[2..] == Replace(a[1..], "\\", "\\\\");
        assert t[0] == '\\' && t[1] == '\\';
        assert a == ['\\'] + a[1..];
      } else {
        ReplaceHead(a[0], a[1..], "\\", "\\\\");
        assert [a[0]] + a[1..] == a;
      }
    }
  }

  /** With `APPDATA` set, each placeholder becomes the literal value of `APPDATA`. */
  lemma ReplaceAppdataLiteral(path: string, a: string)
    ensures ReplaceAppdata(path, Some(a)) == Ok(SubPlaceholder(path, a))
  {
    EscapeCancels(a);
  }

  /** A path without any placeholder, in any case, comes back unchanged. */
  lemma {:induction false} SubAbsent(s: string, rep: string)
    requires forall i :: 0 <= i <= |s| ==> !PlaceholderAt(s[i..])
    ensures SubPlaceholder(s, rep) == s
  {
    if s != [] {
      assert !PlaceholderAt(s[0..]) by { assert s[0..] == s; }
      forall i | 0 <= i <= |s[1..]|
        ensures !PlaceholderAt(s[1..][i..])
      {
        assert s[1..][i..] == s[i + 1..];
      }
      SubAbsent(s[1..], rep);
    }
  }

  /** A character other than `%` is copied. */
  lemma SubCopies(c: char, s: string, rep: string)
    requires c != '%'
    ensures SubPlaceholder([c] + s, rep) == [c] + SubPlaceholder(s, rep)
  {
    var t := [c] + s;
    if |t| >= |Placeholder| {
      assert Lower(t[..|Placeholder|])[0] == LowerChar(c);
    }
    assert t[1..] == s;
  }

  /** A placeholder in any case is replaced by the literal. */
  lemma SubReplaces(v: string, y: string, rep: string)
    requires Lower(v) == Placeholder
    ensures SubPlaceholder(v + y, rep) == rep + SubPlaceholder(y, rep)
  {
    LowerLength(v);
    var s := v + y;
    assert s[..|Placeholder|] == v && s[|Placeholder|..] == y;
  }

  /** A placeholder written in any case, after text without `%`, is replaced by the literal. */
  lemma {:induction false} SubFirst(x: string, v: string, y: string, rep: string)
    requires '%' !in x && Lower(v) == Placeholder
    ensures SubPlaceholder(x + v + y, rep) == x + rep + SubPlaceholder(y, rep)
  {
    if x == [] {
      assert x + v + y == v + y;
      SubReplaces(v, y, rep);
    } else {
      var t := x[1..] + v + y;
      ConsShift(x, v, y);
      SubCopies(x[0], t, rep);
      SubFirst(x[1..], v, y, rep);
      ConsShift(x, rep, SubPlaceholder(y, rep));
    }
  }

  lemma ConsShift(x: string, a: string, b: string)
    requires x != []
    ensures x + a + b == [x[0]] + (x[1..] + a + b)
  {
    assert x == [x[0]] + x[1..];
  }

  /*************************************************************
   * The settings object
   *************************************************************/

  /** A parsed JSON value, as `json.load` returns it; a file it cannot parse reads as `''`. */
  datatype Json =
    | JStr(s: string)
    | JNum(n: int)
    | JBool(b: bool)
    | JNull
    | JArr(items: seq<Json>)
    | JObj(fields: map<string, Json>)

  const OriginalLang: string := "original_language"
  const TargetLang: string := "target_language"
  const ModsPath: string := "mods_path"
  const TranslationPath: string := "translation_path"
  const ReplaceOriginalMods: string := "replace_original_mods"
  const TempPath: string := "temp"

  /** The fields `Settings.__init__` assigns. */
  datatype SettingsData = SettingsData(
    sourceMcLang: string,
    sourceGoogleLang: string,
    targetMcLang: string,
    targetGoogleLang: string,
    modsPath: string,
    tempPath: string,
    translationPath: string,
    replaceMods: Json)

  /** `config_data[key]`: only an object can be indexed by a string, and the key must be there. */
  function Lookup(config: Json, key: string): Result<Json>
  {
    match config
    case JObj(fields) => if key in fields then Ok(fields[key]) else Err(ConfigKeyMissing(key))
    case _ => Err(ConfigNotAnObject)
  }

  /** `_format_lang(config_data[key])`: the value must be a string to be split. */
  function LangField(config: Json, key: string): Result<string>
  {
    match Lookup(config, key)
    case Err(e) => Err(e)
    case Ok(JStr(code)) => FormatLang(code)
    case Ok(_) => Err(ConfigNotString(key))
  }

  /**
   * `_replace_appdata(config_data[key])`: the lookup comes first, then the `APPDATA`
   * variable is read, and only then does `re.sub` see the value.
   */
  function PathField(config: Json, key: string, appdata: Option<string>): Result<string>
  {
    match Lookup(config, key)
    case Err(e) => Err(e)
    case Ok(JStr(path)) => ReplaceAppdata(path, appdata)
    case Ok(_) => if appdata.None? then Err(AppdataUnset) else Err(ConfigNotString(key))
  }

  /** `Settings.__init__`, field by field in the order it assigns them. */
  function MakeSettings(config: Json, appdata: Option<string>): Result<SettingsData>
  {
    match LangField(config, OriginalLang)
    case Err(e) => Err(e)
    case Ok(source) =>
      match LangField(config, TargetLang)
      case Err(e) => Err(e)
      case Ok(target) =>
        match PathField(config, ModsPath, appdata)
        case Err(e) => Err(e)
        case Ok(mods) =>
          match PathField(config, TranslationPath, appdata)
          case Err(e) => Err(e)
          case Ok(translation) =>
            match Lookup(config, ReplaceOriginalMods)
            case Err(e) => Err(e)
            case Ok(flag) =>
              Ok(SettingsData(source, GoogleLang(source), target, GoogleLang(target),
                              mods, TempPath, translation, flag))
  }

  /**
   * What a successful construction holds: the codes formatted from the configured ones,
   * both paths with the literal `APPDATA` substituted, the flag as configured, and
   * `temp` as the temporary folder whatever the configuration says.
   */
  lemma MakeSettingsFields(config: Json, appdata: Option<string>)
    requires MakeSettings(config, appdata).Ok?
    ensures var st := MakeSettings(config, appdata).value;
      && config.JObj? && appdata.Some?
      && OriginalLang in config.fields && config.fields[OriginalLang].JStr?
      && FormatLang(config.fields[OriginalLang].s) == Ok(st.sourceMcLang)
      && TargetLang in config.fields && config.fields[TargetLang].JStr?
      && FormatLang(config.fields[TargetLang].s) == Ok(st.targetMcLang)
      && ModsPath in config.fields && config.fields[ModsPath].JStr?
      && st.modsPath == SubPlaceholder(config.fields[ModsPath].s, appdata.value)
      && TranslationPath in config.fields && config.fields[TranslationPath].JStr?
      && st.translationPath == SubPlaceholder(config.fields[TranslationPath].s, appdata.value)
      && ReplaceOriginalMods in config.fields
      && st.replaceMods == config.fields[ReplaceOriginalMods]
      && st.tempPath == "temp"
  {
    ReplaceAppdataLiteral(config.fields[ModsPath].s, appdata.value);
    ReplaceAppdataLiteral(config.fields[TranslationPath].s, appdata.value);
  }

  /** The stored codes are already normalised, and each Google code is its code's lowered language part. */
  lemma MakeSettingsCodes(config: Json, appdata: Option<string>)
    requires MakeSettings(config, appdata).Ok?
    ensures var st := MakeSettings(config, appdata).value;
      && FormatLang(st.sourceMcLang) == Ok(st.sourceMcLang)
      && FormatLang(st.targetMcLang) == Ok(st.targetMcLang)
      && st.sourceGoogleLang == Lower(Split(config.fields[OriginalLang].s, '_')[0])
      && st.targetGoogleLang == Lower(Split(config.fields[TargetLang].s, '_')[0])
  {
    MakeSettingsFields(config, appdata);
    var source := config.fields[OriginalLang].s;
    var target := config.fields[TargetLang].s;
    FormatLangIdempotent(source);
    FormatLangIdempotent(target);
    GoogleLangOfFormatted(source);
    GoogleLangOfFormatted(target);
  }

  /** A configuration that is not an object, such as the `''` of an unreadable file, fails at the first lookup. */
  lemma MakeSettingsNotAnObject(config: Json, appdata: Option<string>)
    requires !config.JObj?
    ensures MakeSettings(config, appdata) == Err(ConfigNotAnObject)
  {
  }

  /** Without `APPDATA` a configuration with two valid codes fails at the mods path. */
  lemma MakeSettingsNeedsAppdata(config: Json)
    requires LangField(config, OriginalLang).Ok? && LangField(config, TargetLang).Ok?
    requires ModsPath in config.fields
    ensures MakeSettings(config, None) == Err(AppdataUnset)
  {
  }
}
