/**
 * scripts/file_manager.py: which archives of the mods folder are unpacked and removed,
 * which unpacked folders hold language files, how the source and target file of a folder
 * are named, when a folder gets a translated file, and the order in which
 * `edit_lang_files` works through the folders. The file system is the class `FileSystem`:
 * the regular files that exist, with their text.
 */
module FileManager {
  import opened Errors
  import opened PyStr
  import opened Dict
  import opened LangCodec
  import opened Settings
  import opened Translation

  const Jar: string := ".jar"
  const JsonSuffix: string := ".json"
  const LangSuffix: string := ".lang"

  /** The two kinds of language file a mod can carry. */
  datatype Extension = JsonFile | LangFile

  function Suffix(ext: Extension): string
  {
    match ext
    case JsonFile => JsonSuffix
    case LangFile => LangSuffix
  }

  /*************************************************************
   * The manager and its settings
   *************************************************************/

  /** The attributes `FileManager.__init__` takes over from the settings; none is changed afterwards. */
  datatype Manager = Manager(
    tempPath: string,
    translationPath: string,
    modsPath: string,
    sourceMcLang: string,
    targetMcLang: string,
    translator: Translator)

  /** `FileManager(settings)`: the translator is built with its default `capitalize`. */
  function NewManager(st: SettingsData): Manager
  {
    Manager(st.tempPath, st.translationPath, st.modsPath, st.sourceMcLang, st.targetMcLang,
            NewTranslator(st.sourceGoogleLang, st.targetGoogleLang))
  }

  /**
   * A manager built from a valid configuration unpacks into `temp`, works with the
   * normalised codes, and asks the provider in the lowered language parts of the
   * configured codes, capitalising every answer.
   */
  lemma ManagerOfConfig(config: Json, appdata: Option<string>)
    requires MakeSettings(config, appdata).Ok?
    ensures var m := NewManager(MakeSettings(config, appdata).value);
      && m.tempPath == "temp"
      && FormatLang(config.fields[OriginalLang].s) == Ok(m.sourceMcLang)
      && FormatLang(config.fields[TargetLang].s) == Ok(m.targetMcLang)
      && FormatLang(m.sourceMcLang) == Ok(m.sourceMcLang)
      && FormatLang(m.targetMcLang) == Ok(m.targetMcLang)
      && m.translator.sourceLanguage == Lower(Split(config.fields[OriginalLang].s, '_')[0])
      && m.translator.targetLanguage == Lower(Split(config.fields[TargetLang].s, '_')[0])
      && m.translator.capitalize
  {
    MakeSettingsFields(config, appdata);
    MakeSettingsCodes(config, appdata);
  }

  /*************************************************************
   * Paths
   *************************************************************/

  predicate IsSep(c: char)
  {
    c == '\\' || c == '/'
  }

  /** `a` is a bare drive such as `C:`: nothing follows the drive, so no separator is added after it. */
  predicate BareDrive(a: string)
  {
    |a| == 2 && a[1] == ':' && !IsSep(a[0])
  }

  /**
   * `os.path.join(a, b)` on Windows for a relative `b` without a drive: one backslash
   * between the two, none after an empty `a`, after a bare drive (`C:` and `x` give `C:x`)
   * or after an `a` that already ends in a separator.
   */
  function JoinPath(a: string, b: string): string
  {
    if a == [] || IsSep(a[|a| - 1]) || BareDrive(a) then a + b else a + "\\" + b
  }

  /** A joined path ends in `.jar` exactly when the last component does: the separator stops a shorter one from completing it. */
  lemma JoinEndsWith(a: string, b: string)
    ensures EndsWith(JoinPath(a, b), Jar) <==> EndsWith(b, Jar)
  {
    var p := JoinPath(a, b);
    if |b| >= |Jar| {
      assert p[|p| - |Jar|..] == b[|b| - |Jar|..];
    } else if BareDrive(a) && |p| >= |Jar| {
      var d := 1 - (|p| - |Jar|);
      assert p[|p| - |Jar|..][d] == p[1] == ':';
      assert Jar[d] != ':';
    } else if a != [] && |p| >= |Jar| {
      var k := |p| - |b| - 1;
      assert IsSep(p[k]);
      var d := k - (|p| - |Jar|);
      assert p[|p| - |Jar|..][d] == p[k];
      assert !IsSep(Jar[d]);
    }
  }

  /*************************************************************
   * `unpack_mods` and `remove_original_mod_files`
   *************************************************************/

  /** `name.endswith(JAR)`. */
  predicate IsJar(name: string)
  {
    EndsWith(name, Jar)
  }

  /** The elements of `s` satisfying `p`, in their order in `s`. */
  function Filter<T>(s: seq<T>, p: T -> bool): seq<T>
  {
    if s == [] then []
    else
      var n := |s| - 1;
      Filter(s[..n], p) + (if p(s[n]) then [s[n]] else [])
  }

  /** An element is kept exactly when it is in the sequence and satisfies the test. */
  lemma {:induction false} FilterMembers<T>(s: seq<T>, p: T -> bool, x: T)
    ensures x in Filter(s, p) <==> x in s && p(x)
  {
    if s != [] {
      var n := |s| - 1;
      FilterMembers(s[..n], p, x);
      assert s == s[..n] + [s[n]];
    }
  }

  /** What `unpack_mods` does for one archive: extract `mods_path\name` into `temp_path\name`. */
  datatype Extraction = Extraction(archive: string, destination: string)

  function ExtractionOf(m: Manager, name: string): Extraction
  {
    Extraction(JoinPath(m.modsPath, name), JoinPath(m.tempPath, name))
  }

  /**
   * `unpack_mods`, given the listing of the mods folder: one extraction per name ending
   * in `.jar`, in listing order; the extraction itself is left to the archive library.
   */
  method UnpackMods(m: Manager, names: seq<string>) returns (jobs: seq<Extraction>)
    ensures var jars := Filter(names, IsJar);
      |jobs| == |jars| && forall k :: 0 <= k < |jobs| ==> jobs[k] == ExtractionOf(m, jars[k])
  {
    jobs := [];
    for i := 0 to |names|
      invariant var jars := Filter(names[..i], IsJar);
        |jobs| == |jars| && forall k :: 0 <= k < |jobs| ==> jobs[k] == ExtractionOf(m, jars[k])
    {
      var name := names[i];
      if EndsWith(name, Jar) {
        jobs := jobs + [Extraction(JoinPath(m.modsPath, name), JoinPath(m.tempPath, name))];
      }
      assert names[..i + 1][..i] == names[..i];
    }
    assert names[..|names|] == names;
  }

  /** The regular files that exist, with their text; `os.path.exists` and `os.path.isfile` are membership. */
  class FileSystem {
    var files: map<string, string>

    constructor (files: map<string, string>)
      ensures this.files == files
    {
      this.files := files;
    }

    /** `open(path, 'w').write(text)`. */
    method Write(path: string, text: string)
      modifies this
      ensures files == old(files)[path := text]
    {
      files := files[path := text];
    }

    /** `os.remove(path)`, on a file that exists. */
    method Remove(path: string)
      requires path in files
      modifies this
      ensures files == old(files) - {path}
    {
      files := files - {path};
    }
  }

  /** The paths `remove_original_mod_files` selects: each name joined to the mods folder, when the joined path ends in `.jar`. */
  function JarPaths(mods: string, names: seq<string>): set<string>
  {
    if names == [] then {}
    else
      var n := |names| - 1;
      var p := JoinPath(mods, names[n]);
      JarPaths(mods, names[..n]) + (if EndsWith(p, Jar) then {p} else {})
  }

  /** Every path selected is the path of a listed name ending in `.jar`. */
  lemma {:induction false} JarPathsSound(mods: string, names: seq<string>, p: string)
    requires p in JarPaths(mods, names)
    ensures exists k :: 0 <= k < |names| && IsJar(names[k]) && p == JoinPath(mods, names[k])
  {
    var n := |names| - 1;
    var init := names[..n];
    if p in JarPaths(mods, init) {
      JarPathsSound(mods, init, p);
      var k :| 0 <= k < |init| && IsJar(init[k]) && p == JoinPath(mods, init[k]);
      assert names[k] == init[k];
    } else {
      JoinEndsWith(mods, names[n]);
      assert IsJar(names[n]) && p == JoinPath(mods, names[n]);
    }
  }

  /** The path of every listed name ending in `.jar` is selected. */
  lemma {:induction false} JarPathsComplete(mods: string, names: seq<string>, k: nat)
    requires k < |names| && IsJar(names[k])
    ensures JoinPath(mods, names[k]) in JarPaths(mods, names)
  {
    var n := |names| - 1;
    if k < n {
      assert names[..n][k] == names[k];
      JarPathsComplete(mods, names[..n], k);
    } else {
      JoinEndsWith(mods, names[n]);
    }
  }

  /**
   * `remove_original_mod_files`, given the listing of the mods folder: every regular
   * file whose path ends in `.jar` is deleted, and nothing else.
   */
  method RemoveOriginalModFiles(m: Manager, fs: FileSystem, names: seq<string>)
    modifies fs
    ensures fs.files == old(fs.files) - JarPaths(m.modsPath, names)
  {
    for i := 0 to |names|
      invariant fs.files == old(fs.files) - JarPaths(m.modsPath, names[..i])
    {
      var path := JoinPath(m.modsPath, names[i]);
      assert names[..i + 1][..i] == names[..i];
      if path in fs.files && EndsWith(path, Jar) {
        fs.Remove(path);
      }
    }
    assert names[..|names|] == names;
  }

  /*************************************************************
   * `get_lang_folders`
   *************************************************************/

  /** One triple of `os.walk`: a folder, its sub-folders and its file names. */
  datatype WalkEntry = WalkEntry(folder: string, subfolders: seq<string>, filenames: seq<string>)

  /** A string in a Boolean context: true unless empty. */
  predicate Truthy(s: string)
  {
    s != []
  }

  /**
   * The file-name test of `get_lang_folders` as it is written: `in` binds tighter than
   * `or`, so the left operand is the bare name of the JSON file, taken as a Boolean.
   */
  predicate FileTest(src: string, filenames: seq<string>)
  {
    Truthy(Lower(src) + JsonSuffix) || src + LangSuffix in filenames
  }

  /** The folder test: the path contains both `lang` and `assets`. */
  predicate LangPath(folder: string)
  {
    Contains(folder, "lang") && Contains(folder, "assets")
  }

  /** The folders `get_lang_folders` collects from a walk, in walk order. */
  function LangFolders(src: string, walk: seq<WalkEntry>): seq<string>
  {
    if walk == [] then []
    else
      var n := |walk| - 1;
      var e := walk[n];
      LangFolders(src, walk[..n]) + (if FileTest(src, e.filenames) && LangPath(e.folder) then [e.folder] else [])
  }

  function Folders(walk: seq<WalkEntry>): seq<string>
  {
    seq(|walk|, i requires 0 <= i < |walk| => walk[i].folder)
  }

  /**
   * The file-name test never rejects anything: the folders collected are the walked
   * folders whose path contains `lang` and `assets`, in walk order, whatever files they
   * hold and whatever the source code is.
   */
  lemma {:induction false} LangFoldersIgnoreFiles(src: string, walk: seq<WalkEntry>)
    ensures LangFolders(src, walk) == Filter(Folders(walk), LangPath)
  {
    if walk != [] {
      var n := |walk| - 1;
      LangFoldersIgnoreFiles(src, walk[..n]);
      assert Folders(walk)[..n] == Folders(walk[..n]);
      assert FileTest(src, walk[n].filenames) by {
        assert |Lower(src) + JsonSuffix| >= |JsonSuffix|;
      }
    }
  }

  /** `get_lang_folders`, given the walk of the temporary folder. */
  method GetLangFolders(m: Manager, walk: seq<WalkEntry>) returns (folders: seq<string>)
    ensures folders == LangFolders(m.sourceMcLang, walk)
  {
    folders := [];
    for i := 0 to |walk|
      invariant folders == LangFolders(m.sourceMcLang, walk[..i])
    {
      var e := walk[i];
      if Lower(m.sourceMcLang) + JsonSuffix != [] || m.sourceMcLang + LangSuffix in e.filenames {
        if Contains(e.folder, "lang") && Contains(e.folder, "assets") {
          folders := folders + [e.folder];
        }
      }
      assert walk[..i + 1][..i] == walk[..i];
    }
    assert walk[..|walk|] == walk;
  }

  /*************************************************************
   * `_translate_mod`
   *************************************************************/

  /** The language code in a file name: lowered for JSON files, as configured for `.lang` files. */
  function CodeFor(code: string, ext: Extension): string
  {
    match ext
    case JsonFile => Lower(code)
    case LangFile => code
  }

  function LangFileName(code: string, ext: Extension): string
  {
    CodeFor(code, ext) + Suffix(ext)
  }

  function SourcePath(m: Manager, folder: string, ext: Extension): string
  {
    JoinPath(folder, LangFileName(m.sourceMcLang, ext))
  }

  function TargetPath(m: Manager, folder: string, ext: Extension): string
  {
    JoinPath(folder, LangFileName(m.targetMcLang, ext))
  }

  /** `.json` written in lower case is its own lower case. */
  lemma LowerJsonSuffix()
    ensures Lower(JsonSuffix) == JsonSuffix
  {
    assert Lower("n") == "n";
    assert Lower("on") == "on";
    assert Lower("son") == "son";
    assert Lower("json") == "json";
  }

  /**
   * A JSON file name is in lower case, so two codes that differ only in case name the
   * same JSON file; a `.lang` file name carries the code as configured.
   */
  lemma FileNameCase(code: string, other: string)
    ensures Lower(LangFileName(code, JsonFile)) == LangFileName(code, JsonFile)
    ensures Lower(code) == Lower(other) ==> LangFileName(code, JsonFile) == LangFileName(other, JsonFile)
    ensures LangFileName(code, LangFile) == code + LangSuffix
  {
    LowerAppend(Lower(code), JsonSuffix);
    LowerIdempotent(code);
    LowerJsonSuffix();
  }

  /** A language file lies inside its folder and ends in its extension. */
  lemma FilePathShape(folder: string, code: string, ext: Extension)
    ensures StartsWith(JoinPath(folder, LangFileName(code, ext)), folder)
    ensures EndsWith(JoinPath(folder, LangFileName(code, ext)), Suffix(ext))
  {
    var c, x := CodeFor(code, ext), Suffix(ext);
    var head := if folder == [] || IsSep(folder[|folder| - 1]) || BareDrive(folder) then folder else folder + "\\";
    var p := JoinPath(folder, c + x);
    assert p == head + c + x;
    assert p[..|folder|] == folder;
    assert p[|p| - |x|..] == x;
  }

  /** A JSON file and a `.lang` file are never the same path: their extensions differ. */
  lemma JsonIsNotLang(folder: string, folder': string, code: string, code': string)
    ensures JoinPath(folder, LangFileName(code, JsonFile)) != JoinPath(folder', LangFileName(code', LangFile))
  {
    FilePathShape(folder, code, JsonFile);
    FilePathShape(folder', code', LangFile);
    assert JsonSuffix[1] != LangSuffix[1];
  }

  /** The JSON library, which the model does not open: the key/value pairs of a text holding an object of strings, if it holds one, and the text `json.dump` writes for a dict. */
  datatype JsonCodec = JsonCodec(load: string -> Option<Entries>, dump: Entries -> string)

  /**
   * `_read_json_file` or `_read_lang_file` on the text of the source file. JSON objects
   * become dicts the way `json.load` builds them; anything else, including the `''`
   * returned for an unparsable file, makes `translate_data` raise.
   */
  function ReadSource(codec: JsonCodec, ext: Extension, text: string): Result<Entries>
  {
    match ext
    case JsonFile =>
      (match codec.load(text)
       case None => Err(NotAMapping)
       case Some(pairs) => Ok(FromPairs(pairs)))
    case LangFile => Decode(text)
  }

  /** `_write_json_file` or `_write_lang_file`: the text of the target file. */
  function WriteTarget(codec: JsonCodec, ext: Extension, data: Entries): string
  {
    match ext
    case JsonFile => codec.dump(data)
    case LangFile => Encode(data)
  }

  /** A folder is translated only when its target file is missing and its source file exists. */
  predicate ShouldTranslate(files: map<string, string>, source: string, target: string)
  {
    target !in files && source in files
  }

  /** The state after a step: the files, the requests the provider received, and the exception raised, if any. */
  datatype Step = Step(files: map<string, string>, asked: seq<Request>, error: Option<Error>)

  /** `_translate_mod(lang_folder, mod_name, extension)`. */
  function TranslateModSpec(m: Manager, answer: Request -> Reply, codec: JsonCodec,
                            files: map<string, string>, folder: string, ext: Extension): Step
  {
    var source, target := SourcePath(m, folder, ext), TargetPath(m, folder, ext);
    if !ShouldTranslate(files, source, target) then Step(files, [], None)
    else
      match ReadSource(codec, ext, files[source])
      case Err(e) => Step(files, [], Some(e))
      case Ok(data) =>
        var o := TranslateAll(m.translator, answer, data);
        if o.error.Some? then Step(files, o.asked, o.error)
        else Step(files[target := WriteTarget(codec, ext, o.items)], o.asked, None)
  }

  /** Every file of `files` is still in `after`, with the same text. */
  predicate Extends(files: map<string, string>, after: map<string, string>)
  {
    forall p :: p in files ==> p in after && after[p] == files[p]
  }

  /**
   * `_translate_mod` never overwrites a file, creates at most the target, and only when
   * the target was missing, the source existed and every value was translated; when it
   * does not translate, it changes nothing and makes no provider call.
   */
  lemma TranslateModFrame(m: Manager, answer: Request -> Reply, codec: JsonCodec,
                          files: map<string, string>, folder: string, ext: Extension)
    ensures var r := TranslateModSpec(m, answer, codec, files, folder, ext);
      var source, target := SourcePath(m, folder, ext), TargetPath(m, folder, ext);
      && Extends(files, r.files)
      && (forall p :: p in r.files ==> p in files || p == target)
      && (target in r.files && target !in files ==> source in files && r.error.None?)
      && (!ShouldTranslate(files, source, target) ==> r == Step(files, [], None))
  {
  }

  /** With the same source and target code there is never anything to translate. */
  lemma SameCodeSkips(m: Manager, answer: Request -> Reply, codec: JsonCodec,
                      files: map<string, string>, folder: string, ext: Extension)
    requires m.sourceMcLang == m.targetMcLang
    ensures TranslateModSpec(m, answer, codec, files, folder, ext) == Step(files, [], None)
  {
  }

  /**
   * A translation that goes through asks the provider once per source entry, in order,
   * and writes the target with the source's keys, in order, each with the translation of
   * its source value.
   */
  lemma TranslateModSuccess(m: Manager, answer: Request -> Reply, codec: JsonCodec,
                            files: map<string, string>, folder: string, ext: Extension, data: Entries)
    requires ShouldTranslate(files, SourcePath(m, folder, ext), TargetPath(m, folder, ext))
    requires ReadSource(codec, ext, files[SourcePath(m, folder, ext)]) == Ok(data)
    requires forall i :: 0 <= i < |data| ==> answer(RequestFor(m.translator, data[i].value)).Translated?
    ensures var o := TranslateAll(m.translator, answer, data);
      && TranslateModSpec(m, answer, codec, files, folder, ext)
         == Step(files[TargetPath(m, folder, ext) := WriteTarget(codec, ext, o.items)], Requests(m.translator, data), None)
      && Keys(o.items) == Keys(data)
      && forall i :: 0 <= i < |data| ==> o.items[i].value == TranslateSpec(m.translator, answer, data[i].value).value
  {
    TranslateAllSuccess(m.translator, answer, data);
    TranslateAllKeys(m.translator, answer, data);
  }

  /** A translated `.lang` target reads back as the translated dict when its entries can be stored. */
  lemma LangTargetReadsBack(m: Manager, answer: Request -> Reply, codec: JsonCodec,
                            files: map<string, string>, folder: string)
    requires var r := TranslateModSpec(m, answer, codec, files, folder, LangFile);
      r.error.None? && TargetPath(m, folder, LangFile) !in files && TargetPath(m, folder, LangFile) in r.files
    requires var d := Decode(files[SourcePath(m, folder, LangFile)]);
      d.Ok? && Storable(TranslateAll(m.translator, answer, d.value).items)
    ensures var d := Decode(files[SourcePath(m, folder, LangFile)]).value;
      var r := TranslateModSpec(m, answer, codec, files, folder, LangFile);
      Decode(r.files[TargetPath(m, folder, LangFile)]) == Ok(TranslateAll(m.translator, answer, d).items)
  {
    var d := Decode(files[SourcePath(m, folder, LangFile)]).value;
    RoundTrip(TranslateAll(m.translator, answer, d).items);
  }

  /** `Ok(())` when no exception was raised. */
  function Status(error: Option<Error>): Result<()>
  {
    match error
    case None => Ok(())
    case Some(e) => Err(e)
  }

  /** The dict read from the source file, as `_translate_mod` builds it. */
  method ReadSourceFile(codec: JsonCodec, ext: Extension, text: string) returns (r: Result<PyDict>)
    ensures r.Ok? <==> ReadSource(codec, ext, text).Ok?
    ensures r.Ok? ==> fresh(r.value) && r.value.Valid() && r.value.items == ReadSource(codec, ext, text).value
    ensures r.Err? ==> r.error == ReadSource(codec, ext, text).error
  {
    var data: Entries;
    if ext == JsonFile {
      match codec.load(text)
      case None =>
        return Err(NotAMapping);
      case Some(pairs) =>
        FromPairsUnique(pairs);
        data := FromPairs(pairs);
    } else {
      var d := ReadLangFile(text);
      if d.Err? {
        return Err(d.error);
      }
      DecodeLastWriteWins(text, d.value, []);
      data := d.value;
    }
    var dict := new PyDict(data);
    r := Ok(dict);
  }

  /** `_translate_mod`: the file system and the provider log end as the specification says. */
  method TranslateMod(m: Manager, svc: Service, fs: FileSystem, codec: JsonCodec, folder: string, ext: Extension)
    returns (r: Result<()>)
    modifies svc, fs
    ensures var s := TranslateModSpec(m, svc.answer, codec, old(fs.files), folder, ext);
      && fs.files == s.files
      && svc.calls == old(svc.calls) + s.asked
      && r == Status(s.error)
  {
    var source := JoinPath(folder, CodeFor(m.sourceMcLang, ext) + Suffix(ext));
    var target := JoinPath(folder, CodeFor(m.targetMcLang, ext) + Suffix(ext));
    if target !in fs.files && source in fs.files {
      var read := ReadSourceFile(codec, ext, fs.files[source]);
      if read.Err? {
        return Err(read.error);
      }
      var data := read.value;
      var translated := TranslateData(m.translator, svc, data);
      if translated.Err? {
        return Err(translated.error);
      }
      var text := if ext == JsonFile then codec.dump(data.items) else Encode(data.items);
      fs.Write(target, text);
    }
    r := Ok(());
  }

  /*************************************************************
   * `edit_lang_files`
   *************************************************************/

  /** `lang_folder.split('\\')[1].replace(JAR, '')`: the name only appears in log messages, but a path without a backslash raises. */
  function ModName(folder: string): Result<string>
  {
    var parts := Split(folder, '\\');
    if |parts| < 2 then Err(ModNameIndex(folder)) else Ok(Replace(parts[1], Jar, ""))
  }

  /** The mod name can be taken exactly when the path holds a backslash. */
  lemma ModNameOkIff(folder: string)
    ensures ModName(folder).Ok? <==> '\\' in folder
  {
    CountZero(folder, '\\');
  }

  lemma JarNoSelfOverlap()
    ensures NoSelfOverlap(Jar)
  {
    assert Jar[1..] != Jar[..3] && Jar[2..] != Jar[..2] && Jar[3..] != Jar[..1] by {
      assert Jar[1..][0] != Jar[..3][0];
      assert Jar[2..][0] != Jar[..2][0];
      assert Jar[3..][0] != Jar[..1][0];
    }
  }

  /**
   * For a folder inside an unpacked archive `temp\<name>.jar`, the mod name is `<name>`,
   * provided the name itself holds no backslash and no `.jar`.
   */
  lemma ModNameOfUnpacked(name: string, rest: string)
    requires '\\' !in name && !Contains(name, Jar)
    ensures ModName(JoinPath(TempPath, name + Jar) + "\\" + rest) == Ok(name)
  {
    var archive := name + Jar;
    var folder := JoinPath(TempPath, archive) + "\\" + rest;
    assert '\\' !in TempPath;
    assert '\\' !in archive;
    assert folder == TempPath + ['\\'] + (archive + ['\\'] + rest);
    SplitCons(TempPath, archive + ['\\'] + rest, '\\');
    SplitCons(archive, rest, '\\');
    assert Split(folder, '\\')[1] == archive;
    JarNoSelfOverlap();
    ReplaceAtEnd(name, Jar, "");
    ReplaceAbsent(name, Jar, "");
    assert Replace(archive, Jar, "") == name + "";
    assert name + "" == name;
  }

  /** One folder of `edit_lang_files`: the mod name, then the JSON file, then the `.lang` file, stopping at the first exception. */
  function EditFolder(m: Manager, answer: Request -> Reply, codec: JsonCodec,
                      files: map<string, string>, folder: string): Step
  {
    match ModName(folder)
    case Err(e) => Step(files, [], Some(e))
    case Ok(_) =>
      var a := TranslateModSpec(m, answer, codec, files, folder, JsonFile);
      if a.error.Some? then a
      else
        var b := TranslateModSpec(m, answer, codec, a.files, folder, LangFile);
        Step(b.files, a.asked + b.asked, b.error)
  }

  /** `edit_lang_files` from folder `i` on. */
  function EditFrom(m: Manager, answer: Request -> Reply, codec: JsonCodec,
                    files: map<string, string>, folders: seq<string>, i: nat): Step
    decreases |folders| - i
  {
    if i >= |folders| then Step(files, [], None)
    else
      var s := EditFolder(m, answer, codec, files, folders[i]);
      if s.error.Some? then s
      else
        var rest := EditFrom(m, answer, codec, s.files, folders, i + 1);
        Step(rest.files, s.asked + rest.asked, rest.error)
  }

  /** A target path of one of the folders. */
  predicate IsTarget(m: Manager, folders: seq<string>, p: string)
  {
    exists k, ext :: 0 <= k < |folders| && p == TargetPath(m, folders[k], ext)
  }

  /** One folder never overwrites a file and creates only that folder's targets. */
  lemma EditFolderFrame(m: Manager, answer: Request -> Reply, codec: JsonCodec,
                        files: map<string, string>, folder: string)
    ensures var r := EditFolder(m, answer, codec, files, folder);
      && Extends(files, r.files)
      && forall p :: p in r.files && p !in files ==> p == TargetPath(m, folder, JsonFile) || p == TargetPath(m, folder, LangFile)
  {
    if ModName(folder).Ok? {
      TranslateModFrame(m, answer, codec, files, folder, JsonFile);
      var a := TranslateModSpec(m, answer, codec, files, folder, JsonFile);
      TranslateModFrame(m, answer, codec, a.files, folder, LangFile);
    }
  }

  /**
   * `edit_lang_files` never overwrites a file that exists, in particular no translation
   * already present; every file it creates is a target file of one of the folders.
   */
  lemma {:induction false} EditFrame(m: Manager, answer: Request -> Reply, codec: JsonCodec,
                                     files: map<string, string>, folders: seq<string>, i: nat)
    ensures var r := EditFrom(m, answer, codec, files, folders, i);
      && Extends(files, r.files)
      && forall p :: p in r.files && p !in files ==> IsTarget(m, folders, p)
    decreases |folders| - i
  {
    if i < |folders| {
      var s := EditFolder(m, answer, codec, files, folders[i]);
      EditFolderFrame(m, answer, codec, files, folders[i]);
      if s.error.None? {
        EditFrame(m, answer, codec, s.files, folders, i + 1);
      }
      var r := EditFrom(m, answer, codec, files, folders, i);
      forall p | p in r.files && p !in files
        ensures IsTarget(m, folders, p)
      {
        if p !in s.files {
          assert IsTarget(m, folders, p);
        } else {
          assert p == TargetPath(m, folders[i], JsonFile) || p == TargetPath(m, folders[i], LangFile);
        }
      }
    }
  }

  /** Folders whose target files all exist already are passed over without any provider call. */
  lemma {:induction false} EditAllPresent(m: Manager, answer: Request -> Reply, codec: JsonCodec,
                                          files: map<string, string>, folders: seq<string>, i: nat)
    requires forall k :: i <= k < |folders| ==> '\\' in folders[k]
    requires forall k, ext :: i <= k < |folders| ==> TargetPath(m, folders[k], ext) in files
    ensures EditFrom(m, answer, codec, files, folders, i) == Step(files, [], None)
    decreases |folders| - i
  {
    if i < |folders| {
      ModNameOkIff(folders[i]);
      assert TargetPath(m, folders[i], JsonFile) in files && TargetPath(m, folders[i], LangFile) in files;
      EditAllPresent(m, answer, codec, files, folders, i + 1);
    }
  }

  /** One turn of the loop of `edit_lang_files`. */
  method EditOneFolder(m: Manager, svc: Service, fs: FileSystem, codec: JsonCodec, folder: string)
    returns (r: Result<()>)
    modifies svc, fs
    ensures var s := EditFolder(m, svc.answer, codec, old(fs.files), folder);
      && fs.files == s.files
      && svc.calls == old(svc.calls) + s.asked
      && r == Status(s.error)
  {
    var name := ModName(folder);
    if name.Err? {
      r := Err(name.error);
    } else {
      JsonIsNotLang(folder, folder, m.targetMcLang, m.sourceMcLang);
      JsonIsNotLang(folder, folder, m.targetMcLang, m.targetMcLang);
      ghost var calls0 := svc.calls;
      ghost var a := TranslateModSpec(m, svc.answer, codec, fs.files, folder, JsonFile);
      r := TranslateMod(m, svc, fs, codec, folder, JsonFile);
      if r.Ok? {
        ghost var b := TranslateModSpec(m, svc.answer, codec, fs.files, folder, LangFile);
        r := TranslateMod(m, svc, fs, codec, folder, LangFile);
        AppendAssoc(calls0, a.asked, b.asked);
      }
    }
  }

  /** `edit_lang_files(lang_folders)`: the folders in order, stopping at the first exception. */
  method EditLangFiles(m: Manager, svc: Service, fs: FileSystem, codec: JsonCodec, folders: seq<string>)
    returns (r: Result<()>)
    modifies svc, fs
    ensures var s := EditFrom(m, svc.answer, codec, old(fs.files), folders, 0);
      && fs.files == s.files
      && svc.calls == old(svc.calls) + s.asked
      && r == Status(s.error)
  {
    var answer := svc.answer;
    ghost var o := EditFrom(m, answer, codec, fs.files, folders, 0);
    var i := 0;
    while i < |folders|
      invariant i <= |folders| && svc.answer == answer
      invariant var rest := EditFrom(m, answer, codec, fs.files, folders, i);
        rest.files == o.files && rest.error == o.error && old(svc.calls) + o.asked == svc.calls + rest.asked
      decreases |folders| - i
    {
      ghost var before := svc.calls;
      ghost var s := EditFolder(m, answer, codec, fs.files, folders[i]);
      var x := EditOneFolder(m, svc, fs, codec, folders[i]);
      if x.Err? {
        return x;
      }
      ghost var rest := EditFrom(m, answer, codec, fs.files, folders, i + 1);
      AppendAssoc(before, s.asked, rest.asked);
      i := i + 1;
    }
    r := Ok(());
  }
}
