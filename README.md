# Minecraft mod translation tool: a Dafny model of its core

The tool translates the language files bundled inside Minecraft mods. It unpacks
every `.jar` in the mods folder into `temp`, finds the unpacked folders whose path
contains both `lang` and `assets`, and makes a target-language file for each of them.
A folder gets a translated file, for each of the two formats (`.json` and `.lang`), only
when there is no target file yet and there is a source file. Each value goes through
a translation provider and is capitalised. The tool can also delete the original
archives. A separate script, `mod_translator.py`, translates one `en_us.json` line by
line into Spanish.

The project models, one module per concern:

- `PyStr` (`pystr.dfy`): the Python `str` operations the code uses, with Python's
  semantics. These are `strip`, `split` on one character, `replace`
  (leftmost, non-overlapping), `lower`/`upper`, `startswith`/`endswith`, `in`, and
  reading a text file line by line.
- `Dict` (`dict.dfy`): Python's insertion-ordered `dict` as a sequence of entries with
  unique keys. Assigning to a key is `Put`. `PyDict` is the class whose `items` are
  overwritten in place.
- `LangCodec` (`lang_codec.dfy`): the `.lang` reader `_read_lang_file` and writer
  `_write_lang_file`. Each has a loop proved equal to a specification function. The
  lemmas cover:
  - when a read fails;
  - how repeated keys are resolved;
  - that blank lines are skipped;
  - what the writer emits;
  - the round trip.
- `Settings` (`settings.dfy`): `_format_lang`, `_get_google_lang`, `_replace_appdata`
  and the fields `Settings.__init__` derives from the parsed `config.json`.
- `Translation` (`translator.py` as `translator.dfy`): `Translator.translate` and
  `Translator.translate_data`, which overwrites the values of the dict it is given.
  The provider is the class `Service`. It holds a fixed but unknown answer per
  request and a log of the requests made.
- `FileManager` (`file_manager.dfy`): the rest of the core:
  - the `.jar` filters of `unpack_mods` and `remove_original_mod_files`;
  - `get_lang_folders`;
  - file naming and the translate-or-skip decision of `_translate_mod`;
  - the mod name and folder order of `edit_lang_files`.

  The file system is the class `FileSystem`, a map from the paths of regular files to
  their text.
- `ModTranslator` (`mod_translator.dfy`): `normalInput`, the driver loop of
  `mod_translator.py` and its trailing-comma fix-up.
- `Errors` (`errors.dfy`): `Option`, `Result`, and one error per exception the model
  covers.

Every exception the core raises on the data it handles is an error value, and every
loop stops at the first one, as the source does. Text encoding and decoding errors are
not modelled (see "## Left out").

Two behaviours of the code are worth stating plainly:

- `Translator.translate` calls `str.capitalize`, which also lowers every later
  character. Only `mod_translator.py` uppers the first character and keeps the rest.
- The left operand of `or` at `scripts/file_manager.py:112` is a non-empty string, so
  every walked folder whose path contains `lang` and `assets` is collected, whatever
  files it holds.

## Model

| member | source | states |
|---|---|---|
| PyStr.Strip | scripts/file_manager.py:179 | defines `str.strip()`: leading and trailing characters of CPython's white-space set removed |
| PyStr.Replace | scripts/file_manager.py:123 | defines `str.replace` (also used at scripts/settings.py:99 and mod_translator.py:5 and :56): occurrences found scanning from the left, without overlaps, each replaced |
| PyStr.Lower | scripts/file_manager.py:132 | defines `str.lower()` (also scripts/settings.py:108) character by character, on the letters named under Left out |
| PyStr.Upper | scripts/settings.py:108 | defines `str.upper()` character by character, on the letters named under Left out |
| PyStr.Lines | scripts/file_manager.py:177 | defines `readlines()` (and iteration over the file at mod_translator.py:41) on text after universal-newline translation: each line keeps its `\n`, a last unterminated line is kept |
| PyStr.Split | scripts/file_manager.py:181 | `split` on one character gives one more part than there are separators, and no part contains the separator |
| PyStr.StripEmptyIff | scripts/file_manager.py:179-180 | a line strips to nothing exactly when every character is white space |
| PyStr.TrimStartSuffix | scripts/file_manager.py:179 | what `lstrip` keeps is a suffix of the line |
| PyStr.TrimEndPrefix | scripts/file_manager.py:179 | what `rstrip` keeps is a prefix of the line |
| Dict.Put | scripts/file_manager.py:182 | after `d[k] = v`, `k` maps to `v` and every other key keeps its value; a present key keeps its position, a new key goes last; keys stay unique |
| Dict.PutExisting | scripts/translator.py:36 | assigning to a present key replaces that entry's value in place and changes nothing else |
| Dict.FromPairsGet | scripts/file_manager.py:175-182 | building a dict from pairs gives each key the value of its last pair |
| Dict.FromPairsKeys | scripts/file_manager.py:175-182 | building a dict from pairs keeps each key once, in order of its first pair |
| Dict.FromPairsUnique | scripts/file_manager.py:175-182 | a dict built from pairs holds each key once |
| Dict.FromPairsOfUnique | scripts/file_manager.py:175-182 | pairs with distinct keys give back exactly those pairs, in order |
| Dict.PyDict.Set | scripts/translator.py:36 | `data[key] = value` on the dict object: its items become the assignment's result |
| LangCodec.ParseLine | scripts/file_manager.py:179-182 | defines the handling of one line: stripped, skipped when blank, otherwise unpacked from its split on `=` |
| LangCodec.Decode | scripts/file_manager.py:171-183 | defines `_read_lang_file` on the text of the file |
| LangCodec.ReadLangFile | scripts/file_manager.py:171-183 | the reading loop returns exactly `Decode` of the text: the dict, or the error of the first bad line |
| LangCodec.DecodeSkipsBlank | scripts/file_manager.py:178-180 | inserting a line of white space anywhere in a file changes nothing that is read |
| LangCodec.BlankParses | scripts/file_manager.py:179-180 | a line of white space only is skipped |
| LangCodec.WellFormedParses | scripts/file_manager.py:179-181 | a line is read without error exactly when it is blank or holds exactly one `=` |
| LangCodec.DecodeOkIff | scripts/file_manager.py:178-182 | a read succeeds exactly when every line is blank or holds exactly one `=` |
| LangCodec.BadLineFails | scripts/file_manager.py:181 | one line that is neither blank nor has exactly one `=`, anywhere in the file, makes the read fail |
| LangCodec.GoodLinesSucceed | scripts/file_manager.py:178-182 | a file whose every line is well formed reads without error |
| LangCodec.DecodeReportsFirstBad | scripts/file_manager.py:178-181 | the error raised is that of the first bad line: its stripped text and the number of parts its split gave |
| LangCodec.RejectsSecondEquals | scripts/file_manager.py:181 | a value containing `=` makes the whole read fail |
| LangCodec.DecodeValue | scripts/file_manager.py:175-183 | a successful read is the dict built from the pairs split from each stripped non-blank line, in file order |
| LangCodec.DecodeLastWriteWins | scripts/file_manager.py:175-183 | the dict read holds each key once, in order of its first line, with the value of its last line |
| LangCodec.Encode | scripts/file_manager.py:192-201 | defines the text `_write_lang_file` writes |
| LangCodec.WriteLangFile | scripts/file_manager.py:192-201 | the writing loop produces exactly `Encode` of the dict |
| LangCodec.EncodeLines | scripts/file_manager.py:196-198 | the text written has exactly one `key=value` line per entry, in dict order; an empty dict gives an empty text |
| LangCodec.ParseEntryLine | scripts/file_manager.py:179-182 | the line written for an entry without `=` or a line break (`\n` or `\r`) in its key and value, and without white space at its edges, reads back as that entry |
| LangCodec.RoundTrip | scripts/file_manager.py:171-201 | reading back what was written gives the same dict, keys in the same order, when no key or value holds `=` or a line break (`\n` or `\r`), no key starts and no value ends with white space, and keys are unique |
| Settings.FormatLang | scripts/settings.py:103-109 | defines `_format_lang`: split on `_`, the language part lowered and the region part uppered, or the unpack error |
| Settings.FormatLangOkIff | scripts/settings.py:107 | `_format_lang` raises exactly when the code does not hold exactly one `_`, naming the code and the number of parts |
| Settings.FormatLangParts | scripts/settings.py:107-109 | `l_r` formats to `l` lowered, `_`, `r` uppered |
| Settings.FormatLangDecomposes | scripts/settings.py:107 | an accepted code is its two split parts joined by the one `_` |
| Settings.FormatLangIdempotent | scripts/settings.py:103-109 | formatting a formatted code gives it back unchanged |
| Settings.GoogleLang | scripts/settings.py:87-92 | defines `_get_google_lang`: the first part of the split on `_` |
| Settings.GoogleLangIsPrefix | scripts/settings.py:87-92 | the Google code is the text before the first `_`, or the whole code when it has none |
| Settings.GoogleLangOfFormatted | scripts/settings.py:54-66 | on a formatted code, the Google code is the lowered language part of the original code |
| Settings.SubPlaceholder | scripts/settings.py:98-100 | defines `re.sub` of the case-insensitive pattern `%appdata%` by a literal text: leftmost, non-overlapping matches |
| Settings.ReplaceAppdata | scripts/settings.py:94-101 | defines `_replace_appdata`: the error of an unset `APPDATA`, or the escaped template applied to the path |
| Settings.EscapeCancels | scripts/settings.py:99-100 | doubling the backslashes of `APPDATA` cancels the escape processing of the replacement template |
| Settings.ReplaceAppdataLiteral | scripts/settings.py:94-101 | with `APPDATA` set, every case-insensitive `%appdata%` is replaced by the literal value of `APPDATA` |
| Settings.SubAbsent | scripts/settings.py:100 | a path without `%appdata%` in any case comes back unchanged |
| Settings.SubFirst | scripts/settings.py:98-100 | a placeholder in any case, after text without `%`, becomes the replacement, and the text before it is kept |
| Settings.MakeSettings | scripts/settings.py:50-74 | defines `Settings.__init__` on the parsed configuration and `APPDATA`, with the error of the first lookup or call that raises |
| Settings.MakeSettingsFields | scripts/settings.py:50-74 | a successful construction has the configured codes formatted, both paths with `APPDATA` substituted, the flag as configured and `temp` as the temporary folder |
| Settings.MakeSettingsCodes | scripts/settings.py:54-66 | the stored codes are normalised, and each Google code is the lowered language part of the configured code |
| Settings.MakeSettingsNotAnObject | scripts/settings.py:52-55 | a configuration that is not an object, such as the `''` of an unreadable file, fails at the first lookup |
| Settings.MakeSettingsNeedsAppdata | scripts/settings.py:68 | without `APPDATA`, a configuration with two valid codes fails at the mods path |
| Translation.Service.Ask | scripts/translator.py:43-47 | a provider call returns the provider's answer to the request and logs the request |
| Translation.NewTranslator | scripts/translator.py:24-27 | defines `Translator.__init__`, with `capitalize` defaulting to true |
| Translation.TranslateSpec | scripts/translator.py:39-50 | defines `translate`: the provider's answer, capitalised when `capitalize` is on, or the provider's failure |
| Translation.Capitalize | scripts/translator.py:49 | defines `str.capitalize`: the first character uppered and the rest lowered |
| Translation.Translate | scripts/translator.py:39-50 | `translate` makes exactly one provider call, with the translator's languages, and returns `TranslateSpec` of the text |
| Translation.TranslateCases | scripts/translator.py:47-50 | with `capitalize` on the answer is `str.capitalize`d, with it off it is returned unchanged |
| Translation.CapitalizeShape | scripts/translator.py:48-49 | capitalising keeps the length, uppers the first character and lowers all the others |
| Translation.CapitalizeIdempotent | scripts/translator.py:49 | capitalising twice is capitalising once |
| Translation.CapitalizeIgnoresCase | scripts/translator.py:49 | capitalising a lowered or uppered text gives the same as capitalising the text |
| Translation.DefaultCapitalizes | scripts/translator.py:24-27 | a translator built without `capitalize` capitalises, so its results are already capitalised |
| Translation.Run | scripts/translator.py:33-36 | defines the `translate_data` loop from a given entry on: translate the value, store it under its key, go on; the first failure stops it |
| Translation.TranslateAll | scripts/translator.py:29-37 | defines `translate_data`: the dict, the requests and the error after its loop |
| Translation.TranslateAllKeys | scripts/translator.py:33-36 | translating a dict keeps every key, in order |
| Translation.TranslateAllSuccess | scripts/translator.py:33-36 | the loop completes exactly when every value is answered; it then asks once per entry in dict order, and each value becomes the translation of the old one |
| Translation.FirstFailure | scripts/translator.py:33-36 | at the first value the provider cannot translate the loop raises: earlier values are translated, that value and the later ones are unchanged, and the requests made are those up to it |
| Translation.RunKeys | scripts/translator.py:33-36 | from any entry on, the loop changes values only and leaves the entries before it untouched |
| Translation.TranslateEntry | scripts/translator.py:34-36 | one turn translates the value of one entry and stores it under that entry's key, or leaves the dict unchanged when the provider fails |
| Translation.TranslateData | scripts/translator.py:29-37 | `translate_data` overwrites the values of the same dict object as `TranslateAll` says, makes the provider calls it lists, and returns that object unless a call fails |
| FileManager.NewManager | scripts/file_manager.py:73-84 | defines `FileManager.__init__` from the settings |
| FileManager.ManagerOfConfig | scripts/file_manager.py:73-84 | a manager built from valid settings unpacks into `temp`, uses the normalised codes and a capitalising translator in the lowered language parts |
| FileManager.JoinPath | scripts/file_manager.py:100-101 | defines `os.path.join` for a relative component without a drive, including no separator after a bare drive such as `C:` |
| FileManager.JoinEndsWith | scripts/file_manager.py:235-236 | a joined path ends in `.jar` exactly when the listed name does |
| FileManager.UnpackMods | scripts/file_manager.py:93-104 | exactly the listed names ending in `.jar` are extracted, in listing order, each from the mods folder into `temp` |
| FileManager.FilterMembers | scripts/file_manager.py:98-99 | a name is kept by the filter exactly when it is listed and passes the test |
| FileManager.FileSystem.Write | scripts/file_manager.py:200-201 | writing a file sets its text and changes no other file |
| FileManager.FileSystem.Remove | scripts/file_manager.py:237 | removing a file deletes it and changes no other file |
| FileManager.JarPaths | scripts/file_manager.py:234-236 | defines the paths `remove_original_mod_files` selects: each listed name joined to the mods folder, when the path ends in `.jar` |
| FileManager.JarPathsSound | scripts/file_manager.py:234-237 | only paths of listed names ending in `.jar` are selected for removal |
| FileManager.JarPathsComplete | scripts/file_manager.py:234-237 | the path of every listed name ending in `.jar` is selected for removal |
| FileManager.RemoveOriginalModFiles | scripts/file_manager.py:230-237 | exactly the regular files whose listed name ends in `.jar` are deleted, and nothing else changes |
| FileManager.LangFolders | scripts/file_manager.py:106-115 | defines the folders `get_lang_folders` collects from the walk |
| FileManager.GetLangFolders | scripts/file_manager.py:106-115 | the walking loop returns `LangFolders` of the walk, in walk order |
| FileManager.LangFoldersIgnoreFiles | scripts/file_manager.py:111-115 | the folders collected are those whose path contains `lang` and `assets`, whatever files they hold and whatever the source code is |
| FileManager.LangFileName | scripts/file_manager.py:131-140 | defines the file name for a code and an extension: the code lowered for JSON, as configured for `.lang`, then the extension |
| FileManager.SourcePath | scripts/file_manager.py:138-141 | defines `source_lang_file`: the folder joined to the source code's file name |
| FileManager.TargetPath | scripts/file_manager.py:142-145 | defines `target_lang_file`: the folder joined to the target code's file name |
| FileManager.FileNameCase | scripts/file_manager.py:131-145 | JSON file names use the lowered code, so codes differing only in case name the same file; `.lang` names use the code as configured |
| FileManager.FilePathShape | scripts/file_manager.py:138-145 | a language file path lies inside its folder and ends in its extension |
| FileManager.JsonIsNotLang | scripts/file_manager.py:138-145 | a JSON file and a `.lang` file never have the same path |
| FileManager.ShouldTranslate | scripts/file_manager.py:146 | defines the translate-or-skip test: the target is missing and the source exists |
| FileManager.ReadSource | scripts/file_manager.py:150-153 | defines the read of the source: a JSON object through the JSON library (anything else is the `NotAMapping` error), a `.lang` file through `_read_lang_file` |
| FileManager.WriteTarget | scripts/file_manager.py:155-158 | defines the text written to the target: `json.dump` for JSON, `_write_lang_file`'s text for `.lang` |
| FileManager.TranslateModSpec | scripts/file_manager.py:129-158 | defines `_translate_mod`: the files, the requests and the error after one folder and extension |
| FileManager.TranslateModFrame | scripts/file_manager.py:146-158 | `_translate_mod` never overwrites a file and creates at most the target, only when it was missing, the source existed and every value was translated; otherwise it changes nothing and makes no call |
| FileManager.SameCodeSkips | scripts/file_manager.py:146 | with equal source and target codes there is never anything to translate |
| FileManager.TranslateModSuccess | scripts/file_manager.py:150-158 | a translation that goes through asks once per source entry in order and writes the source's keys, in order, each with its translated value |
| FileManager.LangTargetReadsBack | scripts/file_manager.py:150-158 | a translated `.lang` target reads back as the translated dict when its entries can be stored |
| FileManager.ReadSourceFile | scripts/file_manager.py:150-153 | the source is read into a fresh dict object holding the entries `ReadSource` gives, or the read's error is returned |
| FileManager.TranslateMod | scripts/file_manager.py:129-158 | the files, the provider log and the result end as `TranslateModSpec` says |
| FileManager.ModName | scripts/file_manager.py:122-123 | defines the mod name: the second part of the split on `\`, without `.jar`, or the `IndexError` |
| FileManager.ModNameOkIff | scripts/file_manager.py:122 | the mod name can be taken exactly when the folder path holds a backslash |
| FileManager.ModNameOfUnpacked | scripts/file_manager.py:122-123 | for a folder inside `temp\<name>.jar` the mod name is `<name>` |
| FileManager.EditFolder | scripts/file_manager.py:122-127 | defines one turn of `edit_lang_files`: the mod name, then the JSON file, then the `.lang` file, stopping at the first error |
| FileManager.EditFrom | scripts/file_manager.py:117-127 | defines `edit_lang_files` from a given folder on, stopping at the first error |
| FileManager.EditFolderFrame | scripts/file_manager.py:121-127 | one folder never overwrites a file and creates only its own JSON and `.lang` targets |
| FileManager.EditFrame | scripts/file_manager.py:117-127 | `edit_lang_files` never overwrites an existing file, and every file it creates is a target of one of the folders |
| FileManager.EditAllPresent | scripts/file_manager.py:117-127 | folders whose targets all exist are passed over with no change and no provider call |
| FileManager.EditOneFolder | scripts/file_manager.py:122-127 | one turn takes the mod name, then handles the JSON file, then the `.lang` file, stopping at the first error, exactly as `EditFolder` says |
| FileManager.EditLangFiles | scripts/file_manager.py:117-127 | the folders are handled in order, stopping at the first error, with files and provider log exactly as `EditFrom` says |
| ModTranslator.NormalInput | mod_translator.py:4-27 | defines `normalInput`, with the `IndexError` of `values[3]` on a line with one or two quotes |
| ModTranslator.NormalInputFirst | mod_translator.py:8-11 | the first line gives `{` and a newline, whatever it holds, and is not translatable |
| ModTranslator.NewlinesRemoved | mod_translator.py:5 | removing newlines leaves no newline and keeps the count of every other character |
| ModTranslator.NormalInputCases | mod_translator.py:4-27 | a line after the first, by its number of quotes: none gives `''` for two spaces and `}` otherwise; one or two raise; more give the entry from parts 1 and 3 |
| ModTranslator.EntryLineClassified | mod_translator.py:21-25 | an entry line, with or without its trailing comma, becomes the entry with a trailing comma, its key as id and its value as the text |
| ModTranslator.ClosingLine | mod_translator.py:13-19 | a closing brace after the first line is copied and asks nothing |
| ModTranslator.UpperFirst | mod_translator.py:48 | defines `translation[0].upper() + translation[1:]`, with the `IndexError` of an empty translation |
| ModTranslator.UpperFirstShape | mod_translator.py:48 | uppering the first letter fails only on an empty translation, keeps every later character, and is idempotent |
| ModTranslator.EntryPiece | mod_translator.py:42-49 | an entry line adds the entry with its translation, first letter uppered, after one request |
| ModTranslator.LinePiece | mod_translator.py:42-50 | defines one turn of the driver loop: the classified line copied, or its entry with the translation's first letter uppered, or the error |
| ModTranslator.Assemble | mod_translator.py:39-50 | defines the text, the requests and the error of the driver loop from a given line on |
| ModTranslator.AssembleSuccess | mod_translator.py:41-50 | the loop completes exactly when every line is classified and every translation is non-empty; it then asks once per translatable line, in line order |
| ModTranslator.FixTrailingComma | mod_translator.py:56 | defines `data.replace(',\n}', '\n}')` |
| ModTranslator.Output | mod_translator.py:55-57 | defines what the script writes: the assembled text after the fix-up, or the error that stops it before writing |
| ModTranslator.FixTrailingCommaCases | mod_translator.py:56 | the fix-up removes the comma before a final closing brace and leaves a text without braces unchanged |
| ModTranslator.OneEntryText | mod_translator.py:56 | a one-entry text loses exactly the comma before its closing brace |
| ModTranslator.OneEntryFile | mod_translator.py:38-57 | a file with one entry comes out as the opening brace, the entry with its translation, first letter uppered, and the closing brace with no comma before it |
| ModTranslator.AssembleLine | mod_translator.py:42-50 | one turn of the loop adds the output of `LinePiece` for the line and makes that piece's provider calls |
| ModTranslator.TranslateFile | mod_translator.py:35-58 | the script writes `Output` of `Assemble` over its lines, after the fix-up, and makes the provider calls `Assemble` lists |

## Left out

- Archive I/O: `ZipFile.extractall` in `unpack_mods` is not modelled. The model computes the extraction jobs (archive, destination) and leaves the extraction to the library.
- `create_needed_folders`, `convert_translated_mods`, `_convert_folder_to_jar`, `move_translated_mod_files` and `remove_folder` are left out. They are directory creation, archive writing, moves and recursive deletion, all library I/O.
- `os.listdir` and `os.walk` are inputs to the model: a sequence of names, or a sequence of (folder, sub-folders, file names) triples. Their order is taken as given.
- `os.path.exists` and `os.path.isfile` are membership in the `FileSystem` map. Directories are not part of that map, so `remove_original_mod_files` never sees a directory ending in `.jar`.
- `os.path.join` is modelled for a second component that is relative and has no drive, after any first component (a bare drive `C:` included). A second component with a drive or a root, which replaces the first in `ntpath.join`, is not part of this model.
- `json.load` and `json.dump` are the abstract `JsonCodec` parameter. A JSON source that is not an object of strings, including the `''` returned for an unparsable file, is one `NotAMapping` error. This stands for the exception `translate_data` raises on it. An object with non-string values does not always raise in Python; the model does not follow that case.
- `json.load` on `config.json` is an input (`Json`), and `os.getenv('APPDATA')` is an `Option<string>` parameter.
- The translation providers (`deep_translator.GoogleTranslator` and `googletrans`) are the `Service.answer` function: a fixed answer per request, or a failure. Time, retries and network state are not modelled.
- Logging (`scripts/logs.py` and every `log_message`/`log_subtitle` call) is left out. So are `print` in `mod_translator.py` and `main.py`, which only sequences the steps. The mod name is computed for the log only, but its `IndexError` on a path without a backslash is modelled.
- Case mapping covers ASCII and the Latin-1 letters with a one-to-one mapping only. Python's full Unicode `lower`/`upper`/`capitalize` is not modelled: `ß` and other multi-character results, title case, and `ÿ`/`µ` on upper-casing.
- Text files are modelled after Python's universal-newline translation: the model reads text with `\n` line ends only. The read-back lemmas (`RoundTrip`, `LangTargetReadsBack`) therefore require that no key or value holds `\r`, which text-mode reading would take as a line end.
- Text encodings: `open` at `scripts/file_manager.py:176` and `:200` uses the locale encoding, and the model never fails on it. A `.lang` source the locale cannot decode raises `UnicodeDecodeError`. A translation it cannot encode raises `UnicodeEncodeError` in `file.write` after `open(..., 'w')` has already created an empty target, which the `exists` test at :146 then skips on every later run. `FileSystem.Write` and `TranslateModFrame` do not capture this partial write.
- Case of file names: `os.path.exists` ignores case on Windows, so a configured `en_US` finds a mod's `en_us.lang`. The model looks paths up exactly (`ReadSource`, `FileNameCase`), so such a file counts as missing.
- OneEntryFile: does not promise valid JSON, because the script escapes nothing: a `"` or `\` in a key, a value or a translation is written as it is.
- `_replace_appdata`: `re.sub` replacement templates are modelled for the `\\` escape only. `EscapeCancels` proves that the doubled `APPDATA` value never contains any other escape.
- The file open, read and write of `mod_translator.py` are left out: the script is modelled on the lines of the input text and the text it writes. When the script raises, nothing is written; the partial `data` it printed is not modelled.
