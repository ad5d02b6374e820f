/** The exceptions the tool can raise, and the result type that carries them. */
module Errors {

  datatype Option<+T> = None | Some(value: T)

  /** One constructor per Python exception the modelled code can raise. */
  datatype Error =
    | LangLineUnpack(line: string, parts: nat)   // `key, value = line.split('=')` in file_manager.py
    | LangCodeUnpack(code: string, parts: nat)   // `language, region = mc_lang.split('_')` in settings.py
    | ConfigNotAnObject                          // `config_data[...]` when the parsed configuration is not a JSON object
    | ConfigKeyMissing(key: string)              // KeyError on a configuration key
    | ConfigNotString(key: string)               // a configuration value that is not a string
    | AppdataUnset                               // `os.getenv('APPDATA')` returned None
    | BadReplacementTemplate                     // `re.sub` rejected the replacement template
    | ServiceUnavailable(text: string)           // the translation provider raised
    | NotAMapping                                // `translate_data` given something that is not a dict of strings
    | ModNameIndex(folder: string)               // `lang_folder.split('\\')[1]` on a path without a backslash
    | QuoteIndex(line: string)                   // `values[3]` on a line with one or two quotes
    | EmptyTranslation(text: string)             // `translation[0]` on an empty translation

  datatype Result<+T> = Ok(value: T) | Err(error: Error)
}
