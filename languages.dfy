/** The conventional optional value. */
module Options {
  datatype Option<+T> = None | Some(value: T)
}

/**
 * The language table and the two places that read it outside packing:
 * the start-up configuration load (with its fallback to English) and the
 * configuration save.
 */
module Languages {
  import opened Options

  /** The four keys of the language table, in table order. */
  datatype Language = English | Japanese | SimplifiedChinese | TraditionalChinese

  /** The display name under which a language is stored and offered. */
  function Name(l: Language): string {
    match l
    case English => "English"
    case Japanese => "Japanese"
    case SimplifiedChinese => "Simplified Chinese"
    case TraditionalChinese => "Traditional Chinese"
  }

  /** The digit the language contributes to patch archive names. */
  function Code(l: Language): string {
    match l
    case English => "1"
    case Japanese => "0"
    case SimplifiedChinese => "2"
    case TraditionalChinese => "3"
  }

  /** Dictionary lookup of a display name in the language table. */
  function Lookup(name: string): (r: Option<Language>)
    ensures r.Some? ==> Name(r.value) == name
    ensures r.None? <==> forall l: Language :: Name(l) != name
  {
    if name == "English" then Some(English)
    else if name == "Japanese" then Some(Japanese)
    else if name == "Simplified Chinese" then Some(SimplifiedChinese)
    else if name == "Traditional Chinese" then Some(TraditionalChinese)
    else None
  }

  /** Every table entry is found again under its own name. */
  lemma LookupName(l: Language)
    ensures Lookup(Name(l)) == Some(l)
  {
  }

  /** Distinct languages have distinct codes, each a single digit. */
  lemma CodesDistinct(l1: Language, l2: Language)
    ensures |Code(l1)| == 1 && '0' <= Code(l1)[0] <= '3'
    ensures Code(l1) == Code(l2) <==> l1 == l2
  {
  }

  /**
   * The language the patch map is built for: an empty selection falls back
   * to English; a non-empty name outside the table is a failed dictionary
   * lookup (None).
   */
  function Resolve(selected: string): (r: Option<Language>)
    ensures selected == "" ==> r == Some(English)
    ensures selected != "" && r.Some? ==> Name(r.value) == selected
    ensures r.None? <==> selected != "" && forall l: Language :: Name(l) != selected
  {
    if selected == "" then Some(English) else Lookup(selected)
  }

  /**
   * The language packing proceeds with, as the code is written: the patch
   * map falls back to English for an empty selection, but the log line
   * that follows looks the raw selection up in the table again, so a
   * failed lookup there (None) ends the run even after the fallback.
   */
  function PackLanguageAsWritten(selected: string): (r: Option<Language>)
    ensures r.Some? ==> Resolve(selected) == r
    ensures r.None? <==> forall l: Language :: Name(l) != selected
  {
    match Resolve(selected)
    case None => None
    case Some(_) => Lookup(selected)
  }

  /** The two agree except on the empty selection, where only the fallback succeeds. */
  lemma {:induction false} EmptySelectionDefeatsFallback(selected: string)
    ensures selected != "" ==> PackLanguageAsWritten(selected) == Resolve(selected)
    ensures selected == "" ==> PackLanguageAsWritten(selected) == None && Resolve(selected) == Some(English)
  {
    if selected == "" {
      assert Name(English) != selected && Name(Japanese) != selected;
      assert Name(SimplifiedChinese) != selected && Name(TraditionalChinese) != selected;
    }
  }

  /** The configuration file as the loader finds it. */
  datatype ConfigFile =
    | NoFile
    | Unreadable                                         // not JSON, or an I/O error
    | Json(gamePath: Option<string>, language: Option<string>)  // None: key absent or not a string

  /** The two settings the application keeps. */
  datatype Settings = Settings(gamePath: string, language: string)

  /**
   * Load the settings at start-up. The game path is taken only when it is
   * non-empty and names a directory (isDir stands for the filesystem test);
   * otherwise it stays empty. The language is taken only when it is a
   * table key; in every other case it is English.
   */
  function LoadConfig(file: ConfigFile, isDir: string -> bool): (s: Settings)
    ensures Lookup(s.language).Some?
    ensures s.language != "English" ==>
              file.Json? && file.language == Some(s.language)
    ensures file.Json? && file.language.Some? && Lookup(file.language.value).Some? ==>
              s.language == file.language.value
    ensures s.gamePath != "" ==> file.Json? && file.gamePath == Some(s.gamePath) && isDir(s.gamePath)
    ensures file.Json? && file.gamePath.Some? && file.gamePath.value != "" && isDir(file.gamePath.value) ==>
              s.gamePath == file.gamePath.value
  {
    match file
    case NoFile => Settings("", "English")
    case Unreadable => Settings("", "English")
    case Json(path, lang) =>
      var gamePath := if path.Some? && path.value != "" && isDir(path.value) then path.value else "";
      var language := if lang.Some? && Lookup(lang.value).Some? then lang.value else "English";
      Settings(gamePath, language)
  }

  /**
   * Save the settings as the JSON object with keys game_path and language;
   * the next start-up loads them back whenever the language is a table key
   * and the game path is empty or still a directory.
   */
  function SaveConfig(s: Settings): (file: ConfigFile)
    ensures forall isDir: string -> bool ::
              Lookup(s.language).Some? && (s.gamePath == "" || isDir(s.gamePath)) ==> LoadConfig(file, isDir) == s
  {
    Json(Some(s.gamePath), Some(s.language))
  }

  /**
   * Saving and loading again gives back the settings, as long as the
   * language is a table key and the game path is empty or still a directory.
   */
  lemma ConfigRoundTrip(s: Settings, isDir: string -> bool)
    requires Lookup(s.language).Some?
    requires s.gamePath == "" || isDir(s.gamePath)
    ensures LoadConfig(SaveConfig(s), isDir) == s
  {
  }

  /** Whatever the file holds, the loaded language resolves for packing. */
  lemma LoadedLanguageResolves(file: ConfigFile, isDir: string -> bool)
    ensures Resolve(LoadConfig(file, isDir).language).Some?
  {
  }
}
