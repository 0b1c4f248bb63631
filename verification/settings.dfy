/** The run configuration the library reads: LanguageTool settings and spellchecker settings. */
module Settings {
  import opened Wrappers

  /** Rust's `u16`. */
  type U16 = x: nat | x < 0x1_0000

  /** Where the LanguageTool server is, which language to check, and what to switch off. */
  datatype LanguageToolConfig = LanguageToolConfig(
    host: string,
    port: U16,
    language: string,
    disabledRules: Option<seq<string>>,
    disabledCategories: Option<seq<string>>,
    picky: Option<bool>)

  /** Words whose problems are not reported (matched case-sensitively). */
  datatype SpellcheckConfig = SpellcheckConfig(ignoreWords: Option<seq<string>>)

  /** The derived `Default`: empty strings, port 0, every option absent. */
  function DefaultLanguageToolConfig(): LanguageToolConfig {
    LanguageToolConfig("", 0, "", None, None, None)
  }

  function DefaultSpellcheckConfig(): SpellcheckConfig {
    SpellcheckConfig(None)
  }
}
