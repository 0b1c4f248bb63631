/**
 * `Config::from_args_or_file`: merging the command-line arguments over the configuration file.
 * Locating and reading the file is not modelled: the parsed file, if there is one, is an input.
 */
module ConfigFile {
  import opened Wrappers
  import opened Settings
  import opened PortArgs

  datatype Config = Config(languagetoolConfig: LanguageToolConfig, spellcheckConfig: SpellcheckConfig)

  datatype ConfigError = RequiredOptions

  function DefaultConfig(): Config {
    Config(DefaultLanguageToolConfig(), DefaultSpellcheckConfig())
  }

  /** The rules disabled unless `--no-default-disabled-rules` says otherwise. */
  const DefaultDisabledRules: seq<string> := ["WHITESPACE_RULE"]

  /**
   * Without a configuration file, host, port and language must all be given as arguments and
   * the file side is the default configuration. Arguments override the file field by field;
   * the default disabled rule is appended exactly when `noDefaultDisabledRules` is `Some(false)`.
   */
  method FromArgsOrFile(args: Args, configFile: Option<Config>) returns (r: Result<Config, ConfigError>)
    ensures r.Failure? <==> configFile.None? && (args.host.None? || args.port.None? || args.language.None?)
    ensures r.Failure? ==> r.error == RequiredOptions
    ensures r.Success? ==>
      var file := configFile.GetOr(DefaultConfig());
      var lt := r.value.languagetoolConfig;
      && lt.host == args.host.GetOr(file.languagetoolConfig.host)
      && lt.port == args.port.GetOr(file.languagetoolConfig.port)
      && lt.language == args.language.GetOr(file.languagetoolConfig.language)
      && lt.disabledCategories == args.disabledCategories.Or(file.languagetoolConfig.disabledCategories)
      && lt.picky == args.picky.Or(file.languagetoolConfig.picky)
      && r.value.spellcheckConfig.ignoreWords == args.ignoreWords.Or(file.spellcheckConfig.ignoreWords)
    ensures r.Success? ==>
      var file := configFile.GetOr(DefaultConfig());
      var given := args.disabledRules.Or(file.languagetoolConfig.disabledRules);
      r.value.languagetoolConfig.disabledRules
        == if args.noDefaultDisabledRules == Some(false) then Some(given.GetOr([]) + DefaultDisabledRules)
           else given
  {
    var file: Config;
    if configFile.Some? {
      file := configFile.value;
    } else {
      if args.host.None? || args.port.None? || args.language.None? {
        return Failure(RequiredOptions);
      }
      file := DefaultConfig();
    }

    var disabledRules := args.disabledRules.Or(file.languagetoolConfig.disabledRules);
    if args.noDefaultDisabledRules.Some? {
      var noDefaultDisabledRules := args.noDefaultDisabledRules.value;
      if !noDefaultDisabledRules {
        var defaultDisabledRules := DefaultDisabledRules;
        if disabledRules.Some? {
          disabledRules := Some(disabledRules.value + defaultDisabledRules);
        } else {
          assert [] + defaultDisabledRules == defaultDisabledRules;
          disabledRules := Some(defaultDisabledRules);
        }
      }
    }

    var languagetoolConfig := LanguageToolConfig(
      args.host.GetOr(file.languagetoolConfig.host),
      args.port.GetOr(file.languagetoolConfig.port),
      args.language.GetOr(file.languagetoolConfig.language),
      disabledRules,
      args.disabledCategories.Or(file.languagetoolConfig.disabledCategories),
      args.picky.Or(file.languagetoolConfig.picky));
    var spellcheckConfig := SpellcheckConfig(args.ignoreWords.Or(file.spellcheckConfig.ignoreWords));
    return Success(Config(languagetoolConfig, spellcheckConfig));
  }
}
