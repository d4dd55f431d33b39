/**
 * src/options.ts: the extension's options, their defaults, and how
 * `setupConfig` merges the project's `l10n.yaml` into them.
 */
module Config {
  import opened Wrappers

  /** `auto-name-key` holds either a boolean or the text `ask`. */
  datatype KeyNaming = NamingFlag(flag: bool) | NamingText(text: string)

  datatype Options = Options(
    arbDirName: string,
    templateArbFile: string,
    autoTranslate: bool,
    keyPrefix: string,
    importStr: string,
    autoGenerateKeyName: KeyNaming,
    autoRunGenL10n: bool,
    keyNameLanguage: string)

  /** The keys of `l10n.yaml` that the merge reads; None is a missing or null entry. */
  datatype L10nConfig = L10nConfig(
    arbDir: Option<string>,
    templateArbFile: Option<string>,
    translate: Option<bool>,
    importLine: Option<string>,
    keyPrefix: Option<string>,
    nullableGetter: Option<bool>,
    autoNameKey: Option<KeyNaming>,
    generate: Option<bool>,
    keyNameLanguage: Option<string>)

  const NullablePrefix := "AppLocalizations.of(context)!."
  const NonNullablePrefix := "AppLocalizations.of(context)."

  /** The options before any configuration is read. */
  function Defaults(): (o: Options)
    ensures o.arbDirName == "lib/l10n" && o.templateArbFile == "app_en.arb"
    ensures o.autoTranslate && o.keyPrefix == NullablePrefix && o.importStr == ""
    ensures o.autoGenerateKeyName == NamingFlag(true) && o.autoRunGenL10n
    ensures o.keyNameLanguage == "en"
  {
    Options("lib/l10n", "app_en.arb", true, NullablePrefix, "", NamingFlag(true), true, "en")
  }

  /** The prefix used when `key-prefix` is missing: `nullable-getter` defaults to true. */
  function DefaultKeyPrefix(c: L10nConfig): string {
    if c.nullableGetter.GetOr(true) then NullablePrefix else NonNullablePrefix
  }

  /** The new `options` record that `setupConfig` builds from the old one and a loaded config. */
  function Merge(o: Options, c: L10nConfig): Options {
    Options(
      c.arbDir.GetOr(o.arbDirName),
      c.templateArbFile.GetOr(o.templateArbFile),
      c.translate.GetOr(o.autoTranslate),
      c.keyPrefix.GetOr(DefaultKeyPrefix(c)),
      c.importLine.GetOr(o.importStr),
      c.autoNameKey.GetOr(o.autoGenerateKeyName),
      c.generate.GetOr(o.autoRunGenL10n),
      c.keyNameLanguage.GetOr(o.keyNameLanguage))
  }

  /** The options after `setupConfig()`, where `source` is what `readL10nConfig` produced (None: missing, unreadable or falsy). */
  function Reloaded(o: Options, source: Option<L10nConfig>): Options {
    if source.None? then o else Merge(o, source.value)
  }

  /** Every field but `keyPrefix`: the configured value when present, the old value otherwise. */
  lemma MergeFields(o: Options, c: L10nConfig)
    ensures var r := Merge(o, c);
      && (c.arbDir.Some? ==> r.arbDirName == c.arbDir.value)
      && (c.arbDir.None? ==> r.arbDirName == o.arbDirName)
      && (c.templateArbFile.Some? ==> r.templateArbFile == c.templateArbFile.value)
      && (c.templateArbFile.None? ==> r.templateArbFile == o.templateArbFile)
      && (c.translate.Some? ==> r.autoTranslate == c.translate.value)
      && (c.translate.None? ==> r.autoTranslate == o.autoTranslate)
      && (c.importLine.Some? ==> r.importStr == c.importLine.value)
      && (c.importLine.None? ==> r.importStr == o.importStr)
      && (c.autoNameKey.Some? ==> r.autoGenerateKeyName == c.autoNameKey.value)
      && (c.autoNameKey.None? ==> r.autoGenerateKeyName == o.autoGenerateKeyName)
      && (c.generate.Some? ==> r.autoRunGenL10n == c.generate.value)
      && (c.generate.None? ==> r.autoRunGenL10n == o.autoRunGenL10n)
      && (c.keyNameLanguage.Some? ==> r.keyNameLanguage == c.keyNameLanguage.value)
      && (c.keyNameLanguage.None? ==> r.keyNameLanguage == o.keyNameLanguage)
  {
  }

  /** An explicit `false` is a value like any other: `translate: false` turns translation off. */
  lemma ExplicitFalseKept(o: Options, c: L10nConfig)
    requires c.translate == Some(false) || c.generate == Some(false)
    ensures c.translate == Some(false) ==> !Merge(o, c).autoTranslate
    ensures c.generate == Some(false) ==> !Merge(o, c).autoRunGenL10n
  {
  }

  /** `key-prefix` wins; otherwise `nullable-getter` picks one of two prefixes; the old prefix never survives. */
  lemma KeyPrefixRule(o1: Options, o2: Options, c: L10nConfig)
    ensures c.keyPrefix.Some? ==> Merge(o1, c).keyPrefix == c.keyPrefix.value
    ensures c.keyPrefix.None? && c.nullableGetter != Some(false) ==> Merge(o1, c).keyPrefix == NullablePrefix
    ensures c.keyPrefix.None? && c.nullableGetter == Some(false) ==> Merge(o1, c).keyPrefix == NonNullablePrefix
    ensures Merge(o1, c).keyPrefix == Merge(o2, c).keyPrefix
  {
  }

  /** Merging the same configuration twice gives what merging it once gives. */
  lemma MergeIdempotent(o: Options, c: L10nConfig)
    ensures Merge(Merge(o, c), c) == Merge(o, c)
  {
  }

  /** The module-level mutable `options`. */
  class Settings {
    var options: Options

    constructor ()
      ensures options == Defaults()
    {
      options := Defaults();
    }

    /**
     * `setupConfig()`: `source` is what `readL10nConfig` produced, None when
     * `l10n.yaml` is missing, unreadable or falsy. The file watcher calls this
     * on change, on creation and on deletion; after a deletion the source is
     * None, so the options are left as they were.
     */
    method SetupConfig(source: Option<L10nConfig>)
      modifies this
      ensures source.None? ==> options == old(options)
      ensures source.Some? ==> options == Merge(old(options), source.value)
      ensures options == Reloaded(old(options), source)
    {
      if source.None? {
        return;
      }
      options := Merge(options, source.value);
    }
  }
}
