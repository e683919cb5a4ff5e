# LocalizationService model

This is a Dafny model of the message-resolution core of the Uyuni/Spacewalk Java web
stack: `com.redhat.rhn.common.localization.LocalizationService`. The project proves
properties of that model.

The service does three things:

- It keeps a key index (`keyToBundleMap`). The index maps every message key of every
  configured resource bundle to the bundle class that defines it.
- It keeps a registry of supported locales (`supportedLocales`):
  - the configured locales;
  - a language-only alias for every configured `language_REGION` locale whose language
    is not configured itself.
- It resolves a key for a locale:
  1. it tries the requested locale;
  2. it falls back once, to the default locale;
  3. otherwise it gives a missing-message string, or an exception in strict mode.

  A message that is found is wrapped in a debug marker when debug mode is on.

Modules:

- `Wrappers`: `Option`, `Result` and `Outcome`.
- `JavaStrings`: the parts of `java.lang.String` and `StringTokenizer` the service relies on:
  - `indexOf`
  - `split("_")`, including the dropping of trailing empty strings
  - comma tokenizing
  - lexicographic `compareTo`
- `Sorting`: `Collections.sort`, as insertion sort over `compareTo`. A sorted list is
  determined by its elements.
- `Locales`: `java.util.Locale` as three fields, plus `toString`, and `getDefaultLocale`.
- `Catalog`: what the service reads from its collaborators:
  - the configuration values (`Config`)
  - the bundles behind `XmlMessages` (`Messages`), given as their en_US key lists and a
    formatting function
  - the exceptions the service lets escape (`Failure`)
- `KeyIndex`: the key index as a function of the configured bundles.
- `LocaleRegistry`: the locale registry as a function of `java.supported_locales`. This is
  the canonical pass, then the `putIfAbsent` alias pass.
- `Localization`: the `LocalizationService` class.
  - Its fields are `keyToBundleMap` and `supportedLocales`.
  - `initService`, `addKeysToMap`, `loadSupportedLocales`, `getMessages`,
    `availableCountries` and the two list queries are methods with loops, proved against
    the functions above.
  - The lookups that only read the state are functions that read the object:
    `getMessage`, `hasMessage` and `isLocaleSupported`.

Exceptions are results:

- `ClassNotFound` is the `LocalizationException` raised when a bundle class cannot be
  found.
- `MissingMessage` is the `IllegalArgumentException` of strict missing-message mode.
- `IndexOutOfBounds` is the `ArrayIndexOutOfBoundsException` that `parts[0]` raises. This
  happens for a configured locale made of '_' only, because `"_".split("_")` is empty.

An exception part-way through `initService` leaves the state exactly as far as the code
got:

- the index holds the bundles loaded before the failing one;
- the registry is untouched when a bundle fails;
- the registry is partly aliased when the alias pass fails.

The code updates the fields in place. It does not build new maps and swap them in
atomically. The model follows the code.

The calling thread's `Context` is represented only by its locale, `Option<Locale>`, which is
`None` for a null locale. The model does not represent a missing context. The Java
overloads that use the context raise a `NullPointerException` when there is no context.

## Model

| member | source | states |
|---|---|---|
| Localization.LocalizationService.constructor | java/code/src/com/redhat/rhn/common/localization/LocalizationService.java:70-80 | `DEFAULT_LOCALE` is derived from the configured default locale; the index and the registry start empty |
| Localization.LocalizationService.Create | java/code/src/com/redhat/rhn/common/localization/LocalizationService.java:72-88 | the singleton is a fresh service in the state a successful `initService` leaves, or the exception `initService` raises |
| Localization.LocalizationService.InitService | java/code/src/com/redhat/rhn/common/localization/LocalizationService.java:93-112 | the index is rebuilt from scratch from the bundles up to the first class that cannot be found, which is reported; the registry is rebuilt from scratch only if every bundle loaded |
| Localization.LocalizationService.AddKeysToMap | java/code/src/com/redhat/rhn/common/localization/LocalizationService.java:115-133 | a loadable bundle's keys all map to it and other entries are kept; a missing class changes nothing and raises `ClassNotFound` |
| KeyIndex.AddKeys | java/code/src/com/redhat/rhn/common/localization/LocalizationService.java:122-126 | after the keys of one bundle are put, the domain is the old domain plus those keys; those keys belong to the bundle and every other key keeps its owner |
| KeyIndex.BuildIndex | java/code/src/com/redhat/rhn/common/localization/LocalizationService.java:103-107 | every indexed key maps to one of the configured bundles, and that bundle lists the key |
| KeyIndex.BuildIndexDomain | java/code/src/com/redhat/rhn/common/localization/LocalizationService.java:103-107 | a key is in the index if and only if some configured bundle lists it |
| KeyIndex.BuildIndexListed | java/code/src/com/redhat/rhn/common/localization/LocalizationService.java:103-107 | every key listed by a configured bundle ends up in the index |
| KeyIndex.BuildIndexOwner | java/code/src/com/redhat/rhn/common/localization/LocalizationService.java:103-107 | an indexed key belongs to the last configured bundle that lists it: no later bundle lists it |
| KeyIndex.FirstUnloadable | java/code/src/com/redhat/rhn/common/localization/LocalizationService.java:105-106 | the position where the bundle loop stops: every bundle before it loads, and the bundle at it (if any) does not |
| Localization.LocalizationService.LoadSupportedLocales | java/code/src/com/redhat/rhn/common/localization/LocalizationService.java:135-155 | the registry after the two passes equals the registry-load function, including the early return for an unset value and the failure for a prefix-less compound locale |
| LocaleRegistry.Canonical | java/code/src/com/redhat/rhn/common/localization/LocalizationService.java:141-149 | every configured locale becomes a non-alias entry for itself; other entries are kept |
| LocaleRegistry.Compounds | java/code/src/com/redhat/rhn/common/localization/LocalizationService.java:143-146 | the compound list holds exactly the configured locales that contain '_' |
| JavaStrings.IndexOf | java/code/src/com/redhat/rhn/common/localization/LocalizationService.java:144 | -1 exactly when the character is absent; otherwise the position of its first occurrence |
| LocaleRegistry.CompoundsAppend | java/code/src/com/redhat/rhn/common/localization/LocalizationService.java:140-146 | the compound list keeps the configured order: it distributes over concatenation, so "first compound locale" means first in configured order |
| LocaleRegistry.SplitPrefix | java/code/src/com/redhat/rhn/common/localization/LocalizationService.java:151 | `parts[0]` exists exactly when the locale is not made of '_' only, and then it is the text before the first '_' |
| LocaleRegistry.FirstWithoutPrefix | java/code/src/com/redhat/rhn/common/localization/LocalizationService.java:150-152 | the position where the alias pass fails: every compound locale before it has a prefix, and the one at it has none |
| LocaleRegistry.AliasPass | java/code/src/com/redhat/rhn/common/localization/LocalizationService.java:150-154 | existing entries are kept unchanged, and every added entry is an alias, for itself, of a compound locale whose prefix it is |
| LocaleRegistry.LoadLocales | java/code/src/com/redhat/rhn/common/localization/LocalizationService.java:135-155 | an unset value leaves the registry alone; the load returns normally exactly when every configured compound locale has a prefix, and otherwise fails naming a configured locale made of '_' only; every configured locale is a non-alias entry for itself either way |
| LocaleRegistry.AliasPassDomain | java/code/src/com/redhat/rhn/common/localization/LocalizationService.java:150-154 | the alias pass adds exactly the prefixes of the compound locales |
| LocaleRegistry.AliasPassKeeps | java/code/src/com/redhat/rhn/common/localization/LocalizationService.java:153 | `putIfAbsent` never overwrites: every entry present before the alias pass is unchanged after it |
| LocaleRegistry.AliasPassOrigin | java/code/src/com/redhat/rhn/common/localization/LocalizationService.java:150-154 | every entry the alias pass adds is an alias of the first compound locale carrying that prefix |
| LocaleRegistry.CleanLoadHasPrefixes | java/code/src/com/redhat/rhn/common/localization/LocalizationService.java:150-154 | a load that does not fail processed every compound locale |
| LocaleRegistry.ConfiguredAreCanonical | java/code/src/com/redhat/rhn/common/localization/LocalizationService.java:141-154 | after a clean load, every configured locale maps to a non-alias entry for itself |
| LocaleRegistry.CompoundPrefixRegistered | java/code/src/com/redhat/rhn/common/localization/LocalizationService.java:141-154 | after a clean load, the language of each configured compound locale is registered, and it is an alias if and only if it is not configured itself |
| LocaleRegistry.AliasOrigin | java/code/src/com/redhat/rhn/common/localization/LocalizationService.java:150-154 | each alias after a clean load records the first configured compound locale with its prefix |
| LocaleRegistry.RegistryKeys | java/code/src/com/redhat/rhn/common/localization/LocalizationService.java:135-155 | after a clean load, the registry keys are exactly the configured locales and the prefixes of the compound ones; the non-alias keys are exactly the configured locales |
| Localization.LocalizationService.ReloadResourceFiles | java/code/src/com/redhat/rhn/common/localization/LocalizationService.java:170-178 | outside development mode the state is unchanged and the answer is false; in development mode the service is re-initialized and the answer is true, or the re-initialization's exception |
| Localization.LocalizationService.GetMessage | java/code/src/com/redhat/rhn/common/localization/LocalizationService.java:186-297 | all three overloads, the first two with the context's locale: the only failures are a missing class for an indexed bundle, and a missing message in strict mode; an indexed key whose bundle class is missing always fails with that class; a null or unindexed key gives the missing-message result |
| Localization.LocalizationService.UnknownKeyIgnoresCatalog | java/code/src/com/redhat/rhn/common/localization/LocalizationService.java:250-264 | a null or unknown key never reaches the bundles: the result is the same for every catalog and is the missing-message result |
| Localization.LocalizationService.OneLevelFallback | java/code/src/com/redhat/rhn/common/localization/LocalizationService.java:270-289 | the result depends on the bundle only through its texts for the requested locale and for the default locale, so no third locale is tried |
| Localization.LocalizationService.RequestedLocaleHit | java/code/src/com/redhat/rhn/common/localization/LocalizationService.java:265-272 | a key whose bundle has a text for the requested locale resolves to that text, debug-wrapped |
| Localization.LocalizationService.FallbackToDefaultLocale | java/code/src/com/redhat/rhn/common/localization/LocalizationService.java:273-282 | a message missing for the requested locale is the default locale's text, debug-wrapped |
| Localization.LocalizationService.BothLookupsMiss | java/code/src/com/redhat/rhn/common/localization/LocalizationService.java:283-289 | when both the requested and the default locale miss, the result is the missing-message result (a strict-mode failure, or the framed id) |
| Localization.LocalizationService.DebugWrapsOnlyFound | java/code/src/com/redhat/rhn/common/localization/LocalizationService.java:283-296 | debug mode wraps found messages, and leaves missing-message strings and failures as they are with debug mode off |
| Localization.LocalizationService.NoClassNotFoundWhenLoaded | java/code/src/com/redhat/rhn/common/localization/LocalizationService.java:291-294 | after a successful initialization from the same bundles, a lookup can fail only with a strict-mode missing message |
| Localization.DebugVersionOfString | java/code/src/com/redhat/rhn/common/localization/LocalizationService.java:299-313 | in debug mode, the result reads marker, message, marker, with "$$$" as the default marker and the message recoverable from between the markers; otherwise it is the message itself |
| Localization.MissingMarkup | java/code/src/com/redhat/rhn/common/localization/LocalizationService.java:355 | the escaped text starts and ends with "**" and the id can be read back from between them |
| Localization.LocalizationService.MissingMessageString | java/code/src/com/redhat/rhn/common/localization/LocalizationService.java:338-356 | fails exactly in strict mode, with an exception naming the id ("null" for a null id); otherwise the escaped framing of the id, from which the id is recoverable before escaping; no debug marker is added |
| Localization.LocalizationService.GetMessages | java/code/src/com/redhat/rhn/common/localization/LocalizationService.java:228-234 | a fresh array of the same length whose i-th element is the resolution of the i-th key, or the exception of the first key that fails |
| Localization.RemoveAll | java/code/src/com/redhat/rhn/common/localization/LocalizationService.java:571-574 | the remaining codes are exactly those not excluded |
| Localization.RemoveAllAppend | java/code/src/com/redhat/rhn/common/localization/LocalizationService.java:572-573 | `removeAll` keeps the order of the remaining codes: it distributes over concatenation, so the later of two codes stays later |
| Localization.ValidCountries | java/code/src/com/redhat/rhn/common/localization/LocalizationService.java:566-574 | the codes kept are exactly the ISO codes not in the exclusion list, or all of them when no list is configured; none is added |
| Localization.LocalizationService.AvailableCountries | java/code/src/com/redhat/rhn/common/localization/LocalizationService.java:565-581 | every non-excluded code's localized name is a key; each name maps to the last code carrying it; a failed lookup is the failure of the first failing code |
| Localization.LocalizationService.NameOf | java/code/src/com/redhat/rhn/common/localization/LocalizationService.java:577 | an unknown code is named by the missing-message result; naming fails only for a missing bundle class or, in strict mode, a missing name |
| Localization.LocalizationService.HasMessage | java/code/src/com/redhat/rhn/common/localization/LocalizationService.java:588-590 | a null key is never accepted; a key that `hasMessage` denies resolves to the missing-message result for every locale, arguments, configuration and bundles; a key it accepts is indexed |
| Localization.LocalizationService.HasMessageIffListed | java/code/src/com/redhat/rhn/common/localization/LocalizationService.java:588-590 | after a successful initialization, `hasMessage` holds if and only if some configured bundle lists the key, and the key's bundle is the last one listing it |
| Localization.LocalizationService.GetSupportedLocales | java/code/src/com/redhat/rhn/common/localization/LocalizationService.java:596-600 | every registry key once, in ascending order |
| Localization.ListOf | java/code/src/com/redhat/rhn/common/localization/LocalizationService.java:597 | the list holds each element of the set exactly once |
| Localization.LocalizationService.GetConfiguredLocales | java/code/src/com/redhat/rhn/common/localization/LocalizationService.java:607-617 | every non-alias registry key once, in ascending order; each one is a supported locale |
| Localization.LocalizationService.LoadedRegistry | java/code/src/com/redhat/rhn/common/localization/LocalizationService.java:108-111 | after a successful initialization, the registry is empty when no locales are configured and is otherwise the registry of the configured string |
| Localization.LocalizationService.ConfiguredKeysAreConfigured | java/code/src/com/redhat/rhn/common/localization/LocalizationService.java:607-617 | after a successful initialization, the configured-locale set is exactly the set of configured locales |
| Localization.LocalizationService.IsLocaleSupported | java/code/src/com/redhat/rhn/common/localization/LocalizationService.java:642-644 | a locale is supported exactly when its `toString` is a registry key, so locales are compared by `toString` only; what the keys are is stated by `IsLocaleSupportedIff` |
| Localization.LocalizationService.IsLocaleSupportedIff | java/code/src/com/redhat/rhn/common/localization/LocalizationService.java:642-644 | after a successful initialization, a locale is supported if and only if its `toString` is configured or is the language of a configured compound locale |
| Sorting.Sort | java/code/src/com/redhat/rhn/common/localization/LocalizationService.java:598 | the result is sorted and is a permutation of the input |
| Sorting.SortedUnique | java/code/src/com/redhat/rhn/common/localization/LocalizationService.java:615 | two sorted lists with the same elements are equal, so the returned lists do not depend on the iteration order of the map's keys |
| JavaStrings.Split | java/code/src/com/redhat/rhn/common/localization/LocalizationService.java:692 | a string without '_' splits into itself alone; otherwise the pieces between the '_' characters, with only trailing empty pieces dropped and the last piece kept non-empty; no piece contains '_' |
| JavaStrings.SplitHead | java/code/src/com/redhat/rhn/common/localization/LocalizationService.java:151 | a string containing '_' splits into at least one piece unless it is made of '_' only, and the first piece is the text before the first '_' |
| JavaStrings.JoinPieces | java/code/src/com/redhat/rhn/common/localization/LocalizationService.java:692 | joining the pieces with '_' gives back the string |
| JavaStrings.Tokens | java/code/src/com/redhat/rhn/common/localization/LocalizationService.java:141 | the comma tokens are non-empty and contain no comma |
| JavaStrings.TokensOfJoin | java/code/src/com/redhat/rhn/common/localization/LocalizationService.java:141-143 | tokenizing a comma-joined list of non-empty, comma-free locales gives the list back |
| JavaStrings.LessEqTransitive | java/code/src/com/redhat/rhn/common/localization/LocalizationService.java:598 | the `compareTo` order is transitive (and, in the neighbouring lemmas, reflexive, total and antisymmetric), so it is the order the sort needs |
| JavaStrings.SplitJoin | java/code/src/com/redhat/rhn/common/localization/LocalizationService.java:692 | `split` loses only trailing separators: the pieces glued with '_' are a prefix of the string and the rest is '_' only |
| JavaStrings.SplitOfJoin | java/code/src/com/redhat/rhn/common/localization/LocalizationService.java:692 | the inverse of `SplitJoin`: two or more '_'-free pieces, the last non-empty, glued with '_' and followed by any run of '_', split back into exactly those pieces |
| Locales.DefaultLocaleOf | java/code/src/com/redhat/rhn/common/localization/LocalizationService.java:690-701 | either the whole configured string is the language, or the string is the '_'-free language, country and (when present) variant glued with '_', followed only by discarded trailing '_' |
| Locales.DefaultLocaleOfFields | java/code/src/com/redhat/rhn/common/localization/LocalizationService.java:690-701 | conversely, every locale with a country or variant and no '_' in its fields is the default locale of its fields glued with '_', followed by any number of '_' |
| Locales.DefaultLocaleRoundTripIff | java/code/src/com/redhat/rhn/common/localization/LocalizationService.java:690-701 | `toString` of the default locale differs from the configured string exactly when the string was split into fields and either ends in '_' or has empty language and country ("__variant") |

## Left out

- Date, number and collator formatting (`formatDate`, `formatShortDate`, `getBasicDate`,
  `formatCustomDate`, `formatNumber`, `newCollator`, lines 375-514 and 678-684) is not
  modelled. It is Java library formatting with no logic of the service's own.
- `getPlainText` is not modelled. It is HTML unescaping and plain-text conversion from
  `StringUtil`, which is not part of this model.
- `getDebugMessage` is not modelled. It repeats `getMessage` with a fixed locale.
- `getAlphabet` and `getDigits` are not modelled. They are `getMessage("alphabet")` and
  `getMessage("digits")` passed through `StringUtil.stringToList`, which is not part of this model.
- `availablePrefixes` is not modelled, because it is a database query (`ModeFactory`).
- `getInstalledDocsLocales` is not modelled, because it lists a directory of the file system.
- `determineTimeZone` is not modelled, because it reads the clock zone of the context or
  the JVM.
- `getCallingMethod` is not modelled, because it walks the stack. The service's logging is
  left out with it. `MissingMessageString` therefore leaves out the " called by …"
  suffix and the text of the exception message. Only the message id is kept in the failure.
- Sanitizing of log input is not modelled, because it only affects log text.
- `XmlMessages.resetBundleCache` on reload is not modelled as a step. The bundles
  (`Messages`) are a free parameter of every lookup, so lookups after a reload may see
  different bundle contents, which is what resetting the cache allows.
- `escapeHtml4` is a parameter of the service, because it is library code
  (`StringEscapeUtils`).
- `XmlMessages.format` is a parameter inside `Messages`. Its bundle parsing, caching,
  locale fallback chain and argument substitution are not part of this model.
- `Class.forName` becomes membership of the class name in `Messages.keys`.
- Locale normalization is left out. `new Locale(...)` lower-cases the language and
  upper-cases the country, and `Locale` has script and extension fields. `Locales.Locale`
  keeps the strings exactly as given.
- `LessEq` compares Unicode scalar values, as Dafny `char`s are. Java's `compareTo`
  compares UTF-16 code units, so the two orders differ for characters outside the Basic
  Multilingual Plane.
- The keys of the map that `availableCountries` returns are sorted as a `TreeMap` sorts
  them. The model returns a Dafny `map`, which has no order.
- `getISOCountries` and the context locale of `availableCountries` are parameters.
- `Config.getStringArray` is taken to yield a sequence for `web.l10n_resourcebundles`. The
  `NullPointerException` that an unset value would cause is not modelled.
- Concurrency is not modelled. The singleton's fields are unsynchronized in the code, and
  the model is single-threaded.
- `LocaleInfo.java` is not part of this model. `LocaleRegistry.LocaleInfo` gives it the two
  fields and `isAlias` that the service uses.
