/**
 * What the localization service reads from its collaborators: the configuration
 * values it looks up, and the XML message bundles behind `XmlMessages`.
 */
module Catalog {
  import opened Wrappers
  import opened Locales

  /** The Java class name that identifies a message bundle. */
  type BundleId = string

  /** A message key, unique across all bundles. */
  type MessageKey = string

  /**
   * The configuration values the service reads through `Config.get()`.
   * `None` stands for a value that is not set (`getString` returning null).
   */
  datatype Config = Config(
    resourceBundles: seq<BundleId>,          // web.l10n_resourcebundles
    supportedLocales: Option<string>,        // java.supported_locales
    defaultLocale: string,                   // ConfigDefaults.getDefaultLocale()
    developmentEnvironment: bool,            // java.development_environment
    l10nDebug: bool,                         // java.l10n_debug
    l10nDebugMarker: Option<string>,         // java.l10n_debug_marker
    missingMessageExceptions: bool,          // java.l10n_missingmessage_exceptions
    excludedCountries: Option<seq<string>>)  // web.excluded_countries

  /**
   * The message bundles as `XmlMessages` presents them. `keys` maps each
   * loadable bundle class to the keys of its en_US file, in enumeration order;
   * a class missing from `keys` is one `Class.forName` cannot find. `format`
   * looks a key up in one bundle for one locale (None for a null locale) and
   * substitutes the arguments; it yields None where `XmlMessages.format`
   * throws `MissingResourceException`.
   */
  datatype Messages = Messages(
    keys: map<BundleId, seq<MessageKey>>,
    format: (BundleId, Option<Locale>, MessageKey, seq<string>) -> Option<string>)

  /** The exceptions the service lets escape. */
  datatype Failure =
    | ClassNotFound(className: BundleId)  // LocalizationException wrapping ClassNotFoundException
    | MissingMessage(messageId: string)   // IllegalArgumentException in strict missing-message mode
    | IndexOutOfBounds(locale: string)    // parts[0] of a configured locale made of '_' only
}
