/**
 * The message-resolution service: the key index and locale registry it keeps,
 * how it resolves a key for a locale with a single fallback to the default
 * locale, what it returns for a missing message, and its registry queries.
 */
module Localization {
  import opened Wrappers
  import opened JavaStrings
  import opened Sorting
  import opened Locales
  import opened Catalog
  import opened KeyIndex
  import opened LocaleRegistry

  /** `java.l10n_debug_marker`, or "$$$" when it is not set. */
  function DebugMarker(conf: Config): string {
    conf.l10nDebugMarker.GetOr("$$$")
  }

  /**
   * `getDebugVersionOfString`: in debug mode the message is wrapped in the
   * marker on both ends (and can be read back from between them); otherwise
   * it is returned as it is.
   */
  function DebugVersionOfString(conf: Config, mess: string): (r: string)
    ensures !conf.l10nDebug ==> r == mess
    ensures conf.l10nDebug ==>
              var m := DebugMarker(conf);
              && |r| == |mess| + 2 * |m|
              && r[..|m|] == m
              && r[|r| - |m|..] == m
              && r[|m|..|r| - |m|] == mess
  {
    if conf.l10nDebug then
      var m := DebugMarker(conf);
      var r := m + mess + m;
      assert r[..|m|] == m && r[|r| - |m|..] == m && r[|m|..|r| - |m|] == mess;
      r
    else mess
  }

  /** The text of a message id, "null" for a null one. */
  function IdText(id: Option<string>): string {
    id.GetOr("null")
  }

  /** The registry entries that are not aliases. */
  function ConfiguredKeys(reg: Registry): set<string> {
    set k | k in reg && !reg[k].IsAlias()
  }

  /** `LinkedList.removeAll`: the codes that are not excluded, in their original order. */
  function RemoveAll(codes: seq<string>, excluded: seq<string>): (r: seq<string>)
    ensures forall c :: c in r <==> c in codes && c !in excluded
    ensures |r| <= |codes|
  {
    if codes == [] then []
    else
      var n := |codes| - 1;
      assert forall c :: c in codes <==> c in codes[..n] || c == codes[n] by {
        assert codes == codes[..n] + [codes[n]];
      }
      RemoveAll(codes[..n], excluded) + if codes[n] in excluded then [] else [codes[n]]
  }

  /** `removeAll` keeps the order of the codes it keeps: it distributes over concatenation. */
  lemma {:induction false} RemoveAllAppend(a: seq<string>, b: seq<string>, excluded: seq<string>)
    ensures RemoveAll(a + b, excluded) == RemoveAll(a, excluded) + RemoveAll(b, excluded)
  {
    if b == [] {
      assert a + b == a;
    } else {
      var n := |b| - 1;
      assert (a + b)[..|a + b| - 1] == a + b[..n];
      RemoveAllAppend(a, b[..n], excluded);
    }
  }

  /** The text `getMissingMessageString` escapes: the id between two "**" frames, and readable back from them. */
  function MissingMarkup(id: string): (s: string)
    ensures |s| == |id| + 4
    ensures s[..2] == "**" && s[|s| - 2..] == "**"
    ensures s[2..|s| - 2] == id
  {
    var s := "**" + id + "**";
    assert s[..2] == "**" && s[|s| - 2..] == "**" && s[2..|s| - 2] == id;
    s
  }

  /** The country codes `availableCountries` keeps: all of them when no exclusion list is configured. */
  function ValidCountries(isoCountries: seq<string>, excluded: Option<seq<string>>): (r: seq<string>)
    ensures forall c :: c in r <==> c in isoCountries && (excluded.None? || c !in excluded.value)
    ensures |r| <= |isoCountries|
  {
    if excluded.None? then isoCountries else RemoveAll(isoCountries, excluded.value)
  }

  /** `new LinkedList<>(set)`: the elements of a set, each once, in some order. */
  method ListOf(s: set<string>) returns (r: seq<string>)
    ensures multiset(r) == multiset(s)
  {
    r := [];
    var rest := s;
    while rest != {}
      invariant rest <= s
      invariant multiset(r) == multiset(s - rest)
      decreases rest
    {
      var x :| x in rest;
      assert s - (rest - {x}) == (s - rest) + {x};
      r := r + [x];
      rest := rest - {x};
    }
  }

  class LocalizationService {
    /** `DEFAULT_LOCALE`, computed once from the configured default-locale string. */
    const defaultLocale: Locale
    /** `StringEscapeUtils.escapeHtml4`, a library function this model does not define. */
    const escapeHtml4: string -> string

    var keyToBundleMap: map<MessageKey, BundleId>
    var supportedLocales: Registry

    /** The fields before `initService` has run: no index and an empty registry. */
    constructor (configuredDefault: string, escapeHtml4: string -> string)
      ensures defaultLocale == DefaultLocaleOf(configuredDefault)
      ensures this.escapeHtml4 == escapeHtml4
      ensures keyToBundleMap == map[] && supportedLocales == map[]
    {
      defaultLocale := DefaultLocaleOf(configuredDefault);
      this.escapeHtml4 := escapeHtml4;
      keyToBundleMap := map[];
      supportedLocales := map[];
    }

    /**
     * The service as `getInstance` publishes it: constructed and initialized
     * from the configuration, or the exception that aborted the initialization.
     */
    static method Create(conf: Config, msgs: Messages, escapeHtml4: string -> string)
      returns (r: Result<LocalizationService, Failure>)
      ensures r.Success? ==>
                && fresh(r.value)
                && r.value.defaultLocale == DefaultLocaleOf(conf.defaultLocale)
                && r.value.escapeHtml4 == escapeHtml4
                && r.value.Loaded(conf, msgs)
      ensures r.Failure? ==> InitOutcome(conf, msgs) == Fail(r.error)
    {
      var s := new LocalizationService(conf.defaultLocale, escapeHtml4);
      var o := s.InitService(conf, msgs);
      if o.Fail? {
        return Failure(o.error);
      }
      r := Success(s);
    }

    /** How `initService` ends: the first bundle class that cannot be found, or how the registry load ends. */
    static function InitOutcome(conf: Config, msgs: Messages): Outcome<Failure> {
      var bs := conf.resourceBundles;
      var n := FirstUnloadable(msgs, bs);
      if n < |bs| then Fail(ClassNotFound(bs[n])) else LoadLocales(map[], conf.supportedLocales).1
    }

    /**
     * The fields after `initService`, starting from the registry `before`: the
     * index holds the keys of every bundle up to the first one that cannot be
     * loaded; the registry is rebuilt only if every bundle loaded.
     */
    ghost predicate InitState(conf: Config, msgs: Messages, before: Registry)
      reads this
    {
      var bs := conf.resourceBundles;
      var n := FirstUnloadable(msgs, bs);
      && keyToBundleMap == BuildIndex(msgs, bs[..n])
      && supportedLocales == if n < |bs| then before else LoadLocales(map[], conf.supportedLocales).0
    }

    /** The fields as a successful `initService` leaves them. */
    ghost predicate Loaded(conf: Config, msgs: Messages)
      reads this
    {
      InitOutcome(conf, msgs) == Pass && InitState(conf, msgs, map[])
    }

    /** `initService`: rebuild the key index from every configured bundle, then the locale registry. */
    method InitService(conf: Config, msgs: Messages) returns (o: Outcome<Failure>)
      modifies this
      ensures o == InitOutcome(conf, msgs)
      ensures InitState(conf, msgs, old(supportedLocales))
    {
      keyToBundleMap := map[];
      var packages := conf.resourceBundles;
      ghost var n := FirstUnloadable(msgs, packages);
      var i := 0;
      while i < |packages|
        invariant 0 <= i <= n
        invariant keyToBundleMap == BuildIndex(msgs, packages[..i])
        invariant supportedLocales == old(supportedLocales)
      {
        FirstUnloadableAt(msgs, packages, i);
        o := AddKeysToMap(msgs, packages[i]);
        if o.Fail? {
          assert i == n;
          return;
        }
        assert packages[..i + 1] == packages[..n][..i + 1];
        BuildIndexStep(msgs, packages, i);
        i := i + 1;
      }
      assert n == |packages| && packages[..n] == packages;
      supportedLocales := map[];
      o := LoadSupportedLocales(conf);
    }

    /** `addKeysToMap`: map every en_US key of the bundle to the bundle, or fail if its class is missing. */
    method AddKeysToMap(msgs: Messages, className: BundleId) returns (o: Outcome<Failure>)
      modifies this`keyToBundleMap
      ensures className in msgs.keys ==>
                o == Pass && keyToBundleMap == AddKeys(old(keyToBundleMap), className, msgs.keys[className])
      ensures className !in msgs.keys ==>
                o == Fail(ClassNotFound(className)) && keyToBundleMap == old(keyToBundleMap)
    {
      if className !in msgs.keys {
        return Fail(ClassNotFound(className));
      }
      var e := msgs.keys[className];
      var i := 0;
      while i < |e|
        invariant 0 <= i <= |e|
        invariant keyToBundleMap == AddKeys(old(keyToBundleMap), className, e[..i])
      {
        assert e[..i + 1][..i] == e[..i];
        keyToBundleMap := keyToBundleMap[e[i] := className];
        i := i + 1;
      }
      assert e[..|e|] == e;
      o := Pass;
    }

    /**
     * `loadSupportedLocales`: register every configured locale, then the
     * language prefix of every compound locale with `putIfAbsent`.
     */
    method LoadSupportedLocales(conf: Config) returns (o: Outcome<Failure>)
      modifies this`supportedLocales
      ensures (supportedLocales, o) == LoadLocales(old(supportedLocales), conf.supportedLocales)
    {
      if conf.supportedLocales.None? {
        return Pass;
      }
      var locales := Configured(conf.supportedLocales.value);
      var compoundLocales: seq<string> := [];
      var i := 0;
      while i < |locales|
        invariant 0 <= i <= |locales|
        invariant compoundLocales == Compounds(locales[..i])
        invariant supportedLocales == Canonical(old(supportedLocales), locales[..i])
      {
        var locale := locales[i];
        CanonicalStep(old(supportedLocales), locales, i);
        if IndexOf(locale, '_') > -1 {
          compoundLocales := compoundLocales + [locale];
        }
        supportedLocales := supportedLocales[locale := LocaleInfo(locale, None)];
        i := i + 1;
      }
      assert locales[..|locales|] == locales;
      ghost var canonical := supportedLocales;
      ghost var n := FirstWithoutPrefix(compoundLocales);
      var j := 0;
      while j < |compoundLocales|
        invariant 0 <= j <= n
        invariant supportedLocales == AliasPass(canonical, compoundLocales[..j])
      {
        var cl := compoundLocales[j];
        var parts := Split(cl, '_');
        AliasLoopStep(canonical, compoundLocales, j);
        if |parts| == 0 {
          return Fail(IndexOutOfBounds(cl));
        }
        if parts[0] !in supportedLocales {
          supportedLocales := supportedLocales[parts[0] := LocaleInfo(parts[0], Some(cl))];
        }
        j := j + 1;
      }
      assert n == |compoundLocales| && compoundLocales[..n] == compoundLocales;
      o := Pass;
    }

    /**
     * `reloadResourceFiles`: outside development mode nothing changes and the
     * answer is false; otherwise the service is initialized again.
     */
    method ReloadResourceFiles(conf: Config, msgs: Messages) returns (r: Result<bool, Failure>)
      modifies this
      ensures !conf.developmentEnvironment ==>
                && r == Success(false)
                && keyToBundleMap == old(keyToBundleMap)
                && supportedLocales == old(supportedLocales)
      ensures conf.developmentEnvironment ==>
                && InitState(conf, msgs, old(supportedLocales))
                && r == match InitOutcome(conf, msgs)
                        case Pass => Success(true)
                        case Fail(e) => Failure(e)
    {
      if conf.developmentEnvironment {
        var o := InitService(conf, msgs);
        if o.Fail? {
          return Failure(o.error);
        }
        return Success(true);
      }
      return Success(false);
    }

    /**
     * `getMissingMessageString`: in strict mode the lookup fails with an
     * IllegalArgumentException naming the id ("null" for a null id);
     * otherwise the result is the HTML-escaped id framed by "**".
     */
    function MissingMessageString(conf: Config, id: Option<string>): (r: Result<string, Failure>)
      ensures r.Failure? <==> conf.missingMessageExceptions
      ensures r.Failure? ==> r.error == MissingMessage(IdText(id))
      ensures r.Success? ==> r.value == escapeHtml4(MissingMarkup(IdText(id)))
    {
      if conf.missingMessageExceptions then Failure(MissingMessage(IdText(id)))
      else Success(escapeHtml4(MissingMarkup(IdText(id))))
    }

    /**
     * `getMessage(messageId, locale, args)`; the overloads `getMessage(messageId)`
     * and `getMessage(messageId, args)` are this function applied to the
     * context's locale (and no arguments). The only failures are a bundle
     * class that cannot be found and, in strict mode, a missing message; an
     * unknown or null key yields the missing-message result.
     */
    function GetMessage(id: Option<string>, locale: Option<Locale>, args: seq<string>, conf: Config, msgs: Messages)
      : (r: Result<string, Failure>)
      reads this
      ensures r.Failure? ==>
                || (r.error.ClassNotFound? && r.error.className in keyToBundleMap.Values)
                || (r.error == MissingMessage(IdText(id)) && conf.missingMessageExceptions)
      ensures id.None? || id.value !in keyToBundleMap ==> r == MissingMessageString(conf, id)
      ensures id.Some? && id.value in keyToBundleMap && keyToBundleMap[id.value] !in msgs.keys ==>
                r == Failure(ClassNotFound(keyToBundleMap[id.value]))
    {
      if id.None? then MissingMessageString(conf, id)
      else if id.value !in keyToBundleMap then MissingMessageString(conf, id)
      else
        var z := keyToBundleMap[id.value];
        if z !in msgs.keys then Failure(ClassNotFound(z))
        else match msgs.format(z, locale, id.value, args)
          case Some(mess) => Success(DebugVersionOfString(conf, mess))
          case None =>
            match msgs.format(z, Some(defaultLocale), id.value, args)
            case Some(mess) => Success(DebugVersionOfString(conf, mess))
            case None => MissingMessageString(conf, id)
    }

    /**
     * The lookup finds a text: the key is indexed, its bundle loads, and the
     * bundle has the message for the requested locale or the default locale.
     */
    ghost predicate Found(id: Option<string>, locale: Option<Locale>, args: seq<string>, msgs: Messages)
      reads this
    {
      && id.Some? && id.value in keyToBundleMap
      && var z := keyToBundleMap[id.value];
      && z in msgs.keys
      && (msgs.format(z, locale, id.value, args).Some? || msgs.format(z, Some(defaultLocale), id.value, args).Some?)
    }

    /** An unknown or null key never reaches the bundles: the answer is the same for any catalog. */
    lemma UnknownKeyIgnoresCatalog(id: Option<string>, locale: Option<Locale>, args: seq<string>, conf: Config,
                                   msgs1: Messages, msgs2: Messages)
      requires !HasMessage(id)
      ensures GetMessage(id, locale, args, conf, msgs1) == GetMessage(id, locale, args, conf, msgs2)
      ensures GetMessage(id, locale, args, conf, msgs1) == MissingMessageString(conf, id)
    {
    }

    /**
     * The fallback is one level deep: the answer depends on the bundle only
     * through its texts for the requested locale and for the default locale.
     */
    lemma OneLevelFallback(id: Option<string>, locale: Option<Locale>, args: seq<string>, conf: Config,
                           msgs1: Messages, msgs2: Messages)
      requires msgs1.keys == msgs2.keys
      requires id.Some? && id.value in keyToBundleMap ==>
                 var z := keyToBundleMap[id.value];
                 && msgs1.format(z, locale, id.value, args) == msgs2.format(z, locale, id.value, args)
                 && msgs1.format(z, Some(defaultLocale), id.value, args) == msgs2.format(z, Some(defaultLocale), id.value, args)
      ensures GetMessage(id, locale, args, conf, msgs1) == GetMessage(id, locale, args, conf, msgs2)
    {
    }

    /** A message missing for the requested locale is taken from the default locale. */
    lemma FallbackToDefaultLocale(id: string, locale: Option<Locale>, args: seq<string>, conf: Config, msgs: Messages, text: string)
      requires id in keyToBundleMap && keyToBundleMap[id] in msgs.keys
      requires msgs.format(keyToBundleMap[id], locale, id, args) == None
      requires msgs.format(keyToBundleMap[id], Some(defaultLocale), id, args) == Some(text)
      ensures GetMessage(Some(id), locale, args, conf, msgs) == Success(DebugVersionOfString(conf, text))
    {
    }

    /** A message the bundle has for the requested locale is that text, debug-wrapped. */
    lemma RequestedLocaleHit(id: string, locale: Option<Locale>, args: seq<string>, conf: Config, msgs: Messages, text: string)
      requires id in keyToBundleMap && keyToBundleMap[id] in msgs.keys
      requires msgs.format(keyToBundleMap[id], locale, id, args) == Some(text)
      ensures GetMessage(Some(id), locale, args, conf, msgs) == Success(DebugVersionOfString(conf, text))
    {
    }

    /** When both the requested and the default locale miss, the result is the missing-message result. */
    lemma BothLookupsMiss(id: string, locale: Option<Locale>, args: seq<string>, conf: Config, msgs: Messages)
      requires id in keyToBundleMap && keyToBundleMap[id] in msgs.keys
      requires msgs.format(keyToBundleMap[id], locale, id, args) == None
      requires msgs.format(keyToBundleMap[id], Some(defaultLocale), id, args) == None
      ensures GetMessage(Some(id), locale, args, conf, msgs) == MissingMessageString(conf, Some(id))
    {
    }

    /**
     * Debug mode changes found messages only, wrapping them in the marker; a
     * missing-message string or a failure is the same with debug mode off.
     */
    lemma DebugWrapsOnlyFound(id: Option<string>, locale: Option<Locale>, args: seq<string>, conf: Config, msgs: Messages)
      ensures var plain := GetMessage(id, locale, args, conf.(l10nDebug := false), msgs);
              var r := GetMessage(id, locale, args, conf, msgs);
              && (Found(id, locale, args, msgs) ==> plain.Success? && r == Success(DebugVersionOfString(conf, plain.value)))
              && (!Found(id, locale, args, msgs) ==> r == plain)
    {
    }

    /** After a successful initialization, a key is known exactly when some configured bundle lists it. */
    lemma HasMessageIffListed(conf: Config, msgs: Messages, k: MessageKey)
      requires Loaded(conf, msgs)
      ensures HasMessage(Some(k)) <==> exists i :: 0 <= i < |conf.resourceBundles| && Lists(msgs, conf.resourceBundles[i], k)
      ensures HasMessage(Some(k)) ==>
                exists i :: 0 <= i < |conf.resourceBundles| && keyToBundleMap[k] == conf.resourceBundles[i] &&
                  Lists(msgs, conf.resourceBundles[i], k) &&
                  forall j :: i < j < |conf.resourceBundles| ==> !Lists(msgs, conf.resourceBundles[j], k)
    {
      var bs := conf.resourceBundles;
      assert bs[..|bs|] == bs;
      BuildIndexDomain(msgs, bs, k);
      if HasMessage(Some(k)) {
        BuildIndexOwner(msgs, bs, k);
      }
    }

    /** After a successful initialization from the same bundles, no lookup fails for a missing bundle class. */
    lemma NoClassNotFoundWhenLoaded(conf: Config, msgs: Messages, id: Option<string>, locale: Option<Locale>,
                                    args: seq<string>, lookupConf: Config)
      requires Loaded(conf, msgs)
      ensures var r := GetMessage(id, locale, args, lookupConf, msgs);
              r.Failure? ==> r.error == MissingMessage(IdText(id)) && lookupConf.missingMessageExceptions
    {
      if id.Some? && id.value in keyToBundleMap {
        HasMessageIffListed(conf, msgs, id.value);
      }
    }

    /** After a successful initialization, the registry is the one built from `java.supported_locales`. */
    lemma LoadedRegistry(conf: Config, msgs: Messages)
      requires Loaded(conf, msgs)
      ensures conf.supportedLocales.None? ==> supportedLocales == map[]
      ensures conf.supportedLocales.Some? ==>
                LoadsCleanly(conf.supportedLocales.value) && supportedLocales == RegistryOf(conf.supportedLocales.value)
    {
      var bs := conf.resourceBundles;
      assert FirstUnloadable(msgs, bs) == |bs|;
    }

    /**
     * After a successful initialization, a locale is supported exactly when its
     * `toString` is configured or is the language of a configured compound locale.
     */
    lemma IsLocaleSupportedIff(conf: Config, msgs: Messages, locale: Locale)
      requires Loaded(conf, msgs) && conf.supportedLocales.Some?
      ensures var raw := conf.supportedLocales.value;
              var s := ToString(locale);
              IsLocaleSupported(locale) <==>
                s in Configured(raw) || exists cl :: cl in Configured(raw) && IsCompound(cl) && Prefix(cl) == s
    {
      LoadedRegistry(conf, msgs);
      RegistryKeys(conf.supportedLocales.value, ToString(locale));
    }

    /** After a successful initialization, the non-alias registry entries are exactly the configured locales. */
    lemma ConfiguredKeysAreConfigured(conf: Config, msgs: Messages)
      requires Loaded(conf, msgs) && conf.supportedLocales.Some?
      ensures ConfiguredKeys(supportedLocales) == set l | l in Configured(conf.supportedLocales.value)
    {
      var raw := conf.supportedLocales.value;
      LoadedRegistry(conf, msgs);
      forall k | k in supportedLocales || k in Configured(raw)
        ensures k in ConfiguredKeys(supportedLocales) <==> k in Configured(raw)
      {
        RegistryKeys(raw, k);
      }
    }

    /**
     * `getMessages`: each key resolved in the context's locale through
     * `getMessage(messageId)`, or the first failure.
     */
    method GetMessages(keys: array<Option<string>>, ctxLocale: Option<Locale>, conf: Config, msgs: Messages)
      returns (r: Result<array<string>, Failure>)
      ensures r.Success? ==>
                && fresh(r.value)
                && r.value.Length == keys.Length
                && forall i :: 0 <= i < keys.Length ==>
                     GetMessage(keys[i], ctxLocale, [], conf, msgs) == Success(r.value[i])
      ensures r.Failure? ==>
                exists i :: 0 <= i < keys.Length &&
                  GetMessage(keys[i], ctxLocale, [], conf, msgs) == Failure(r.error) &&
                  forall j :: 0 <= j < i ==> GetMessage(keys[j], ctxLocale, [], conf, msgs).Success?
    {
      var retval := new string[keys.Length];
      for i := 0 to keys.Length
        invariant forall j :: 0 <= j < i ==> GetMessage(keys[j], ctxLocale, [], conf, msgs) == Success(retval[j])
      {
        var m := GetMessage(keys[i], ctxLocale, [], conf, msgs);
        if m.Failure? {
          return Failure(m.error);
        }
        retval[i] := m.value;
      }
      r := Success(retval);
    }

    /**
     * `availableCountries`: the ISO country codes that are not excluded, keyed
     * by their localized names; when two codes share a name the later one
     * wins, and a failed lookup aborts the whole call.
     */
    method AvailableCountries(isoCountries: seq<string>, ctxLocale: Option<Locale>, conf: Config, msgs: Messages)
      returns (r: Result<map<string, string>, Failure>)
      ensures var valid := ValidCountries(isoCountries, conf.excludedCountries);
              r.Success? ==>
                && (forall i :: 0 <= i < |valid| ==>
                      NameOf(valid[i], ctxLocale, conf, msgs).Success? && NameOf(valid[i], ctxLocale, conf, msgs).value in r.value)
                && (forall name :: name in r.value ==>
                      exists i :: 0 <= i < |valid| && r.value[name] == valid[i] &&
                        NameOf(valid[i], ctxLocale, conf, msgs) == Success(name) &&
                        forall j :: i < j < |valid| ==> NameOf(valid[j], ctxLocale, conf, msgs) != Success(name))
      ensures var valid := ValidCountries(isoCountries, conf.excludedCountries);
              r.Failure? ==>
                exists i :: 0 <= i < |valid| && NameOf(valid[i], ctxLocale, conf, msgs) == Failure(r.error) &&
                  forall j :: 0 <= j < i ==> NameOf(valid[j], ctxLocale, conf, msgs).Success?
    {
      var validCountries := ValidCountries(isoCountries, conf.excludedCountries);
      var ret: map<string, string> := map[];
      for i := 0 to |validCountries|
        invariant forall k :: 0 <= k < i ==> NameOf(validCountries[k], ctxLocale, conf, msgs).Success? &&
                                              NameOf(validCountries[k], ctxLocale, conf, msgs).value in ret
        invariant forall name :: name in ret ==>
                    exists k :: 0 <= k < i && ret[name] == validCountries[k] &&
                      NameOf(validCountries[k], ctxLocale, conf, msgs) == Success(name) &&
                      forall j :: k < j < i ==> NameOf(validCountries[j], ctxLocale, conf, msgs) != Success(name)
      {
        var isoCountry := validCountries[i];
        var name := NameOf(isoCountry, ctxLocale, conf, msgs);
        if name.Failure? {
          return Failure(name.error);
        }
        ret := ret[name.value := isoCountry];
      }
      r := Success(ret);
    }

    /**
     * The localized name of a country code: `getMessage(isoCountry)`. An
     * unknown code is named by the missing-message result, and the call fails
     * only for a bundle class that cannot be found or a missing name in strict mode.
     */
    function NameOf(isoCountry: string, ctxLocale: Option<Locale>, conf: Config, msgs: Messages): (r: Result<string, Failure>)
      reads this
      ensures !HasMessage(Some(isoCountry)) ==> r == MissingMessageString(conf, Some(isoCountry))
      ensures r.Failure? ==>
                || (r.error.ClassNotFound? && r.error.className in keyToBundleMap.Values)
                || (r.error == MissingMessage(isoCountry) && conf.missingMessageExceptions)
    {
      GetMessage(Some(isoCountry), ctxLocale, [], conf, msgs)
    }

    /**
     * `hasMessage`: the key is not null and is in the index. A key it denies
     * resolves to the missing-message result for every locale, arguments,
     * configuration and bundles.
     */
    function HasMessage(messageId: Option<string>): (r: bool)
      reads this
      ensures r ==> messageId.Some? && messageId.value in keyToBundleMap
      ensures !r ==> forall locale, args, conf, msgs ::
                GetMessage(messageId, locale, args, conf, msgs) == MissingMessageString(conf, messageId)
    {
      messageId.Some? && messageId.value in keyToBundleMap
    }

    /** `getSupportedLocales`: every registry key, once each, in ascending order. */
    method GetSupportedLocales() returns (r: seq<string>)
      ensures Sorted(r)
      ensures multiset(r) == multiset(supportedLocales.Keys)
    {
      var tmp := ListOf(supportedLocales.Keys);
      r := Sort(tmp);
    }

    /**
     * `getConfiguredLocales`: the registry keys that are not aliases, once
     * each, in ascending order; all of them are supported locales.
     */
    method GetConfiguredLocales() returns (r: seq<string>)
      ensures Sorted(r)
      ensures multiset(r) == multiset(ConfiguredKeys(supportedLocales))
      ensures forall x :: x in r ==> x in supportedLocales && !supportedLocales[x].IsAlias()
    {
      var tmp: seq<string> := [];
      var keys := supportedLocales.Keys;
      var rest := keys;
      while rest != {}
        invariant rest <= keys
        invariant multiset(tmp) == multiset(ConfiguredKeys(supportedLocales) - rest)
        decreases rest
      {
        var key :| key in rest;
        var li := supportedLocales[key];
        if !li.IsAlias() {
          assert ConfiguredKeys(supportedLocales) - (rest - {key}) == (ConfiguredKeys(supportedLocales) - rest) + {key};
          tmp := tmp + [key];
        } else {
          assert ConfiguredKeys(supportedLocales) - (rest - {key}) == ConfiguredKeys(supportedLocales) - rest;
        }
        rest := rest - {key};
      }
      r := Sort(tmp);
      assert forall x :: x in r ==> x in multiset(ConfiguredKeys(supportedLocales));
    }

    /** `isLocaleSupported`: the locale's `toString` is a registry key. */
    function IsLocaleSupported(locale: Locale): (r: bool)
      reads this
      ensures r <==> ToString(locale) in supportedLocales
    {
      ToString(locale) in supportedLocales
    }
  }
}
