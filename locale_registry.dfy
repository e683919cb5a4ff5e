/**
 * The supported-locale registry (`supportedLocales`): every configured locale
 * as a canonical entry, plus a language-only alias for each configured
 * "language_REGION" locale whose language is not already an entry.
 */
module LocaleRegistry {
  import opened Wrappers
  import opened JavaStrings
  import opened Catalog

  /**
   * A registry entry. `aliasOf` is the compound locale the entry was derived
   * from; `LocaleInfo(locale)` in Java is an entry with `aliasOf == None` and
   * `LocaleInfo(prefix, compound)` one with `aliasOf == Some(compound)`.
   */
  datatype LocaleInfo = LocaleInfo(locale: string, aliasOf: Option<string>) {
    predicate IsAlias() { aliasOf.Some? }
  }

  type Registry = map<string, LocaleInfo>

  /** The configured locales: the comma-separated tokens of `java.supported_locales`. */
  function Configured(raw: string): seq<string> {
    Tokens(raw, ',')
  }

  /** `locale.indexOf('_') > -1`. */
  predicate IsCompound(locale: string) {
    IndexOf(locale, '_') > -1
  }

  /** The first pass: `put(locale, new LocaleInfo(locale))` for each configured locale in turn. */
  function Canonical(m: Registry, locales: seq<string>): (r: Registry)
    ensures forall k :: k in r <==> k in m || k in locales
    ensures forall k :: k in r ==> r[k] == if k in locales then LocaleInfo(k, None) else m[k]
  {
    if locales == [] then m
    else
      var n := |locales| - 1;
      assert forall k :: k in locales <==> k in locales[..n] || k == locales[n] by {
        assert locales == locales[..n] + [locales[n]];
      }
      Canonical(m, locales[..n])[locales[n] := LocaleInfo(locales[n], None)]
  }

  /** The `compoundLocales` list: the configured locales containing '_', in configured order. */
  function Compounds(locales: seq<string>): (r: seq<string>)
    ensures forall x :: x in r <==> x in locales && IsCompound(x)
  {
    if locales == [] then []
    else
      var n := |locales| - 1;
      assert forall k :: k in locales <==> k in locales[..n] || k == locales[n] by {
        assert locales == locales[..n] + [locales[n]];
      }
      Compounds(locales[..n]) + if IsCompound(locales[n]) then [locales[n]] else []
  }

  /**
   * `compoundLocales` keeps the configured order: it is a filter that
   * distributes over concatenation.
   */
  lemma {:induction false} CompoundsAppend(a: seq<string>, b: seq<string>)
    ensures Compounds(a + b) == Compounds(a) + Compounds(b)
  {
    if b == [] {
      assert a + b == a;
    } else {
      var n := |b| - 1;
      assert (a + b)[..|a + b| - 1] == a + b[..n];
      CompoundsAppend(a, b[..n]);
    }
  }

  /** The text before the first '_' of `cl` (all of `cl` when it has none). */
  function Prefix(cl: string): string {
    var i := IndexOf(cl, '_');
    if i == -1 then cl else cl[..i]
  }

  /** `cl.split("_")` has a first element; it has none for a locale made of '_' only. */
  predicate HasPrefix(cl: string) {
    !OnlyChar(cl, '_') || !IsCompound(cl)
  }

  /** `parts[0]` of `cl.split("_")` exists exactly when `HasPrefix(cl)`, and it is `Prefix(cl)`. */
  lemma SplitPrefix(cl: string)
    ensures |Split(cl, '_')| > 0 <==> HasPrefix(cl)
    ensures HasPrefix(cl) ==> Split(cl, '_')[0] == Prefix(cl)
  {
    if IsCompound(cl) {
      SplitHead(cl, '_');
    }
  }

  /** The position of the first compound locale without a prefix, or |cls| when there is none. */
  function FirstWithoutPrefix(cls: seq<string>): (n: nat)
    ensures n <= |cls|
    ensures forall i :: 0 <= i < n ==> HasPrefix(cls[i])
    ensures n < |cls| ==> !HasPrefix(cls[n])
  {
    if cls == [] || !HasPrefix(cls[0]) then 0
    else
      var n := 1 + FirstWithoutPrefix(cls[1..]);
      assert forall i :: 1 <= i < n ==> cls[i] == cls[1..][i - 1];
      n
  }

  /** The second pass: `putIfAbsent(parts[0], new LocaleInfo(parts[0], cl))` for each compound locale in turn. */
  function AliasPass(m: Registry, cls: seq<string>): (r: Registry)
    ensures forall k :: k in m ==> k in r && r[k] == m[k]
    ensures forall k :: k in r && k !in m ==>
              && r[k].locale == k && r[k].aliasOf.Some?
              && r[k].aliasOf.value in cls && Prefix(r[k].aliasOf.value) == k
  {
    if cls == [] then m
    else
      var n := |cls| - 1;
      assert forall x :: x in cls[..n] ==> x in cls;
      var prev := AliasPass(m, cls[..n]);
      var p := Prefix(cls[n]);
      if p in prev then prev else prev[p := LocaleInfo(p, Some(cls[n]))]
  }

  /**
   * `loadSupportedLocales` applied to the registry `m`: the registry it leaves
   * and whether it returned normally. An unset `java.supported_locales` leaves
   * `m` as it is; a compound locale without a prefix stops the second pass
   * with an ArrayIndexOutOfBoundsException.
   */
  function LoadLocales(m: Registry, raw: Option<string>): (r: (Registry, Outcome<Failure>))
    ensures raw.None? ==> r == (m, Pass)
    ensures raw.Some? ==>
              (r.1 == Pass <==> forall cl :: cl in Configured(raw.value) && IsCompound(cl) ==> HasPrefix(cl))
    ensures r.1.Fail? ==>
              && raw.Some? && r.1.error.IndexOutOfBounds?
              && r.1.error.locale in Configured(raw.value) && IsCompound(r.1.error.locale)
              && OnlyChar(r.1.error.locale, '_')
    ensures raw.Some? ==>
              forall l :: l in Configured(raw.value) ==> l in r.0 && r.0[l] == LocaleInfo(l, None)
  {
    if raw.None? then (m, Pass)
    else
      var locales := Configured(raw.value);
      var cls := Compounds(locales);
      var n := FirstWithoutPrefix(cls);
      assert n < |cls| ==> cls[n] in cls;
      assert forall cl :: cl in locales && IsCompound(cl) && n == |cls| ==> HasPrefix(cl) by {
        forall cl | cl in locales && IsCompound(cl) && n == |cls| ensures HasPrefix(cl) {
          assert cl in cls;
          var i :| 0 <= i < |cls| && cls[i] == cl;
          assert i < n;
        }
      }
      (AliasPass(Canonical(m, locales), cls[..n]),
       if n < |cls| then Fail(IndexOutOfBounds(cls[n])) else Pass)
  }

  /** One step of the first pass and of the `compoundLocales` list. */
  lemma CanonicalStep(m: Registry, locales: seq<string>, i: nat)
    requires i < |locales|
    ensures Canonical(m, locales[..i + 1]) == Canonical(m, locales[..i])[locales[i] := LocaleInfo(locales[i], None)]
    ensures Compounds(locales[..i + 1]) == Compounds(locales[..i]) + if IsCompound(locales[i]) then [locales[i]] else []
  {
    assert locales[..i + 1][..i] == locales[..i];
  }

  /** One step of the second pass. */
  lemma AliasPassStep(m: Registry, cls: seq<string>, j: nat)
    requires j < |cls|
    ensures var prev := AliasPass(m, cls[..j]);
            var p := Prefix(cls[j]);
            AliasPass(m, cls[..j + 1]) == if p in prev then prev else prev[p := LocaleInfo(p, Some(cls[j]))]
  {
    assert cls[..j + 1][..j] == cls[..j];
  }

  /**
   * One step of the second pass as the loop meets it: `cls[j].split("_")` is
   * empty exactly at the first compound locale without a prefix; otherwise its
   * first part is the prefix, and the step is a `putIfAbsent` of that prefix.
   */
  lemma AliasLoopStep(m: Registry, cls: seq<string>, j: nat)
    requires j <= FirstWithoutPrefix(cls) && j < |cls|
    ensures |Split(cls[j], '_')| == 0 <==> j == FirstWithoutPrefix(cls)
    ensures |Split(cls[j], '_')| > 0 ==> Split(cls[j], '_')[0] == Prefix(cls[j])
    ensures var prev := AliasPass(m, cls[..j]);
            var p := Prefix(cls[j]);
            AliasPass(m, cls[..j + 1]) == if p in prev then prev else prev[p := LocaleInfo(p, Some(cls[j]))]
  {
    SplitPrefix(cls[j]);
    AliasPassStep(m, cls, j);
  }

  /** Some compound locale of `cls` has the prefix `p`. */
  predicate PrefixIn(cls: seq<string>, p: string) {
    exists i :: 0 <= i < |cls| && Prefix(cls[i]) == p
  }

  /** `cls[i]` is the first compound locale of `cls` with the prefix `p`. */
  predicate FirstWithPrefix(cls: seq<string>, i: int, p: string) {
    0 <= i < |cls| && Prefix(cls[i]) == p && !PrefixIn(cls[..i], p)
  }

  lemma PrefixInSnoc(cls: seq<string>, p: string)
    requires cls != []
    ensures PrefixIn(cls, p) <==> PrefixIn(cls[..|cls| - 1], p) || Prefix(cls[|cls| - 1]) == p
  {
    var n := |cls| - 1;
    var init := cls[..n];
    if PrefixIn(cls, p) {
      var i :| 0 <= i < |cls| && Prefix(cls[i]) == p;
      if i < n { assert init[i] == cls[i]; }
    }
    if PrefixIn(init, p) {
      var i :| 0 <= i < n && Prefix(init[i]) == p;
      assert init[i] == cls[i];
    }
  }

  /** The second pass adds exactly the prefixes of the compound locales. */
  lemma {:induction false} AliasPassDomain(m: Registry, cls: seq<string>, p: string)
    ensures p in AliasPass(m, cls) <==> p in m || PrefixIn(cls, p)
  {
    if cls != [] {
      AliasPassDomain(m, cls[..|cls| - 1], p);
      PrefixInSnoc(cls, p);
    }
  }

  /** `putIfAbsent` never overwrites: entries present before the second pass are kept. */
  lemma {:induction false} AliasPassKeeps(m: Registry, cls: seq<string>, p: string)
    ensures p in m ==> p in AliasPass(m, cls) && AliasPass(m, cls)[p] == m[p]
  {
    if cls != [] {
      AliasPassKeeps(m, cls[..|cls| - 1], p);
    }
  }

  /** Every entry the second pass adds is an alias for the first compound locale with that prefix. */
  lemma {:induction false} AliasPassOrigin(m: Registry, cls: seq<string>, p: string)
    requires p in AliasPass(m, cls) && p !in m
    ensures exists i :: FirstWithPrefix(cls, i, p) && AliasPass(m, cls)[p] == LocaleInfo(p, Some(cls[i]))
  {
    var n := |cls| - 1;
    var init := cls[..n];
    var prev := AliasPass(m, init);
    if p in prev {
      AliasPassOrigin(m, init, p);
      var i :| FirstWithPrefix(init, i, p) && prev[p] == LocaleInfo(p, Some(init[i]));
      assert init[i] == cls[i] && init[..i] == cls[..i];
      assert FirstWithPrefix(cls, i, p);
    } else {
      AliasPassDomain(m, init, p);
      assert FirstWithPrefix(cls, n, p);
    }
  }

  /** The registry a successful load builds from the configured string `raw`. */
  predicate LoadsCleanly(raw: string) {
    LoadLocales(map[], Some(raw)).1 == Pass
  }

  function RegistryOf(raw: string): Registry {
    LoadLocales(map[], Some(raw)).0
  }

  /** Every compound locale of a clean load has a prefix. */
  lemma CleanLoadHasPrefixes(raw: string)
    requires LoadsCleanly(raw)
    ensures var cls := Compounds(Configured(raw));
            && FirstWithoutPrefix(cls) == |cls|
            && RegistryOf(raw) == AliasPass(Canonical(map[], Configured(raw)), cls)
  {
    var cls := Compounds(Configured(raw));
    assert cls[..|cls|] == cls;
  }

  /** Every configured locale is a canonical (non-alias) entry for itself. */
  lemma ConfiguredAreCanonical(raw: string, locale: string)
    requires LoadsCleanly(raw)
    requires locale in Configured(raw)
    ensures locale in RegistryOf(raw)
    ensures RegistryOf(raw)[locale] == LocaleInfo(locale, None)
  {
    CleanLoadHasPrefixes(raw);
    AliasPassKeeps(Canonical(map[], Configured(raw)), Compounds(Configured(raw)), locale);
  }

  /**
   * For each configured compound locale, the text before its first '_' is
   * registered; it is an alias exactly when that text is not itself configured.
   */
  lemma CompoundPrefixRegistered(raw: string, cl: string)
    requires LoadsCleanly(raw)
    requires cl in Configured(raw) && IsCompound(cl)
    ensures var p := Prefix(cl);
            p in RegistryOf(raw) && (RegistryOf(raw)[p].IsAlias() <==> p !in Configured(raw))
  {
    CleanLoadHasPrefixes(raw);
    var locales := Configured(raw);
    var cls := Compounds(locales);
    var canon := Canonical(map[], locales);
    assert cl in cls;
    var i :| 0 <= i < |cls| && cls[i] == cl;
    var p := Prefix(cl);
    assert PrefixIn(cls, p);
    AliasPassDomain(canon, cls, p);
    AliasPassKeeps(canon, cls, p);
    if p !in canon { AliasPassOrigin(canon, cls, p); }
  }

  /**
   * An alias entry records the first configured compound locale (in
   * configured order) whose prefix it is.
   */
  lemma AliasOrigin(raw: string, p: string)
    requires LoadsCleanly(raw)
    requires p in RegistryOf(raw) && RegistryOf(raw)[p].IsAlias()
    ensures var cls := Compounds(Configured(raw));
            exists i :: FirstWithPrefix(cls, i, p) && RegistryOf(raw)[p] == LocaleInfo(p, Some(cls[i]))
  {
    CleanLoadHasPrefixes(raw);
    var locales := Configured(raw);
    var cls := Compounds(locales);
    var canon := Canonical(map[], locales);
    AliasPassKeeps(canon, cls, p);
    AliasPassOrigin(canon, cls, p);
  }

  /**
   * The registry holds exactly the configured locales and the prefixes of the
   * configured compound locales, and its non-alias entries are exactly the
   * configured locales.
   */
  lemma RegistryKeys(raw: string, k: string)
    requires LoadsCleanly(raw)
    ensures k in RegistryOf(raw) <==>
              k in Configured(raw) ||
              exists cl :: cl in Configured(raw) && IsCompound(cl) && Prefix(cl) == k
    ensures k in RegistryOf(raw) && !RegistryOf(raw)[k].IsAlias() <==> k in Configured(raw)
  {
    CleanLoadHasPrefixes(raw);
    var locales := Configured(raw);
    var cls := Compounds(locales);
    var canon := Canonical(map[], locales);
    AliasPassDomain(canon, cls, k);
    AliasPassKeeps(canon, cls, k);
    if k !in canon && k in RegistryOf(raw) {
      AliasPassOrigin(canon, cls, k);
    }
    if exists cl :: cl in locales && IsCompound(cl) && Prefix(cl) == k {
      var cl :| cl in locales && IsCompound(cl) && Prefix(cl) == k;
      assert cl in cls;
      var i :| 0 <= i < |cls| && cls[i] == cl;
      assert PrefixIn(cls, k);
    }
    if PrefixIn(cls, k) {
      var i :| 0 <= i < |cls| && Prefix(cls[i]) == k;
      assert cls[i] in cls;
    }
  }
}
