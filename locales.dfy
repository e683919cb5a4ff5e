/** The part of `java.util.Locale` the service uses: three fields and `toString`. */
module Locales {
  import opened JavaStrings

  /** A `java.util.Locale` without script or extensions. */
  datatype Locale = Locale(language: string, country: string, variant: string)

  /** `Locale.US`, the locale whose key sets define every bundle. */
  const US: Locale := Locale("en", "US", "")

  /**
   * `Locale.toString()`: the language, then "_" and the country when there is
   * a country (or a language and a variant), then "_" and the variant when
   * there is a variant and a language or country.
   */
  function ToString(loc: Locale): string {
    var l := loc.language != "";
    var r := loc.country != "";
    var v := loc.variant != "";
    loc.language
      + (if r || (l && v) then "_" + loc.country else "")
      + (if v && (l || r) then "_" + loc.variant else "")
  }

  /** The fields of `loc` glued with '_', as `getDefaultLocale` found them in the configured string. */
  function Fields(loc: Locale): string {
    loc.language + "_" + loc.country + (if loc.variant != "" then "_" + loc.variant else "")
  }

  /**
   * `getDefaultLocale`: the configured default-locale string split on '_';
   * three parts are (language, country, variant), two parts are (language,
   * country), and any other count makes the whole string the language.
   * Read back from the result: either the whole string is the language, or
   * the string is the '_'-free fields glued with '_', followed only by
   * trailing '_' characters (which `split` discards).
   */
  function DefaultLocaleOf(configured: string): (loc: Locale)
    ensures loc.country == "" && loc.variant == "" ==> loc == Locale(configured, "", "")
    ensures loc.country != "" || loc.variant != "" ==>
              && '_' !in loc.language && '_' !in loc.country && '_' !in loc.variant
              && Fields(loc) <= configured
              && OnlyChar(configured[|Fields(loc)|..], '_')
  {
    var parts := Split(configured, '_');
    if |parts| == 3 then
      SplitJoin(configured, '_');
      assert parts[1..][1..] == [parts[2]];
      assert Join(parts[1..], '_') == parts[1] + "_" + parts[2];
      assert Join(parts, '_') == parts[0] + "_" + parts[1] + "_" + parts[2];
      Locale(parts[0], parts[1], parts[2])
    else if |parts| == 2 then
      SplitJoin(configured, '_');
      assert Join(parts, '_') == parts[0] + "_" + parts[1];
      Locale(parts[0], parts[1], "")
    else Locale(configured, "", "")
  }

  /**
   * The converse of `DefaultLocaleOf`'s contract: any locale with a country or
   * a variant and no '_' in its fields is what `getDefaultLocale` makes of its
   * fields glued with '_', however many '_' characters follow them.
   */
  lemma DefaultLocaleOfFields(loc: Locale, k: nat)
    requires loc.country != "" || loc.variant != ""
    requires '_' !in loc.language && '_' !in loc.country && '_' !in loc.variant
    ensures DefaultLocaleOf(Fields(loc) + Repeat('_', k)) == loc
  {
    var ps := if loc.variant != "" then [loc.language, loc.country, loc.variant]
              else [loc.language, loc.country];
    if loc.variant != "" {
      assert ps[1..][1..] == [loc.variant];
      assert Join(ps[1..], '_') == loc.country + "_" + loc.variant;
    }
    assert Join(ps, '_') == Fields(loc);
    SplitOfJoin(ps, k, '_');
  }

  /** The last character of `Fields(loc)` is that of its last non-empty field, never '_'. */
  lemma FieldsLast(loc: Locale)
    requires loc.country != "" || loc.variant != ""
    requires '_' !in loc.country && '_' !in loc.variant
    ensures Fields(loc) != "" && Fields(loc)[|Fields(loc)| - 1] != '_'
  {
    var f := Fields(loc);
    if loc.variant != "" {
      assert f[|f| - 1] == loc.variant[|loc.variant| - 1];
    } else {
      assert f[|f| - 1] == loc.country[|loc.country| - 1];
    }
  }

  /**
   * `toString` undoes `getDefaultLocale` exactly when the configured string
   * was not split into parts, or was split but ends in no '_' and does not
   * start with an empty language and country ("__variant"): `split` drops
   * trailing '_' characters, and `toString` drops a variant that has neither
   * language nor country.
   */
  lemma DefaultLocaleRoundTripIff(configured: string)
    ensures var loc := DefaultLocaleOf(configured);
            ToString(loc) != configured <==>
              && (loc.country != "" || loc.variant != "")
              && (configured[|configured| - 1] == '_' || (loc.language == "" && loc.country == ""))
  {
    RoundTripOf(DefaultLocaleOf(configured), configured);
  }

  /** The round trip for any locale related to `configured` as `DefaultLocaleOf` promises. */
  lemma RoundTripOf(loc: Locale, configured: string)
    requires loc.country == "" && loc.variant == "" ==> loc == Locale(configured, "", "")
    requires loc.country != "" || loc.variant != "" ==>
               && '_' !in loc.language && '_' !in loc.country && '_' !in loc.variant
               && Fields(loc) <= configured
               && OnlyChar(configured[|Fields(loc)|..], '_')
    ensures ToString(loc) != configured <==>
              && (loc.country != "" || loc.variant != "")
              && (configured[|configured| - 1] == '_' || (loc.language == "" && loc.country == ""))
  {
    if loc.country != "" || loc.variant != "" {
      var f := Fields(loc);
      FieldsLast(loc);
      var tail := configured[|f|..];
      assert configured == f + tail;
      if loc.language != "" || loc.country != "" {
        assert ToString(loc) == f;
      } else {
        assert ToString(loc) == "";
      }
      if tail != [] {
        assert configured[|configured| - 1] == tail[|tail| - 1] == '_';
      } else {
        assert configured == f;
      }
    }
  }
}
