/**
 * Hreflang and canonical URLs for multi-language SEO: one URL per locale for a page path,
 * an `x-default` alternate, and one `<lang>-<COUNTRY>` alternate per supported locale.
 */
module Hreflang {
  import opened Wrappers
  import opened Text
  import Routing

  const DefaultAppUrl: string := "https://whoismakingmoney.ai"

  /** `process.env.NEXT_PUBLIC_APP_URL || 'https://whoismakingmoney.ai'` */
  function AppUrl(env: Option<string>): (r: string)
    ensures env.Some? && env.value != "" ==> r == env.value
    ensures env.None? || env == Some("") ==> r == DefaultAppUrl
  {
    if env.Some? && env.value != "" then env.value else DefaultAppUrl
  }

  /** `getLocaleUrl`: the locale segment, then the path segment when the path is non-empty. */
  function LocaleUrl(appUrl: string, locale: string, path: string): (r: string)
    ensures path == "" ==> r == appUrl + "/" + locale
    ensures path != "" ==> r == appUrl + "/" + locale + "/" + path
  {
    var basePath := if path != "" then "/" + path else "";
    appUrl + "/" + locale + basePath
  }

  /** Reads a locale URL back into its locale segment and its path. */
  function SplitLocaleUrl(appUrl: string, url: string): Option<(string, string)> {
    var prefix := appUrl + "/";
    if !StartsWith(url, prefix) then None
    else
      var rest := url[|prefix|..];
      match IndexOf(rest, "/")
      case None => Some((rest, ""))
      case Some(i) => Some((rest[..i], rest[i + 1..]))
  }

  /** A locale without `/` can be read back from its URL together with the path. */
  lemma LocaleUrlRoundTrip(appUrl: string, locale: string, path: string)
    requires '/' !in locale
    ensures SplitLocaleUrl(appUrl, LocaleUrl(appUrl, locale, path)) == Some((locale, path))
  {
    var url := LocaleUrl(appUrl, locale, path);
    var prefix := appUrl + "/";
    assert url[..|prefix|] == prefix;
    var rest := url[|prefix|..];
    forall j | 0 <= j < |locale| ensures !OccursAt(rest, "/", j) {
      assert rest[j] == locale[j] && locale[j] in locale;
      assert rest[j..j + 1] == [rest[j]];
    }
    if path == "" {
      assert rest == locale;
    } else {
      assert rest == locale + "/" + path;
      assert rest[|locale|..|locale| + 1] == "/";
      assert OccursAt(rest, "/", |locale|);
      assert IndexOf(rest, "/") == Some(|locale|);
      assert rest[..|locale|] == locale;
      assert rest[|locale| + 1..] == path;
    }
  }

  /** The hreflang key of a locale: `${lang}-${countryCode}`. */
  function HreflangKey(lang: string): (r: string)
    ensures |r| == |lang| + 3
  {
    lang + "-" + Routing.CountryCode(lang)
  }

  /** A key is the locale, `-`, and the locale's country code. */
  lemma HreflangKeyParts(lang: string)
    ensures HreflangKey(lang)[..|lang| + 1] == lang + "-"
    ensures HreflangKey(lang)[|lang| + 1..] == Routing.CountryCode(lang)
  {
    assert HreflangKey(lang) == (lang + "-") + Routing.CountryCode(lang);
  }

  /** Different locales get different hreflang keys. */
  lemma HreflangKeyInjective(a: string, b: string)
    requires HreflangKey(a) == HreflangKey(b)
    ensures a == b
  {
    assert |Routing.CountryCode(a)| == 2 && |Routing.CountryCode(b)| == 2;
    assert a == HreflangKey(a)[..|a|];
    assert b == HreflangKey(b)[..|b|];
  }

  /** The hreflang keys of the locales, in order. */
  function KeysOf(locales: seq<string>): (ks: seq<string>)
    ensures |ks| == |locales|
    ensures forall i :: 0 <= i < |locales| ==> ks[i] == HreflangKey(locales[i])
  {
    if locales == [] then [] else [HreflangKey(locales[0])] + KeysOf(locales[1..])
  }

  /** The `reduce` over the locales: each adds its key and URL to the accumulator. */
  function AddLanguageAlternates(appUrl: string, path: string, locales: seq<string>, acc: map<string, string>)
    : (r: map<string, string>)
    ensures forall k :: k in r <==> k in acc || k in KeysOf(locales)
    ensures forall i :: 0 <= i < |locales| ==>
              HreflangKey(locales[i]) in r && r[HreflangKey(locales[i])] == LocaleUrl(appUrl, locales[i], path)
    ensures forall k :: k in acc && k !in KeysOf(locales) ==> r[k] == acc[k]
  {
    if locales == [] then acc
    else
      var lang := locales[0];
      var tail := locales[1..];
      var acc' := acc[HreflangKey(lang) := LocaleUrl(appUrl, lang, path)];
      var r := AddLanguageAlternates(appUrl, path, tail, acc');
      assert KeysOf(locales) == [HreflangKey(lang)] + KeysOf(tail);
      assert r[HreflangKey(lang)] == LocaleUrl(appUrl, lang, path) by {
        if HreflangKey(lang) in KeysOf(tail) {
          var j :| 0 <= j < |tail| && KeysOf(tail)[j] == HreflangKey(lang);
          HreflangKeyInjective(tail[j], lang);
        }
      }
      assert forall i :: 0 <= i < |locales| ==>
               HreflangKey(locales[i]) in r && r[HreflangKey(locales[i])] == LocaleUrl(appUrl, locales[i], path) by {
        forall i | 0 <= i < |locales|
          ensures HreflangKey(locales[i]) in r && r[HreflangKey(locales[i])] == LocaleUrl(appUrl, locales[i], path)
        {
          if i > 0 {
            assert locales[i] == tail[i - 1];
          }
        }
      }
      r
  }

  /** Folding the supported locales gives exactly the `en-US` and `zh-CN` alternates. */
  lemma SupportedAlternates(appUrl: string, path: string)
    ensures AddLanguageAlternates(appUrl, path, Routing.SupportedLocales, map[])
      == map["en-US" := LocaleUrl(appUrl, "en", path), "zh-CN" := LocaleUrl(appUrl, "zh", path)]
  {
    var locales := Routing.SupportedLocales;
    assert HreflangKey("en") == "en-US" && HreflangKey("zh") == "zh-CN";
    var a1 := map["en-US" := LocaleUrl(appUrl, "en", path)];
    var a2 := a1["zh-CN" := LocaleUrl(appUrl, "zh", path)];
    assert locales[1..] == ["zh"] && ["zh"][1..] == [];
    assert AddLanguageAlternates(appUrl, path, locales, map[]) == AddLanguageAlternates(appUrl, path, ["zh"], a1);
    assert AddLanguageAlternates(appUrl, path, ["zh"], a1) == AddLanguageAlternates(appUrl, path, [], a2);
  }

  datatype Alternates = Alternates(canonical: string, languages: map<string, string>)

  /** The `languages` record: `x-default` first, then the folded alternates spread over it. */
  function Languages(appUrl: string, path: string): (m: map<string, string>)
    ensures m == map["x-default" := LocaleUrl(appUrl, "en", path),
                     "en-US" := LocaleUrl(appUrl, "en", path),
                     "zh-CN" := LocaleUrl(appUrl, "zh", path)]
  {
    SupportedAlternates(appUrl, path);
    map["x-default" := LocaleUrl(appUrl, "en", path)] + AddLanguageAlternates(appUrl, path, Routing.SupportedLocales, map[])
  }

  /** The three keys of the language map and the URL each one holds. */
  lemma LanguagesLookup(appUrl: string, path: string)
    ensures var m := Languages(appUrl, path);
      && m.Keys == {"x-default", "en-US", "zh-CN"}
      && m["x-default"] == LocaleUrl(appUrl, "en", path) && m["en-US"] == LocaleUrl(appUrl, "en", path)
      && m["zh-CN"] == LocaleUrl(appUrl, "zh", path)
  {
  }

  /** `generateHreflangAlternates({ locale, path })` */
  function GenerateHreflangAlternates(appUrl: string, locale: string, path: string): (r: Alternates)
    ensures r.canonical == LocaleUrl(appUrl, locale, path)
    ensures r.languages.Keys == {"x-default", "en-US", "zh-CN"}
    ensures r.languages["x-default"] == LocaleUrl(appUrl, Routing.DefaultLocale, path)
  {
    Alternates(LocaleUrl(appUrl, locale, path), Languages(appUrl, path))
  }

  /** Each supported locale's key maps to that locale's URL for the same path. */
  lemma SupportedLocaleAlternates(appUrl: string, locale: string, path: string, l: string)
    requires Routing.IsSupported(l)
    ensures var langs := GenerateHreflangAlternates(appUrl, locale, path).languages;
      HreflangKey(l) in langs && langs[HreflangKey(l)] == LocaleUrl(appUrl, l, path)
  {
    assert l == "en" || l == "zh";
    assert HreflangKey("en") == "en-US" && HreflangKey("zh") == "zh-CN";
  }

  /**
   * Every alternate is the URL of a supported locale for the same path: the alternates differ
   * only in their locale segment.
   */
  lemma AlternatesShareThePath(appUrl: string, locale: string, path: string, k: string)
    requires k in GenerateHreflangAlternates(appUrl, locale, path).languages
    ensures exists l ::
              && Routing.IsSupported(l)
              && SplitLocaleUrl(appUrl, GenerateHreflangAlternates(appUrl, locale, path).languages[k]) == Some((l, path))
  {
    var langs := GenerateHreflangAlternates(appUrl, locale, path).languages;
    LanguagesLookup(appUrl, path);
    assert k == "x-default" || k == "en-US" || k == "zh-CN";
    if k == "zh-CN" {
      assert langs[k] == LocaleUrl(appUrl, "zh", path);
      LocaleUrlRoundTrip(appUrl, "zh", path);
      assert Routing.IsSupported("zh");
    } else {
      assert langs[k] == LocaleUrl(appUrl, "en", path);
      LocaleUrlRoundTrip(appUrl, "en", path);
      assert Routing.IsSupported("en");
    }
  }

  /** `getSupportedLocales`: the routing list itself. */
  function GetSupportedLocales(): (r: seq<string>)
    ensures r == Routing.SupportedLocales
  {
    Routing.SupportedLocales
  }
}
