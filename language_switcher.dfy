/**
 * The language switcher's path rewrite: the first `/<locale>` in the current path becomes
 * `/<newLocale>`. Navigation (`router.push`, `router.refresh`) is not part of this model.
 */
module LanguageSwitcher {
  import opened Wrappers
  import opened Text
  import Routing

  /** The locales the menu offers, in menu order. */
  const MenuLocales: seq<string> := ["en", "zh"]

  /** The menu offers exactly the supported locales. */
  lemma MenuOffersSupported(l: string)
    ensures l in MenuLocales <==> Routing.IsSupported(l)
  {
  }

  /** ``pathname.replace(`/${locale}`, `/${newLocale}`)`` */
  function ChangeLocalePath(pathname: string, locale: string, newLocale: string): (r: string)
    ensures IndexOf(pathname, "/" + locale).None? ==> r == pathname
    ensures IndexOf(pathname, "/" + locale).Some? ==>
      var i := IndexOf(pathname, "/" + locale).value;
      r == pathname[..i] + "/" + newLocale + pathname[i + |locale| + 1..]
  {
    ReplaceFirst(pathname, "/" + locale, "/" + newLocale)
  }

  /**
   * The first occurrence of `/<locale>` is replaced; everything before it and everything
   * after it, later occurrences included, is kept.
   */
  lemma ReplacesOnlyFirst(pathname: string, locale: string, newLocale: string)
    requires IndexOf(pathname, "/" + locale).Some?
    ensures var i := IndexOf(pathname, "/" + locale).value;
      var r := ChangeLocalePath(pathname, locale, newLocale);
      && (forall j :: 0 <= j < i ==> !OccursAt(pathname, "/" + locale, j))
      && r[..i] == pathname[..i]
      && r[i..i + |newLocale| + 1] == "/" + newLocale
      && r[i + |newLocale| + 1..] == pathname[i + |locale| + 1..]
  {
  }

  /** A path without `/<locale>` is left as it is. */
  lemma AbsentLocaleUnchanged(pathname: string, locale: string, newLocale: string)
    requires forall j :: 0 <= j <= |pathname| ==> !OccursAt(pathname, "/" + locale, j)
    ensures ChangeLocalePath(pathname, locale, newLocale) == pathname
  {
  }

  /** Switching to the current locale gives back the same path. */
  lemma SameLocaleSamePath(pathname: string, locale: string)
    ensures ChangeLocalePath(pathname, locale, locale) == pathname
  {
    var pat := "/" + locale;
    match IndexOf(pathname, pat)
    case None =>
    case Some(i) =>
      assert pathname[i..i + |pat|] == pat;
      assert pathname == pathname[..i] + pathname[i..i + |pat|] + pathname[i + |pat|..];
  }

  /** A locale-prefixed path `/<locale><rest>` becomes `/<newLocale><rest>`. */
  lemma PrefixedPathSwitches(locale: string, newLocale: string, rest: string)
    ensures ChangeLocalePath("/" + locale + rest, locale, newLocale) == "/" + newLocale + rest
  {
    var pathname := "/" + locale + rest;
    var pat := "/" + locale;
    assert pathname[0..|pat|] == pat;
    assert IndexOf(pathname, pat) == Some(0);
    assert pathname[|pat|..] == rest;
  }

  /** Switching a prefixed path to another locale and back restores it. */
  lemma SwitchAndBack(locale: string, newLocale: string, rest: string)
    ensures ChangeLocalePath(ChangeLocalePath("/" + locale + rest, locale, newLocale), newLocale, locale)
      == "/" + locale + rest
  {
    PrefixedPathSwitches(locale, newLocale, rest);
    PrefixedPathSwitches(newLocale, locale, rest);
  }
}
