# whoismakingmoney-web: locale, content and session core in Dafny

This project models the logic behind the bilingual (English and Chinese) marketing and
analysis site "Who is making money". It covers five areas:

- **Locale routing** (`Routing`). The supported locales and their per-locale SEO metadata.
  The negotiation of a locale from an HTTP `Accept-Language` header: split on `,`, read an
  optional `;q=` weight, keep the lower-cased primary subtag, stable-sort by weight
  (highest first), and take the first supported entry, else `en`.
- **Hreflang** (`Hreflang`). The canonical URL of a page and its language alternates: one
  `<lang>-<COUNTRY>` key per supported locale plus an `x-default` that points at English.
- **Content** (`Content`). The choice of the MDX file behind the terms, privacy and
  analysis pages: the requested locale's file, else `en.mdx`, else nothing. Also the mapping
  of a file's frontmatter to the page's title, description and locale-formatted date.
- **Client state** (`LoginModalStore`, `UserStore`, `AuthContext`). The two persisted
  stores as classes whose actions change only the fields they name, with the persisted part
  (`partialize`) as a function. The auth provider applies the hosted provider's session
  events to the user store.
- **Presentation helpers** (`LanguageSwitcher`, `Image`). The switcher's path rewrite, and
  the image component's CDN prefixing, defaults and caption.

`Text` models the JavaScript string primitives the core uses: `indexOf`, `split` with a
string separator, `trim`, `toLowerCase` and `replace` with a string pattern. `Wrappers`
holds `Option` and `Result`.

Environment values and `Date.now()` are parameters. These are `NEXT_PUBLIC_APP_URL`,
`NEXT_PUBLIC_CDN_URL`, the working directory, and the filesystem (a map from existing paths
to parsed files). What the hosted authentication SDK returns is also a parameter: one
datatype per possible outcome, rejection included.

Weights are modelled in thousandths, following the qvalue grammar of section 12.4.2 of
RFC 9110 (`0`, `0.5`, `1.000`, at most three decimals). `Routing.QValueExact` proves that
the integer is 1000 times the decimal value the text denotes. The source compares weights
as `parseFloat` results (binary64 numbers) with `b.quality - a.quality`; the model compares
the thousandths instead. It assumes, without proving it, that rounding a qvalue to the
nearest binary64 is monotone and is injective on values in [0, 1] with at most three
decimals, so the float comparison has the same sign as the integer one and both sorts order
entries alike. The code does not follow that section
where it says `q=0` means "not acceptable": an entry weighted 0 can still win when it is the
only supported one (`Routing.OnlySupportedEntryWins`, `Routing.HeaderExample`). The model
follows the code. `;q=` is matched literally, so `zh; q=0.5` does not read as a weight.

## Model

| member | source | states |
|---|---|---|
| Routing.ConfigCoversSupported | src/i18n/routing.ts:5-18 | a locale is supported exactly when the metadata table has an entry for it |
| Routing.CountryCode | src/i18n/routing.ts:21-23 | `en` gives `US`, `zh` gives `CN`, and any locale outside the table gives `US` |
| Routing.OpenGraphLocale | src/i18n/routing.ts:25-27 | `en` gives `en_US`, `zh` gives `zh_CN`, and any locale outside the table gives `en_US` |
| Routing.LookupsAgree | src/i18n/routing.ts:9-27 | for a supported locale the Open Graph locale is the locale, `_` and its country code; any other locale gets `en`'s country code and Open Graph locale |
| Routing.CountryCodesDistinct | src/i18n/routing.ts:9-18 | distinct supported locales have distinct country codes |
| Routing.QValue | src/i18n/routing.ts:52 | a weight text is read exactly when it is an RFC 9110 qvalue, and its value is at most 1000 thousandths |
| Routing.QValueExact | src/i18n/routing.ts:52 | the thousandths read from a qvalue equal 1000 times the decimal number its text denotes |
| Routing.PrimarySubtag | src/i18n/routing.ts:53 | the match key is the lower-cased text before the first `-` of the tag |
| Routing.WeightText | src/i18n/routing.ts:51 | the weight text is absent exactly when the trimmed entry has no `;q=`, and is otherwise the second piece of its split on `;q=` |
| Routing.ParseEntry | src/i18n/routing.ts:50-55 | an entry's code is the primary subtag of the trimmed text before `;q=`, and its weight is at most 1 |
| Routing.ParsedWeight | src/i18n/routing.ts:51-52 | an entry with a non-empty weight text weighs the qvalue read from that text |
| Routing.DefaultQuality | src/i18n/routing.ts:51-52 | an entry with no weight, or an empty one, has weight 1 |
| Routing.Entries | src/i18n/routing.ts:48-55 | there is one entry per comma-separated piece of the header, in header order, each the parse of its piece |
| Routing.Insert | src/i18n/routing.ts:56 | insertion adds one element and puts either it or the old head first |
| Routing.InsertPermutes | src/i18n/routing.ts:56 | insertion adds exactly the inserted entry to the multiset |
| Routing.InsertSorted | src/i18n/routing.ts:56 | insertion into a descending sequence gives a descending sequence |
| Routing.InsertStable | src/i18n/routing.ts:56 | insertion keeps the relative order of the entries of each weight |
| Routing.SortByQuality | src/i18n/routing.ts:56 | the sort is descending by weight and a permutation of its input |
| Routing.SortStable | src/i18n/routing.ts:56 | the sort is stable: for every weight, the entries of that weight keep their header order |
| Routing.FirstSupported | src/i18n/routing.ts:59-63 | the result is a supported entry of the list at an index before which no entry is supported, i.e. the first one; none exactly when no entry is supported |
| Routing.LocaleFromAcceptLanguage | src/i18n/routing.ts:44-66 | the result is always a supported locale, and a missing or empty header gives `en` |
| Routing.BestIndex | src/i18n/routing.ts:56-63 | reference chooser: the earliest supported entry of maximum weight; none exactly when no entry is supported |
| Routing.FirstSupportedInsert | src/i18n/routing.ts:56-63 | inserting an entry into a sorted list changes the first supported entry only in the inserted entry's favour, by weight then by position |
| Routing.SortThenFirstIsBest | src/i18n/routing.ts:56-63 | sorting and then taking the first supported entry equals the reference chooser on the unsorted list |
| Routing.NegotiationPicksBest | src/i18n/routing.ts:44-66 | the negotiated locale is the code of the earliest supported entry of highest weight, and `en` when no entry is supported |
| Routing.BestUnique | src/i18n/routing.ts:56-63 | the best entry is unique |
| Routing.OnlySupportedEntryWins | src/i18n/routing.ts:56-63 | a header with one supported entry gives that entry's locale, whatever its weight, 0 included |
| Routing.SubtagExamples | src/i18n/routing.ts:53 | `zh-CN` and `ZH` both give `zh` |
| Routing.HeaderExample | src/i18n/routing.ts:44-66 | `fr,zh;q=0` negotiates `zh` |
| Text.JoinSplit | src/i18n/routing.ts:48-49 | joining the pieces of a split with the separator gives back the string |
| Text.Split | src/i18n/routing.ts:48-53 | a split always has at least one piece, as JavaScript's `split` with a string separator |
| Text.SplitSingle | src/i18n/routing.ts:51-52 | a split has a single piece exactly when the separator does not occur, so `qValue` is `undefined` exactly when `;q=` is absent |
| Text.SplitPiecesFree | src/i18n/routing.ts:48-49 | no piece of a split contains the separator |
| Text.SplitHead | src/i18n/routing.ts:51-53 | the first piece of a split is the text before the first separator, or the whole string |
| Text.Trim | src/i18n/routing.ts:51 | trimming never lengthens, and the result neither starts nor ends with JavaScript whitespace |
| Text.TrimDropsOnlyWhitespace | src/i18n/routing.ts:51 | the trimmed text is a contiguous slice of the input, and only whitespace is cut on either side |
| Text.TrimUntouched | src/i18n/routing.ts:51 | a string without whitespace at either end is its own trim |
| Text.ToLower | src/i18n/routing.ts:53 | lower-casing keeps the length and maps letters `A`-`Z` to `a`-`z`, leaving every other character |
| Text.IndexOfFrom | src/components/language-switcher.tsx:21 | the result is the first occurrence of the pattern at or after the start, or none when there is none |
| Text.ReplaceFirst | src/components/language-switcher.tsx:21 | with no occurrence the string is unchanged; otherwise the text before the first occurrence, the replacement, and the text after that occurrence |
| Hreflang.AppUrl | src/lib/hreflang.ts:7 | the environment's URL when set and non-empty, else `https://whoismakingmoney.ai` |
| Hreflang.LocaleUrl | src/lib/hreflang.ts:48-51 | `<app>/<locale>` for an empty path, else `<app>/<locale>/<path>` |
| Hreflang.LocaleUrlRoundTrip | src/lib/hreflang.ts:48-51 | for a locale without `/`, the locale and the path can be read back from the URL, so different (locale, path) pairs give different URLs |
| Hreflang.HreflangKey | src/lib/hreflang.ts:23-25 | a key is three characters longer than its locale: `-` and the two-letter country code |
| Hreflang.HreflangKeyParts | src/lib/hreflang.ts:23-25 | a key is the locale, then `-`, then the locale's country code |
| Hreflang.HreflangKeyInjective | src/lib/hreflang.ts:23-25 | different supported locales get different alternate keys |
| Hreflang.AddLanguageAlternates | src/lib/hreflang.ts:22-27 | the fold adds exactly one key per locale, mapping it to that locale's URL, and leaves other keys as they were |
| Hreflang.SupportedAlternates | src/lib/hreflang.ts:22-27 | over the supported locales the fold gives exactly `en-US` and `zh-CN` with their URLs |
| Hreflang.Languages | src/lib/hreflang.ts:31-34 | the language map is `x-default` and `en-US` to the English URL and `zh-CN` to the Chinese one |
| Hreflang.LanguagesLookup | src/lib/hreflang.ts:29-35 | the language map has exactly the keys `x-default`, `en-US` and `zh-CN`; the first two hold the English URL and the last the Chinese one |
| Hreflang.GenerateHreflangAlternates | src/lib/hreflang.ts:17-36 | the canonical URL is the requested locale's URL; the keys are exactly `x-default`, `en-US` and `zh-CN`; `x-default` is the English URL |
| Hreflang.SupportedLocaleAlternates | src/lib/hreflang.ts:22-35 | every supported locale has its `<lang>-<COUNTRY>` key, mapping to its own URL for the same path |
| Hreflang.AlternatesShareThePath | src/lib/hreflang.ts:17-51 | every alternate is the URL of some supported locale for the same path |
| Hreflang.GetSupportedLocales | src/lib/hreflang.ts:41-43 | returns the supported locales |
| Content.LegalDir | src/lib/content.ts:21 | the legal directory is the working directory followed by `/src/content/legal/` and `terms` or `privacy` |
| Content.AnalysisDir | src/lib/content.ts:94 | the analysis directory is the working directory followed by `/src/content/analysis` |
| Content.ContentDirsDistinct | src/lib/content.ts:94 | the analysis directory and the two legal directories (line 21) are pairwise different |
| Content.MdxPath | src/lib/content.ts:22-23 | a content file path is the directory, `/`, the locale and `.mdx`, with its length accounted for |
| Content.MdxPathInjective | src/lib/content.ts:22-23 | two locales give the same file of a directory exactly when they are equal, so, under plain `/` concatenation, the English fallback is a different file from any other locale's |
| Content.Fallback | src/lib/content.ts:25-39 | the locale's file if it exists; else `en.mdx` for a locale other than `en` if it exists; else nothing |
| Content.FallbackExists | src/lib/content.ts:25-39 | a selected file exists |
| Content.SelectFile | src/lib/content.ts:25-39 | the imperative probe chain selects what the fallback rule selects; the locale's file is probed first, and `en.mdx` second only for a locale other than `en` whose file is missing |
| Content.FirstTruthy | src/lib/content.ts:72 | `a \|\| b \|\| undefined`: the first truthy value, none when neither is truthy |
| Content.SeoDescription | src/lib/content.ts:72 | `data.seo?.description`: present exactly when `seo` is an object with a `description` field, and then that field |
| Content.LegalDescription | src/lib/content.ts:72 | a truthy `seo.description` wins, then a truthy `description`, else none; a result is always truthy |
| Content.IntlLocale | src/lib/content.ts:47-60 | a locale in the ten-entry table gets its tag, and any other gets `en-US` |
| Content.IntlLocaleKeepsLanguage | src/lib/content.ts:47-58 | every tag in the table is its locale, `-` and a two-letter region |
| Content.ToLegalFrontmatter | src/lib/content.ts:69-76 | the title is the frontmatter's; the description follows the precedence above; the date is present exactly when `lastUpdated` is truthy, and is then formatted for the requested locale |
| Content.GetLegalDocument | src/lib/content.ts:20-77 | no document exactly when the fallback rule finds no file; otherwise the selected file's body and mapped frontmatter |
| Content.ToAnalysisFrontmatter | src/lib/content.ts:117-123 | the title is the frontmatter's; there is a description exactly when `description` is truthy, and it is then that value |
| Content.GetAnalysisContent | src/lib/content.ts:93-124 | the same fallback over the analysis directory, with the analysis frontmatter mapping |
| Content.FallbackKeepsRequestedLocale | src/lib/content.ts:20-77 | a locale served from `en.mdx` still has its date formatted for the requested locale |
| LoginModalStore.LoginModalStore.Partialize | src/store/login-modal-store.ts:41-44 | the persisted part is the time of the last attempt and the attempt count |
| LoginModalStore.LoginModalStore.Modal | src/store/login-modal-store.ts:5-6 | the modal part is the open flag and the image URL |
| LoginModalStore.LoginModalStore.constructor | src/store/login-modal-store.ts:18-21 | starts closed, with no image, no attempt time and zero attempts |
| LoginModalStore.LoginModalStore.OpenLoginModal | src/store/login-modal-store.ts:22-25 | opens the modal; an absent or empty URL is stored as none; the persisted part is unchanged |
| LoginModalStore.LoginModalStore.CloseLoginModal | src/store/login-modal-store.ts:26-29 | closes the modal and clears the image; the persisted part is unchanged |
| LoginModalStore.LoginModalStore.RecordLoginAttempt | src/store/login-modal-store.ts:30-33 | increments the attempt count by one and stamps the time; the modal part is unchanged |
| LoginModalStore.LoginModalStore.ResetLoginAttempts | src/store/login-modal-store.ts:34-37 | clears the time and zeroes the count; the modal part is unchanged |
| LoginModalStore.AttemptsTally | src/store/login-modal-store.ts:22-37 | after a reset, two attempts interleaved with opening and closing the modal give count 2 and the second time |
| UserStore.UserStore.Partialize | src/store/user-store.ts:37-40 | the persisted part is the last login time and the login count, never the user |
| UserStore.UserStore.constructor | src/store/user-store.ts:19-22 | starts with no user, not loading, no login time and zero logins |
| UserStore.UserStore.SetUser | src/store/user-store.ts:23 | sets the user and nothing else |
| UserStore.UserStore.SetLoading | src/store/user-store.ts:24 | sets the loading flag and nothing else |
| UserStore.UserStore.RecordLogin | src/store/user-store.ts:25-28 | increments the login count by one and stamps the time; the user and the flag are unchanged |
| UserStore.UserStore.ClearUser | src/store/user-store.ts:29-33 | clears the user, the time and the count; the flag is unchanged |
| AuthContext.AuthProvider.Value | src/lib/auth-context.tsx:104 | the provided value is the store's user and the provider's own loading flag |
| AuthContext.SessionUser | src/lib/auth-context.tsx:29 | `session?.user`: present exactly when the session and its user are both present, and then that user |
| AuthContext.AuthProvider.constructor | src/lib/auth-context.tsx:17-18 | a mounted provider is loading and wraps the given store |
| AuthContext.AuthProvider.GetInitialSession | src/lib/auth-context.tsx:22-43 | a session with a user and no error sets the user and records one login; an error, a missing user or a rejection leaves the user and the persisted part; both flags end false |
| AuthContext.AuthProvider.OnAuthStateChange | src/lib/auth-context.tsx:48-67 | `SIGNED_IN` with a user sets it and records one login; `SIGNED_OUT` clears the user and keeps the counters; other events change neither; both flags end false |
| AuthContext.AuthProvider.SignOut | src/lib/auth-context.tsx:74-101 | whatever the SDK reports, the user is cleared and the persisted part is reset; the loading flags are unchanged |
| AuthContext.UseAuth | src/lib/auth-context.tsx:110-115 | outside a provider, fails with the message; inside one, returns the provider's value |
| AuthContext.SignInThenOut | src/lib/auth-context.tsx:16-101 | mounting, the initial session, a sign-in and a sign-out leave no user, zero logins and the provider not loading |
| LanguageSwitcher.MenuOffersSupported | src/components/language-switcher.tsx:35-46 | the menu offers exactly the supported locales |
| LanguageSwitcher.ChangeLocalePath | src/components/language-switcher.tsx:20-21 | without an occurrence of `/<locale>` the path is unchanged; otherwise the first occurrence is replaced by `/<newLocale>` and the text around it kept |
| LanguageSwitcher.ReplacesOnlyFirst | src/components/language-switcher.tsx:21 | the first `/<locale>` becomes `/<newLocale>`; the text before it and after it is kept, later occurrences included |
| LanguageSwitcher.AbsentLocaleUnchanged | src/components/language-switcher.tsx:21 | a path without `/<locale>` is unchanged |
| LanguageSwitcher.SameLocaleSamePath | src/components/language-switcher.tsx:21 | switching to the current locale gives back the same path |
| LanguageSwitcher.PrefixedPathSwitches | src/components/language-switcher.tsx:20-21 | `/<locale><rest>` becomes `/<newLocale><rest>` |
| LanguageSwitcher.SwitchAndBack | src/components/language-switcher.tsx:20-21 | switching a prefixed path to another locale and back restores it |
| Image.ImageSrc | src/components/ui/image.tsx:30-32 | an `http://` or `https://` source is kept; any other is prefixed with the CDN URL, or nothing when it is unset |
| Image.CdnPrefix | src/components/ui/image.tsx:32 | the CDN URL from the environment when set, else the empty string |
| Image.ImageSrcIdempotent | src/components/ui/image.tsx:30-32 | with an empty or absolute CDN prefix, resolving a resolved source changes nothing, and the result is absolute exactly when the prefix or the source is |
| Image.OrDefault | src/components/ui/image.tsx:39-40 | an absent or zero size becomes the default, and any other is kept |
| Image.CustomImage | src/components/ui/image.tsx:16-55 | the source is resolved and the alt is passed on; sizes are never 0 (800 by 400 by default); priority false, quality 75 and placeholder empty by default; a caption exactly when alt is non-empty, showing the alt |
| Image.ExplicitPropsKept | src/components/ui/image.tsx:22-44 | explicitly given non-zero sizes, priority, quality, placeholder and blur data reach the framework's image unchanged |
| Image.Image | src/components/ui/image.tsx:58-60 | the MDX component renders what the full component renders for the same source, alt and props |

## Left out

- Routing.LocaleFromAcceptLanguage: requires every present, non-empty weight to be an RFC 9110 qvalue. `parseFloat` on other text is not modelled: accepted prefixes (`0.5x`), exponents, more than three decimals, and `NaN`, which makes the sort comparator inconsistent.
- Routing.ParseEntry: requires the same of its entry's weight, for the same reason.
- Text.ToLower: lower-cases ASCII letters only; JavaScript's `toLowerCase` is full Unicode. For the two supported locales this makes no difference.
- Text.Trim: whitespace is the fixed set of JavaScript WhiteSpace and LineTerminator code points. Nothing beyond that set is modelled, and Unicode version drift in the `Zs` category is not tracked.
- Text.ReplaceFirst: `$` patterns in the replacement string (`$&`, `$1`, `$$`) are not interpreted; a locale containing `$` is not something the switcher is given.
- Content: reading and parsing files is not modelled. A path that `fs.access` finds is treated as readable and already parsed (gray-matter); a `readFile` failure after a successful access (a rejected promise) is left out. `path.join` normalisation is modelled as plain `/` concatenation.
- Content.ToLegalFrontmatter: the date is given as the raw value and the tag used to render it; the ICU rendering by `toLocaleDateString` (and an unparsable date's "Invalid Date") is not modelled.
- Content.IntlLocale: the table is a plain dictionary; keys inherited from `Object.prototype` (`constructor`, `toString`) are not modelled.
- Hreflang.GenerateHreflangAlternates: `languages` is a map, so the insertion order of the JavaScript object's keys is not modelled.
- LoginModalStore and UserStore: zustand's storage, rehydration and subscriber notification are reduced to the `partialize` projection. Counters are unbounded integers; the 2^53 limit of JavaScript numbers is not modelled.
- AuthContext: every handler runs as one atomic step, so interleavings of the asynchronous handlers are not modelled. Left out as well: console logging, the unsubscribe on unmount, the React re-render a state change causes, and the intermediate `setLoading(true)` between awaits.
- LanguageSwitcher: the navigation itself (`router.push` and `router.refresh`) and the menu's markup and translations are not modelled.
- Image: the markup, class-name merging (`cn`) and the wrapper span are not modelled. Unknown extra props that `Image` forwards beyond the declared ones are not modelled, and neither is a `NaN` size.
- The Next.js routing object and navigation helpers (`defineRouting`, `createNavigation`) are framework configuration calls with no logic of their own.
- Supabase SDK calls, the OAuth redirect construction and the middleware's cookie relay: not modelled. Their outcomes enter `AuthContext` only as parameters.
- Static configuration and metadata are not modelled: Open Graph image, manifest, sitemap, layout, Next.js config, analytics, structured data. Neither are the third-party script loaders and the health check. They hold constants, environment reads or calls into outside services.
