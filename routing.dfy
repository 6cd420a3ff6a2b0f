/**
 * Locale routing: the supported locales, the per-locale country and Open Graph tables,
 * and the negotiation of a locale from an HTTP `Accept-Language` header
 * (section 12.5.4 of RFC 9110), as the site does it.
 */
module Routing {
  import opened Wrappers
  import opened Text

  const SupportedLocales: seq<string> := ["en", "zh"]
  const DefaultLocale: string := "en"

  datatype LocaleInfo = LocaleInfo(countryCode: string, openGraphLocale: string)

  const LocaleConfig: map<string, LocaleInfo> :=
    map["en" := LocaleInfo("US", "en_US"), "zh" := LocaleInfo("CN", "zh_CN")]

  predicate IsSupported(code: string) {
    code in SupportedLocales
  }

  /** The country half of a locale's region tag; `'US'` for a locale without an entry. */
  function CountryCode(locale: string): (r: string)
    ensures locale == "en" ==> r == "US"
    ensures locale == "zh" ==> r == "CN"
    ensures locale !in LocaleConfig ==> r == "US"
  {
    if locale in LocaleConfig && LocaleConfig[locale].countryCode != "" then LocaleConfig[locale].countryCode
    else "US"
  }

  /** The Open Graph `og:locale` value; `'en_US'` for a locale without an entry. */
  function OpenGraphLocale(locale: string): (r: string)
    ensures locale == "en" ==> r == "en_US"
    ensures locale == "zh" ==> r == "zh_CN"
    ensures locale !in LocaleConfig ==> r == "en_US"
  {
    if locale in LocaleConfig && LocaleConfig[locale].openGraphLocale != "" then LocaleConfig[locale].openGraphLocale
    else "en_US"
  }

  /** The table has an entry for exactly the supported locales. */
  lemma ConfigCoversSupported(locale: string)
    ensures locale in LocaleConfig <==> IsSupported(locale)
  {
  }

  /**
   * For a supported locale the Open Graph locale is the locale and its country joined by `_`;
   * any other string gets the default locale's values for both lookups.
   */
  lemma {:induction false} LookupsAgree(locale: string)
    ensures IsSupported(locale) ==> OpenGraphLocale(locale) == locale + "_" + CountryCode(locale)
    ensures !IsSupported(locale) ==>
      CountryCode(locale) == CountryCode(DefaultLocale) && OpenGraphLocale(locale) == OpenGraphLocale(DefaultLocale)
  {
    if IsSupported(locale) {
      assert locale == "en" || locale == "zh";
    } else {
      ConfigCoversSupported(locale);
    }
  }

  /** Different supported locales have different country codes. */
  lemma CountryCodesDistinct(a: string, b: string)
    requires IsSupported(a) && IsSupported(b) && a != b
    ensures CountryCode(a) != CountryCode(b)
  {
  }

  // ---------------------------------------------------------------------------
  // Quality values (section 12.4.2 of RFC 9110), as integer thousandths
  // ---------------------------------------------------------------------------

  predicate IsDigit(c: char) {
    '0' <= c <= '9'
  }

  function DigitValue(c: char): (d: nat)
    requires IsDigit(c)
    ensures d <= 9
  {
    c as int - '0' as int
  }

  /** `qvalue = ( "0" [ "." 0*3DIGIT ] ) / ( "1" [ "." 0*3("0") ] )` */
  predicate IsQValue(s: string) {
    || s == "0" || s == "1"
    || (2 <= |s| <= 5 && s[1] == '.' && s[0] == '0' && forall i :: 2 <= i < |s| ==> IsDigit(s[i]))
    || (2 <= |s| <= 5 && s[1] == '.' && s[0] == '1' && forall i :: 2 <= i < |s| ==> s[i] == '0')
  }

  /** The value of the decimal fraction digits `f`: 0.d1d2... */
  ghost function FractionValue(f: string): real
    requires forall i :: 0 <= i < |f| ==> IsDigit(f[i])
  {
    if f == [] then 0.0 else (DigitValue(f[0]) as real + FractionValue(f[1..])) / 10.0
  }

  /** The exact decimal number a qvalue's text denotes. */
  ghost function QValueReal(s: string): real
    requires IsQValue(s)
  {
    if |s| == 1 then DigitValue(s[0]) as real else DigitValue(s[0]) as real + FractionValue(s[2..])
  }

  /** The digit at position `i` of `s`, or 0 past its end. */
  function DigitOrZero(s: string, i: nat): (d: nat)
    ensures d <= 9
  {
    if i < |s| && IsDigit(s[i]) then DigitValue(s[i]) else 0
  }

  /** An RFC qvalue as thousandths, `None` for any other text. */
  function QValue(s: string): (r: Option<nat>)
    ensures r.Some? <==> IsQValue(s)
    ensures r.Some? ==> r.value <= 1000
  {
    if !IsQValue(s) then None
    else if s[0] == '1' then Some(1000)
    else Some(100 * DigitOrZero(s, 2) + 10 * DigitOrZero(s, 3) + DigitOrZero(s, 4))
  }

  /** Up to three fraction digits, read as thousandths. */
  lemma FractionThousandths(f: string)
    requires |f| <= 3 && forall i :: 0 <= i < |f| ==> IsDigit(f[i])
    ensures 1000.0 * FractionValue(f) == (100 * DigitOrZero(f, 0) + 10 * DigitOrZero(f, 1) + DigitOrZero(f, 2)) as real
  {
    if |f| >= 1 {
      var g := f[1..];
      assert forall i :: 0 <= i < |g| ==> IsDigit(g[i]);
      if |g| >= 1 {
        var h := g[1..];
        assert forall i :: 0 <= i < |h| ==> IsDigit(h[i]);
        if |h| >= 1 {
          assert h[1..] == [];
        }
      }
    }
  }

  /** The thousandths are exactly 1000 times the decimal the qvalue's text denotes. */
  lemma QValueExact(s: string)
    requires IsQValue(s)
    ensures QValue(s).value as real == 1000.0 * QValueReal(s)
  {
    if |s| > 1 {
      var f := s[2..];
      assert forall i :: 0 <= i < |f| ==> IsDigit(f[i]);
      FractionThousandths(f);
      assert DigitOrZero(s, 2) == DigitOrZero(f, 0);
      assert DigitOrZero(s, 3) == DigitOrZero(f, 1);
      assert DigitOrZero(s, 4) == DigitOrZero(f, 2);
    }
  }

  // ---------------------------------------------------------------------------
  // Parsing the header
  // ---------------------------------------------------------------------------

  /** One parsed header entry: the primary subtag and its weight in thousandths. */
  datatype Entry = Entry(code: string, quality: nat)

  /** `code.split('-')[0].toLowerCase()` */
  function PrimarySubtag(tag: string): (r: string)
    ensures IndexOf(tag, "-").None? ==> r == ToLower(tag)
    ensures IndexOf(tag, "-").Some? ==> r == ToLower(tag[..IndexOf(tag, "-").value])
  {
    SplitHead(tag, "-");
    ToLower(Split(tag, "-")[0])
  }

  /** The text after the first `;q=`, up to a second one if present (`undefined` when absent). */
  function WeightText(entry: string): (r: Option<string>)
    ensures r.None? <==> IndexOf(Trim(entry), ";q=").None?
    ensures r.Some? ==> r.value == Split(Trim(entry), ";q=")[1]
  {
    SplitSingle(Trim(entry), ";q=");
    var parts := Split(Trim(entry), ";q=");
    if |parts| >= 2 then Some(parts[1]) else None
  }

  /** The weight is absent, empty, or an RFC qvalue. */
  predicate HasModelledWeight(entry: string) {
    WeightText(entry).None? || WeightText(entry).value == "" || IsQValue(WeightText(entry).value)
  }

  /** One comma-separated entry: trim, split off `;q=`, default the weight to 1. */
  function ParseEntry(entry: string): (r: Entry)
    requires HasModelledWeight(entry)
    ensures r.quality <= 1000
    ensures r.code == PrimarySubtag(Split(Trim(entry), ";q=")[0])
  {
    var parts := Split(Trim(entry), ";q=");
    var quality := if |parts| < 2 || parts[1] == "" then 1000 else QValue(parts[1]).value;
    Entry(PrimarySubtag(parts[0]), quality)
  }

  /** An entry with a non-empty weight text weighs the qvalue that text denotes. */
  lemma ParsedWeight(entry: string)
    requires HasModelledWeight(entry)
    requires WeightText(entry).Some? && WeightText(entry).value != ""
    ensures QValue(WeightText(entry).value) == Some(ParseEntry(entry).quality)
  {
  }

  /** An entry without a `;q=` part, or with nothing after it, weighs 1 (1000 thousandths). */
  lemma DefaultQuality(entry: string)
    requires WeightText(entry).None? || WeightText(entry) == Some("")
    ensures ParseEntry(entry).quality == 1000
  {
  }

  /** Every weight in the header is absent, empty or an RFC qvalue. */
  predicate WeightsModelled(header: string) {
    forall e :: e in Split(header, ",") ==> HasModelledWeight(e)
  }

  /** The entries of the header, in header order. */
  function Entries(header: string): (es: seq<Entry>)
    requires WeightsModelled(header)
    ensures |es| == |Split(header, ",")|
    ensures forall i :: 0 <= i < |es| ==> es[i] == ParseEntry(Split(header, ",")[i])
  {
    var pieces := Split(header, ",");
    seq(|pieces|, i requires 0 <= i < |pieces| => ParseEntry(pieces[i]))
  }

  // ---------------------------------------------------------------------------
  // The stable sort by descending quality
  // ---------------------------------------------------------------------------

  predicate SortedDesc(s: seq<Entry>) {
    forall i, j :: 0 <= i < j < |s| ==> s[i].quality >= s[j].quality
  }

  /** The entries of weight `w`, in order. */
  function WithQuality(s: seq<Entry>, w: nat): seq<Entry> {
    if s == [] then [] else (if s[0].quality == w then [s[0]] else []) + WithQuality(s[1..], w)
  }

  /** Insert `x` in front of every entry of no greater weight. */
  function Insert(x: Entry, t: seq<Entry>): (r: seq<Entry>)
    ensures |r| == |t| + 1
    ensures r[0] == x || (t != [] && r[0] == t[0])
  {
    if t == [] then [x]
    else if x.quality >= t[0].quality then [x] + t
    else [t[0]] + Insert(x, t[1..])
  }

  /** Inserting adds exactly `x`. */
  lemma {:induction false} InsertPermutes(x: Entry, t: seq<Entry>)
    ensures multiset(Insert(x, t)) == multiset(t) + multiset{x}
  {
    if t != [] && x.quality < t[0].quality {
      InsertPermutes(x, t[1..]);
      assert t == [t[0]] + t[1..];
    }
  }

  /** Inserting into a sorted list keeps it sorted. */
  lemma {:induction false} InsertSorted(x: Entry, t: seq<Entry>)
    requires SortedDesc(t)
    ensures SortedDesc(Insert(x, t))
  {
    if t != [] && x.quality < t[0].quality {
      var rest := Insert(x, t[1..]);
      InsertSorted(x, t[1..]);
      var r := [t[0]] + rest;
      assert t[0].quality >= rest[0].quality by {
        if |t| > 1 { assert t[0].quality >= t[1].quality; }
      }
      forall i, j | 0 <= i < j < |r| ensures r[i].quality >= r[j].quality {
        if i == 0 {
          assert r[j] == rest[j - 1];
          assert rest[0].quality >= rest[j - 1].quality || j == 1;
        } else {
          assert r[i] == rest[i - 1] && r[j] == rest[j - 1];
        }
      }
    }
  }

  /** `WithQuality` over a sequence with a known first element. */
  lemma WithQualityCons(e: Entry, s: seq<Entry>, w: nat)
    ensures WithQuality([e] + s, w) == (if e.quality == w then [e] else []) + WithQuality(s, w)
  {
    assert ([e] + s)[1..] == s;
  }

  /** Inserting `x` puts it ahead of the entries of its own weight and keeps their order. */
  lemma {:induction false} InsertStable(x: Entry, t: seq<Entry>, w: nat)
    ensures WithQuality(Insert(x, t), w) == (if x.quality == w then [x] else []) + WithQuality(t, w)
  {
    if t == [] {
      WithQualityCons(x, [], w);
      assert [x] + [] == [x];
    } else if x.quality >= t[0].quality {
      WithQualityCons(x, t, w);
    } else {
      var rest := Insert(x, t[1..]);
      InsertStable(x, t[1..], w);
      WithQualityCons(t[0], rest, w);
      WithQualityCons(t[0], t[1..], w);
      assert [t[0]] + t[1..] == t;
      var e: seq<Entry> := if x.quality == w then [x] else [];
      var h: seq<Entry> := if t[0].quality == w then [t[0]] else [];
      assert x.quality == w ==> h == [];
      assert h + (e + WithQuality(t[1..], w)) == e + (h + WithQuality(t[1..], w));
    }
  }

  /**
   * `Array.prototype.sort` with the comparator `b.quality - a.quality`: descending by weight,
   * and stable (ECMA-262 requires stability), so entries of equal weight keep header order.
   */
  function SortByQuality(s: seq<Entry>): (r: seq<Entry>)
    ensures SortedDesc(r)
    ensures multiset(r) == multiset(s)
  {
    if s == [] then []
    else
      assert s == [s[0]] + s[1..];
      InsertSorted(s[0], SortByQuality(s[1..]));
      InsertPermutes(s[0], SortByQuality(s[1..]));
      Insert(s[0], SortByQuality(s[1..]))
  }

  /** The sort is stable: for every weight, the entries of that weight keep header order. */
  lemma {:induction false} SortStable(s: seq<Entry>, w: nat)
    ensures WithQuality(SortByQuality(s), w) == WithQuality(s, w)
  {
    if s != [] {
      SortStable(s[1..], w);
      InsertStable(s[0], SortByQuality(s[1..]), w);
    }
  }

  // ---------------------------------------------------------------------------
  // Choosing the locale
  // ---------------------------------------------------------------------------

  /** The `for ... of` loop: the first entry whose code is a supported locale. */
  function FirstSupported(s: seq<Entry>): (r: Option<Entry>)
    ensures r.Some? ==> r.value in s && IsSupported(r.value.code)
    ensures r.Some? ==> exists i ::
              && 0 <= i < |s| && s[i] == r.value
              && forall j :: 0 <= j < i ==> !IsSupported(s[j].code)
    ensures r.None? <==> forall e :: e in s ==> !IsSupported(e.code)
  {
    if s == [] then None
    else if IsSupported(s[0].code) then Some(s[0])
    else
      var r := FirstSupported(s[1..]);
      if r.None? then None
      else
        var k :| 0 <= k < |s[1..]| && s[1..][k] == r.value
                 && forall j :: 0 <= j < k ==> !IsSupported(s[1..][j].code);
        assert forall j :: 0 <= j < k + 1 ==> !IsSupported(s[j].code) by {
          forall j | 0 <= j < k + 1 ensures !IsSupported(s[j].code) {
            if j > 0 { assert s[j] == s[1..][j - 1]; }
          }
        }
        assert s[k + 1] == r.value;
        r
  }

  /** `getLocaleFromAcceptLanguage`; `None` is a `null` header. */
  function LocaleFromAcceptLanguage(header: Option<string>): (r: string)
    requires header.Some? ==> WeightsModelled(header.value)
    ensures IsSupported(r)
    ensures header.None? || header == Some("") ==> r == DefaultLocale
  {
    if header.None? || header.value == "" then DefaultLocale
    else
      match FirstSupported(SortByQuality(Entries(header.value)))
      case Some(e) => e.code
      case None => DefaultLocale
  }

  /**
   * Entry `i` is the one the rule should pick: supported, of the greatest weight among
   * supported entries, and the earliest of that weight.
   */
  ghost predicate IsBest(s: seq<Entry>, i: int) {
    && 0 <= i < |s| && IsSupported(s[i].code)
    && (forall j :: 0 <= j < |s| && IsSupported(s[j].code) ==> s[j].quality <= s[i].quality)
    && (forall j :: 0 <= j < i && IsSupported(s[j].code) ==> s[j].quality < s[i].quality)
  }

  /** A reference chooser, scanning the unsorted entries: the index of the best entry. */
  function BestIndex(s: seq<Entry>): (r: Option<nat>)
    ensures r.Some? ==> IsBest(s, r.value)
    ensures r.None? <==> forall j :: 0 <= j < |s| ==> !IsSupported(s[j].code)
  {
    if s == [] then None
    else
      var b := BestIndex(s[1..]);
      if IsSupported(s[0].code) && (b.None? || s[0].quality >= s[1..][b.value].quality) then Some(0)
      else if b.None? then None
      else Some(b.value + 1)
  }

  /** The first supported entry after inserting `x` into a sorted list. */
  lemma {:induction false} FirstSupportedInsert(x: Entry, t: seq<Entry>)
    requires SortedDesc(t)
    ensures FirstSupported(Insert(x, t)) ==
      if IsSupported(x.code) && (FirstSupported(t).None? || x.quality >= FirstSupported(t).value.quality)
      then Some(x) else FirstSupported(t)
  {
    if t == [] {
    } else if x.quality >= t[0].quality {
      assert ([x] + t)[1..] == t;
      var p := FirstSupported(t);
      if p.Some? {
        var k :| 0 <= k < |t| && t[k] == p.value;
        assert t[0].quality >= t[k].quality;
      }
    } else {
      var rest := Insert(x, t[1..]);
      assert ([t[0]] + rest)[1..] == rest;
      if !IsSupported(t[0].code) {
        FirstSupportedInsert(x, t[1..]);
      }
    }
  }

  /** The pick after the stable sort as a function of the unsorted entries. */
  function BestEntry(s: seq<Entry>): Option<Entry> {
    match BestIndex(s)
    case Some(i) => Some(s[i])
    case None => None
  }

  lemma {:induction false} SortThenFirstIsBest(s: seq<Entry>)
    ensures FirstSupported(SortByQuality(s)) == BestEntry(s)
  {
    if s != [] {
      SortThenFirstIsBest(s[1..]);
      FirstSupportedInsert(s[0], SortByQuality(s[1..]));
    }
  }

  /**
   * Negotiation returns the code of the earliest entry of greatest weight among the supported
   * ones, or the default locale when no entry is supported. Weight 0 is not excluded.
   */
  lemma NegotiationPicksBest(header: string)
    requires header != "" && WeightsModelled(header)
    ensures var es := Entries(header);
      && ((forall j :: 0 <= j < |es| ==> !IsSupported(es[j].code)) ==> LocaleFromAcceptLanguage(Some(header)) == DefaultLocale)
      && (forall i :: IsBest(es, i) ==> LocaleFromAcceptLanguage(Some(header)) == es[i].code)
  {
    var es := Entries(header);
    SortThenFirstIsBest(es);
    forall i | IsBest(es, i) ensures LocaleFromAcceptLanguage(Some(header)) == es[i].code {
      var b := BestIndex(es).value;
      BestUnique(es, i, b);
    }
  }

  /** At most one entry is the best. */
  lemma BestUnique(s: seq<Entry>, i: int, k: int)
    requires IsBest(s, i) && IsBest(s, k)
    ensures i == k
  {
  }

  /** Any supported entry is returned when it is the only one, whatever its weight, even 0. */
  lemma OnlySupportedEntryWins(header: string, i: nat)
    requires header != "" && WeightsModelled(header)
    requires i < |Entries(header)| && IsSupported(Entries(header)[i].code)
    requires forall j :: 0 <= j < |Entries(header)| && j != i ==> !IsSupported(Entries(header)[j].code)
    ensures LocaleFromAcceptLanguage(Some(header)) == Entries(header)[i].code
  {
    NegotiationPicksBest(header);
    assert IsBest(Entries(header), i);
  }

  // ---------------------------------------------------------------------------
  // Worked examples
  // ---------------------------------------------------------------------------

  /** `zh-CN` and `ZH` both reduce to `zh`. */
  lemma SubtagExamples()
    ensures PrimarySubtag("zh-CN") == "zh" && PrimarySubtag("ZH") == "zh"
  {
    var s := "zh-CN";
    assert s[..2] == "zh" && s[2..3] == "-";
    FirstOccurrence(s, "-", 2);
    AbsentPattern("ZH", "-");
    assert ToLower("zh") == "zh" && ToLower("ZH") == "zh";
  }

  /** The pieces of `fr,zh;q=0`. */
  lemma SplitExample(h: string)
    requires h == "fr,zh;q=0"
    ensures Split(h, ",") == ["fr", "zh;q=0"]
  {
    assert h[..2] == "fr" && h[2..3] == ",";
    FirstOccurrence(h, ",", 2);
    var b := "zh;q=0";
    assert h[3..] == b;
    AbsentPattern(b, ",");
    assert Split(b, ",") == [b];
    assert Split(h, ",") == [h[..2]] + Split(b, ",");
  }

  /** `zh;q=0` is already trimmed and splits into `zh` and `0` at `;q=`. */
  lemma ZhEntryPieces(b: string)
    requires b == "zh;q=0"
    ensures Trim(b) == b && Split(b, ";q=") == ["zh", "0"]
  {
    TrimUntouched(b);
    assert b[..2] == "zh" && b[2..5] == ";q=" && b[5..] == "0";
    FirstOccurrence(b, ";q=", 2);
    AbsentPattern("0", ";q=");
  }

  /** `zh;q=0` weighs 0. */
  lemma ZhEntry(b: string)
    requires b == "zh;q=0"
    ensures HasModelledWeight(b) && ParseEntry(b) == Entry("zh", 0)
  {
    ZhEntryPieces(b);
    assert QValue("0") == Some(0);
    AbsentPattern("zh", "-");
    assert ToLower("zh") == "zh";
  }

  /** `fr` has no weight, so it weighs 1. */
  lemma FrEntry(f: string)
    requires f == "fr"
    ensures HasModelledWeight(f) && ParseEntry(f) == Entry("fr", 1000)
  {
    TrimUntouched(f);
    AbsentPattern(f, ";q=");
    AbsentPattern(f, "-");
    assert ToLower(f) == "fr";
  }

  /** Both entries of `fr,zh;q=0` have modelled weights. */
  lemma ExampleWeights(h: string)
    requires h == "fr,zh;q=0"
    ensures WeightsModelled(h)
  {
    SplitExample(h);
    var pieces := Split(h, ",");
    FrEntry(pieces[0]);
    ZhEntry(pieces[1]);
    forall e | e in pieces ensures HasModelledWeight(e) {
      assert e == pieces[0] || e == pieces[1];
    }
  }

  /** A header of two pieces has the two entries parsed from them. */
  lemma TwoEntries(h: string, p0: string, p1: string)
    requires WeightsModelled(h) && Split(h, ",") == [p0, p1]
    ensures HasModelledWeight(p0) && HasModelledWeight(p1)
    ensures Entries(h) == [ParseEntry(p0), ParseEntry(p1)]
  {
    assert p0 in Split(h, ",") && p1 in Split(h, ",");
  }

  /** `fr,zh;q=0` has the entries `fr` at weight 1 and `zh` at weight 0. */
  lemma EntriesExample(h: string)
    requires h == "fr,zh;q=0"
    ensures WeightsModelled(h)
    ensures Entries(h) == [Entry("fr", 1000), Entry("zh", 0)]
  {
    ExampleWeights(h);
    SplitExample(h);
    TwoEntries(h, "fr", "zh;q=0");
    FrEntry("fr");
    ZhEntry("zh;q=0");
  }

  /**
   * `fr,zh;q=0` negotiates `zh`: the only supported entry wins even with weight 0. The header
   * is a parameter equal to the literal, and the steps are split over the small lemmas above,
   * only to keep the verifier from unfolding the parser on literals all at once.
   */
  lemma HeaderExample(h: string)
    requires h == "fr,zh;q=0"
    ensures WeightsModelled(h)
    ensures LocaleFromAcceptLanguage(Some(h)) == "zh"
  {
    EntriesExample(h);
    var es := Entries(h);
    assert !IsSupported("fr") by {
      assert "fr" != "en" && "fr" != "zh";
    }
    forall j | 0 <= j < |es| && j != 1 ensures !IsSupported(es[j].code) {
      assert j == 0;
    }
    OnlySupportedEntryWins(h, 1);
  }
}
