/**
 * MDX content lookup for the legal pages (terms, privacy) and the analysis page: the file for
 * the requested locale, else the English file, else nothing; and the mapping of a file's
 * frontmatter to the fields the pages use.
 *
 * The filesystem is a map from existing paths to already-parsed files; reading and parsing
 * MDX (gray-matter) is not part of this model.
 */
module Content {
  import opened Wrappers

  /** A frontmatter value as gray-matter produces it. */
  datatype Value =
    | Text(s: string)
    | Number(n: int)
    | Flag(b: bool)
    | Date(millis: int)
    | List(items: seq<Value>)
    | Record(fields: map<string, Value>)
    | Null

  /** JavaScript truthiness of a value. */
  predicate Truthy(v: Value) {
    match v
    case Text(s) => s != ""
    case Number(n) => n != 0
    case Flag(b) => b
    case Date(_) => true
    case List(_) => true
    case Record(_) => true
    case Null => false
  }

  /** `undefined` counts as falsy too. */
  predicate TruthyOpt(v: Option<Value>) {
    v.Some? && Truthy(v.value)
  }

  type Frontmatter = map<string, Value>

  /** A parsed MDX file: its frontmatter and its body. */
  datatype MdxFile = MdxFile(data: Frontmatter, content: string)

  /** The files that exist, by path. */
  type Disk = map<string, MdxFile>

  datatype LegalType = Terms | Privacy

  function LegalTypeName(t: LegalType): string {
    match t
    case Terms => "terms"
    case Privacy => "privacy"
  }

  /** `path.join(process.cwd(), 'src', 'content', 'legal', type)` */
  function LegalDir(cwd: string, t: LegalType): (r: string)
    ensures |r| == |cwd| + 19 + |LegalTypeName(t)|
    ensures r[..|cwd|] == cwd && r[|cwd|..] == "/src/content/legal/" + LegalTypeName(t)
  {
    cwd + "/src/content/legal/" + LegalTypeName(t)
  }

  /** `path.join(process.cwd(), 'src', 'content', 'analysis')` */
  function AnalysisDir(cwd: string): (r: string)
    ensures |r| == |cwd| + 21
    ensures r[..|cwd|] == cwd && r[|cwd|..] == "/src/content/analysis"
  {
    cwd + "/src/content/analysis"
  }

  /** `path.join(baseDir, `${locale}.mdx`)` */
  function MdxPath(baseDir: string, locale: string): (r: string)
    ensures |r| == |baseDir| + |locale| + 5
    ensures r[..|baseDir| + 1] == baseDir + "/" && r[|baseDir| + 1..|r| - 4] == locale
    ensures r[|r| - 4..] == ".mdx"
  {
    baseDir + "/" + locale + ".mdx"
  }

  /** Different locales probe different files of a directory. */
  lemma MdxPathInjective(baseDir: string, a: string, b: string)
    ensures MdxPath(baseDir, a) == MdxPath(baseDir, b) <==> a == b
  {
    if MdxPath(baseDir, a) == MdxPath(baseDir, b) {
      var r := MdxPath(baseDir, a);
      assert a == r[|baseDir| + 1..|r| - 4] == b;
    }
  }

  /** The terms, privacy and analysis pages read from three different directories. */
  lemma ContentDirsDistinct(cwd: string)
    ensures LegalDir(cwd, Terms) != LegalDir(cwd, Privacy)
    ensures LegalDir(cwd, Terms) != AnalysisDir(cwd) && LegalDir(cwd, Privacy) != AnalysisDir(cwd)
  {
    assert |LegalDir(cwd, Terms)| == |cwd| + 24;
    assert |LegalDir(cwd, Privacy)| == |cwd| + 26;
    assert |AnalysisDir(cwd)| == |cwd| + 21;
  }

  // ---------------------------------------------------------------------------
  // File selection
  // ---------------------------------------------------------------------------

  /** The fallback rule: the locale's file, else `en.mdx` for another locale, else nothing. */
  function Fallback(disk: Disk, baseDir: string, locale: string): (r: Option<string>)
    ensures MdxPath(baseDir, locale) in disk ==> r == Some(MdxPath(baseDir, locale))
    ensures (MdxPath(baseDir, locale) !in disk && locale != "en" && MdxPath(baseDir, "en") in disk)
              ==> r == Some(MdxPath(baseDir, "en"))
    ensures MdxPath(baseDir, locale) !in disk && locale == "en" ==> r == None
    ensures MdxPath(baseDir, locale) !in disk && MdxPath(baseDir, "en") !in disk ==> r == None
  {
    if MdxPath(baseDir, locale) in disk then Some(MdxPath(baseDir, locale))
    else if locale != "en" && MdxPath(baseDir, "en") in disk then Some(MdxPath(baseDir, "en"))
    else None
  }

  /** A selected file always exists. */
  lemma FallbackExists(disk: Disk, baseDir: string, locale: string)
    ensures Fallback(disk, baseDir, locale).Some? ==> Fallback(disk, baseDir, locale).value in disk
  {
  }

  /**
   * The `fs.access` chain: returns the file to read, if any, and the paths probed in order.
   * The English file is probed only for a locale other than `en` whose own file is missing.
   */
  method SelectFile(disk: Disk, baseDir: string, locale: string) returns (file: Option<string>, probes: seq<string>)
    ensures file == Fallback(disk, baseDir, locale)
    ensures file.Some? ==> file.value in disk
    ensures 1 <= |probes| <= 2 && probes[0] == MdxPath(baseDir, locale)
    ensures |probes| == 2 <==> MdxPath(baseDir, locale) !in disk && locale != "en"
    ensures |probes| == 2 ==> probes[1] == MdxPath(baseDir, "en")
  {
    var localeFile := MdxPath(baseDir, locale);
    var fallbackFile := MdxPath(baseDir, "en");
    var fileToRead := localeFile;
    probes := [localeFile];
    if localeFile !in disk {
      if locale != "en" {
        probes := probes + [fallbackFile];
        if fallbackFile in disk {
          fileToRead := fallbackFile;
        } else {
          return None, probes;
        }
      } else {
        return None, probes;
      }
    }
    file := Some(fileToRead);
  }

  // ---------------------------------------------------------------------------
  // Frontmatter mapping
  // ---------------------------------------------------------------------------

  /** `data[name]`, `undefined` when absent. */
  function Field(data: Frontmatter, name: string): Option<Value> {
    if name in data then Some(data[name]) else None
  }

  /** `data.seo?.description`: only an object `seo` has fields. */
  function SeoDescription(data: Frontmatter): (r: Option<Value>)
    ensures r.Some? <==> "seo" in data && data["seo"].Record? && "description" in data["seo"].fields
    ensures r.Some? ==> r.value == data["seo"].fields["description"]
  {
    if "seo" in data && data["seo"].Record? && "description" in data["seo"].fields
    then Some(data["seo"].fields["description"])
    else None
  }

  /** `a || b || undefined` */
  function FirstTruthy(a: Option<Value>, b: Option<Value>): (r: Option<Value>)
    ensures r.Some? <==> TruthyOpt(a) || TruthyOpt(b)
    ensures TruthyOpt(a) ==> r == a
    ensures !TruthyOpt(a) && TruthyOpt(b) ==> r == b
  {
    if TruthyOpt(a) then a else if TruthyOpt(b) then b else None
  }

  /** Legal description: `seo.description` if truthy, else `description` if truthy, else none. */
  function LegalDescription(data: Frontmatter): (r: Option<Value>)
    ensures r.Some? ==> Truthy(r.value)
    ensures TruthyOpt(SeoDescription(data)) ==> r == SeoDescription(data)
    ensures !TruthyOpt(SeoDescription(data)) && TruthyOpt(Field(data, "description")) ==> r == Field(data, "description")
    ensures r.None? <==> !TruthyOpt(SeoDescription(data)) && !TruthyOpt(Field(data, "description"))
  {
    FirstTruthy(SeoDescription(data), Field(data, "description"))
  }

  const LocaleMap: map<string, string> := map[
    "zh" := "zh-CN", "en" := "en-US", "fr" := "fr-FR", "es" := "es-ES", "de" := "de-DE",
    "it" := "it-IT", "pt" := "pt-PT", "ru" := "ru-RU", "ja" := "ja-JP", "ko" := "ko-KR"]

  /** `localeMap[locale] || 'en-US'`: the BCP 47 tag handed to `toLocaleDateString`. */
  function IntlLocale(locale: string): (r: string)
    ensures locale !in LocaleMap ==> r == "en-US"
    ensures locale in LocaleMap ==> r == LocaleMap[locale]
  {
    if locale in LocaleMap && LocaleMap[locale] != "" then LocaleMap[locale] else "en-US"
  }

  /** A table locale gets its own language with a region (`ja` gives `ja-JP`). */
  lemma IntlLocaleKeepsLanguage(locale: string)
    requires locale in LocaleMap
    ensures |IntlLocale(locale)| == |locale| + 3
    ensures IntlLocale(locale)[..|locale| + 1] == locale + "-"
  {
    assert locale in {"zh", "en", "fr", "es", "de", "it", "pt", "ru", "ja", "ko"};
  }

  /**
   * The result of `formatDate(dateString, locale)`: the raw value and the locale tag it is
   * rendered with. The rendering itself is ICU's and is not modelled.
   */
  datatype FormattedDate = FormattedDate(raw: Value, intlLocale: string)

  datatype LegalFrontmatter = LegalFrontmatter(title: Option<Value>, description: Option<Value>,
                                               lastUpdated: Option<FormattedDate>)

  datatype LegalDoc = LegalDoc(frontmatter: LegalFrontmatter, content: string)

  /** The frontmatter of a legal document; dates are formatted for the requested locale. */
  function ToLegalFrontmatter(data: Frontmatter, locale: string): (f: LegalFrontmatter)
    ensures f.title == Field(data, "title")
    ensures f.description == LegalDescription(data)
    ensures f.lastUpdated.None? <==> !TruthyOpt(Field(data, "lastUpdated"))
    ensures f.lastUpdated.Some? ==>
      f.lastUpdated.value == FormattedDate(data["lastUpdated"], IntlLocale(locale))
  {
    var lastUpdated := if "lastUpdated" in data && Truthy(data["lastUpdated"])
      then Some(FormattedDate(data["lastUpdated"], IntlLocale(locale))) else None;
    LegalFrontmatter(Field(data, "title"), LegalDescription(data), lastUpdated)
  }

  /** `getLegalDocument(type, locale)` */
  method GetLegalDocument(disk: Disk, cwd: string, t: LegalType, locale: string) returns (doc: Option<LegalDoc>)
    ensures doc.None? <==> Fallback(disk, LegalDir(cwd, t), locale).None?
    ensures doc.Some? ==>
      var file := disk[Fallback(disk, LegalDir(cwd, t), locale).value];
      doc.value == LegalDoc(ToLegalFrontmatter(file.data, locale), file.content)
  {
    var baseDir := LegalDir(cwd, t);
    var fileToRead, _ := SelectFile(disk, baseDir, locale);
    if fileToRead.None? {
      return None;
    }
    var file := disk[fileToRead.value];
    doc := Some(LegalDoc(ToLegalFrontmatter(file.data, locale), file.content));
  }

  datatype AnalysisFrontmatter = AnalysisFrontmatter(title: Option<Value>, description: Option<Value>)

  datatype AnalysisDoc = AnalysisDoc(frontmatter: AnalysisFrontmatter, content: string)

  /** The frontmatter of the analysis page: `description` only when truthy. */
  function ToAnalysisFrontmatter(data: Frontmatter): (f: AnalysisFrontmatter)
    ensures f.title == Field(data, "title")
    ensures f.description.Some? <==> TruthyOpt(Field(data, "description"))
    ensures f.description.Some? ==> f.description == Field(data, "description")
  {
    AnalysisFrontmatter(Field(data, "title"), FirstTruthy(Field(data, "description"), None))
  }

  /** `getAnalysisContent(locale)`: the same fallback rule over the analysis directory. */
  method GetAnalysisContent(disk: Disk, cwd: string, locale: string) returns (doc: Option<AnalysisDoc>)
    ensures doc.None? <==> Fallback(disk, AnalysisDir(cwd), locale).None?
    ensures doc.Some? ==>
      var file := disk[Fallback(disk, AnalysisDir(cwd), locale).value];
      doc.value == AnalysisDoc(ToAnalysisFrontmatter(file.data), file.content)
  {
    var baseDir := AnalysisDir(cwd);
    var fileToRead, _ := SelectFile(disk, baseDir, locale);
    if fileToRead.None? {
      return None;
    }
    var file := disk[fileToRead.value];
    doc := Some(AnalysisDoc(ToAnalysisFrontmatter(file.data), file.content));
  }

  /**
   * A locale without its own file, served from `en.mdx`, still formats the date for the
   * requested locale: a French reader of the English file gets `fr-FR` dates.
   */
  lemma FallbackKeepsRequestedLocale(disk: Disk, cwd: string, t: LegalType, locale: string)
    requires MdxPath(LegalDir(cwd, t), locale) !in disk && locale != "en"
    requires MdxPath(LegalDir(cwd, t), "en") in disk
    requires TruthyOpt(Field(disk[MdxPath(LegalDir(cwd, t), "en")].data, "lastUpdated"))
    ensures var f := ToLegalFrontmatter(disk[Fallback(disk, LegalDir(cwd, t), locale).value].data, locale);
      f.lastUpdated.Some? && f.lastUpdated.value.intlLocale == IntlLocale(locale)
  {
  }
}
