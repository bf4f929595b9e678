/**
 * Record extraction from PubMed article records: one author's data, one article's data
 * (its non-academic authors, their affiliations and the corresponding e-mail), and the
 * filtered list of output records.
 *
 * The XML tree is given already parsed. A text field found with a `findtext` lookup is an
 * `Option<string>`: `None` when the element is absent, `Some("")` when it is present but
 * empty. An author's affiliation elements are a sequence of `Option<string>`, where `None`
 * stands for an `Affiliation` element that has no text at all.
 */
module PubMed {
  import opened Wrappers
  import opened StrOps
  import opened Seqs
  import opened TextUtils
  import Config

  // ----- input: the parsed article tree -----------------------------------------------

  /** One `Author` element: its `ForeName`, its `LastName`, and the text of each `AffiliationInfo/Affiliation` in it, in order. */
  datatype Author = Author(foreName: Option<string>, lastName: Option<string>, affiliations: seq<Option<string>>)

  /** The `Year`, `Month` and `Day` children of a `PubDate` element. */
  datatype PubDate = PubDate(year: Option<string>, month: Option<string>, day: Option<string>)

  /** One `PubmedArticle`: its first `PMID`, `ArticleTitle` and `PubDate`, and its authors in document order. */
  datatype Article = Article(pmid: Option<string>, title: Option<string>, pubDate: Option<PubDate>, authors: seq<Author>)

  /** The error the extraction raises: an `Affiliation` element without text has no `.strip()`. */
  datatype ParseError = AffiliationWithoutText

  // ----- one author -------------------------------------------------------------------

  datatype AuthorData = AuthorData(fullName: string, affiliation: string, email: string)

  /** `findtext(...) or ""` */
  function TextOrEmpty(t: Option<string>): string {
    t.GetOr("")
  }

  /** `_extract_author_data(author)`: the author's name, first affiliation and e-mail. */
  function ExtractAuthorData(author: Author): (r: Result<AuthorData, ParseError>)
    ensures r.Failure? <==> |author.affiliations| > 0 && author.affiliations[0].None?
  {
    var fullName := Strip(TextOrEmpty(author.foreName) + " " + TextOrEmpty(author.lastName));
    if |author.affiliations| > 0 && author.affiliations[0].None? then
      Failure(AffiliationWithoutText)
    else
      var affiliation := if |author.affiliations| == 0 then "" else Strip(author.affiliations[0].value);
      var email := if affiliation != "" then ExtractEmail(affiliation) else "";
      Success(AuthorData(fullName, affiliation, email))
  }

  /** A non-empty name part with no whitespace at either end. */
  predicate IsTrimmedName(part: string) {
    part != [] && part[0] !in WHITESPACE && part[|part| - 1] !in WHITESPACE
  }

  /**
   * The full name is the fore name and the last name separated by one space; a missing
   * part counts as "", so it leaves the other part alone (stripped), and no name gives "".
   */
  lemma FullNameSpec(author: Author)
    requires author.affiliations == [] || author.affiliations[0].Some?
    ensures var name := ExtractAuthorData(author).value.fullName;
            && (author.foreName.Some? && author.lastName.Some? &&
                IsTrimmedName(author.foreName.value) && IsTrimmedName(author.lastName.value) ==>
                  name == author.foreName.value + " " + author.lastName.value)
            && (author.foreName.None? || author.foreName == Some("") ==> name == Strip(TextOrEmpty(author.lastName)))
            && (author.lastName.None? || author.lastName == Some("") ==> name == Strip(TextOrEmpty(author.foreName)))
  {
    var fore := TextOrEmpty(author.foreName);
    var last := TextOrEmpty(author.lastName);
    if fore == "" {
      assert fore + " " + last == [' '] + last;
      StripCharsPrepend(' ', last, WHITESPACE);
    }
    if last == "" {
      assert fore + " " + last == fore + [' '];
      StripCharsAppend(fore, ' ', WHITESPACE);
    }
    if author.foreName.Some? && author.lastName.Some? && IsTrimmedName(fore) && IsTrimmedName(last) {
      StripCharsUnchanged(fore + " " + last, WHITESPACE);
    }
  }

  /**
   * Only the first affiliation element is consulted, and its text is stripped; the e-mail
   * is "" when that affiliation is empty and otherwise is found inside it.
   */
  lemma AffiliationSpec(author: Author)
    requires author.affiliations == [] || author.affiliations[0].Some?
    ensures var d := ExtractAuthorData(author).value;
            && d.affiliation == (if author.affiliations == [] then "" else Strip(author.affiliations[0].value))
            && (d.affiliation == "" ==> d.email == "")
            && (d.affiliation != "" ==> d.email == ExtractEmail(d.affiliation))
            && (d.email != "" ==> '@' in d.email && IsSubstring(d.email, d.affiliation))
  {
    var d := ExtractAuthorData(author).value;
    ExtractEmailInText(d.affiliation);
  }

  /** Affiliation elements after the first never change an author's data. */
  lemma OnlyFirstAffiliation(a: Author, b: Author)
    requires a.foreName == b.foreName && a.lastName == b.lastName
    requires |a.affiliations| > 0 && |b.affiliations| > 0 && a.affiliations[0] == b.affiliations[0]
    ensures ExtractAuthorData(a) == ExtractAuthorData(b)
  {
  }

  // ----- one article ------------------------------------------------------------------

  datatype ArticleData = ArticleData(
    pmid: string,
    title: string,
    pubDate: string,
    nonAcademicAuthors: seq<string>,
    affiliations: seq<string>,
    correspondingEmail: string)

  /** An author listed as non-academic: a non-empty affiliation that is not academic. */
  predicate IsNonAcademic(d: AuthorData) {
    d.affiliation != "" && !IsAcademicAffiliation(d.affiliation)
  }

  function FullNameOf(d: AuthorData): string {
    d.fullName
  }

  function AffiliationOf(d: AuthorData): string {
    d.affiliation
  }

  /** The first-e-mail-wins scan: the first non-empty e-mail among the authors, or "". */
  function FirstEmail(ds: seq<AuthorData>): string {
    if ds == [] then ""
    else if FirstEmail(ds[..|ds| - 1]) != "" then FirstEmail(ds[..|ds| - 1])
    else ds[|ds| - 1].email
  }

  /** `ds[k]` is the first author with a non-empty e-mail. */
  predicate IsFirstWithEmail(ds: seq<AuthorData>, k: nat) {
    k < |ds| && ds[k].email != "" && forall j :: 0 <= j < k ==> ds[j].email == ""
  }

  /**
   * The corresponding e-mail is "" exactly when no author has an e-mail; otherwise it is
   * the e-mail of the first author that has one, whatever that author's affiliation.
   */
  lemma {:induction false} FirstEmailSpec(ds: seq<AuthorData>)
    ensures FirstEmail(ds) == "" <==> forall k :: 0 <= k < |ds| ==> ds[k].email == ""
    ensures FirstEmail(ds) != "" ==> exists k: nat :: IsFirstWithEmail(ds, k) && FirstEmail(ds) == ds[k].email
  {
    if ds != [] {
      var init := ds[..|ds| - 1];
      FirstEmailSpec(init);
      assert forall k :: 0 <= k < |init| ==> init[k] == ds[k];
      if FirstEmail(init) != "" {
        var k: nat :| IsFirstWithEmail(init, k) && FirstEmail(init) == init[k].email;
        assert IsFirstWithEmail(ds, k);
      } else if ds[|ds| - 1].email != "" {
        assert IsFirstWithEmail(ds, |ds| - 1);
      }
    }
  }

  /**
   * `article.findtext(".//PMID") or "N/A"`: never "", "N/A" exactly when the PMID is
   * missing, empty or itself "N/A", and the PMID's text whenever that is non-empty.
   */
  function PmidOf(article: Article): (pmid: string)
    ensures pmid != ""
    ensures pmid == "N/A" <==> article.pmid.None? || article.pmid.value in {"", "N/A"}
    ensures article.pmid.Some? && article.pmid.value != "" ==> pmid == article.pmid.value
  {
    if article.pmid.None? || article.pmid.value == "" then "N/A" else article.pmid.value
  }

  /**
   * The `PubDate` parts, "" for each one missing and for all of them when `PubDate` is
   * missing; the date never begins or ends with '-' and is "" without a `PubDate`.
   */
  function PubDateOf(article: Article): (date: string)
    ensures date != "" ==> date[0] != '-' && date[|date| - 1] != '-'
    ensures article.pubDate.None? ==> date == ""
  {
    match article.pubDate
    case None =>
      EmptyDateExample();
      FormatPublicationDate("", "", "")
    case Some(d) => FormatPublicationDate(TextOrEmpty(d.year), TextOrEmpty(d.month), TextOrEmpty(d.day))
  }

  /** What `_extract_article_data(article)` returns, or the error it raises. */
  function ArticleDataOf(article: Article): Result<ArticleData, ParseError> {
    var ds :- MapAll(article.authors, ExtractAuthorData);
    var listed := Filter(ds, IsNonAcademic);
    Success(ArticleData(
      PmidOf(article),
      CleanTitle(article.title),
      PubDateOf(article),
      Map(listed, FullNameOf),
      Map(listed, AffiliationOf),
      FirstEmail(ds)))
  }

  lemma FirstEmailStep(ds: seq<AuthorData>, d: AuthorData)
    ensures FirstEmail(ds + [d]) == if FirstEmail(ds) != "" then FirstEmail(ds) else d.email
  {
    assert (ds + [d])[..|ds|] == ds;
  }

  lemma AuthorListsStep(ds: seq<AuthorData>, d: AuthorData)
    ensures Map(Filter(ds + [d], IsNonAcademic), FullNameOf) ==
            Map(Filter(ds, IsNonAcademic), FullNameOf) + (if IsNonAcademic(d) then [d.fullName] else [])
    ensures Map(Filter(ds + [d], IsNonAcademic), AffiliationOf) ==
            Map(Filter(ds, IsNonAcademic), AffiliationOf) + (if IsNonAcademic(d) then [d.affiliation] else [])
  {
    FilterAppend(ds, d, IsNonAcademic);
    if IsNonAcademic(d) {
      MapAppend(Filter(ds, IsNonAcademic), d, FullNameOf);
      MapAppend(Filter(ds, IsNonAcademic), d, AffiliationOf);
    }
  }

  lemma AuthorFailureStep(article: Article, i: nat, ds: seq<AuthorData>)
    requires i < |article.authors| && MapAll(article.authors[..i], ExtractAuthorData) == Success(ds)
    requires ExtractAuthorData(article.authors[i]).Failure?
    ensures ArticleDataOf(article) == Failure(ExtractAuthorData(article.authors[i]).error)
  {
    MapAllStep(article.authors, i, ExtractAuthorData, ds);
  }

  lemma AuthorSuccessStep(authors: seq<Author>, i: nat, ds: seq<AuthorData>)
    requires i < |authors| && MapAll(authors[..i], ExtractAuthorData) == Success(ds)
    requires ExtractAuthorData(authors[i]).Success?
    ensures MapAll(authors[..i + 1], ExtractAuthorData) == Success(ds + [ExtractAuthorData(authors[i]).value])
  {
    MapAllStep(authors, i, ExtractAuthorData, ds);
  }

  /** `_extract_article_data(article)`: one pass over the authors in document order. */
  method ExtractArticleData(article: Article) returns (r: Result<ArticleData, ParseError>)
    ensures r == ArticleDataOf(article)
  {
    var pmid := PmidOf(article);
    var title := CleanTitle(article.title);
    var pubDate := PubDateOf(article);
    var authors := article.authors;
    var nonAcademicAuthors: seq<string> := [];
    var affiliations: seq<string> := [];
    var correspondingEmail := "";
    ghost var ds: seq<AuthorData> := [];
    var i := 0;
    while i < |authors|
      invariant 0 <= i <= |authors|
      invariant MapAll(authors[..i], ExtractAuthorData) == Success(ds)
      invariant nonAcademicAuthors == Map(Filter(ds, IsNonAcademic), FullNameOf)
      invariant affiliations == Map(Filter(ds, IsNonAcademic), AffiliationOf)
      invariant correspondingEmail == FirstEmail(ds)
    {
      var authorData := ExtractAuthorData(authors[i]);
      if authorData.Failure? {
        AuthorFailureStep(article, i, ds);
        return Failure(authorData.error);
      }
      var d := authorData.value;
      AuthorSuccessStep(authors, i, ds);
      FirstEmailStep(ds, d);
      AuthorListsStep(ds, d);
      if d.email != "" && correspondingEmail == "" {
        correspondingEmail := d.email;
      }
      if d.affiliation != "" && !IsAcademicAffiliation(d.affiliation) {
        nonAcademicAuthors := nonAcademicAuthors + [d.fullName];
        affiliations := affiliations + [d.affiliation];
      }
      ds := ds + [d];
      i := i + 1;
    }
    assert authors[..i] == authors;
    r := Success(ArticleData(pmid, title, pubDate, nonAcademicAuthors, affiliations, correspondingEmail));
  }

  /** The extraction fails exactly when some author's first affiliation element has no text. */
  lemma ArticleFailure(article: Article)
    ensures ArticleDataOf(article).Failure? <==>
            exists k :: 0 <= k < |article.authors| && ExtractAuthorData(article.authors[k]).Failure?
  {
    MapAllSuccess(article.authors, ExtractAuthorData);
  }

  /** A failed extraction reports the error of the first author, in document order, that fails. */
  lemma ArticleFirstFailure(article: Article, k: nat)
    requires k < |article.authors| && ExtractAuthorData(article.authors[k]).Failure?
    requires forall j :: 0 <= j < k ==> ExtractAuthorData(article.authors[j]).Success?
    ensures ArticleDataOf(article) == Failure(ExtractAuthorData(article.authors[k]).error)
  {
    MapAllFirstError(article.authors, ExtractAuthorData, k);
  }

  /**
   * The two lists are index-aligned: they have one entry per non-academic author, and the
   * author at document position `k` that is non-academic supplies, at the same index of both
   * lists (the number of non-academic authors before it), its name and its affiliation.
   */
  lemma AlignedAuthorLists(article: Article, ds: seq<AuthorData>, k: nat)
    requires MapAll(article.authors, ExtractAuthorData) == Success(ds)
    ensures var a := ArticleDataOf(article).value;
            && |a.nonAcademicAuthors| == |a.affiliations| == Count(ds, IsNonAcademic)
            && (k < |ds| && IsNonAcademic(ds[k]) ==>
                  && Count(ds[..k], IsNonAcademic) < |a.nonAcademicAuthors|
                  && a.nonAcademicAuthors[Count(ds[..k], IsNonAcademic)] == ds[k].fullName
                  && a.affiliations[Count(ds[..k], IsNonAcademic)] == ds[k].affiliation)
  {
    FilterLength(ds, IsNonAcademic);
    if k < |ds| && IsNonAcademic(ds[k]) {
      FilterPosition(ds, IsNonAcademic, k);
    }
  }

  /**
   * Conversely, entry `j` of both lists comes from one and the same author: one whose
   * affiliation is non-empty and not academic.
   */
  lemma ListedEntrySource(article: Article, ds: seq<AuthorData>, j: nat)
    requires MapAll(article.authors, ExtractAuthorData) == Success(ds)
    requires j < |ArticleDataOf(article).value.affiliations|
    ensures var a := ArticleDataOf(article).value;
            && a.affiliations[j] != "" && !IsAcademicAffiliation(a.affiliations[j])
            && exists k :: 0 <= k < |ds| && IsNonAcademic(ds[k]) &&
                 a.nonAcademicAuthors[j] == ds[k].fullName && a.affiliations[j] == ds[k].affiliation
  {
    var a := ArticleDataOf(article).value;
    var k := FilterSource(ds, IsNonAcademic, j);
    assert IsNonAcademic(ds[k]);
    assert a.nonAcademicAuthors[j] == ds[k].fullName && a.affiliations[j] == ds[k].affiliation;
  }

  /**
   * The corresponding e-mail is "" exactly when no author has an e-mail; otherwise it is
   * the e-mail of the first author, in document order, that has one.
   */
  lemma CorrespondingEmail(article: Article, ds: seq<AuthorData>)
    requires MapAll(article.authors, ExtractAuthorData) == Success(ds)
    ensures var email := ArticleDataOf(article).value.correspondingEmail;
            && (email == "" <==> forall k :: 0 <= k < |ds| ==> ds[k].email == "")
            && (email != "" ==> exists k: nat :: IsFirstWithEmail(ds, k) && email == ds[k].email)
  {
    FirstEmailSpec(ds);
  }

  /**
   * The PubMed ID is "N/A" for a missing or empty `PMID` and its text otherwise. The date is
   * the formatted `PubDate` parts, each missing one counting as ""; it never begins or ends
   * with '-', and without a `PubDate` it is "".
   */
  lemma ArticleHeader(article: Article)
    requires ArticleDataOf(article).Success?
    ensures var a := ArticleDataOf(article).value;
            && (a.pmid == "N/A" <==> article.pmid.None? || article.pmid.value in {"", "N/A"})
            && (article.pmid.Some? && article.pmid.value != "" ==> a.pmid == article.pmid.value)
            && a.pmid != ""
            && a.title == CleanTitle(article.title)
            && (a.pubDate != "" ==> a.pubDate[0] != '-' && a.pubDate[|a.pubDate| - 1] != '-')
            && (article.pubDate.None? ==> a.pubDate == "")
            && (article.pubDate.Some? ==>
                  var d := article.pubDate.value;
                  a.pubDate == FormatPublicationDate(TextOrEmpty(d.year), TextOrEmpty(d.month), TextOrEmpty(d.day)))
  {
  }

  // ----- output records ---------------------------------------------------------------

  /** An article is reported when it has at least one non-academic author. */
  predicate HasNonAcademicAuthor(a: ArticleData) {
    a.nonAcademicAuthors != []
  }

  /** The output record of an article, keyed by the six CSV column names. */
  function ToRow(a: ArticleData): map<string, string> {
    map[
      Config.PUBMED_ID := a.pmid,
      Config.TITLE := a.title,
      Config.PUBLICATION_DATE := a.pubDate,
      Config.NON_ACADEMIC_AUTHORS := Join(Config.LIST_SEPARATOR, a.nonAcademicAuthors),
      Config.COMPANY_AFFILIATIONS := Join(Config.LIST_SEPARATOR, a.affiliations),
      Config.CORRESPONDING_EMAIL := a.correspondingEmail]
  }

  /**
   * A record has exactly the six column keys; the single-valued columns copy the article's
   * fields and the two list columns join the lists with "; ".
   */
  lemma RowFields(a: ArticleData)
    ensures ToRow(a).Keys == set f | f in Config.CSV_FIELDNAMES
    ensures |ToRow(a).Keys| == 6
    ensures && ToRow(a)[Config.PUBMED_ID] == a.pmid && ToRow(a)[Config.TITLE] == a.title
            && ToRow(a)[Config.PUBLICATION_DATE] == a.pubDate
            && ToRow(a)[Config.CORRESPONDING_EMAIL] == a.correspondingEmail
            && ToRow(a)[Config.NON_ACADEMIC_AUTHORS] == Join(Config.LIST_SEPARATOR, a.nonAcademicAuthors)
            && ToRow(a)[Config.COMPANY_AFFILIATIONS] == Join(Config.LIST_SEPARATOR, a.affiliations)
  {
  }

  /** What `_parse_xml_response` returns for the articles of a response, or the error it raises. */
  function ParsedRecords(articles: seq<Article>): Result<seq<map<string, string>>, ParseError> {
    var all :- MapAll(articles, ArticleDataOf);
    Success(Map(Filter(all, HasNonAcademicAuthor), ToRow))
  }

  lemma RecordsStep(all: seq<ArticleData>, a: ArticleData)
    ensures Map(Filter(all + [a], HasNonAcademicAuthor), ToRow) ==
            Map(Filter(all, HasNonAcademicAuthor), ToRow) + (if HasNonAcademicAuthor(a) then [ToRow(a)] else [])
  {
    FilterAppend(all, a, HasNonAcademicAuthor);
    if HasNonAcademicAuthor(a) {
      MapAppend(Filter(all, HasNonAcademicAuthor), a, ToRow);
    }
  }

  lemma ArticleFailureStep(articles: seq<Article>, i: nat, all: seq<ArticleData>)
    requires i < |articles| && MapAll(articles[..i], ArticleDataOf) == Success(all)
    requires ArticleDataOf(articles[i]).Failure?
    ensures ParsedRecords(articles) == Failure(ArticleDataOf(articles[i]).error)
  {
    MapAllStep(articles, i, ArticleDataOf, all);
  }

  lemma ArticleSuccessStep(articles: seq<Article>, i: nat, all: seq<ArticleData>)
    requires i < |articles| && MapAll(articles[..i], ArticleDataOf) == Success(all)
    requires ArticleDataOf(articles[i]).Success?
    ensures MapAll(articles[..i + 1], ArticleDataOf) == Success(all + [ArticleDataOf(articles[i]).value])
  {
    MapAllStep(articles, i, ArticleDataOf, all);
  }

  /** `_parse_xml_response`: one pass over the articles, keeping those with a non-academic author. */
  method ParseXmlResponse(articles: seq<Article>) returns (r: Result<seq<map<string, string>>, ParseError>)
    ensures r == ParsedRecords(articles)
  {
    var results: seq<map<string, string>> := [];
    ghost var all: seq<ArticleData> := [];
    var i := 0;
    while i < |articles|
      invariant 0 <= i <= |articles|
      invariant MapAll(articles[..i], ArticleDataOf) == Success(all)
      invariant results == Map(Filter(all, HasNonAcademicAuthor), ToRow)
    {
      var articleData := ExtractArticleData(articles[i]);
      if articleData.Failure? {
        ArticleFailureStep(articles, i, all);
        return Failure(articleData.error);
      }
      var a := articleData.value;
      ArticleSuccessStep(articles, i, all);
      RecordsStep(all, a);
      if a.nonAcademicAuthors != [] {
        results := results + [ToRow(a)];
      }
      all := all + [a];
      i := i + 1;
    }
    assert articles[..i] == articles;
    r := Success(results);
  }

  /**
   * The records are exactly the articles with a non-academic author, in document order:
   * one per such article, at the index given by the number of such articles before it,
   * so there are never more records than articles.
   */
  lemma RecordsKeepReportedArticles(articles: seq<Article>, all: seq<ArticleData>, k: nat)
    requires MapAll(articles, ArticleDataOf) == Success(all)
    ensures var rows := ParsedRecords(articles).value;
            && |rows| == Count(all, HasNonAcademicAuthor) <= |articles|
            && (k < |all| && HasNonAcademicAuthor(all[k]) ==>
                  && Count(all[..k], HasNonAcademicAuthor) < |rows|
                  && rows[Count(all[..k], HasNonAcademicAuthor)] == ToRow(all[k]))
  {
    FilterLength(all, HasNonAcademicAuthor);
    if k < |all| && HasNonAcademicAuthor(all[k]) {
      FilterPosition(all, HasNonAcademicAuthor, k);
    }
  }

  /** Conversely, record `j` is the record of an article that has a non-academic author. */
  lemma RecordSource(articles: seq<Article>, all: seq<ArticleData>, j: nat)
    requires MapAll(articles, ArticleDataOf) == Success(all)
    requires j < |ParsedRecords(articles).value|
    ensures exists k :: 0 <= k < |all| && HasNonAcademicAuthor(all[k]) && ParsedRecords(articles).value[j] == ToRow(all[k])
  {
    var k := FilterSource(all, HasNonAcademicAuthor, j);
    assert HasNonAcademicAuthor(all[k]);
    assert ParsedRecords(articles).value[j] == ToRow(all[k]);
  }

  /** The parse fails exactly when the extraction of some article fails. */
  lemma ParseFailure(articles: seq<Article>)
    ensures ParsedRecords(articles).Failure? <==>
            exists k :: 0 <= k < |articles| && ArticleDataOf(articles[k]).Failure?
  {
    MapAllSuccess(articles, ArticleDataOf);
  }

  /** A failed parse reports the error of the first article, in document order, that fails. */
  lemma ParseFirstFailure(articles: seq<Article>, k: nat)
    requires k < |articles| && ArticleDataOf(articles[k]).Failure?
    requires forall j :: 0 <= j < k ==> ArticleDataOf(articles[j]).Success?
    ensures ParsedRecords(articles) == Failure(ArticleDataOf(articles[k]).error)
  {
    MapAllFirstError(articles, ArticleDataOf, k);
  }

  lemma SeparatorUnbordered()
    ensures Unbordered(Config.LIST_SEPARATOR)
  {
    var sep := Config.LIST_SEPARATOR;
    assert sep[1..] == " " && sep[..1] == ";";
    assert !HasBorder(sep, 1);
  }

  /**
   * When no name and no affiliation contains "; ", splitting the two joined columns of a
   * record on "; " gives back the lists of a reported article exactly.
   */
  lemma RowListsRoundTrip(a: ArticleData)
    requires HasNonAcademicAuthor(a) && |a.affiliations| > 0
    requires forall k :: 0 <= k < |a.nonAcademicAuthors| ==> !IsSubstring(Config.LIST_SEPARATOR, a.nonAcademicAuthors[k])
    requires forall k :: 0 <= k < |a.affiliations| ==> !IsSubstring(Config.LIST_SEPARATOR, a.affiliations[k])
    ensures SplitOn(ToRow(a)[Config.NON_ACADEMIC_AUTHORS], Config.LIST_SEPARATOR) == a.nonAcademicAuthors
    ensures SplitOn(ToRow(a)[Config.COMPANY_AFFILIATIONS], Config.LIST_SEPARATOR) == a.affiliations
  {
    SeparatorUnbordered();
    SplitOnJoin(a.nonAcademicAuthors, Config.LIST_SEPARATOR);
    SplitOnJoin(a.affiliations, Config.LIST_SEPARATOR);
  }

  /** Every reported article has as many affiliations as non-academic authors, so both columns round-trip. */
  lemma ReportedRecordRoundTrip(article: Article)
    requires ArticleDataOf(article).Success?
    requires var a := ArticleDataOf(article).value;
             && HasNonAcademicAuthor(a)
             && (forall k :: 0 <= k < |a.nonAcademicAuthors| ==> !IsSubstring(Config.LIST_SEPARATOR, a.nonAcademicAuthors[k]))
             && (forall k :: 0 <= k < |a.affiliations| ==> !IsSubstring(Config.LIST_SEPARATOR, a.affiliations[k]))
    ensures var a := ArticleDataOf(article).value;
            && SplitOn(ToRow(a)[Config.NON_ACADEMIC_AUTHORS], Config.LIST_SEPARATOR) == a.nonAcademicAuthors
            && SplitOn(ToRow(a)[Config.COMPANY_AFFILIATIONS], Config.LIST_SEPARATOR) == a.affiliations
  {
    AlignedAuthorLists(article, MapAll(article.authors, ExtractAuthorData).value, 0);
    RowListsRoundTrip(ArticleDataOf(article).value);
  }
}
