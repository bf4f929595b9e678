/**
 * Input validators: each check either returns a normalised value or raises a
 * `ValidationError`, modelled as `Failure` of a `Result` (or of an `Outcome` for the
 * check that returns nothing).
 */
module Validation {
  import opened Wrappers
  import opened StrOps
  import opened Seqs
  import Config

  /** The reasons a validator gives for rejecting its input. */
  datatype ValidationError =
    | EmptyQuery
    | QueryTooShort
    | QueryTooLong
    | QueryInvalidChar(c: char)
    | EmptyFilename
    | FilenameInvalidChars
    | FilenameTooLong
    | FilenameWithoutExtension
    | EmptyFormat
    | UnsupportedFormat(format: string)
    | ResponseIsNone
    | ResponseMissingFields(fields: seq<string>)
    | InvalidPubmedId(pmid: string)
    | BatchSizeTooSmall(minSize: int)
    | BatchSizeTooLarge(maxSize: int)

  // ----- search query -----------------------------------------------------------------

  const MIN_QUERY_LENGTH := 2
  const MAX_QUERY_LENGTH := 1000

  /** The characters a query may not contain, in the order they are checked. */
  const DANGEROUS_CHARS: seq<char> := ['<', '>', '"', '\'', '&', '\0']

  /** The first of `chars`, in their order, that occurs in `s`. */
  function FirstOccurring(chars: seq<char>, s: string): (r: Option<char>)
    ensures r.None? <==> forall k :: 0 <= k < |chars| ==> chars[k] !in s
    ensures r.Some? ==> r.value in chars && r.value in s
    ensures r.Some? ==> exists k :: 0 <= k < |chars| && chars[k] == r.value && forall j :: 0 <= j < k ==> chars[j] !in s
  {
    if chars == [] then None
    else if chars[0] in s then Some(chars[0])
    else FirstOccurring(chars[1..], s)
  }

  /** What `validate_query(query)` returns, or the error it raises. */
  function QueryValidation(query: string): Result<string, ValidationError> {
    if query == "" then Failure(EmptyQuery)
    else
      var q := Strip(query);
      if |q| < MIN_QUERY_LENGTH then Failure(QueryTooShort)
      else if |q| > MAX_QUERY_LENGTH then Failure(QueryTooLong)
      else match FirstOccurring(DANGEROUS_CHARS, q)
        case Some(c) => Failure(QueryInvalidChar(c))
        case None => Success(q)
  }

  /** `validate_query(query)`: strip, check the length, then look for each dangerous character in turn. */
  method ValidateQuery(query: string) returns (r: Result<string, ValidationError>)
    ensures r == QueryValidation(query)
  {
    if query == "" {
      return Failure(EmptyQuery);
    }
    var q := Strip(query);
    if |q| < MIN_QUERY_LENGTH {
      return Failure(QueryTooShort);
    }
    if |q| > MAX_QUERY_LENGTH {
      return Failure(QueryTooLong);
    }
    for i := 0 to |DANGEROUS_CHARS|
      invariant FirstOccurring(DANGEROUS_CHARS, q) == FirstOccurring(DANGEROUS_CHARS[i..], q)
    {
      assert DANGEROUS_CHARS[i..][1..] == DANGEROUS_CHARS[i + 1..];
      if DANGEROUS_CHARS[i] in q {
        return Failure(QueryInvalidChar(DANGEROUS_CHARS[i]));
      }
    }
    return Success(q);
  }

  /**
   * A query is accepted exactly when it is non-empty and its stripped form has 2 to 1000
   * characters and none of the dangerous ones; the accepted value is the stripped query.
   */
  lemma QueryValidationIff(query: string)
    ensures QueryValidation(query).Success? <==>
            && query != ""
            && MIN_QUERY_LENGTH <= |Strip(query)| <= MAX_QUERY_LENGTH
            && forall k :: 0 <= k < |DANGEROUS_CHARS| ==> DANGEROUS_CHARS[k] !in Strip(query)
    ensures QueryValidation(query).Success? ==> QueryValidation(query).value == Strip(query)
  {
  }

  /**
   * A rejected character is the first of the dangerous ones, in their order, that occurs in
   * the stripped query.
   */
  lemma QueryInvalidCharFound(query: string)
    ensures QueryValidation(query).Failure? && QueryValidation(query).error.QueryInvalidChar? ==>
            var c := QueryValidation(query).error.c;
            && c in DANGEROUS_CHARS && c in Strip(query)
            && exists k :: 0 <= k < |DANGEROUS_CHARS| && DANGEROUS_CHARS[k] == c &&
                 forall j :: 0 <= j < k ==> DANGEROUS_CHARS[j] !in Strip(query)
  {
  }

  /** Validating an accepted query again accepts it unchanged. */
  lemma QueryValidationIdempotent(query: string)
    requires QueryValidation(query).Success?
    ensures QueryValidation(QueryValidation(query).value) == QueryValidation(query)
  {
    StripIdempotent(query);
  }

  // ----- output filename --------------------------------------------------------------

  const MAX_FILENAME_LENGTH := 255

  /** The character class `[<>:"/\\|?*\x00-\x1f]`: reserved punctuation and the control characters. */
  predicate IsInvalidFilenameChar(c: char) {
    c in {'<', '>', ':', '"', '/', '\\', '|', '?', '*'} || c < '\U{20}'
  }

  /** `re.search` of that class: some character of `s` is in it. */
  predicate HasInvalidFilenameChar(s: string) {
    exists k :: 0 <= k < |s| && IsInvalidFilenameChar(s[k])
  }

  /** `validate_filename(filename)`: the stripped name, or the first check it fails. */
  function FilenameValidation(filename: string): (r: Result<string, ValidationError>)
    ensures r.Success? ==> r.value == Strip(filename)
  {
    if filename == "" then Failure(EmptyFilename)
    else
      var f := Strip(filename);
      if HasInvalidFilenameChar(f) then Failure(FilenameInvalidChars)
      else if |f| > MAX_FILENAME_LENGTH then Failure(FilenameTooLong)
      else if '.' !in f then Failure(FilenameWithoutExtension)
      else Success(f)
  }

  /**
   * A filename is accepted exactly when it is non-empty and its stripped form has no
   * invalid character, at most 255 characters and a '.'.
   */
  lemma FilenameValidationIff(filename: string)
    ensures FilenameValidation(filename).Success? <==>
            && filename != ""
            && (forall k :: 0 <= k < |Strip(filename)| ==> !IsInvalidFilenameChar(Strip(filename)[k]))
            && |Strip(filename)| <= MAX_FILENAME_LENGTH
            && '.' in Strip(filename)
  {
  }

  /** An accepted filename is accepted again unchanged. */
  lemma FilenameValidationIdempotent(filename: string)
    requires FilenameValidation(filename).Success?
    ensures FilenameValidation(FilenameValidation(filename).value) == FilenameValidation(filename)
  {
    StripIdempotent(filename);
    AcceptedFilename(Strip(filename));
  }

  lemma AcceptedFilename(f: string)
    requires f != "" && Strip(f) == f
    requires !HasInvalidFilenameChar(f) && |f| <= MAX_FILENAME_LENGTH && '.' in f
    ensures FilenameValidation(f) == Success(f)
  {
  }

  // ----- output format ----------------------------------------------------------------

  const SUPPORTED_FORMATS: seq<string> := ["csv", "json"]

  /** `validate_format(format_type)`: the lower-cased, stripped format when it is supported. */
  function FormatValidation(format: string): (r: Result<string, ValidationError>)
    ensures r.Success? ==> r.value in SUPPORTED_FORMATS
  {
    if format == "" then Failure(EmptyFormat)
    else
      var f := Strip(Lower(format));
      if f in SUPPORTED_FORMATS then Success(f) else Failure(UnsupportedFormat(f))
  }

  /** A format is accepted exactly when its lower-cased, stripped form is "csv" or "json", and that form is returned. */
  lemma FormatValidationIff(format: string)
    ensures FormatValidation(format).Success? <==> format != "" && Strip(Lower(format)) in SUPPORTED_FORMATS
    ensures FormatValidation(format).Success? ==> FormatValidation(format).value == Strip(Lower(format))
    ensures FormatValidation(format).Failure? && format != "" ==>
            FormatValidation(format) == Failure(UnsupportedFormat(Strip(Lower(format))))
  {
  }

  lemma FormatExample()
    ensures FormatValidation(" JSON ") == Success("json")
  {
    LowerJsonExample();
    StripJsonExample();
  }

  lemma LowerJsonExample()
    ensures Lower(" JSON ") == [' '] + "json "
  {
  }

  lemma StripJsonExample()
    ensures StripChars([' '] + "json ", WHITESPACE) == "json"
  {
    StripCharsPrepend(' ', "json ", WHITESPACE);
    StripJsonTail();
  }

  lemma StripJsonTail()
    ensures StripChars("json ", WHITESPACE) == "json"
  {
    assert "json " == "json" + [' '];
    StripCharsAppend("json", ' ', WHITESPACE);
    StripJsonUnchanged();
  }

  lemma StripJsonUnchanged()
    ensures StripChars("json", WHITESPACE) == "json"
  {
    StripCharsUnchanged("json", WHITESPACE);
  }

  // ----- batch size -------------------------------------------------------------------

  /** `validate_batch_size(batch_size, min_size, max_size)` */
  function BatchSizeValidation(batchSize: int, minSize: int := 1, maxSize: int := 100): (r: Result<int, ValidationError>)
    ensures r.Success? ==> r.value == batchSize
  {
    if batchSize < minSize then Failure(BatchSizeTooSmall(minSize))
    else if batchSize > maxSize then Failure(BatchSizeTooLarge(maxSize))
    else Success(batchSize)
  }

  /** A batch size is returned unchanged exactly when it lies within the bounds; the lower bound is checked first. */
  lemma BatchSizeValidationIff(batchSize: int, minSize: int, maxSize: int)
    ensures BatchSizeValidation(batchSize, minSize, maxSize) == Success(batchSize) <==> minSize <= batchSize <= maxSize
    ensures batchSize < minSize ==> BatchSizeValidation(batchSize, minSize, maxSize) == Failure(BatchSizeTooSmall(minSize))
    ensures minSize <= batchSize && maxSize < batchSize ==>
            BatchSizeValidation(batchSize, minSize, maxSize) == Failure(BatchSizeTooLarge(maxSize))
  {
  }

  /** With the default bounds, the accepted sizes are 1 to 100. */
  lemma DefaultBatchBounds(batchSize: int)
    ensures BatchSizeValidation(batchSize).Success? <==> 1 <= batchSize <= 100
  {
  }

  // ----- API response -----------------------------------------------------------------

  /** The expected fields absent from `response`, in the order they are expected. */
  function MissingFields<V>(response: map<string, V>, expected: seq<string>): seq<string> {
    Filter(expected, (field: string) => field !in response)
  }

  /** `validate_api_response(response_data, expected_fields)`; `None` stands for Python's `None`. */
  function ApiResponseValidation<V>(response: Option<map<string, V>>, expected: seq<string>): Outcome<ValidationError> {
    if response.None? then Fail(ResponseIsNone)
    else
      var missing := MissingFields(response.value, expected);
      if missing != [] then Fail(ResponseMissingFields(missing)) else Pass
  }

  /**
   * A response passes exactly when it is present and holds every expected field; otherwise
   * the error lists exactly the expected fields it lacks.
   */
  lemma ApiResponseValidationIff<V>(response: Option<map<string, V>>, expected: seq<string>)
    ensures ApiResponseValidation(response, expected) == Pass <==>
            response.Some? && forall k :: 0 <= k < |expected| ==> expected[k] in response.value
    ensures var outcome := ApiResponseValidation(response, expected);
            outcome.Fail? && outcome.error.ResponseMissingFields? ==>
              forall f :: f in outcome.error.fields <==> f in expected && f !in response.value
  {
    if response.Some? {
      var m := response.value;
      var absent := (field: string) => field !in m;
      FilterNoneSatisfy(expected, absent);
      forall f
        ensures f in Filter(expected, absent) <==> f in expected && f !in m
      {
        FilterMembers(expected, absent, f);
      }
    }
  }

  // ----- article record ---------------------------------------------------------------

  /** `article.get(key, default)` */
  function Get(article: map<string, string>, key: string, default: string): string {
    if key in article then article[key] else default
  }

  /** One character of `[a-zA-Z]` */
  predicate IsAsciiLetter(c: char) {
    'a' <= c <= 'z' || 'A' <= c <= 'Z'
  }

  /** One character of `[a-zA-Z0-9._%+-]`, the local part of an address. */
  predicate IsLocalChar(c: char) {
    IsAsciiLetter(c) || '0' <= c <= '9' || c in {'.', '_', '%', '+', '-'}
  }

  /** One character of `[a-zA-Z0-9.-]`, the domain of an address. */
  predicate IsDomainChar(c: char) {
    IsAsciiLetter(c) || '0' <= c <= '9' || c in {'.', '-'}
  }

  /**
   * All of `s` matches `[a-zA-Z0-9._%+-]+@[a-zA-Z0-9.-]+\.[a-zA-Z]{2,}`: an '@' at `at`
   * and a '.' at `dot` split it into a non-empty local part, a non-empty domain and a final
   * run of 2 or more letters.
   */
  predicate IsEmailSplit(s: string, at: int, dot: int) {
    && 0 < at && at + 1 < dot < |s| - 2
    && s[at] == '@' && s[dot] == '.'
    && (forall k :: 0 <= k < at ==> IsLocalChar(s[k]))
    && (forall k :: at < k < dot ==> IsDomainChar(s[k]))
    && (forall k :: dot < k < |s| ==> IsAsciiLetter(s[k]))
  }

  predicate MatchesEmailBody(s: string) {
    exists at, dot :: 0 <= at < |s| && 0 <= dot < |s| && IsEmailSplit(s, at, dot)
  }

  /**
   * `re.match` of the e-mail pattern anchored by `^` and `$`; `$` also matches just before
   * a final newline.
   */
  predicate MatchesEmailPattern(s: string) {
    MatchesEmailBody(s) || (|s| > 0 && s[|s| - 1] == '\n' && MatchesEmailBody(s[..|s| - 1]))
  }

  /** On a stripped value the newline case of `$` cannot arise. */
  lemma StrippedEmailPattern(s: string)
    ensures MatchesEmailPattern(Strip(s)) == MatchesEmailBody(Strip(s))
  {
  }

  lemma WellFormedEmailExample()
    ensures MatchesEmailPattern("john.doe@pfizer.com")
  {
    assert IsEmailSplit("john.doe@pfizer.com", 8, 15);
  }

  lemma MalformedEmailExample()
    ensures !MatchesEmailPattern("not-an-email")
  {
    assert '@' !in "not-an-email";
  }

  /** The domain before the final '.' may not be empty. */
  lemma EmptyDomainEmailExample()
    ensures !MatchesEmailPattern("a@.bc")
  {
    var s := "a@.bc";
    forall at, dot | 0 <= at < |s| && 0 <= dot < |s|
      ensures !IsEmailSplit(s, at, dot)
    {
      if s[at] == '@' && s[dot] == '.' {
        assert at == 1 && dot == 2;
      }
    }
  }

  /** The e-mail check keeps "", "N/A" and well-formed addresses and clears anything else. */
  predicate KeepsEmail(email: string) {
    email == "" || email == "N/A" || MatchesEmailPattern(email)
  }

  /**
   * The record with all six columns, each value stripped; a missing column defaults to
   * "N/A" for the ID and the title and to "" otherwise.
   */
  function Defaulted(article: map<string, string>): map<string, string> {
    map[
      Config.PUBMED_ID := Strip(Get(article, Config.PUBMED_ID, "N/A")),
      Config.TITLE := Strip(Get(article, Config.TITLE, "N/A")),
      Config.PUBLICATION_DATE := Strip(Get(article, Config.PUBLICATION_DATE, "")),
      Config.NON_ACADEMIC_AUTHORS := Strip(Get(article, Config.NON_ACADEMIC_AUTHORS, "")),
      Config.COMPANY_AFFILIATIONS := Strip(Get(article, Config.COMPANY_AFFILIATIONS, "")),
      Config.CORRESPONDING_EMAIL := Strip(Get(article, Config.CORRESPONDING_EMAIL, ""))]
  }

  /** What `validate_article_data(article)` returns, or the error it raises. */
  function ArticleValidation(article: map<string, string>): Result<map<string, string>, ValidationError> {
    var validated := Defaulted(article);
    var pmid := validated[Config.PUBMED_ID];
    if pmid != "N/A" && !IsDigits(pmid) then Failure(InvalidPubmedId(pmid))
    else
      var email := validated[Config.CORRESPONDING_EMAIL];
      if KeepsEmail(email) then Success(validated)
      else Success(validated[Config.CORRESPONDING_EMAIL := ""])
  }

  /**
   * `validate_article_data(article)`: build the record of stripped, defaulted columns, reject
   * a malformed PubMed ID, then clear a malformed e-mail in place.
   */
  method ValidateArticleData(article: map<string, string>) returns (r: Result<map<string, string>, ValidationError>)
    ensures r == ArticleValidation(article)
  {
    var validated := map[
      Config.PUBMED_ID := Strip(Get(article, Config.PUBMED_ID, "N/A")),
      Config.TITLE := Strip(Get(article, Config.TITLE, "N/A")),
      Config.PUBLICATION_DATE := Strip(Get(article, Config.PUBLICATION_DATE, "")),
      Config.NON_ACADEMIC_AUTHORS := Strip(Get(article, Config.NON_ACADEMIC_AUTHORS, "")),
      Config.COMPANY_AFFILIATIONS := Strip(Get(article, Config.COMPANY_AFFILIATIONS, "")),
      Config.CORRESPONDING_EMAIL := Strip(Get(article, Config.CORRESPONDING_EMAIL, ""))];
    assert validated == Defaulted(article);
    var pmid := validated[Config.PUBMED_ID];
    if pmid != "N/A" && !IsDigits(pmid) {
      return Failure(InvalidPubmedId(pmid));
    }
    var email := validated[Config.CORRESPONDING_EMAIL];
    if email != "" && email != "N/A" {
      if !MatchesEmailPattern(email) {
        validated := validated[Config.CORRESPONDING_EMAIL := ""];
      }
    }
    return Success(validated);
  }

  /**
   * A record is rejected exactly when its stripped PubMed ID, defaulting to "N/A", is
   * neither "N/A" nor all digits; the e-mail never causes a rejection.
   */
  lemma ArticleValidationFailure(article: map<string, string>)
    ensures var pmid := Strip(Get(article, Config.PUBMED_ID, "N/A"));
            ArticleValidation(article).Failure? <==> pmid != "N/A" && !IsDigits(pmid)
  {
    DefaultedValues(article);
  }

  /**
   * An accepted record is the defaulted record with the same six columns; every column but
   * the e-mail keeps its defaulted value, and the e-mail is kept when it is "", "N/A" or
   * well formed, and cleared to "" otherwise.
   */
  lemma ArticleValidationFields(article: map<string, string>)
    requires ArticleValidation(article).Success?
    ensures ArticleValidation(article).value.Keys == set f | f in Config.CSV_FIELDNAMES
    ensures var v, d := ArticleValidation(article).value, Defaulted(article);
            && v[Config.PUBMED_ID] == d[Config.PUBMED_ID] && v[Config.TITLE] == d[Config.TITLE]
            && v[Config.PUBLICATION_DATE] == d[Config.PUBLICATION_DATE]
            && v[Config.NON_ACADEMIC_AUTHORS] == d[Config.NON_ACADEMIC_AUTHORS]
            && v[Config.COMPANY_AFFILIATIONS] == d[Config.COMPANY_AFFILIATIONS]
            && v[Config.CORRESPONDING_EMAIL] == if KeepsEmail(d[Config.CORRESPONDING_EMAIL]) then d[Config.CORRESPONDING_EMAIL] else ""
  {
    var d := Defaulted(article);
    DefaultedKeys(article);
    ClearEmailKeeps(d);
  }

  /** Clearing the e-mail of a record leaves its columns and every other value as they were. */
  lemma ClearEmailKeeps(d: map<string, string>)
    requires Config.CORRESPONDING_EMAIL in d
    ensures var c := d[Config.CORRESPONDING_EMAIL := ""];
            && c.Keys == d.Keys && c[Config.CORRESPONDING_EMAIL] == ""
            && (Config.PUBMED_ID in d ==> c[Config.PUBMED_ID] == d[Config.PUBMED_ID])
            && (Config.TITLE in d ==> c[Config.TITLE] == d[Config.TITLE])
            && (Config.PUBLICATION_DATE in d ==> c[Config.PUBLICATION_DATE] == d[Config.PUBLICATION_DATE])
            && (Config.NON_ACADEMIC_AUTHORS in d ==> c[Config.NON_ACADEMIC_AUTHORS] == d[Config.NON_ACADEMIC_AUTHORS])
            && (Config.COMPANY_AFFILIATIONS in d ==> c[Config.COMPANY_AFFILIATIONS] == d[Config.COMPANY_AFFILIATIONS])
  {
  }

  lemma DefaultedKeys(article: map<string, string>)
    ensures Defaulted(article).Keys == set f | f in Config.CSV_FIELDNAMES
  {
  }

  lemma DefaultedValues(article: map<string, string>)
    ensures var d := Defaulted(article);
            && d[Config.PUBMED_ID] == Strip(Get(article, Config.PUBMED_ID, "N/A"))
            && d[Config.TITLE] == Strip(Get(article, Config.TITLE, "N/A"))
            && d[Config.PUBLICATION_DATE] == Strip(Get(article, Config.PUBLICATION_DATE, ""))
            && d[Config.NON_ACADEMIC_AUTHORS] == Strip(Get(article, Config.NON_ACADEMIC_AUTHORS, ""))
            && d[Config.COMPANY_AFFILIATIONS] == Strip(Get(article, Config.COMPANY_AFFILIATIONS, ""))
            && d[Config.CORRESPONDING_EMAIL] == Strip(Get(article, Config.CORRESPONDING_EMAIL, ""))
  {
    RecordLookups(
      Strip(Get(article, Config.PUBMED_ID, "N/A")),
      Strip(Get(article, Config.TITLE, "N/A")),
      Strip(Get(article, Config.PUBLICATION_DATE, "")),
      Strip(Get(article, Config.NON_ACADEMIC_AUTHORS, "")),
      Strip(Get(article, Config.COMPANY_AFFILIATIONS, "")),
      Strip(Get(article, Config.CORRESPONDING_EMAIL, "")));
  }

  /** Looking up each column of a six-column record display gives the value written for it. */
  lemma RecordLookups(pmid: string, title: string, date: string, authors: string, companies: string, email: string)
    ensures var d := map[
              Config.PUBMED_ID := pmid, Config.TITLE := title, Config.PUBLICATION_DATE := date,
              Config.NON_ACADEMIC_AUTHORS := authors, Config.COMPANY_AFFILIATIONS := companies,
              Config.CORRESPONDING_EMAIL := email];
            && d[Config.PUBMED_ID] == pmid && d[Config.TITLE] == title && d[Config.PUBLICATION_DATE] == date
            && d[Config.NON_ACADEMIC_AUTHORS] == authors && d[Config.COMPANY_AFFILIATIONS] == companies
            && d[Config.CORRESPONDING_EMAIL] == email
  {
  }

  /** A record whose PubMed ID is present but empty is rejected. */
  lemma EmptyPubmedIdRejected(article: map<string, string>)
    requires Config.PUBMED_ID in article && article[Config.PUBMED_ID] == ""
    ensures ArticleValidation(article) == Failure(InvalidPubmedId(""))
  {
    DefaultedValues(article);
    StripCharsEmpty("", WHITESPACE);
  }
}
