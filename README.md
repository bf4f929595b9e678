# pharma-research-extractor, modelled in Dafny

The pharma research extractor runs a PubMed search and fetches the matching articles as
XML. From each article it keeps the authors whose affiliation is non-academic, meaning it
is non-empty and contains none of the academic keywords (used as a proxy for a company).
Nothing checks that a company is named, so "Independent researcher" counts as non-academic.
It reports each article that has at least one such author as a six-column record:

- PubMed ID
- title
- publication date
- non-academic authors
- their company affiliations
- a corresponding e-mail

This project models the logic at the heart of that pipeline and proves what it promises:

- **Text utilities** (module `TextUtils`):
  - classifying an affiliation as academic
  - extracting the first e-mail address from an affiliation text
  - cleaning a title
  - formatting a publication date
- **Record extraction** (module `PubMed`), over an already-parsed article tree:
  - reading one author
  - reading one article: the parallel lists of non-academic authors and their affiliations, plus the first-e-mail-wins corresponding address
  - turning a response's articles into output records
- **Validators** (module `Validation`), which check:
  - the search query
  - the output filename and format
  - the batch size
  - an API response
  - an output record

Supporting modules:

- `Wrappers`: `Option`, `Result` and `Outcome`.
- `Config`: the academic keywords, the six column names and the `"; "` list separator.
- `StrOps`: an ASCII model of Python's string operations:
  - `lower`, `strip`, `split()`, `in`, `join`, `split(sep)` and `isdigit`
  - whitespace is space, `\t`, `\n`, `\v`, `\f`, `\r` and `\x1c`-`\x1f`
  - `lower` maps only `A`-`Z`
- `Seqs`: filter, map and an all-or-first-failure map, with their lemmas.

Each operation that raises an error returns a `Result` or `Outcome`, with the error kind as a
constructor.

The XML document is given as datatypes:

- A `findtext` that finds no element is `None`.
- An element without text is `Some("")`.
- An affiliation list holds one `Option<string>` per `Affiliation` element, `None` for an element without text.

The two loops of record extraction are methods, each proved equal to a specification function:

- `PubMed.ExtractArticleData` computes `ArticleDataOf`.
- `PubMed.ParseXmlResponse` computes `ParsedRecords`.

The query check's loop over the dangerous characters and the record check's in-place
update of the e-mail column are methods as well. Their specification functions are
`QueryValidation` and `ArticleValidation`.

Where the documented behaviour and the code differ, the model follows the code. An `Affiliation`
element without text makes `affil_elem.text.strip()` raise at
`src/pharma_research_extractor/pubmed_client.py:298`. That error is not caught around the parse, so the
whole response fails (`ParseError.AffiliationWithoutText`). It does not degrade to an empty
affiliation.

## Model

| member | source | states |
|---|---|---|
| TextUtils.IsAcademicAffiliation | src/pharma_research_extractor/text_utils.py:29-31 | The definition: the keyword scan over the lower-cased text. Its meaning is stated by `IsAcademicIff`. |
| TextUtils.IsAcademicIff | src/pharma_research_extractor/text_utils.py:29-31 | An affiliation is academic exactly when some keyword of `ACADEMIC_KEYWORDS` is a substring of its lower-cased text. |
| TextUtils.AnyKeywordInIff | src/pharma_research_extractor/text_utils.py:31 | `any(keyword in text for keyword in keywords)` holds exactly when some keyword of the list occurs in the text. |
| TextUtils.AcademicCaseInsensitive | src/pharma_research_extractor/text_utils.py:29-31 | The classification of `s` equals that of `lower(s)`. |
| TextUtils.EmptyNotAcademic | src/pharma_research_extractor/text_utils.py:29-31 | The empty affiliation is not academic. |
| TextUtils.AcademicMonotone | src/pharma_research_extractor/text_utils.py:31 | Every text that contains an academic affiliation as a substring is itself academic. |
| TextUtils.AcademicExample | src/pharma_research_extractor/text_utils.py:24-25 | "Harvard University" is academic. |
| TextUtils.CompanyExample | src/pharma_research_extractor/text_utils.py:26-27 | "Pfizer Inc." is not academic. |
| TextUtils.FirstEmailWord | src/pharma_research_extractor/text_utils.py:55-56 | The returned index is that of the first word holding both '@' and '.'; no earlier word does; it is the word count when no word qualifies. |
| TextUtils.EmailFromWords | src/pharma_research_extractor/text_utils.py:55-59 | A non-empty result of the word scan contains '@'. `EmailFromWordsFirstMatch` pins it to the first qualifying word. |
| TextUtils.ExtractEmail | src/pharma_research_extractor/text_utils.py:48-59 | A non-empty result contains '@'. |
| TextUtils.ExtractEmailFirstMatch | src/pharma_research_extractor/text_utils.py:51-59 | The result is "" exactly when no word of `split()` holds both '@' and '.'; otherwise it is the first such word with `;.,()<>` stripped from both ends. |
| TextUtils.EmailFromWordsFirstMatch | src/pharma_research_extractor/text_utils.py:55-59 | The same first-match statement over any list of words. |
| TextUtils.ExtractEmailInText | src/pharma_research_extractor/text_utils.py:51-58 | `extract_email("")` is ""; a non-empty result contains '@' and is a contiguous substring of the input. |
| TextUtils.ExtractEmailScans | src/pharma_research_extractor/text_utils.py:51-55 | Extraction is the word scan applied to the whitespace split of the text (an empty text has no words). |
| TextUtils.NoEmailExample | src/pharma_research_extractor/text_utils.py:48-59 | "No email here" gives "". |
| TextUtils.ContactEmailExample | src/pharma_research_extractor/text_utils.py:48-59 | "Pfizer Inc., contact: john.doe@pfizer.com" gives "john.doe@pfizer.com". |
| TextUtils.CleanTitle | src/pharma_research_extractor/text_utils.py:72-74 | A cleaned title needs no further stripping. |
| TextUtils.CleanTitleSpec | src/pharma_research_extractor/text_utils.py:72-74 | A missing or empty title gives "N/A"; any other title is returned stripped. |
| TextUtils.CleanTitleEmpty | src/pharma_research_extractor/text_utils.py:72-74 | The cleaned title is "" exactly when the title is present, non-empty and all whitespace. |
| TextUtils.FormatPublicationDate | src/pharma_research_extractor/text_utils.py:89-91 | The formatted date never starts or ends with '-'. |
| TextUtils.FormatDateJoinsPresentParts | src/pharma_research_extractor/text_utils.py:89-91 | When no part starts or ends with '-', the date is exactly the non-empty parts joined by '-' in year, month, day order. |
| TextUtils.PresentParts | src/pharma_research_extractor/text_utils.py:91 | The filter keeps exactly the non-empty parts, in order. |
| TextUtils.FullDateExample | src/pharma_research_extractor/text_utils.py:89-91 | ("2020", "05", "17") gives "2020-05-17". |
| TextUtils.PartialDateExamples | src/pharma_research_extractor/text_utils.py:89-91 | ("2020", "05", "") gives "2020-05"; ("2020", "", "") gives "2020". |
| TextUtils.EmptyDateExample | src/pharma_research_extractor/text_utils.py:89-91 | Three empty parts give "". |
| PubMed.ExtractAuthorData | src/pharma_research_extractor/pubmed_client.py:292-307 | Reading an author fails exactly when its first affiliation element has no text. |
| PubMed.FullNameSpec | src/pharma_research_extractor/pubmed_client.py:292-294 | For two non-empty parts with no whitespace at either end, the full name is the fore name, one space and the last name. Only the ends of the joined name are stripped, so whitespace at the inner end of a part is kept ("Ann " and "Lee" give "Ann  Lee"). A missing or empty part counts as "", which leaves the other part alone, stripped. |
| PubMed.AffiliationSpec | src/pharma_research_extractor/pubmed_client.py:297-301 | The affiliation is the stripped text of the first affiliation, or "" without one. The e-mail is "" for an empty affiliation and is extracted from it otherwise. A non-empty e-mail contains '@' and is a substring of the affiliation. |
| PubMed.OnlyFirstAffiliation | src/pharma_research_extractor/pubmed_client.py:297-298 | Two authors with the same names and the same first affiliation read the same, whatever their other affiliations. |
| PubMed.FirstEmailSpec | src/pharma_research_extractor/pubmed_client.py:264-265 | The first-e-mail scan is "" exactly when no author has an e-mail. Otherwise it is the e-mail of the first author that has one. |
| PubMed.FirstEmailStep | src/pharma_research_extractor/pubmed_client.py:264-265 | One more author changes the corresponding e-mail only if none was found yet. |
| PubMed.AuthorListsStep | src/pharma_research_extractor/pubmed_client.py:268-270 | One more author appends its name and affiliation to the two lists exactly when it is non-academic. |
| PubMed.ExtractArticleData | src/pharma_research_extractor/pubmed_client.py:244-278 | The loop over the authors returns exactly `ArticleDataOf(article)`, or the error of the first author that cannot be read. |
| PubMed.PmidOf | src/pharma_research_extractor/pubmed_client.py:245 | The ID is never "". It is "N/A" exactly when the PMID is absent, empty or itself "N/A". Otherwise it is the PMID's text. |
| PubMed.PubDateOf | src/pharma_research_extractor/pubmed_client.py:249-253 | The date has no '-' at either end, and is "" when PubDate is missing. |
| PubMed.ArticleFailure | src/pharma_research_extractor/pubmed_client.py:261-262 | Reading an article fails exactly when one of its authors cannot be read. |
| PubMed.ArticleFirstFailure | src/pharma_research_extractor/pubmed_client.py:261-262 | The error reported is that of the first author, in document order, that cannot be read. |
| PubMed.AlignedAuthorLists | src/pharma_research_extractor/pubmed_client.py:256-270 | The two lists have the same length, the number of non-academic authors. The k-th author, if non-academic, sits at the same position in both: the number of non-academic authors before it. |
| PubMed.ListedEntrySource | src/pharma_research_extractor/pubmed_client.py:268-270 | Every listed affiliation is non-empty and not academic. The entry comes, at the same index in both lists, from one non-academic author. |
| PubMed.CorrespondingEmail | src/pharma_research_extractor/pubmed_client.py:258-265 | The corresponding e-mail is "" exactly when no author has one. Otherwise it is the first author's e-mail in document order, whatever that author's classification. |
| PubMed.ArticleHeader | src/pharma_research_extractor/pubmed_client.py:245-253 | The ID is "N/A" exactly when the PMID is absent, empty or itself "N/A", and otherwise the PMID's text. The title is the cleaned ArticleTitle. The date is `FormatPublicationDate` of the PubDate's year, month and day, each missing one as "". It has no '-' at either end and is "" when PubDate is missing. |
| PubMed.ToRow | src/pharma_research_extractor/pubmed_client.py:223-230 | The definition of one output record. Its keys and values are stated by `RowFields`. |
| PubMed.RowFields | src/pharma_research_extractor/pubmed_client.py:223-230 | A record has exactly the six column keys. Single-valued columns copy the article's fields; the two list columns join the lists with "; ". |
| PubMed.RecordsStep | src/pharma_research_extractor/pubmed_client.py:222-230 | One more article appends its record exactly when it has a non-academic author. |
| PubMed.ParseXmlResponse | src/pharma_research_extractor/pubmed_client.py:214-232 | The loop over the articles returns exactly `ParsedRecords(articles)`, or the first article's error. |
| PubMed.RecordsKeepReportedArticles | src/pharma_research_extractor/pubmed_client.py:218-232 | There are as many records as articles with a non-academic author, at most one per article. Each such article's record appears in document order. |
| PubMed.RecordSource | src/pharma_research_extractor/pubmed_client.py:222-230 | Every record is the record of some article that has a non-academic author. |
| PubMed.ParseFailure | src/pharma_research_extractor/pubmed_client.py:218-219 | Parsing the response fails exactly when reading one of its articles fails. |
| PubMed.ParseFirstFailure | src/pharma_research_extractor/pubmed_client.py:218-219 | The error reported is that of the first article, in document order, whose reading fails. |
| PubMed.SeparatorUnbordered | src/pharma_research_extractor/pubmed_client.py:227-228 | Two occurrences of "; " cannot overlap. |
| PubMed.RowListsRoundTrip | src/pharma_research_extractor/pubmed_client.py:227-228 | When no name or affiliation contains "; ", splitting the two joined columns on "; " gives back the lists. |
| PubMed.ReportedRecordRoundTrip | src/pharma_research_extractor/pubmed_client.py:222-228 | The same round-trip for the record of a reported article. |
| Validation.ValidateQuery | src/pharma_research_extractor/validation.py:32-53 | The checks, including the loop over the dangerous characters in order, return exactly `QueryValidation(query)`. |
| Validation.FirstOccurring | src/pharma_research_extractor/validation.py:48-51 | The result is absent exactly when none of the characters occurs. Otherwise it is the first of them, in list order, that occurs in the text. |
| Validation.QueryValidationIff | src/pharma_research_extractor/validation.py:32-53 | A query is accepted exactly when it is non-empty, its stripped form has 2 to 1000 characters, and it contains none of `<`, `>`, `"`, `'`, `&` or NUL. The value is the stripped query. |
| Validation.QueryInvalidCharFound | src/pharma_research_extractor/validation.py:48-51 | A rejected character is the first of `DANGEROUS_CHARS`, in their order, that occurs in the stripped query. |
| Validation.QueryValidationIdempotent | src/pharma_research_extractor/validation.py:39-53 | An accepted query is accepted again, unchanged. |
| Validation.FilenameValidation | src/pharma_research_extractor/validation.py:69-91 | An accepted filename is returned stripped. |
| Validation.FilenameValidationIff | src/pharma_research_extractor/validation.py:69-91 | A filename is accepted exactly when it is non-empty and its stripped form has no character of `<>:"/\|?*` and none below 0x20, at most 255 characters, and a '.'. |
| Validation.FilenameValidationIdempotent | src/pharma_research_extractor/validation.py:76-91 | An accepted filename is accepted again, unchanged. |
| Validation.FormatValidation | src/pharma_research_extractor/validation.py:107-119 | An accepted format is "csv" or "json". |
| Validation.FormatValidationIff | src/pharma_research_extractor/validation.py:107-119 | A format is accepted exactly when it is non-empty and its lower-cased, stripped form is "csv" or "json". That form is returned, and any other non-empty input is rejected with it. |
| Validation.FormatExample | src/pharma_research_extractor/validation.py:110-119 | " JSON " gives "json". |
| Validation.BatchSizeValidation | src/pharma_research_extractor/validation.py:204-210 | An accepted batch size is returned unchanged. |
| Validation.BatchSizeValidationIff | src/pharma_research_extractor/validation.py:204-210 | A size is returned unchanged exactly when `min <= size <= max`. Below the minimum the too-small error is raised; above the maximum, the too-large one. |
| Validation.DefaultBatchBounds | src/pharma_research_extractor/validation.py:186 | With the default bounds the accepted sizes are 1 to 100. |
| Validation.ApiResponseValidation | src/pharma_research_extractor/validation.py:133-141 | The definition of the response check. Its meaning is stated by `ApiResponseValidationIff`. |
| Validation.ApiResponseValidationIff | src/pharma_research_extractor/validation.py:133-141 | A response passes exactly when it is present and holds every expected field. Otherwise the error lists exactly the expected fields it lacks. |
| Validation.MatchesEmailPattern | src/pharma_research_extractor/validation.py:178-179 | The definition of `re.match` of the e-mail pattern: a non-empty local part, '@', a non-empty domain, '.', and at least two letters, with `$` also allowed before a final newline. Its behaviour is shown by the lemmas below. |
| Validation.StrippedEmailPattern | src/pharma_research_extractor/validation.py:177-179 | On a stripped value the pattern's `$` has no trailing-newline case. |
| Validation.WellFormedEmailExample | src/pharma_research_extractor/validation.py:178-179 | "john.doe@pfizer.com" matches the e-mail pattern. |
| Validation.MalformedEmailExample | src/pharma_research_extractor/validation.py:178-179 | "not-an-email" does not match it. |
| Validation.EmptyDomainEmailExample | src/pharma_research_extractor/validation.py:178-179 | "a@.bc" does not match: the domain before the final '.' may not be empty. |
| Validation.ValidateArticleData | src/pharma_research_extractor/validation.py:161-183 | Building the record, checking the ID and clearing the e-mail in place returns exactly `ArticleValidation(article)`. |
| Validation.ArticleValidationFailure | src/pharma_research_extractor/validation.py:171-173 | A record is rejected exactly when its stripped PubMed ID, defaulting to "N/A", is neither "N/A" nor all digits. The e-mail never causes a rejection. |
| Validation.ArticleValidationFields | src/pharma_research_extractor/validation.py:161-183 | An accepted record has exactly the six columns. Every column but the e-mail keeps its defaulted, stripped value. The e-mail is kept when it is "", "N/A" or well formed, and cleared to "" otherwise. |
| Validation.Defaulted | src/pharma_research_extractor/validation.py:161-168 | The definition of the record of stripped, defaulted columns. Its keys and values are stated by `DefaultedKeys` and `DefaultedValues`. |
| Validation.DefaultedKeys | src/pharma_research_extractor/validation.py:161-168 | The defaulted record has exactly the six column keys. |
| Validation.DefaultedValues | src/pharma_research_extractor/validation.py:161-168 | Each column is the stripped input value, or its default when absent: "N/A" for the ID and the title, "" for the rest. |
| Validation.EmptyPubmedIdRejected | src/pharma_research_extractor/validation.py:171-173 | A present but empty PubMed ID is rejected. |

## Left out

- Network access: the search with its retries and back-off, and the fetch. Their HTTP errors, sleeps and rate limits are not part of this model.
- Parsing the XML text and the `.//` descendant searches. The input is the already-parsed article and author datatypes, in document order.
- Logging to the console, the command-line interface and writing CSV or JSON files.
- Python's `isinstance` checks in the validators. Their inputs are typed here, so the "must be a string/dictionary/integer" errors cannot arise.
- The `str(...)` coercion in `validate_article_data`. The record's values are strings here.
- Unicode. `lower`, `strip`, `split`, `isdigit` and the regular expressions are modelled over ASCII, and other characters are treated as ordinary, non-space characters.
- The regular-expression engine. The filename character class and the e-mail pattern are written out as predicates.
- The text of each error message. Only its kind, and the values it reports, are modelled.
