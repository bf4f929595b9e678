/** Fixed configuration constants of the extractor. */
module Config {

  /** Terms whose presence (as a substring of the lower-cased text) marks an affiliation academic. */
  const ACADEMIC_KEYWORDS: seq<string> := [
    "school", "university", "college", "institute", "department", "faculty",
    "academy", "center", "centre", "hospital", "medical", "clinic", "grad",
    "postdoc", "fellow", "professor", "lecturer", "phd", "student", "library",
    "conservatory", "polytechnic", "laboratory", "lab"
  ]

  /** The six keys of an output record, in column order. */
  const PUBMED_ID := "PubmedID"
  const TITLE := "Title"
  const PUBLICATION_DATE := "Publication Date"
  const NON_ACADEMIC_AUTHORS := "Non-academicAuthor(s)"
  const COMPANY_AFFILIATIONS := "CompanyAffiliation(s)"
  const CORRESPONDING_EMAIL := "Corresponding Author Email"

  const CSV_FIELDNAMES: seq<string> := [
    PUBMED_ID, TITLE, PUBLICATION_DATE,
    NON_ACADEMIC_AUTHORS, COMPANY_AFFILIATIONS, CORRESPONDING_EMAIL
  ]

  /** The separator used to join multi-valued fields of a record. */
  const LIST_SEPARATOR := "; "
}
