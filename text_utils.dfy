/** Text utilities: affiliation classification, e-mail extraction, title and date normalisation. */
module TextUtils {
  import opened Wrappers
  import opened StrOps
  import opened Seqs
  import Config

  // ----- affiliation classification -------------------------------------------------

  /** `any(keyword in text for keyword in keywords)`, scanning the keywords in order. */
  predicate AnyKeywordIn(keywords: seq<string>, text: string) {
    |keywords| > 0 && (Contains(text, keywords[0]) || AnyKeywordIn(keywords[1..], text))
  }

  /** `is_academic_affiliation(affil)`: some academic keyword occurs in the lower-cased text. */
  predicate IsAcademicAffiliation(affil: string) {
    AnyKeywordIn(Config.ACADEMIC_KEYWORDS, Lower(affil))
  }

  lemma {:induction false} AnyKeywordInIff(keywords: seq<string>, text: string)
    ensures AnyKeywordIn(keywords, text) <==> exists k :: k in keywords && IsSubstring(k, text)
  {
    if keywords != [] {
      ContainsIsSubstring(text, keywords[0]);
      AnyKeywordInIff(keywords[1..], text);
      assert forall k :: k in keywords <==> k == keywords[0] || k in keywords[1..];
    }
  }

  lemma {:induction false} AnyKeywordInMonotone(keywords: seq<string>, s: string, t: string)
    requires IsSubstring(s, t) && AnyKeywordIn(keywords, s)
    ensures AnyKeywordIn(keywords, t)
  {
    if Contains(s, keywords[0]) {
      ContainsIsSubstring(s, keywords[0]);
      SubstringTransitive(keywords[0], s, t);
      ContainsIsSubstring(t, keywords[0]);
    } else {
      AnyKeywordInMonotone(keywords[1..], s, t);
    }
  }

  /** An affiliation is academic exactly when some keyword is a substring of its lower-cased form. */
  lemma IsAcademicIff(affil: string)
    ensures IsAcademicAffiliation(affil) <==>
            exists k :: k in Config.ACADEMIC_KEYWORDS && IsSubstring(k, Lower(affil))
  {
    AnyKeywordInIff(Config.ACADEMIC_KEYWORDS, Lower(affil));
  }

  /** Classification ignores letter case. */
  lemma AcademicCaseInsensitive(affil: string)
    ensures IsAcademicAffiliation(Lower(affil)) == IsAcademicAffiliation(affil)
  {
    LowerIdempotent(affil);
  }

  /** No keyword is empty, so nothing is a substring of the empty text and "" is not academic. */
  lemma EmptyNotAcademic()
    ensures !IsAcademicAffiliation("")
  {
    assert Lower("") == "";
    assert forall k :: 0 <= k < |Config.ACADEMIC_KEYWORDS| ==> Config.ACADEMIC_KEYWORDS[k] != [];
    NoKeywordInEmpty(Config.ACADEMIC_KEYWORDS);
  }

  lemma {:induction false} NoKeywordInEmpty(keywords: seq<string>)
    requires forall k :: 0 <= k < |keywords| ==> keywords[k] != []
    ensures !AnyKeywordIn(keywords, "")
  {
    if keywords != [] {
      NoKeywordInEmpty(keywords[1..]);
    }
  }

  /** Any text that contains an academic affiliation is itself academic. */
  lemma AcademicMonotone(s: string, t: string)
    requires IsSubstring(s, t) && IsAcademicAffiliation(s)
    ensures IsAcademicAffiliation(t)
  {
    var i: nat :| OccursAt(s, t, i);
    LowerSlice(t, i, i + |s|);
    assert OccursAt(Lower(s), Lower(t), i);
    AnyKeywordInMonotone(Config.ACADEMIC_KEYWORDS, Lower(s), Lower(t));
  }

  /** A keyword with a character outside the set of characters of `hay` does not occur in it. */
  lemma MissingCharNotContained(needle: string, hay: string, chars: set<char>, j: nat)
    requires forall i :: 0 <= i < |hay| ==> hay[i] in chars
    requires j < |needle| && needle[j] !in chars
    ensures !Contains(hay, needle)
  {
    ContainsIsSubstring(hay, needle);
    forall i: nat | i + |needle| <= |hay|
      ensures !OccursAt(needle, hay, i)
    {
      assert hay[i + j] != needle[j];
      assert hay[i..i + |needle|][j] != needle[j];
    }
  }

  /** No keyword occurs when each has, at the given position, a character that `hay` lacks. */
  lemma {:induction false} NoKeywordMissing(keywords: seq<string>, hay: string, chars: set<char>, miss: seq<nat>)
    requires forall i :: 0 <= i < |hay| ==> hay[i] in chars
    requires |miss| == |keywords|
    requires forall k :: 0 <= k < |keywords| ==> miss[k] < |keywords[k]| && keywords[k][miss[k]] !in chars
    ensures !AnyKeywordIn(keywords, hay)
  {
    if keywords != [] {
      MissingCharNotContained(keywords[0], hay, chars, miss[0]);
      NoKeywordMissing(keywords[1..], hay, chars, miss[1..]);
    }
  }

  lemma AcademicExample()
    ensures IsAcademicAffiliation("Harvard University")
  {
    var harvard := Lower("Harvard University");
    assert harvard == "harvard university";
    assert OccursAt("university", harvard, 8);
    assert "university" in Config.ACADEMIC_KEYWORDS;
    IsAcademicIff("Harvard University");
  }

  /** "pfizer inc." lacks, for each keyword, the character at the listed position. */
  lemma CompanyExample()
    ensures !IsAcademicAffiliation("Pfizer Inc.")
  {
    var pfizer := Lower("Pfizer Inc.");
    assert pfizer == "pfizer inc.";
    var chars := {'p', 'f', 'i', 'z', 'e', 'r', ' ', 'n', 'c', '.'};
    var miss: seq<nat> := [0, 0, 1, 2, 0, 1, 0, 3, 3, 0, 0, 1, 0, 1, 2, 2, 0, 1, 0, 0, 1, 1, 0, 0];
    NoKeywordMissing(Config.ACADEMIC_KEYWORDS, pfizer, chars, miss);
  }

  // ----- e-mail extraction ----------------------------------------------------------

  /** The characters `extract_email` strips from both ends of the chosen word. */
  const EMAIL_PUNCTUATION: set<char> := {';', '.', ',', '(', ')', '<', '>'}

  /** The word test of `extract_email`: it holds both an '@' and a '.'. */
  predicate LooksLikeEmail(word: string) {
    '@' in word && '.' in word
  }

  /** Index of the first word that looks like an e-mail address, or `|words|` when none does. */
  function FirstEmailWord(words: seq<string>): (k: nat)
    ensures k <= |words|
    ensures forall j :: 0 <= j < k ==> !LooksLikeEmail(words[j])
    ensures k < |words| ==> LooksLikeEmail(words[k])
  {
    if words == [] then 0
    else if LooksLikeEmail(words[0]) then 0
    else 1 + FirstEmailWord(words[1..])
  }

  /** The scan over the words of the text: the first e-mail-like word, stripped, or "". */
  function EmailFromWords(words: seq<string>): (email: string)
    ensures email != "" ==> '@' in email
  {
    var k := FirstEmailWord(words);
    if k == |words| then ""
    else
      StripCharsKeeps(words[k], EMAIL_PUNCTUATION, '@');
      StripChars(words[k], EMAIL_PUNCTUATION)
  }

  /** `extract_email(text)`: the first e-mail-like word, with punctuation stripped, or "". */
  function ExtractEmail(text: string): (email: string)
    ensures email != "" ==> '@' in email
  {
    if text == "" then "" else EmailFromWords(Split(text))
  }

  /** The early return for empty text agrees with the scan, which finds no word in "". */
  lemma ExtractEmailScans(text: string)
    ensures ExtractEmail(text) == EmailFromWords(Split(text))
  {
    assert Split("") == [];
  }

  /** Some word holds both an '@' and a '.'. */
  ghost predicate SomeEmailWord(words: seq<string>) {
    exists j :: 0 <= j < |words| && LooksLikeEmail(words[j])
  }

  /** `words[k]` is the first word that holds both an '@' and a '.'. */
  predicate IsFirstEmailWord(words: seq<string>, k: nat) {
    k < |words| && LooksLikeEmail(words[k]) && forall j :: 0 <= j < k ==> !LooksLikeEmail(words[j])
  }

  lemma FirstEmailWordNone(words: seq<string>)
    ensures FirstEmailWord(words) == |words| <==> !SomeEmailWord(words)
  {
    var k := FirstEmailWord(words);
    if k < |words| {
      assert SomeEmailWord(words);
    }
  }

  /**
   * The scan gives "" exactly when no word holds both '@' and '.'; otherwise it gives the
   * first such word, stripped of the punctuation at its ends.
   */
  lemma EmailFromWordsFirstMatch(words: seq<string>)
    ensures EmailFromWords(words) == "" <==> !SomeEmailWord(words)
    ensures EmailFromWords(words) != "" ==>
              exists k: nat :: IsFirstEmailWord(words, k) &&
                EmailFromWords(words) == StripChars(words[k], EMAIL_PUNCTUATION)
  {
    var k := FirstEmailWord(words);
    FirstEmailWordNone(words);
    if k < |words| {
      StripCharsKeeps(words[k], EMAIL_PUNCTUATION, '@');
      assert IsFirstEmailWord(words, k);
    }
  }

  /** `extract_email` returns "" exactly when no word of the text looks like an address, else the first one, stripped. */
  lemma ExtractEmailFirstMatch(text: string)
    ensures ExtractEmail(text) == "" <==> !SomeEmailWord(Split(text))
    ensures ExtractEmail(text) != "" ==>
              exists k: nat :: IsFirstEmailWord(Split(text), k) &&
                ExtractEmail(text) == StripChars(Split(text)[k], EMAIL_PUNCTUATION)
  {
    ExtractEmailScans(text);
    EmailFromWordsFirstMatch(Split(text));
  }

  /** A found address holds an '@' and is a contiguous piece of the text it came from. */
  lemma ExtractEmailInText(text: string)
    ensures ExtractEmail("") == ""
    ensures var email := ExtractEmail(text);
            email != "" ==> '@' in email && IsSubstring(email, text)
  {
    ExtractEmailScans(text);
    var words := Split(text);
    var k := FirstEmailWord(words);
    if k < |words| {
      var word := words[k];
      var email := StripChars(word, EMAIL_PUNCTUATION);
      assert ExtractEmail(text) == email;
      var i := LeadingIn(word, EMAIL_PUNCTUATION);
      assert OccursAt(email, word, i);
      SplitWordsInInput(text, k);
      SubstringTransitive(email, word, text);
    }
  }

  /** The words of the text "No email here". */
  const PLAIN_WORDS: seq<string> := ["No", "email", "here"]

  lemma NoEmailExample()
    ensures ExtractEmail("No email here") == ""
  {
    PlainTextWords();
    PlainWordsAreWords();
    SplitJoinSpaces(PLAIN_WORDS);
    ExtractEmailScans("No email here");
    PlainFirstEmailWord();
  }

  lemma PlainFirstEmailWord()
    ensures FirstEmailWord(PLAIN_WORDS) == 3
  {
    assert !LooksLikeEmail(PLAIN_WORDS[0]) && !LooksLikeEmail(PLAIN_WORDS[1]) && !LooksLikeEmail(PLAIN_WORDS[2]);
  }

  lemma PlainWordsAreWords()
    ensures forall k :: 0 <= k < |PLAIN_WORDS| ==> IsWord(PLAIN_WORDS[k])
  {
    assert IsWord(PLAIN_WORDS[0]) && IsWord(PLAIN_WORDS[1]) && IsWord(PLAIN_WORDS[2]);
  }

  lemma PlainTextWords()
    ensures Join(" ", PLAIN_WORDS) == "No email here"
  {
    assert PLAIN_WORDS[1..] == ["email", "here"];
    assert PLAIN_WORDS[1..][1..] == ["here"];
    assert "email" + " " + "here" == "email here";
    assert "No" + " " + "email here" == "No email here";
  }

  /** The words of the affiliation text "Pfizer Inc., contact: john.doe@pfizer.com". */
  const CONTACT_WORDS: seq<string> := ["Pfizer", "Inc.,", "contact:", "john.doe@pfizer.com"]

  lemma ContactEmailExample()
    ensures ExtractEmail("Pfizer Inc., contact: john.doe@pfizer.com") == "john.doe@pfizer.com"
  {
    ContactTextWords();
    ContactWordsAreWords();
    SplitJoinSpaces(CONTACT_WORDS);
    ExtractEmailScans("Pfizer Inc., contact: john.doe@pfizer.com");
    ContactWordsEmail();
  }

  lemma ContactWordsEmail()
    ensures EmailFromWords(CONTACT_WORDS) == "john.doe@pfizer.com"
  {
    ContactFirstEmailWord();
    ContactAddressUnchanged();
  }

  lemma ContactAddressUnchanged()
    ensures StripChars("john.doe@pfizer.com", EMAIL_PUNCTUATION) == "john.doe@pfizer.com"
  {
    StripCharsUnchanged("john.doe@pfizer.com", EMAIL_PUNCTUATION);
  }

  lemma ContactFirstEmailWord()
    ensures FirstEmailWord(CONTACT_WORDS) == 3
  {
    assert !LooksLikeEmail(CONTACT_WORDS[0]) && !LooksLikeEmail(CONTACT_WORDS[1]) && !LooksLikeEmail(CONTACT_WORDS[2]);
    assert LooksLikeEmail(CONTACT_WORDS[3]);
  }

  lemma ContactWordsAreWords()
    ensures forall k :: 0 <= k < |CONTACT_WORDS| ==> IsWord(CONTACT_WORDS[k])
  {
    assert IsWord(CONTACT_WORDS[0]) && IsWord(CONTACT_WORDS[1]) && IsWord(CONTACT_WORDS[2]) && IsWord(CONTACT_WORDS[3]);
  }

  /** Joining the example's words with single spaces gives its text, one word at a time. */
  lemma ContactTextWords()
    ensures Join(" ", CONTACT_WORDS) == "Pfizer Inc., contact: john.doe@pfizer.com"
  {
    assert CONTACT_WORDS[1..] == ["Inc.,", "contact:", "john.doe@pfizer.com"];
    assert CONTACT_WORDS[1..][1..] == ["contact:", "john.doe@pfizer.com"];
    assert CONTACT_WORDS[1..][1..][1..] == ["john.doe@pfizer.com"];
    ContactAddressPiece();
    ContactCompanyPiece();
    ContactNamePiece();
  }

  lemma ContactAddressPiece()
    ensures "contact:" + " " + "john.doe@pfizer.com" == "contact: john.doe@pfizer.com"
  {
  }

  lemma ContactCompanyPiece()
    ensures "Inc.," + " " + "contact: john.doe@pfizer.com" == "Inc., contact: john.doe@pfizer.com"
  {
  }

  lemma ContactNamePiece()
    ensures "Pfizer" + " " + "Inc., contact: john.doe@pfizer.com" == "Pfizer Inc., contact: john.doe@pfizer.com"
  {
  }

  // ----- titles and dates -----------------------------------------------------------

  /**
   * `clean_title(title)`: "N/A" for a missing or empty title, the stripped title otherwise;
   * either way the result needs no further stripping.
   */
  function CleanTitle(title: Option<string>): (cleaned: string)
    ensures Strip(cleaned) == cleaned
  {
    if title.None? || title.value == "" then
      NotAvailableStripped();
      "N/A"
    else
      StripIdempotent(title.value);
      Strip(title.value)
  }

  lemma NotAvailableStripped()
    ensures Strip("N/A") == "N/A"
  {
    StripCharsUnchanged("N/A", WHITESPACE);
  }

  /** A missing or empty title becomes "N/A"; any other title is returned stripped. */
  lemma CleanTitleSpec(title: Option<string>)
    ensures title.None? || title == Some("") ==> CleanTitle(title) == "N/A"
    ensures title.Some? && title.value != "" ==> CleanTitle(title) == Strip(title.value)
  {
  }

  /** Only a non-empty title made entirely of whitespace cleans to "". */
  lemma CleanTitleEmpty(title: Option<string>)
    ensures CleanTitle(title) == "" <==>
            title.Some? && title.value != "" && forall k :: 0 <= k < |title.value| ==> title.value[k] in WHITESPACE
  {
    if title.Some? && title.value != "" {
      StripCharsEmpty(title.value, WHITESPACE);
    }
  }

  predicate IsPresent(part: string) {
    part != ""
  }

  /** `format_publication_date(year, month, day)`: the present parts joined by '-', dashes trimmed. */
  function FormatPublicationDate(year: string, month: string, day: string): (date: string)
    ensures date != "" ==> date[0] != '-' && date[|date| - 1] != '-'
  {
    StripChars(Join("-", Filter([year, month, day], IsPresent)), {'-'})
  }

  predicate NoDashAtEnds(part: string) {
    part != "" ==> part[0] != '-' && part[|part| - 1] != '-'
  }

  /**
   * When no part begins or ends with '-', the date is exactly the present parts, in
   * year/month/day order, joined by '-': the final strip removes nothing.
   */
  lemma FormatDateJoinsPresentParts(year: string, month: string, day: string)
    requires NoDashAtEnds(year) && NoDashAtEnds(month) && NoDashAtEnds(day)
    ensures FormatPublicationDate(year, month, day) == Join("-", Filter([year, month, day], IsPresent))
  {
    var parts := Filter([year, month, day], IsPresent);
    assert forall k :: 0 <= k < |parts| ==> NoDashAtEnds(parts[k]) by {
      forall k | 0 <= k < |parts|
        ensures NoDashAtEnds(parts[k])
      {
        FilterMembers([year, month, day], IsPresent, parts[k]);
      }
    }
    if parts != [] {
      JoinEnds("-", parts);
    }
    StripCharsUnchanged(Join("-", parts), {'-'});
  }

  /** The parts kept from a year/month/day triple are the non-empty ones, in order. */
  lemma {:induction false} PresentParts(year: string, month: string, day: string)
    ensures Filter([year, month, day], IsPresent) ==
            (if year != "" then [year] else []) + (if month != "" then [month] else []) +
            (if day != "" then [day] else [])
  {
    var none: seq<string> := [];
    assert Filter(none, IsPresent) == [];
    FilterAppend(none, year, IsPresent);
    assert none + [year] == [year];
    FilterAppend([year], month, IsPresent);
    assert [year] + [month] == [year, month];
    FilterAppend([year, month], day, IsPresent);
    assert [year, month] + [day] == [year, month, day];
  }

  lemma FullDateExample()
    ensures FormatPublicationDate("2020", "05", "17") == "2020-05-17"
  {
    FormatDateJoinsPresentParts("2020", "05", "17");
    PresentParts("2020", "05", "17");
    assert Join("-", ["2020", "05", "17"]) == "2020" + "-" + Join("-", ["05", "17"]);
  }

  lemma PartialDateExamples()
    ensures FormatPublicationDate("2020", "05", "") == "2020-05"
    ensures FormatPublicationDate("2020", "", "") == "2020"
  {
    FormatDateJoinsPresentParts("2020", "05", "");
    PresentParts("2020", "05", "");
    FormatDateJoinsPresentParts("2020", "", "");
    PresentParts("2020", "", "");
  }

  lemma EmptyDateExample()
    ensures FormatPublicationDate("", "", "") == ""
  {
    PresentParts("", "", "");
  }
}
