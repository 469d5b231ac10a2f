/** `scrape_profile`: find a profile page's statement of research interests,
    first from the text after a heading that names research or interests,
    then, failing that, from the first sentence of the lower-cased page text
    that mentions research or an interest. */
module ProfileExtraction {
  import opened Wrappers
  import opened Text

  /** One h2/h3/h4 heading of a parsed page: its text, and the text of the
      element the parser finds after it, if there is one. */
  datatype Heading = Heading(text: string, next: Option<string>)

  /** What the extractor reads from a parsed profile page: its headings in
      document order and its whole plain text. */
  datatype Page = Page(headings: seq<Heading>, text: string)

  /** The sentence segmenter: splits a text into its sentences, in order. */
  type Segmenter = string -> seq<string>

  // ---------------------------------------------------------------------
  // Heading scan
  // ---------------------------------------------------------------------

  /** A heading names the topic when its lower-cased text contains
      "research" or "interests". */
  predicate IsInterestHeading(h: Heading)
    ensures IsInterestHeading(h) ==> |h.text| >= |"research"|
  {
    var title := ToLower(h.text);
    Contains(title, "research") || Contains(title, "interests")
  }

  /** Case does not matter to the heading test: a heading whose text holds
      any casing of "research" or "interests" ("Research", "INTERESTS")
      names the topic. */
  lemma HeadingMatchIgnoresCase(h: Heading, w: string)
    requires Contains(h.text, w)
    requires ToLower(w) == "research" || ToLower(w) == "interests"
    ensures IsInterestHeading(h)
  {
    ContainsLowered(h.text, w);
  }

  /** A heading the scan stops at: it names the topic and something follows it. */
  predicate Usable(h: Heading)
  {
    IsInterestHeading(h) && h.next.Some?
  }

  /** `r` is the stripped following text of some usable heading. */
  predicate FromUsableHeading(headings: seq<Heading>, r: string)
  {
    exists j :: 0 <= j < |headings| && Usable(headings[j]) && r == Strip(headings[j].next.value)
  }

  /** The heading scan: the stripped text after the first usable heading,
      or "" when there is none. Any answer other than "" is the stripped
      following text of some usable heading. */
  function HeadingResult(headings: seq<Heading>): (r: string)
    ensures r == "" || FromUsableHeading(headings, r)
  {
    if headings == [] then
      ""
    else if Usable(headings[0]) then
      Strip(headings[0].next.value)
    else
      HeadingResult(headings[1..])
  }

  /** The scan answers with the first usable heading's following text. */
  lemma {:induction false} HeadingFirstMatch(headings: seq<Heading>, i: nat)
    requires i < |headings| && Usable(headings[i])
    requires forall j :: 0 <= j < i ==> !Usable(headings[j])
    ensures HeadingResult(headings) == Strip(headings[i].next.value)
  {
    if i > 0 {
      assert !Usable(headings[0]);
      HeadingFirstMatch(headings[1..], i - 1);
    }
  }

  /** Headings the scan does not stop at are passed over: a heading that
      names the topic but has nothing after it does not end the scan. */
  lemma {:induction false} HeadingSkipsUnusable(skipped: seq<Heading>, rest: seq<Heading>)
    requires forall j :: 0 <= j < |skipped| ==> !Usable(skipped[j])
    ensures HeadingResult(skipped + rest) == HeadingResult(rest)
  {
    if skipped == [] {
      assert skipped + rest == rest;
    } else {
      assert (skipped + rest)[0] == skipped[0];
      assert (skipped + rest)[1..] == skipped[1..] + rest;
      HeadingSkipsUnusable(skipped[1..], rest);
    }
  }

  /** Without a usable heading the scan finds nothing. */
  lemma HeadingNoMatch(headings: seq<Heading>)
    requires forall j :: 0 <= j < |headings| ==> !Usable(headings[j])
    ensures HeadingResult(headings) == ""
  {
    HeadingSkipsUnusable(headings, []);
    assert headings + [] == headings;
  }

  /** Once a usable heading has been seen, no later heading is consulted. */
  lemma {:induction false} HeadingStopsAtMatch(scanned: seq<Heading>, later: seq<Heading>)
    requires exists j :: 0 <= j < |scanned| && Usable(scanned[j])
    ensures HeadingResult(scanned + later) == HeadingResult(scanned)
  {
    assert (scanned + later)[0] == scanned[0];
    if !Usable(scanned[0]) {
      assert (scanned + later)[1..] == scanned[1..] + later;
      var j :| 0 <= j < |scanned| && Usable(scanned[j]);
      assert scanned[1..][j - 1] == scanned[j];
      HeadingStopsAtMatch(scanned[1..], later);
    }
  }

  /** The heading scan as a loop that stops at the first usable heading.
      The model reads the following element's text where line 56 of
      scrape_faculty.py names the built-in `next` instead of the variable
      `next_element`; ScanHeadingsAsWritten models the line as it stands. */
  method ScanHeadings(headings: seq<Heading>) returns (interests: string)
    ensures interests == HeadingResult(headings)
  {
    interests := "";
    var i := 0;
    while i < |headings|
      invariant 0 <= i <= |headings|
      invariant interests == ""
      invariant HeadingResult(headings[i..]) == HeadingResult(headings)
    {
      var heading := headings[i];
      var title := ToLower(heading.text);
      if Contains(title, "research") || Contains(title, "interests") {
        if heading.next.Some? {
          interests := Strip(heading.next.value);
          break;
        }
      }
      assert headings[i..][1..] == headings[i + 1..];
      i := i + 1;
    }
  }

  // ---------------------------------------------------------------------
  // Sentence fallback
  // ---------------------------------------------------------------------

  /** A sentence mentions the topic when its lower-cased text contains
      "research" or "interest". */
  predicate IsInterestSentence(sentence: string)
    ensures IsInterestSentence(sentence) ==> |sentence| >= |"interest"|
  {
    var lowered := ToLower(sentence);
    Contains(lowered, "research") || Contains(lowered, "interest")
  }

  /** `r` is some sentence that mentions the topic, stripped. */
  predicate FromOnTopicSentence(sentences: seq<string>, r: string)
  {
    exists j :: 0 <= j < |sentences| && IsInterestSentence(sentences[j]) && r == Strip(sentences[j])
  }

  /** The first sentence that mentions the topic, stripped, or "". Any
      answer other than "" is some on-topic sentence, stripped. */
  function SentenceResult(sentences: seq<string>): (r: string)
    ensures r == "" || FromOnTopicSentence(sentences, r)
  {
    if sentences == [] then
      ""
    else if IsInterestSentence(sentences[0]) then
      Strip(sentences[0])
    else
      SentenceResult(sentences[1..])
  }

  /** The fallback: segment the lower-cased page text, take the first
      sentence that mentions the topic. */
  function FallbackResult(pageText: string, segment: Segmenter): (r: string)
    ensures r == "" || FromOnTopicSentence(segment(ToLower(pageText)), r)
  {
    SentenceResult(segment(ToLower(pageText)))
  }

  /** The fallback answers with the first sentence that mentions the topic. */
  lemma {:induction false} SentenceFirstMatch(sentences: seq<string>, i: nat)
    requires i < |sentences| && IsInterestSentence(sentences[i])
    requires forall j :: 0 <= j < i ==> !IsInterestSentence(sentences[j])
    ensures SentenceResult(sentences) == Strip(sentences[i])
  {
    if i > 0 {
      assert !IsInterestSentence(sentences[0]);
      SentenceFirstMatch(sentences[1..], i - 1);
    }
  }

  /** A sentence that mentions the topic is never blank, so it never
      strips to "". */
  lemma InterestSentenceNotBlank(sentence: string)
    requires IsInterestSentence(sentence)
    ensures Strip(sentence) != ""
  {
    var lowered := ToLower(sentence);
    var word := if Contains(lowered, "research") then "research" else "interest";
    var i: nat :| i <= |lowered| && OccursAt(lowered, word, i);
    assert lowered[i] == word[0];
    assert !IsSpace(sentence[i]);
    StripEmptyIffAllSpace(sentence);
  }

  /** The fallback finds nothing exactly when no sentence mentions the topic. */
  lemma {:induction false} SentenceResultEmptyIff(sentences: seq<string>)
    ensures SentenceResult(sentences) == ""
        <==> forall j :: 0 <= j < |sentences| ==> !IsInterestSentence(sentences[j])
  {
    if sentences != [] {
      if IsInterestSentence(sentences[0]) {
        InterestSentenceNotBlank(sentences[0]);
      } else {
        SentenceResultEmptyIff(sentences[1..]);
        assert forall j :: 1 <= j < |sentences| ==> sentences[1..][j - 1] == sentences[j];
      }
    }
  }

  /** A lower-case sentence that mentions the topic still does once stripped. */
  lemma OnTopicSentenceStripped(sentence: string)
    requires NoUpper(sentence) && IsInterestSentence(sentence)
    ensures NoUpper(Strip(sentence))
    ensures Contains(Strip(sentence), "research") || Contains(Strip(sentence), "interest")
  {
    StripNoUpper(sentence);
    LowerOfLowerUnchanged(sentence);
    KeywordSurvivesStrip(sentence);
  }

  /** Stripping keeps "research" and "interest" in the text. */
  lemma KeywordSurvivesStrip(s: string)
    requires Contains(s, "research") || Contains(s, "interest")
    ensures Contains(Strip(s), "research") || Contains(Strip(s), "interest")
  {
    if Contains(s, "research") {
      assert "research"[0] == 'r' && "research"[7] == 'h';
      StripKeepsWord(s, "research");
    } else {
      assert "interest"[0] == 'i' && "interest"[7] == 't';
      StripKeepsWord(s, "interest");
    }
  }

  /** When every sentence is already lower case, the fallback's answer holds
      no upper-case letter and, unless it is "", mentions the topic. */
  lemma {:induction false} SentenceResultLowerAndOnTopic(sentences: seq<string>)
    requires forall j :: 0 <= j < |sentences| ==> NoUpper(sentences[j])
    ensures NoUpper(SentenceResult(sentences))
    ensures var r := SentenceResult(sentences);
      r != "" ==> Contains(r, "research") || Contains(r, "interest")
  {
    if sentences != [] {
      if IsInterestSentence(sentences[0]) {
        OnTopicSentenceStripped(sentences[0]);
      } else {
        assert forall j :: 0 <= j < |sentences| - 1 ==> sentences[1..][j] == sentences[j + 1];
        SentenceResultLowerAndOnTopic(sentences[1..]);
      }
    }
  }

  /** The segmenter returns pieces of the text it is given. */
  predicate SegmentsWithin(segment: Segmenter, text: string)
  {
    forall j :: 0 <= j < |segment(text)| ==> Contains(text, segment(text)[j])
  }

  /** Because the page text is lower-cased before it is segmented, the
      fallback's answer holds no upper-case letter (the page's own casing is
      not kept) and, unless it is "", mentions research or an interest. */
  lemma FallbackLowerAndOnTopic(pageText: string, segment: Segmenter)
    requires SegmentsWithin(segment, ToLower(pageText))
    ensures NoUpper(FallbackResult(pageText, segment))
    ensures var r := FallbackResult(pageText, segment);
      r != "" ==> Contains(r, "research") || Contains(r, "interest")
  {
    var lowered := ToLower(pageText);
    var sentences := segment(lowered);
    forall j | 0 <= j < |sentences|
      ensures NoUpper(sentences[j])
    {
      NoUpperInSubstring(lowered, sentences[j]);
    }
    SentenceResultLowerAndOnTopic(sentences);
  }

  /** The sentence fallback as a loop that stops at the first match. */
  method FirstInterestSentence(sentences: seq<string>) returns (interests: string)
    ensures interests == SentenceResult(sentences)
  {
    interests := "";
    var i := 0;
    while i < |sentences|
      invariant 0 <= i <= |sentences|
      invariant interests == ""
      invariant SentenceResult(sentences[i..]) == SentenceResult(sentences)
    {
      var sentence := sentences[i];
      var lowered := ToLower(sentence);
      if Contains(lowered, "research") || Contains(lowered, "interest") {
        interests := Strip(sentence);
        break;
      }
      assert sentences[i..][1..] == sentences[i + 1..];
      i := i + 1;
    }
  }

  // ---------------------------------------------------------------------
  // The whole extractor
  // ---------------------------------------------------------------------

  /** The heading scan, and the sentence fallback when the scan gives "".
      Any answer other than "" comes from a usable heading or from an
      on-topic sentence of the lower-cased page text. */
  function Extract(page: Page, segment: Segmenter): (r: string)
    ensures r == "" || FromUsableHeading(page.headings, r) || FromOnTopicSentence(segment(ToLower(page.text)), r)
  {
    var fromHeadings := HeadingResult(page.headings);
    if fromHeadings != "" then fromHeadings else FallbackResult(page.text, segment)
  }

  /** The extractor on a fetch: a failed fetch gives "". */
  function Scraped(response: Response<Page>, segment: Segmenter): (r: string)
    ensures response.Failed? ==> r == ""
  {
    match response
    case Failed => ""
    case Fetched(page) => Extract(page, segment)
  }

  /** "Not found" is the empty string and nothing else: the extractor gives
      "" exactly when the heading scan gives "" and no sentence of the
      lower-cased page text mentions the topic. */
  lemma ExtractEmptyIff(page: Page, segment: Segmenter)
    ensures var sentences := segment(ToLower(page.text));
      (Extract(page, segment) == "")
        <==> (HeadingResult(page.headings) == ""
              && forall j :: 0 <= j < |sentences| ==> !IsInterestSentence(sentences[j]))
  {
    SentenceResultEmptyIff(segment(ToLower(page.text)));
  }

  /** `scrape_profile` on a fetch: the heading scan, then the sentence
      fallback over the lower-cased page text when the scan gave "". */
  method ScrapeProfile(response: Response<Page>, segment: Segmenter) returns (interests: string)
    ensures interests == Scraped(response, segment)
  {
    if response.Failed? {
      return "";
    }
    var page := response.body;
    interests := ScanHeadings(page.headings);
    if interests == "" {
      var pageText := ToLower(page.text);
      interests := FirstInterestSentence(segment(pageText));
    }
  }

  // ---------------------------------------------------------------------
  // Line 56 as written
  // ---------------------------------------------------------------------

  /** How a Python call ends: it returns a value or raises an exception. */
  datatype Outcome = Returned(value: string) | Raised(exception: string)

  /** The heading scan as line 56 stands: reaching a usable heading evaluates
      `next.element`, an attribute the built-in function `next` lacks. */
  function ScanHeadingsAsWritten(headings: seq<Heading>): (o: Outcome)
    ensures o.Raised? ==> o.exception == "AttributeError"
    ensures o.Returned? ==> o.value == ""
  {
    if headings == [] then
      Returned("")
    else if Usable(headings[0]) then
      Raised("AttributeError")
    else
      ScanHeadingsAsWritten(headings[1..])
  }

  /** Some heading of the page is one the scan stops at. */
  predicate HasUsableHeading(headings: seq<Heading>)
  {
    exists j :: 0 <= j < |headings| && Usable(headings[j])
  }

  /** A fetched page whose heading loop reaches line 56. */
  predicate ReachesLine56(response: Response<Page>)
  {
    response.Fetched? && HasUsableHeading(response.body.headings)
  }

  /** `scrape_profile` as written. Its handler catches only request
      exceptions, so the AttributeError leaves the function: it raises
      exactly on a fetched page with a usable heading, and on every other
      response it returns what the corrected extractor returns. */
  function ScrapeProfileAsWritten(response: Response<Page>, segment: Segmenter): (o: Outcome)
    ensures o.Raised? <==> ReachesLine56(response)
    ensures o.Raised? ==> o.exception == "AttributeError"
    ensures o.Returned? ==> o.value == Scraped(response, segment)
  {
    match response
    case Failed => Returned("")
    case Fetched(page) =>
      AsWrittenRaisesIffUsable(page.headings);
      match ScanHeadingsAsWritten(page.headings)
      case Raised(e) => Raised(e)
      case Returned(fromHeadings) =>
        HeadingNoMatch(page.headings);
        Returned(if fromHeadings != "" then fromHeadings else FallbackResult(page.text, segment))
  }

  /** As written, the scan raises exactly when the page has a usable
      heading, which is exactly when the heading path is meant to succeed. */
  lemma {:induction false} AsWrittenRaisesIffUsable(headings: seq<Heading>)
    ensures ScanHeadingsAsWritten(headings).Raised?
        <==> exists j :: 0 <= j < |headings| && Usable(headings[j])
  {
    if headings != [] && !Usable(headings[0]) {
      AsWrittenRaisesIffUsable(headings[1..]);
      assert forall j :: 1 <= j < |headings| ==> headings[1..][j - 1] == headings[j];
    }
  }

  /** A page with the heading "Research Interests" followed by "Climate
      policy.": the code as written raises, the corrected extractor answers
      "Climate policy.". */
  lemma AsWrittenRaisesOnResearchHeading(segment: Segmenter)
    ensures var page := Page([Heading("Research Interests", Some("Climate policy."))], "");
      && ScrapeProfileAsWritten(Fetched(page), segment) == Raised("AttributeError")
      && Scraped(Fetched(page), segment) == "Climate policy."
  {
    var heading := Heading("Research Interests", Some("Climate policy."));
    var title := ToLower(heading.text);
    assert title[..8] == "research";
    assert OccursAt(title, "research", 0);
    assert Usable(heading);
    StripOfTrimmed("Climate policy.");
  }
}
