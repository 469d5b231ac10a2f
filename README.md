# A verified model of the faculty-profile scraper

The scraper reads a department's staff directory page. It keeps the links
that look like staff profiles, and it puts a base URL in front of each one
that does not already start with "http". Then it fetches each
profile and extracts a short research-interests statement, first from the
text after a "research"/"interests" heading, otherwise from the first
sentence of the page that mentions research or an interest. It collects one
(profile URL, research interests) row per link.

This project models the three pieces of logic between the library calls of
`scrape_faculty.py`:

- `LinkDiscovery` models `fetch_faculty_links`. The parsed directory page is
  the ordered sequence of its `href` values. A loop (`FetchFacultyLinks`) is
  proved equal to a recursive filter-map (`ProfileLinks`). The filter-map is
  then characterised position by position: order kept, no deduplication, one
  output per qualifying link, and every output starts with "http" and still
  carries its marker.
- `ProfileExtraction` models `scrape_profile`. The parsed profile page is its
  h2/h3/h4 headings, each with the text of the element the parser finds after
  it if there is one, plus the whole page text. The sentence segmenter is a function passed
  in. The heading scan and the sentence fallback are loops, each proved
  equal to a recursive first-match function. `ScrapeProfile` chains the two
  loops and is proved equal to the function that composes those first-match
  functions. Lemmas cover the first-match behaviour, the "not found is
  `""`" outcome and the lower-case result of the fallback.
- `Pipeline` models the loop of `main`: one row per discovered link, in order.
  It also models the run with line 56 as written, where the first profile
  that reaches that line ends the whole run.
- `Text` models the Python string built-ins these use (`in`, `startswith`,
  `lower`, `strip`) over ASCII.
- `Wrappers` holds `Option` and `Response`. `Response` stands for a fetch that
  either failed or gave a parsed page.

Behaviour modelled as the code has it, where the system's design description
says otherwise:

- A heading that names the topic but has no following element does not end
  the scan; later headings are still examined (scrape_faculty.py:54-57). The
  design description says the scan stops at the first such heading.
- The fallback lower-cases the whole page text before segmenting it
  (scrape_faculty.py:60), so its answer is lower case. The design description
  says the original casing is kept.
- A failed directory fetch makes `fetch_faculty_links` return `[]`
  (scrape_faculty.py:38-40). The run then produces no rows rather than
  aborting, as the design description asks.
- The base URL for relative links is the fixed string
  `"https://www.roehampton.ac.uk/"`, joined by plain concatenation. A link
  `"/faculty/jane"` therefore becomes `"https://www.roehampton.ac.uk//faculty/jane"`.
- `main` fetches `"https://example-university.edu" + link` even though every
  discovered link already starts with "http" (scrape_faculty.py:85). `Pipeline.Run`
  proves that every row URL starts with `"https://example-university.eduhttp"`.
  This is modelled as written.
- The "absolute link" test is only `startswith("http")`
  (scrape_faculty.py:28). A relative link such as `"http_profile.html"` is
  therefore kept unchanged, without the base URL, and stays relative.
- Only links carrying a marker are kept, absolute ones included. The design
  description's worked example keeps `"http://x.org/other"`, but the code
  drops it because it contains none of "faculty", "profile" or "persons"
  (scrape_faculty.py:26).

## Model

| member | source | states |
|---|---|---|
| `Text.Contains` | scrape_faculty.py:26 | `w in s`: an occurring word is no longer than the text, and the empty word occurs in every text |
| `Text.StartsWith` | scrape_faculty.py:28 | `s.startswith(p)`: a prefix is in particular a substring |
| `Text.ContainsInLonger` | scrape_faculty.py:33 | a substring of a string remains a substring after text is added in front of it or behind it |
| `Text.ToLower` | scrape_faculty.py:53 | `lower()` keeps the length, leaves no upper-case letter, keeps every non-upper-case character, and agrees with the input once case is ignored |
| `Text.LowerOfLowerUnchanged` | scrape_faculty.py:60-64 | lower-casing text that has no upper-case letter changes nothing, so lowering the already-lowered sentences again is a no-op |
| `Text.ContainsLowered` | scrape_faculty.py:53 | if `w in s` then `w.lower() in s.lower()`: the lower-cased test does not lose occurrences |
| `Text.NoUpperInSubstring` | scrape_faculty.py:60-63 | a piece of lower-case text is lower case |
| `Text.LeadingSpaces` | scrape_faculty.py:56 | the count of leading whitespace characters: all of them are whitespace and the next one is not |
| `Text.TrailingSpaces` | scrape_faculty.py:56 | the count of trailing whitespace characters: all of them are whitespace and the one before is not |
| `Text.Strip` | scrape_faculty.py:65 | `strip()` gives the piece of the input left after cutting whitespace on both sides; that piece neither starts nor ends with whitespace |
| `Text.StripEmptyIffAllSpace` | scrape_faculty.py:59 | `strip()` gives `""` exactly when the input is all whitespace |
| `Text.StripOfTrimmed` | scrape_faculty.py:65 | a string without surrounding whitespace is left unchanged by `strip()` |
| `Text.StripIdempotent` | scrape_faculty.py:65 | stripping twice is stripping once |
| `Text.StripKeepsWord` | scrape_faculty.py:64-65 | `strip()` never cuts into a word that begins and ends with non-whitespace |
| `Text.StripNoUpper` | scrape_faculty.py:60-65 | stripping lower-case text leaves lower-case text |
| `LinkDiscovery.IsProfileHref` | scrape_faculty.py:26 | the marker test never accepts a link shorter than the shortest marker |
| `LinkDiscovery.Resolve` | scrape_faculty.py:28-34 | a kept link's URL starts with "http", ends with the link, and still carries the link's marker |
| `LinkDiscovery.PrefixKeepsMarkers` | scrape_faculty.py:26-34 | prefixing a link never removes its "faculty"/"profile"/"persons" marker |
| `LinkDiscovery.ResolveCases` | scrape_faculty.py:28-34 | a link is emitted unchanged exactly when it starts with "http"; any other link becomes the base URL followed by the link, with no slash normalisation |
| `LinkDiscovery.ResolveIdempotent` | scrape_faculty.py:28-34 | resolving a resolved URL changes nothing |
| `LinkDiscovery.ProfileLinks` | scrape_faculty.py:23-34 | the filter-map keeps at most as many entries as there are links, and every entry contains a marker and starts with "http" |
| `LinkDiscovery.ProfileLinksAppend` | scrape_faculty.py:23-34 | filtering a concatenation is the concatenation of the filtered parts: order is kept and duplicates are not removed |
| `LinkDiscovery.ProfileLinksSnoc` | scrape_faculty.py:26-34 | one more link on the page adds its resolved form at the end of the list when it carries a marker, and nothing otherwise |
| `LinkDiscovery.ProfileIndicesIncreasing` | scrape_faculty.py:24-34 | the positions of kept links are listed in document order, each once |
| `LinkDiscovery.ProfileIndicesExact` | scrape_faculty.py:24-26 | a position is listed exactly when its link contains a marker |
| `LinkDiscovery.ProfileLinksAtIndices` | scrape_faculty.py:24-34 | there is one output per listed position, and output k is the resolved link at the k-th listed position |
| `LinkDiscovery.ProfileLinksIndexed` | scrape_faculty.py:23-34 | entry k is the resolved k-th qualifying link; the kept positions strictly increase; a position is kept exactly when its link contains a marker |
| `LinkDiscovery.FetchFacultyLinks` | scrape_faculty.py:17-40 | the append loop returns exactly the filter-map of the directory's links, and `[]` when the directory fetch failed |
| `LinkDiscovery.DiscoveryExample` | scrape_faculty.py:26-34 | four links give three URLs: the relative ones get the base prefixed (double slash kept), the absolute one passes through, the one without a marker is dropped |
| `LinkDiscovery.ExampleVerdicts` | scrape_faculty.py:26 | the marker test's verdicts on the links of that example |
| `LinkDiscovery.ExampleResolutions` | scrape_faculty.py:28 | the "http" prefix test's verdicts on the links of that example |
| `LinkDiscovery.ExampleJoins` | scrape_faculty.py:33 | the base concatenation on that example's relative links adds and removes no slash |
| `LinkDiscovery.HttpNamedRelativeLinkKept` | scrape_faculty.py:26-34 | a relative link that happens to start with "http", `"http_profile.html"`, is kept unchanged, with no base URL in front |
| `LinkDiscovery.AbsoluteLinkWithoutMarkerDropped` | scrape_faculty.py:26 | an absolute link with no marker, `"http://x.org/other"`, is dropped |
| `ProfileExtraction.IsInterestHeading` | scrape_faculty.py:53 | a heading that names the topic has a text at least as long as "research" |
| `ProfileExtraction.HeadingMatchIgnoresCase` | scrape_faculty.py:53 | any casing of "research" or "interests" in a heading's text, such as "Research" or "INTERESTS", makes it name the topic |
| `ProfileExtraction.HeadingResult` | scrape_faculty.py:50-57 | the heading scan gives `""` or the stripped following text of some heading that names the topic and has a following element |
| `ProfileExtraction.HeadingFirstMatch` | scrape_faculty.py:51-57 | the heading scan answers with the stripped following text of the first heading that names research or interests and has a following element |
| `ProfileExtraction.HeadingSkipsUnusable` | scrape_faculty.py:52-57 | headings the scan does not stop at are passed over, including a topic heading with no following element |
| `ProfileExtraction.HeadingNoMatch` | scrape_faculty.py:50-57 | with no such heading the scan gives `""` |
| `ProfileExtraction.HeadingStopsAtMatch` | scrape_faculty.py:55-57 | after such a heading no later heading is consulted |
| `ProfileExtraction.ScanHeadings` | scrape_faculty.py:50-57 | the heading loop with its `break` computes the heading scan (line 56 as intended, see Findings) |
| `ProfileExtraction.IsInterestSentence` | scrape_faculty.py:64 | a sentence that mentions the topic is at least as long as "interest" |
| `ProfileExtraction.SentenceResult` | scrape_faculty.py:63-67 | the sentence search gives `""` or some on-topic sentence, stripped |
| `ProfileExtraction.FallbackResult` | scrape_faculty.py:59-67 | the fallback gives `""` or some on-topic sentence of the lower-cased page text, stripped |
| `ProfileExtraction.SentenceFirstMatch` | scrape_faculty.py:63-66 | the fallback answers with the stripped first sentence, in segmentation order, whose lower-cased text contains "research" or "interest" |
| `ProfileExtraction.InterestSentenceNotBlank` | scrape_faculty.py:64-65 | a sentence that mentions the topic never strips to `""` |
| `ProfileExtraction.SentenceResultEmptyIff` | scrape_faculty.py:63-67 | the fallback gives `""` exactly when no sentence mentions the topic |
| `ProfileExtraction.KeywordSurvivesStrip` | scrape_faculty.py:64-65 | stripping keeps "research" or "interest" in a text that contains it |
| `ProfileExtraction.OnTopicSentenceStripped` | scrape_faculty.py:64-65 | a lower-case sentence that mentions the topic is still lower case and still mentions it once stripped |
| `ProfileExtraction.SentenceResultLowerAndOnTopic` | scrape_faculty.py:63-66 | over lower-case sentences the fallback's answer is lower case and, unless `""`, contains "research" or "interest" |
| `ProfileExtraction.FallbackLowerAndOnTopic` | scrape_faculty.py:59-66 | since the page text is lower-cased before segmenting, the fallback's answer has no upper-case letter and, unless `""`, mentions research or an interest |
| `ProfileExtraction.FirstInterestSentence` | scrape_faculty.py:63-66 | the sentence loop with its `break` computes the fallback |
| `ProfileExtraction.Extract` | scrape_faculty.py:50-67 | the extractor gives `""`, or the stripped text after a heading that names the topic and has a following element, or a stripped on-topic sentence of the lower-cased page text |
| `ProfileExtraction.Scraped` | scrape_faculty.py:43-70 | a failed fetch gives `""`, as the request-exception handler does |
| `ProfileExtraction.ExtractEmptyIff` | scrape_faculty.py:50-67 | the extractor gives `""` exactly when the heading scan gives `""` and no sentence mentions the topic; "not found" is never an error |
| `ProfileExtraction.ScrapeProfile` | scrape_faculty.py:43-70 | a failed fetch gives `""`; otherwise the heading scan, and the fallback only when the scan gave `""` |
| `ProfileExtraction.ScanHeadingsAsWritten` | scrape_faculty.py:52-57 | as written, the heading loop either raises AttributeError or ends with `""`; it never returns heading text |
| `ProfileExtraction.AsWrittenRaisesIffUsable` | scrape_faculty.py:52-57 | as written, the heading loop raises exactly when a heading names the topic and has a following element |
| `ProfileExtraction.ScrapeProfileAsWritten` | scrape_faculty.py:43-70 | as written, `scrape_profile` raises AttributeError exactly on a fetched page with a heading that reaches line 56, because the handler catches only request exceptions; on every other response it returns what the corrected extractor returns |
| `ProfileExtraction.AsWrittenRaisesOnResearchHeading` | scrape_faculty.py:53-57 | a "Research Interests" heading followed by "Climate policy.": as written the scrape raises AttributeError, corrected it answers "Climate policy." |
| `Pipeline.ProfileUrl` | scrape_faculty.py:85 | the fetched URL starts with the placeholder host and ends with the link |
| `Pipeline.CollectRows` | scrape_faculty.py:83-87 | one row per link in link order; row i is the host-prefixed link and what the extractor finds on the page that the i-th request gave back |
| `Pipeline.Run` | scrape_faculty.py:77-87 | no rows after a failed directory fetch; otherwise row i belongs to the i-th discovered link, and every row URL starts with the host followed by "http" and carries a marker |
| `Pipeline.RowsAsWritten` | scrape_faculty.py:83-87 | with line 56 as written, the run either crashes with AttributeError or completes with one row per remaining link |
| `Pipeline.RowsAsWrittenStep` | scrape_faculty.py:84-87 | as written, a profile that reaches line 56 ends the run; any other profile adds its corrected row in front of the rest |
| `Pipeline.RowsAsWrittenCrashIff` | scrape_faculty.py:84-87 | as written, the run crashes exactly when some profile request gives back a page whose heading loop reaches line 56 |
| `Pipeline.RowsAsWrittenCompleted` | scrape_faculty.py:83-87 | as written, a run that completes has exactly the rows of the corrected run |
| `Pipeline.CompletedRowsCorrected` | scrape_faculty.py:83-87 | if the run as written from link i completes with some rows, those rows are the corrected rows for links i onwards |
| `Pipeline.RunCrashesOnResearchHeading` | scrape_faculty.py:80-87 | one profile link whose page has a "Research Interests" heading followed by text: as written the whole run crashes |

## Findings

| source | as written | input that shows it | evidently intended | confidence | as-written member | corrected member |
|---|---|---|---|---|---|---|
| scrape_faculty.py:56 | `next.element.text.strip()` reads an attribute `element` of the built-in function `next`. That raises AttributeError, which the handler for request exceptions does not catch, so `scrape_profile` and the whole run end with it | a fetched profile page with a heading "Research Interests" followed by a paragraph "Climate policy." | `next_element.text.strip()`, giving "Climate policy." | not executed; high | `ProfileExtraction.ScrapeProfileAsWritten`, `ProfileExtraction.AsWrittenRaisesOnResearchHeading`, `Pipeline.RunCrashesOnResearchHeading` | `ProfileExtraction.ScanHeadings` |

## Left out

- HTTP fetching (`requests.get`, `raise_for_status`) is a `Response` input: `Failed` for a bad status or a network error, `Fetched` with the parsed page otherwise. `Pipeline` takes the profile fetches as a function from the request number and the URL to `Response`, so two requests for the same URL may answer differently.
- The request-exception handlers are modelled only through their results (`[]` for the directory, `""` for a profile); the printed error messages are not.
- HTML parsing is replaced by its outputs: the directory's `href` values in document order, and a profile's h2/h3/h4 headings, each with its text and the text of the element `find_next()` finds after it if any, plus the page's plain text. `find_all`, `find_next` and `get_text` themselves are not modelled. In particular, `find_next()` returns the next tag in document order, which for a heading with a tag inside it (`<h2><span>Research</span></h2>`) is that inner tag; the model takes whatever text the parser gives as the heading's `next`.
- The spaCy model and its sentence segmentation are a `Segmenter` function passed in. Loading the model is not modelled. Neither is spaCy's own failure: `nlp(page_text)` raises ValueError (error E088) on a text longer than the model's `max_length`, and no handler catches it, so such a page would end the run.
- `save_to_csv`, pandas and every `print` are output plumbing and are not modelled; the model stops at the list of rows.
- The fixed directory URL in `main`, the `__main__` guard and the program start are orchestration and are not modelled.
- Python's `lower()` and `strip()` act on all of Unicode; `Text` lower-cases only ASCII letters and strips only ASCII whitespace (tab, line feed, vertical tab, form feed, carriage return, U+001C..U+001F, space).
- FallbackLowerAndOnTopic: assumes the segmenter returns pieces of the text it is given, as spaCy's sentence spans are; a segmenter that invents text is not covered.
