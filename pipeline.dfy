/** `main`: discover the profile links on the directory page, then scrape
    each profile in turn and collect one (profile URL, research interests)
    row per link. The row URL is built by putting a fixed placeholder host in
    front of the discovered link, exactly as the source does, although
    every discovered link already starts with "http". */
module Pipeline {
  import opened Wrappers
  import opened Text
  import opened LinkDiscovery
  import opened ProfileExtraction

  /** The host `main` puts in front of every discovered link. */
  const ProfileUrlPrefix: string := "https://example-university.edu"

  /** One output row: the URL that was fetched and what was extracted. */
  datatype Row = Row(profileUrl: string, researchInterests: string)

  /** The URL `main` fetches for a discovered link. */
  function ProfileUrl(link: string): (url: string)
    ensures StartsWith(url, ProfileUrlPrefix)
    ensures |link| <= |url| && url[|url| - |link|..] == link
  {
    assert (ProfileUrlPrefix + link)[..|ProfileUrlPrefix|] == ProfileUrlPrefix;
    ProfileUrlPrefix + link
  }

  /** The network: what the i-th profile request of the run, made for the
      given URL, gives back (the HTTP request and the HTML parse). The
      request number lets two requests for the same URL answer differently. */
  type Fetcher = (nat, string) -> Response<Page>

  /** rows are the corrected run's rows for links i, i + 1, ... in order. */
  predicate CorrectedFrom(links: seq<string>, fetch: Fetcher, segment: Segmenter, i: nat, rows: seq<Row>)
  {
    && i + |rows| <= |links|
    && forall j :: 0 <= j < |rows| ==>
         rows[j] == Row(ProfileUrl(links[i + j]), Scraped(fetch(i + j, ProfileUrl(links[i + j])), segment))
  }

  /** The per-link loop of `main`: one row per link, in link order, each
      holding the URL fetched for the link and what the extractor found on
      the page that request gave back. */
  method CollectRows(links: seq<string>, fetch: Fetcher, segment: Segmenter)
    returns (rows: seq<Row>)
    ensures |rows| == |links|
    ensures forall i :: 0 <= i < |links| ==> rows[i] == Row(ProfileUrl(links[i]), Scraped(fetch(i, ProfileUrl(links[i])), segment))
  {
    rows := [];
    var i := 0;
    while i < |links|
      invariant 0 <= i <= |links|
      invariant |rows| == i
      invariant CorrectedFrom(links, fetch, segment, 0, rows)
    {
      var profileUrl := ProfileUrl(links[i]);
      var researchInterests := ScrapeProfile(fetch(i, profileUrl), segment);
      CorrectedRowsSnoc(links, fetch, segment, rows);
      rows := rows + [Row(profileUrl, researchInterests)];
      i := i + 1;
    }
  }

  /** Appending the next link's corrected row keeps the rows corrected. */
  lemma CorrectedRowsSnoc(links: seq<string>, fetch: Fetcher, segment: Segmenter, rows: seq<Row>)
    requires |rows| < |links|
    requires CorrectedFrom(links, fetch, segment, 0, rows)
    ensures CorrectedFrom(links, fetch, segment, 0,
      rows + [Row(ProfileUrl(links[|rows|]), Scraped(fetch(|rows|, ProfileUrl(links[|rows|])), segment))])
  {
    var next := rows + [Row(ProfileUrl(links[|rows|]), Scraped(fetch(|rows|, ProfileUrl(links[|rows|])), segment))];
    forall j | 0 <= j < |next|
      ensures next[j] == Row(ProfileUrl(links[j]), Scraped(fetch(j, ProfileUrl(links[j])), segment))
    {
      if j < |rows| {
        assert next[j] == rows[j];
      } else {
        assert j == |rows|;
      }
    }
  }

  /** The whole run over an already fetched directory page. A failed
      directory fetch gives no links and so no rows. Otherwise row i belongs
      to the i-th discovered link; its URL is the placeholder host followed
      by a link that starts with "http", so it starts with the host
      immediately followed by "http", and it carries one of the profile
      markers. */
  method Run(directory: Response<seq<string>>, fetch: Fetcher, segment: Segmenter)
    returns (rows: seq<Row>)
    ensures directory.Failed? ==> rows == []
    ensures directory.Fetched? ==>
      var links := ProfileLinks(directory.body);
      && |rows| == |links|
      && forall i :: 0 <= i < |links| ==>
           && rows[i].profileUrl == ProfileUrlPrefix + links[i]
           && rows[i].researchInterests == Scraped(fetch(i, rows[i].profileUrl), segment)
    ensures forall i :: 0 <= i < |rows| ==>
      StartsWith(rows[i].profileUrl, ProfileUrlPrefix + "http") && IsProfileHref(rows[i].profileUrl)
  {
    var links := FetchFacultyLinks(directory);
    rows := CollectRows(links, fetch, segment);
    forall i | 0 <= i < |rows|
      ensures StartsWith(rows[i].profileUrl, ProfileUrlPrefix + "http") && IsProfileHref(rows[i].profileUrl)
    {
      PrefixKeepsMarkers(ProfileUrlPrefix, links[i]);
      assert (ProfileUrlPrefix + links[i])[..|ProfileUrlPrefix| + 4] == ProfileUrlPrefix + links[i][..4];
    }
  }

  // ---------------------------------------------------------------------
  // The run with line 56 of scrape_faculty.py as written
  // ---------------------------------------------------------------------

  /** How the run ends: with all its rows, or with an exception nothing
      catches. */
  datatype RunOutcome = Completed(rows: seq<Row>) | Crashed(exception: string)

  /** The per-link loop of `main` from link i on, with `scrape_profile` as
      written: the first profile that raises ends the whole run. */
  function RowsAsWritten(links: seq<string>, fetch: Fetcher, segment: Segmenter, i: nat): (o: RunOutcome)
    requires i <= |links|
    ensures o.Crashed? ==> o.exception == "AttributeError"
    ensures o.Completed? ==> |o.rows| == |links| - i
    decreases |links| - i
  {
    if i == |links| then
      Completed([])
    else
      var profileUrl := ProfileUrl(links[i]);
      match ScrapeProfileAsWritten(fetch(i, profileUrl), segment)
      case Raised(e) => Crashed(e)
      case Returned(interests) =>
        match RowsAsWritten(links, fetch, segment, i + 1)
        case Crashed(e) => Crashed(e)
        case Completed(rows) => Completed([Row(profileUrl, interests)] + rows)
  }

  /** The k-th profile request of the run gives back a page whose heading
      loop reaches line 56. */
  predicate CrashesAt(links: seq<string>, fetch: Fetcher, k: nat)
    requires k < |links|
  {
    ReachesLine56(fetch(k, ProfileUrl(links[k])))
  }

  /** One step of the run as written: a page that reaches line 56 ends the
      run; any other page adds the corrected row in front of the rest. */
  lemma RowsAsWrittenStep(links: seq<string>, fetch: Fetcher, segment: Segmenter, i: nat)
    requires i < |links|
    ensures var o, rest := RowsAsWritten(links, fetch, segment, i), RowsAsWritten(links, fetch, segment, i + 1);
      && (CrashesAt(links, fetch, i) ==> o.Crashed?)
      && (!CrashesAt(links, fetch, i) ==> (o.Crashed? <==> rest.Crashed?))
      && (!CrashesAt(links, fetch, i) && rest.Completed? ==>
            o.rows == [Row(ProfileUrl(links[i]), Scraped(fetch(i, ProfileUrl(links[i])), segment))] + rest.rows)
  {
    var response := fetch(i, ProfileUrl(links[i]));
    var head := ScrapeProfileAsWritten(response, segment);
    assert ReachesLine56(response) <==> head.Raised?;
  }

  /** As written, the run crashes exactly when some profile request gives
      back a page whose heading loop reaches line 56. */
  lemma {:induction false} RowsAsWrittenCrashIff(links: seq<string>, fetch: Fetcher, segment: Segmenter, i: nat)
    requires i <= |links|
    ensures RowsAsWritten(links, fetch, segment, i).Crashed?
        <==> exists k :: i <= k < |links| && CrashesAt(links, fetch, k)
    decreases |links| - i
  {
    if i < |links| {
      RowsAsWrittenStep(links, fetch, segment, i);
      RowsAsWrittenCrashIff(links, fetch, segment, i + 1);
    }
  }

  /** When the run as written completes, its rows are those of the
      corrected run. */
  lemma RowsAsWrittenCompleted(links: seq<string>, fetch: Fetcher, segment: Segmenter, i: nat)
    requires i <= |links|
    ensures var o := RowsAsWritten(links, fetch, segment, i);
      o.Completed? ==> CorrectedFrom(links, fetch, segment, i, o.rows)
  {
    var o := RowsAsWritten(links, fetch, segment, i);
    if o.Completed? {
      CompletedRowsCorrected(links, fetch, segment, i, o.rows);
    }
  }

  /** The induction behind RowsAsWrittenCompleted, over the rows of a run
      known to complete. */
  lemma {:induction false} CompletedRowsCorrected(links: seq<string>, fetch: Fetcher, segment: Segmenter, i: nat, rows: seq<Row>)
    requires i <= |links|
    requires RowsAsWritten(links, fetch, segment, i) == Completed(rows)
    ensures CorrectedFrom(links, fetch, segment, i, rows)
    decreases |links| - i
  {
    if i < |links| {
      RowsAsWrittenStep(links, fetch, segment, i);
      var rest := RowsAsWritten(links, fetch, segment, i + 1).rows;
      CompletedRowsCorrected(links, fetch, segment, i + 1, rest);
      CorrectedRowsCons(links, fetch, segment, i, rows, rest);
    }
  }

  /** Putting link i's corrected row in front of the corrected rows from
      link i + 1 on gives the corrected rows from link i on. */
  lemma CorrectedRowsCons(links: seq<string>, fetch: Fetcher, segment: Segmenter, i: nat, rows: seq<Row>, rest: seq<Row>)
    requires i < |links|
    requires rows == [Row(ProfileUrl(links[i]), Scraped(fetch(i, ProfileUrl(links[i])), segment))] + rest
    requires CorrectedFrom(links, fetch, segment, i + 1, rest)
    ensures CorrectedFrom(links, fetch, segment, i, rows)
  {
    forall j | 1 <= j < |rows|
      ensures rows[j] == Row(ProfileUrl(links[i + j]), Scraped(fetch(i + j, ProfileUrl(links[i + j])), segment))
    {
      assert rows[j] == rest[j - 1];
      assert i + 1 + (j - 1) == i + j;
    }
  }

  /** A directory with the single link "/faculty/jane" whose profile page
      has the heading "Research Interests" followed by "Climate policy.":
      as written the whole run crashes, corrected it yields one row. */
  lemma RunCrashesOnResearchHeading(segment: Segmenter)
    ensures var page := Page([Heading("Research Interests", Some("Climate policy."))], "");
      var fetch: Fetcher := (k, url) => Fetched(page);
      var links := ProfileLinks(["/faculty/jane"]);
      && RowsAsWritten(links, fetch, segment, 0) == Crashed("AttributeError")
      && |links| == 1
  {
    var page := Page([Heading("Research Interests", Some("Climate policy."))], "");
    var fetch: Fetcher := (k, url) => Fetched(page);
    var links := ProfileLinks(["/faculty/jane"]);
    assert OccursAt("/faculty/jane", "faculty", 1);
    assert |links| == 1;
    AsWrittenRaisesOnResearchHeading(segment);
  }
}
