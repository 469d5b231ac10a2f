/** `fetch_faculty_links`: keep the directory page's links whose target
    mentions a profile marker, and put a fixed base URL in front of each one
    that does not already start with "http". */
module LinkDiscovery {
  import opened Wrappers
  import opened Text

  /** The base URL a relative link is appended to, by plain concatenation. */
  const Base: string := "https://www.roehampton.ac.uk/"

  /** The link filter: a case-sensitive substring test for three markers. */
  predicate IsProfileHref(href: string)
    ensures IsProfileHref(href) ==> |href| >= |"faculty"|
  {
    Contains(href, "faculty") || Contains(href, "profile") || Contains(href, "persons")
  }

  /** The URL a kept link becomes. It always starts with "http", it ends with
      the link itself, and it still carries every marker the link carried. */
  function Resolve(href: string): (url: string)
    ensures StartsWith(url, "http")
    ensures |href| <= |url| && url[|url| - |href|..] == href
    ensures IsProfileHref(href) ==> IsProfileHref(url)
  {
    if StartsWith(href, "http") then
      href
    else
      PrefixKeepsMarkers(Base, href);
      assert (Base + href)[..4] == Base[..4];
      Base + href
  }

  /** Putting text in front of a link never removes a marker from it. */
  lemma PrefixKeepsMarkers(p: string, href: string)
    ensures IsProfileHref(href) ==> IsProfileHref(p + href)
  {
    if Contains(href, "faculty") { ContainsInLonger(p, href, "faculty"); }
    if Contains(href, "profile") { ContainsInLonger(p, href, "profile"); }
    if Contains(href, "persons") { ContainsInLonger(p, href, "persons"); }
  }

  /** A link is passed through unchanged exactly when it already starts with
      "http"; any other link becomes `Base + href`, with no slash handling. */
  lemma ResolveCases(href: string)
    ensures Resolve(href) == href <==> StartsWith(href, "http")
    ensures !StartsWith(href, "http") ==> Resolve(href) == Base + href
  {
    if !StartsWith(href, "http") {
      assert |Resolve(href)| == |Base| + |href| > |href|;
    }
  }

  /** Resolving a resolved URL changes nothing. */
  lemma ResolveIdempotent(href: string)
    ensures Resolve(Resolve(href)) == Resolve(href)
  {
    ResolveCases(Resolve(href));
  }

  /** The links the filter keeps, resolved, in document order, duplicates
      included. */
  function ProfileLinks(hrefs: seq<string>): (links: seq<string>)
    ensures |links| <= |hrefs|
    ensures forall k :: 0 <= k < |links| ==> IsProfileHref(links[k]) && StartsWith(links[k], "http")
  {
    if hrefs == [] then
      []
    else if IsProfileHref(hrefs[0]) then
      [Resolve(hrefs[0])] + ProfileLinks(hrefs[1..])
    else
      ProfileLinks(hrefs[1..])
  }

  /** Filtering a concatenation filters each part: nothing is reordered,
      and a link kept in one part is kept again in the other (no
      deduplication). */
  lemma {:induction false} ProfileLinksAppend(a: seq<string>, b: seq<string>)
    ensures ProfileLinks(a + b) == ProfileLinks(a) + ProfileLinks(b)
  {
    if a == [] {
      assert a + b == b;
    } else {
      assert (a + b)[1..] == a[1..] + b;
      ProfileLinksAppend(a[1..], b);
    }
  }

  /** Extending the page by one link extends the filtered list by that
      link's resolution when it carries a marker, and by nothing otherwise. */
  lemma ProfileLinksSnoc(hrefs: seq<string>, i: nat)
    requires i < |hrefs|
    ensures ProfileLinks(hrefs[..i + 1])
         == ProfileLinks(hrefs[..i]) + (if IsProfileHref(hrefs[i]) then [Resolve(hrefs[i])] else [])
  {
    assert hrefs[..i + 1] == hrefs[..i] + [hrefs[i]];
    ProfileLinksAppend(hrefs[..i], [hrefs[i]]);
    assert [hrefs[i]][1..] == [];
  }

  /** The positions, in increasing order, of the links the filter keeps. */
  function ProfileIndices(hrefs: seq<string>): (idx: seq<nat>)
    ensures forall k :: 0 <= k < |idx| ==> idx[k] < |hrefs|
  {
    if hrefs == [] then
      []
    else
      var last := |hrefs| - 1;
      ProfileIndices(hrefs[..last]) + (if IsProfileHref(hrefs[last]) then [last] else [])
  }

  predicate StrictlyIncreasing(idx: seq<nat>)
  {
    forall j, k :: 0 <= j < k < |idx| ==> idx[j] < idx[k]
  }

  /** The kept positions are listed in document order, each once. */
  lemma {:induction false} ProfileIndicesIncreasing(hrefs: seq<string>)
    ensures StrictlyIncreasing(ProfileIndices(hrefs))
  {
    if hrefs != [] {
      ProfileIndicesIncreasing(hrefs[..|hrefs| - 1]);
    }
  }

  /** A position is listed exactly when its link carries a marker. */
  lemma {:induction false} ProfileIndicesExact(hrefs: seq<string>)
    ensures forall j :: 0 <= j < |hrefs| ==> (j in ProfileIndices(hrefs) <==> IsProfileHref(hrefs[j]))
  {
    if hrefs != [] {
      var init := hrefs[..|hrefs| - 1];
      ProfileIndicesExact(init);
      assert forall j :: 0 <= j < |init| ==> init[j] == hrefs[j];
    }
  }

  /** Output k of the filter-map is the resolved form of the link at the
      k-th kept position. */
  lemma {:induction false} ProfileLinksAtIndices(hrefs: seq<string>)
    ensures var links, idx := ProfileLinks(hrefs), ProfileIndices(hrefs);
      |links| == |idx| && forall k :: 0 <= k < |idx| ==> links[k] == Resolve(hrefs[idx[k]])
  {
    if hrefs != [] {
      var last := |hrefs| - 1;
      var init := hrefs[..last];
      ProfileLinksAtIndices(init);
      assert hrefs == init + [hrefs[last]];
      ProfileLinksAppend(init, [hrefs[last]]);
      assert [hrefs[last]][1..] == [];
      var idx0 := ProfileIndices(init);
      assert forall k :: 0 <= k < |idx0| ==> init[idx0[k]] == hrefs[idx0[k]];
    }
  }

  /** The filter-map, position by position: output k is the resolved form
      of the k-th kept link; the kept positions increase (document order);
      and a position is kept exactly when its link carries a marker, so the
      output has one entry per qualifying link. */
  lemma ProfileLinksIndexed(hrefs: seq<string>)
    ensures var links, idx := ProfileLinks(hrefs), ProfileIndices(hrefs);
      && |links| == |idx|
      && StrictlyIncreasing(idx)
      && (forall k :: 0 <= k < |idx| ==> links[k] == Resolve(hrefs[idx[k]]))
      && (forall j :: 0 <= j < |hrefs| ==> (j in idx <==> IsProfileHref(hrefs[j])))
  {
    ProfileLinksAtIndices(hrefs);
    ProfileIndicesIncreasing(hrefs);
    ProfileIndicesExact(hrefs);
  }

  /** `fetch_faculty_links` as a loop over the directory page's links. A
      failed directory fetch yields no links. */
  method FetchFacultyLinks(directory: Response<seq<string>>) returns (links: seq<string>)
    ensures directory.Failed? ==> links == []
    ensures directory.Fetched? ==> links == ProfileLinks(directory.body)
  {
    links := [];
    if directory.Failed? {
      return;
    }
    var hrefs := directory.body;
    var i := 0;
    while i < |hrefs|
      invariant 0 <= i <= |hrefs|
      invariant links == ProfileLinks(hrefs[..i])
    {
      var href := hrefs[i];
      ProfileLinksSnoc(hrefs, i);
      if IsProfileHref(href) {
        if StartsWith(href, "http") {
          links := links + [href];
        } else {
          links := links + [Base + href];
        }
      }
      i := i + 1;
    }
    assert hrefs[..i] == hrefs;
  }

  /** A worked case: a relative link gets the base prefixed even when it
      starts with a slash, an absolute link is passed through, and a link
      with no marker is dropped. */
  lemma DiscoveryExample()
    ensures ProfileLinks(["/faculty/jane", "http://x.org/persons", "/about", "persons/bob"])
         == ["https://www.roehampton.ac.uk//faculty/jane", "http://x.org/persons",
             "https://www.roehampton.ac.uk/persons/bob"]
  {
    var hrefs := ["/faculty/jane", "http://x.org/persons", "/about", "persons/bob"];
    ExampleVerdicts();
    ExampleResolutions();
    ExampleJoins();
    assert ProfileLinks(hrefs[3..]) == [Base + hrefs[3]] by { assert hrefs[3..][1..] == []; }
    assert ProfileLinks(hrefs[2..]) == ProfileLinks(hrefs[3..]) by { assert hrefs[2..][1..] == hrefs[3..]; }
    assert ProfileLinks(hrefs[1..]) == [hrefs[1]] + ProfileLinks(hrefs[2..]) by { assert hrefs[1..][1..] == hrefs[2..]; }
    assert ProfileLinks(hrefs) == [Base + hrefs[0]] + ProfileLinks(hrefs[1..]);
  }

  /** The filter's verdicts on the links of the worked case. */
  lemma ExampleVerdicts()
    ensures IsProfileHref("/faculty/jane") && IsProfileHref("http://x.org/persons")
    ensures !IsProfileHref("/about") && IsProfileHref("persons/bob")
  {
    assert OccursAt("/faculty/jane", "faculty", 1);
    assert OccursAt("http://x.org/persons", "persons", 13);
    assert OccursAt("persons/bob", "persons", 0);
  }

  /** The prefix tests of the worked case. */
  lemma ExampleResolutions()
    ensures !StartsWith("/faculty/jane", "http") && !StartsWith("persons/bob", "http")
    ensures StartsWith("http://x.org/persons", "http")
  {
    assert "/faculty/jane"[0] == '/' && "persons/bob"[0] == 'p';
  }

  /** The base concatenations of the worked case: no slash is added or
      removed. */
  lemma ExampleJoins()
    ensures Base + "/faculty/jane" == "https://www.roehampton.ac.uk//faculty/jane"
    ensures Base + "persons/bob" == "https://www.roehampton.ac.uk/persons/bob"
  {
  }

  /** The "absolute" test is only a prefix test: a relative link whose name
      starts with "http" gets no base URL and is kept as it is. */
  lemma HttpNamedRelativeLinkKept()
    ensures ProfileLinks(["http_profile.html"]) == ["http_profile.html"]
  {
    assert OccursAt("http_profile.html", "profile", 5);
    assert StartsWith("http_profile.html", "http");
    assert ["http_profile.html"][1..] == [];
  }

  /** An absolute link without a marker is dropped. */
  lemma AbsoluteLinkWithoutMarkerDropped()
    ensures ProfileLinks(["http://x.org/other"]) == []
  {
    var href := "http://x.org/other";
    NoOccurrence(href, "faculty");
    NoOccurrence(href, "profile");
    NoOccurrence(href, "persons");
  }
}
