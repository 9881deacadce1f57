/** `LinkedInProfileCrawler.search_profiles`: the preview records read off
    one page of search results. The page is an input: either the list of
    result containers in page order, or nothing when loading, scrolling or
    collecting the containers raised. */
module SearchResults {
  import opened Wrappers
  import opened PyStrings
  import opened ProfileUrls
  import opened ProfileData
  import opened FilterMaps

  /** What the lookups inside one result container returned. */
  datatype Candidate = Candidate(
    href: Option<string>,      // `href` of the title link; None when the link or the attribute is missing
    linkText: string,          // raw text of the title link
    subtitle: Option<string>,  // text of the primary subtitle, None if absent
    location: Option<string>,  // text of the secondary subtitle, None if absent
    faults: bool               // reading this container raised (a stale element, say)
  )

  /** The dictionary `{url, name, preview_title, location}`. */
  datatype Preview = Preview(url: string, name: string, previewTitle: string, location: string)

  /** `results[:n]` for any integer `n`: a negative `n` drops that many
      elements from the end. */
  function TakePrefix<T>(results: seq<T>, n: int): (r: seq<T>)
    ensures |r| <= |results| && r == results[..|r|]
    ensures n >= 0 ==> |r| == if n < |results| then n else |results|
    ensures n < 0 ==> |r| == if |results| + n > 0 then |results| + n else 0
  {
    if n >= 0 then (if n < |results| then results[..n] else results)
    else if |results| + n > 0 then results[..|results| + n] else []
  }

  /** The record one container yields, or None when it is skipped: it
      faults, it has no link `href`, or its `href` is not a profile URL.
      A hidden member's name is replaced by the URL's slug name. */
  function Extract(c: Candidate): (r: Option<Preview>)
    ensures r.Some? <==> !c.faults && c.href.Some? && Contains(c.href.value, ProfileMarker)
    ensures r.Some? ==> r.value.url == c.href.value
    ensures r.Some? ==> r.value.name != HiddenMemberName
    ensures r.Some? && Text(c.linkText) != [] && Text(c.linkText) != HiddenMemberName ==>
              r.value.name == Text(c.linkText)
    ensures r.Some? && (Text(c.linkText) == [] || Text(c.linkText) == HiddenMemberName) ==>
              r.value.name == SlugName(c.href.value)
    ensures r.Some? ==> r.value.previewTitle == if c.subtitle.None? then NotAvailable else Text(c.subtitle.value)
    ensures r.Some? ==> r.value.location == if c.location.None? then NotAvailable else Text(c.location.value)
  {
    if c.faults || c.href.None? || !Contains(c.href.value, ProfileMarker) then None
    else
      var url := c.href.value;
      var text := Text(c.linkText);
      SlugNameIsNotPlaceholder(url);
      var name := if text == [] || text == HiddenMemberName then SlugName(url) else text;
      var title := if c.subtitle.None? then NotAvailable else Text(c.subtitle.value);
      var location := if c.location.None? then NotAvailable else Text(c.location.value);
      Some(Preview(url, name, title, location))
  }

  /** The number of containers `search_profiles` reads when the caller
      gives no `max_profiles`. */
  const DefaultMaxProfiles := 10

  /** What `search_profiles(search_url, max_profiles)` returns for a page:
      the records of the first `max_profiles` containers, in page order. It
      returns no more than `max_profiles` records (for a non-negative
      maximum; a negative one drops containers from the end) and no more
      than there are containers; a page that failed as a whole yields no
      records. */
  function Search(page: Option<seq<Candidate>>, maxProfiles: int): (r: seq<Preview>)
    ensures page.None? ==> r == []
    ensures page.Some? ==> |r| <= |page.value|
    ensures maxProfiles >= 0 ==> |r| <= maxProfiles
  {
    match page
    case None => []
    case Some(results) =>
      var taken := TakePrefix(results, maxProfiles);
      FilterMapBounded(taken, Extract);
      FilterMap(taken, Extract)
  }

  /** Called with the default maximum, `search_profiles` reads the first ten
      containers only: containers past them never change the result. */
  lemma DefaultSearchReadsTen(results: seq<Candidate>, more: seq<Candidate>)
    requires |results| >= DefaultMaxProfiles
    ensures |Search(Some(results + more), DefaultMaxProfiles)| <= 10
    ensures Search(Some(results + more), DefaultMaxProfiles) == Search(Some(results), DefaultMaxProfiles)
  {
    SearchReadsOnlyPrefix(results, more, DefaultMaxProfiles);
  }

  /** Every record comes from one of the first `max_profiles` containers, has
      that container's profile URL and never the placeholder name. */
  lemma SearchOnlyProfiles(results: seq<Candidate>, maxProfiles: int)
    ensures forall p :: p in Search(Some(results), maxProfiles) ==>
              Contains(p.url, ProfileMarker) && p.name != HiddenMemberName &&
              exists i :: 0 <= i < |TakePrefix(results, maxProfiles)| && results[i].href == Some(p.url)
  {
    var taken := TakePrefix(results, maxProfiles);
    FilterMapFrom(taken, Extract);
    forall p | p in Search(Some(results), maxProfiles)
      ensures Contains(p.url, ProfileMarker) && p.name != HiddenMemberName &&
              exists i :: 0 <= i < |taken| && results[i].href == Some(p.url)
    {
      var i :| 0 <= i < |taken| && Extract(taken[i]) == Some(p);
      assert taken[i] == results[i];
    }
  }

  /** The records are exactly those of the kept containers among the first
      `max_profiles`, in page order: there is an increasing list of
      container indices, one per record, that names every kept container. */
  lemma SearchKeepsPageOrder(results: seq<Candidate>, maxProfiles: int)
    ensures var taken := TakePrefix(results, maxProfiles);
            var found := Search(Some(results), maxProfiles);
            exists o: seq<nat> ::
              && |o| == |found|
              && (forall k :: 0 <= k < |o| ==> o[k] < |taken| && Extract(results[o[k]]) == Some(found[k]))
              && (forall k, l :: 0 <= k < l < |o| ==> o[k] < o[l])
              && (forall i :: 0 <= i < |taken| && Extract(results[i]).Some? ==> i in o)
  {
    var taken := TakePrefix(results, maxProfiles);
    var found := Search(Some(results), maxProfiles);
    var o := Origins(taken, Extract);
    OriginsMatchValues(taken, Extract);
    OriginsIncrease(taken, Extract);
    OriginsComplete(taken, Extract);
    forall k | 0 <= k < |o| ensures o[k] < |taken| && Extract(results[o[k]]) == Some(found[k]) {
      assert taken[o[k]] == results[o[k]];
    }
    forall i | 0 <= i < |taken| && Extract(results[i]).Some? ensures i in o {
      assert taken[i] == results[i];
    }
  }

  /** A container that is skipped, because reading it raised, it has no
      link `href`, or the `href` is not a profile URL, contributes nothing
      and changes nothing for the others: it is dropped, not replaced. */
  lemma SkippedContainerChangesNothing(before: seq<Candidate>, c: Candidate, after: seq<Candidate>)
    requires c.faults || c.href.None? || !Contains(c.href.value, ProfileMarker)
    ensures FilterMap(before + [c] + after, Extract) == FilterMap(before + after, Extract)
  {
    FilterMapSkips(before, c, after, Extract);
  }

  /** Only the first `max_profiles` containers are read: containers past
      them never influence the result. */
  lemma SearchReadsOnlyPrefix(results: seq<Candidate>, more: seq<Candidate>, maxProfiles: nat)
    requires maxProfiles <= |results|
    ensures Search(Some(results + more), maxProfiles) == Search(Some(results), maxProfiles)
  {
    assert (results + more)[..maxProfiles] == results[..maxProfiles];
  }

  /** The body of the `try` block for one result container: None where the
      source reaches `continue` or the `except` handler. */
  method ReadResult(c: Candidate) returns (kept: Option<Preview>)
    ensures kept == Extract(c)
  {
    if c.faults || c.href.None? {
      return None;
    }
    var url := c.href.value;
    if FindFirst(url, ProfileMarker).None? {
      return None;
    }
    var name := Text(c.linkText);
    if name == [] || name == HiddenMemberName {
      name := SlugName(url);
    }
    var title := NotAvailable;
    if c.subtitle.Some? {
      title := Text(c.subtitle.value);
    }
    var location := NotAvailable;
    if c.location.Some? {
      location := Text(c.location.value);
    }
    return Some(Preview(url, name, title, location));
  }

  /** `search_profiles`: walk the first `maxProfiles` containers in page
      order and append the record of each one that is not skipped. */
  method SearchProfiles(page: Option<seq<Candidate>>, maxProfiles: int := DefaultMaxProfiles) returns (profiles: seq<Preview>)
    ensures profiles == Search(page, maxProfiles)
    ensures page.None? ==> profiles == []
  {
    if page.None? {
      return [];
    }
    var results := TakePrefix(page.value, maxProfiles);
    profiles := [];
    var i := 0;
    while i < |results|
      invariant 0 <= i <= |results|
      invariant profiles == FilterMap(results[..i], Extract)
    {
      FilterMapStep(results, i, Extract);
      var kept := ReadResult(results[i]);
      i := i + 1;
      if kept.Some? {
        profiles := profiles + [kept.value];
      }
    }
    assert results[..i] == results;
  }
}
