/** `LinkedInProfileCrawler.get_profile_data`: the record built for one
    profile page out of what the page's lookups returned. The browser is
    not modelled; each lookup is an input that either carries the element's
    raw text or says the lookup failed. */
module ProfileData {
  import opened Wrappers
  import opened PyStrings
  import opened ProfileUrls

  /** The sentinel stored in a field the page did not provide. */
  const NotAvailable := "N/A"

  /** The delimiter between job title and company in a headline. */
  const AtDelimiter := " at "

  /** The dictionary `{name, job_title, company}`; every key is always present. */
  datatype ProfileRecord = ProfileRecord(name: string, jobTitle: string, company: string)

  /** What the browser did on one profile visit. */
  datatype ProfilePage = ProfilePage(
    opens: bool,                       // `driver.get(profile_url)` returned normally
    scrolls: bool,                     // the three `window.scrollTo` scripts ran
    heading: Option<string>,           // text of `h1.text-heading-xlarge`, None on timeout
    headline: Option<string>,          // text of `div.text-body-medium`, None on timeout
    experienceCompany: Option<string>  // text of the experience-company locator, None if absent
  )

  /** `element.text.strip()`. */
  function Text(raw: string): string {
    Strip(raw, PyWhitespace)
  }

  /** `.strip()` drops the leading and the trailing whitespace and nothing
      else: what is left is one contiguous run of the raw text, it neither
      starts nor ends with whitespace, and stripping it again changes
      nothing. */
  lemma TextIsStripped(raw: string)
    ensures var r := Text(raw);
            && (r == [] || (r[0] !in PyWhitespace && r[|r| - 1] !in PyWhitespace))
            && (exists i :: 0 <= i <= |raw| - |r| && AllIn(raw[..i], PyWhitespace)
                           && r == raw[i..i + |r|] && AllIn(raw[i + |r|..], PyWhitespace))
            && Text(r) == r
  {
    StripIdempotent(raw, PyWhitespace);
  }

  /** Text without surrounding whitespace is read as it is. */
  lemma TextOfTrimmed(s: string)
    requires s == [] || (s[0] !in PyWhitespace && s[|s| - 1] !in PyWhitespace)
    ensures Text(s) == s
  {
    StripOfTrimmed(s, PyWhitespace);
  }

  /** `job_title, company = headline.split(" at ", 1)`: the text before the
      first delimiter and everything after it, neither trimmed. Unpacking into
      two names needs the delimiter to be there. */
  function SplitAtFirst(headline: string): (r: (string, string))
    requires Contains(headline, AtDelimiter)
    ensures r.0 + AtDelimiter + r.1 == headline
    ensures forall j: nat :: j < |r.0| ==> !OccursAt(headline, AtDelimiter, j)
  {
    var i := FindFirst(headline, AtDelimiter).value;
    assert headline == headline[..i] + AtDelimiter + headline[i + |AtDelimiter|..];
    (headline[..i], headline[i + |AtDelimiter|..])
  }

  /** Job title and company from the headline lookup and, when the headline
      names no company, the experience-company lookup. A failed headline
      lookup leaves both at the sentinel; a headline with the delimiter is
      split at its first delimiter; any other headline is the job title, and
      the company is the experience company's text, or the sentinel when that
      lookup failed. */
  function JobAndCompany(headline: Option<string>, experienceCompany: Option<string>): (r: (string, string))
    ensures headline.None? ==> r == (NotAvailable, NotAvailable)
    ensures headline.Some? && Contains(Text(headline.value), AtDelimiter) ==>
              && r.0 + AtDelimiter + r.1 == Text(headline.value)
              && forall j: nat :: j < |r.0| ==> !OccursAt(Text(headline.value), AtDelimiter, j)
    ensures headline.Some? && !Contains(Text(headline.value), AtDelimiter) ==>
              && r.0 == Text(headline.value)
              && r.1 == if experienceCompany.None? then NotAvailable else Text(experienceCompany.value)
  {
    match headline
    case None => (NotAvailable, NotAvailable)
    case Some(raw) =>
      var h := Text(raw);
      if Contains(h, AtDelimiter) then SplitAtFirst(h)
      else (h, if experienceCompany.None? then NotAvailable else Text(experienceCompany.value))
  }

  /** `get_profile_data` as written. None stands for the call raising: when
      `driver.get` fails, the handler reads `profile_name` before anything
      assigned it. Every other failure is absorbed into the record. */
  function GetProfileData(url: string, page: ProfilePage): (r: Option<ProfileRecord>)
    ensures r.None? <==> !page.opens
    ensures page.opens && !page.scrolls ==> r == Some(ProfileRecord(SlugName(url), NotAvailable, NotAvailable))
    ensures r.Some? && page.scrolls ==>
              r.value.name == if page.heading.None? then SlugName(url) else Text(page.heading.value)
    ensures r.Some? && page.scrolls && page.headline.None? ==>
              r.value.jobTitle == NotAvailable && r.value.company == NotAvailable
    ensures r.Some? && page.scrolls && page.headline.Some? ==>
              var h := Text(page.headline.value);
              if Contains(h, AtDelimiter) then
                && r.value.jobTitle + AtDelimiter + r.value.company == h
                && forall j: nat :: j < |r.value.jobTitle| ==> !OccursAt(h, AtDelimiter, j)
              else
                && r.value.jobTitle == h
                && r.value.company == if page.experienceCompany.None? then NotAvailable
                                      else Text(page.experienceCompany.value)
  {
    if !page.opens then None
    else if !page.scrolls then Some(ProfileRecord(SlugName(url), NotAvailable, NotAvailable))
    else
      var name := if page.heading.None? then SlugName(url) else Text(page.heading.value);
      var (jobTitle, company) := JobAndCompany(page.headline, page.experienceCompany);
      Some(ProfileRecord(name, jobTitle, company))
  }

  /** The delimiter occurs where `title` ends in `title + " at " + company`. */
  lemma DelimiterAfter(title: string, company: string)
    ensures OccursAt(title + AtDelimiter + company, AtDelimiter, |title|)
  {
    var h := title + AtDelimiter + company;
    forall d | 0 <= d < |AtDelimiter| ensures h[|title| + d] == AtDelimiter[d] {
    }
  }

  /** The split is unique: whenever the headline is a title, the delimiter
      and a company, with no delimiter starting inside the title, the split
      yields exactly that title and that company. */
  lemma SplitAtFirstUnique(headline: string, title: string, company: string)
    requires title + AtDelimiter + company == headline
    requires forall j: nat :: j < |title| ==> !OccursAt(headline, AtDelimiter, j)
    ensures Contains(headline, AtDelimiter) && SplitAtFirst(headline) == (title, company)
  {
    DelimiterAfter(title, company);
    var r := SplitAtFirst(headline);
    DelimiterAfter(r.0, r.1);
    assert |r.0| == |title|;
    SameHalves(r.0, r.1, title, company, AtDelimiter);
  }

  /** Two ways of writing one text around the same middle part agree when
      the first parts have the same length. */
  lemma SameHalves<T>(a: seq<T>, b: seq<T>, c: seq<T>, e: seq<T>, d: seq<T>)
    requires a + d + b == c + d + e && |a| == |c|
    ensures a == c && b == e
  {
    assert a == (a + d + b)[..|a|];
    assert c == (c + d + e)[..|c|];
    assert b == (a + d + b)[|a| + |d|..];
    assert e == (c + d + e)[|c| + |d|..];
  }

  /** `Software Engineer at Acme Corp` splits into `Software Engineer` and `Acme Corp`. */
  lemma SoftwareEngineerAtAcme()
    ensures JobAndCompany(Some("Software Engineer at Acme Corp"), None) == ("Software Engineer", "Acme Corp")
  {
    var h := "Software Engineer at Acme Corp";
    LetterIsNotWhitespace(h[0]);
    LetterIsNotWhitespace(h[|h| - 1]);
    TextOfTrimmed(h);
    NoDelimiterInSoftwareEngineer();
    SplitAtFirstUnique(h, "Software Engineer", "Acme Corp");
  }

  lemma NoDelimiterInSoftwareEngineer()
    ensures forall j: nat :: j < 17 ==> !OccursAt("Software Engineer at Acme Corp", AtDelimiter, j)
  {
    var h := "Software Engineer at Acme Corp";
    forall j: nat | j < 17 ensures !OccursAt(h, AtDelimiter, j) {
      if j == 8 { MismatchAt(h, AtDelimiter, j, 1); } else { MismatchAt(h, AtDelimiter, j, 0); }
    }
  }

  /** The split is limited to one: the company keeps any later ` at `. */
  lemma CompanyKeepsLaterDelimiters()
    ensures JobAndCompany(Some("CTO at Foo at Bar"), None) == ("CTO", "Foo at Bar")
  {
    var h := "CTO at Foo at Bar";
    LetterIsNotWhitespace(h[0]);
    LetterIsNotWhitespace(h[|h| - 1]);
    TextOfTrimmed(h);
    NoDelimiterInCto();
    SplitAtFirstUnique(h, "CTO", "Foo at Bar");
  }

  lemma NoDelimiterInCto()
    ensures forall j: nat :: j < 3 ==> !OccursAt("CTO at Foo at Bar", AtDelimiter, j)
  {
    var h := "CTO at Foo at Bar";
    forall j: nat | j < 3 ensures !OccursAt(h, AtDelimiter, j) {
      MismatchAt(h, AtDelimiter, j, 0);
    }
  }

  /** The halves of the split are not trimmed again: a doubled space before
      the delimiter stays at the end of the job title. */
  lemma SplitHalvesKeepSpaces()
    ensures JobAndCompany(Some("Dev  at Acme"), None) == ("Dev ", "Acme")
  {
    var h := "Dev  at Acme";
    LetterIsNotWhitespace(h[0]);
    LetterIsNotWhitespace(h[|h| - 1]);
    TextOfTrimmed(h);
    NoDelimiterInDev();
    SplitAtFirstUnique(h, "Dev ", "Acme");
  }

  lemma NoDelimiterInDev()
    ensures forall j: nat :: j < 4 ==> !OccursAt("Dev  at Acme", AtDelimiter, j)
  {
    var h := "Dev  at Acme";
    forall j: nat | j < 4 ensures !OccursAt(h, AtDelimiter, j) {
      if j == 3 { MismatchAt(h, AtDelimiter, j, 1); } else { MismatchAt(h, AtDelimiter, j, 0); }
    }
  }

  /** A failed lookup degrades only its own field: two loaded pages with the
      same heading get the same name, and two with the same headline and
      experience company get the same job title and company, whatever the
      other lookups returned. */
  lemma FieldsFailIndependently(url: string, p: ProfilePage, q: ProfilePage)
    requires p.opens && p.scrolls && q.opens && q.scrolls
    ensures p.heading == q.heading ==> GetProfileData(url, p).value.name == GetProfileData(url, q).value.name
    ensures p.headline == q.headline && p.experienceCompany == q.experienceCompany ==>
              && GetProfileData(url, p).value.jobTitle == GetProfileData(url, q).value.jobTitle
              && GetProfileData(url, p).value.company == GetProfileData(url, q).value.company
  {
  }

  /** A navigation failure makes `get_profile_data` raise instead of
      returning the fallback record its handler was written to return. */
  lemma NavigationFailureRaises(url: string)
    ensures GetProfileData(url, ProfilePage(false, true, None, None, None)) == None
  {
  }

  /** `get_profile_data` with `profile_name` computed before `driver.get`,
      so that its handler can always build the fallback record. */
  function GetProfileDataRecovered(url: string, page: ProfilePage): (r: ProfileRecord)
    ensures !page.opens ==> r == ProfileRecord(SlugName(url), NotAvailable, NotAvailable)
    ensures page.opens ==> GetProfileData(url, page) == Some(r)
  {
    if page.opens then GetProfileData(url, page).value
    else ProfileRecord(SlugName(url), NotAvailable, NotAvailable)
  }
}
