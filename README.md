# LinkedIn profile crawler — decision logic

A Dafny model of the decision logic inside `LinkedInProfileCrawler`
(`task_2/linkedin_scraper.py`). The browser is not modelled. Every lookup the
crawler makes becomes an input value. A lookup either carries the element's
raw text (`Some(text)`) or reports that it timed out, found nothing or raised
(`None`).

The model has three parts:

- **The slug name** (`ProfileUrls`). The crawler falls back to a name derived
  from the profile URL: `url.split('/in/')[-1].strip('/').replace('-', ' ').title()`.
  The Python string builtins this uses are written out in `PyStrings`:
  - `in` and `find`
  - `split(sep)[-1]`, which scans left to right at non-overlapping occurrences
  - `strip(chars)`
  - one-character `replace`
  - `title()`, where a letter is upper-cased at the start of the string or
    after an uncased character, and lower-cased otherwise
- **The profile record** (`ProfileData`). `get_profile_data` builds
  `{name, job_title, company}` from:
  - the heading lookup
  - the headline lookup, split at its first `" at "`
  - the experience-company lookup

  Every missing field becomes the sentinel `"N/A"`. Element text is trimmed
  with Python's whitespace set, as `.text.strip()` does.
- **The search filter** (`SearchResults`, over the generic loop shape in
  `FilterMaps`). `search_profiles` walks the first `max_profiles` result
  containers in page order. It skips a container when:
  - reading it raises, or
  - its link has no `href`, or
  - its `href` lacks `/in/`.

  Each kept container yields `{url, name, preview_title, location}`. The name
  falls back to the slug name when the link text is empty or
  `"LinkedIn Member"`. A missing subtitle or location becomes `"N/A"`.

  The loop is the method `SearchProfiles`, proved equal to the function
  `Search`. The bounds are part of `Search`'s contract. Page order, origin
  and the prefix property are proved about `Search`. That a skipped
  container is dropped without replacing anything is proved about
  `FilterMap(_, Extract)`, the walk `Search` applies to the first
  `max_profiles` containers. A caller that gives no `max_profiles` gets
  `DefaultMaxProfiles`, which is 10.

`FilterMaps` states the loop shape `for x in xs: if kept: out.append(value)`
once. It takes the keeping function as a parameter, so its facts about
length, order and skipped elements hold whatever decides what is kept.

## Model

| member | source | states |
|---|---|---|
| PyStrings.FindFirst | task_2/linkedin_scraper.py:75-76 | `s.find(pat)`: present exactly when `pat in s`, an occurrence, and no occurrence before it |
| PyStrings.FindFromFirst | task_2/linkedin_scraper.py:126 | the search from index `k` returns the first occurrence at or after `k`, or none when none occurs there |
| PyStrings.LastPieceStartStops | task_2/linkedin_scraper.py:49 | the left-to-right split scan resumed at `k` moves on exactly when `sep` occurs at or after `k`; it stops just after an occurrence, and `sep` never occurs after the stop |
| PyStrings.LastPieceStartShift | task_2/linkedin_scraper.py:49 | scanning a suffix of the string stops where scanning the whole string from the same place stops, shifted by the suffix's offset |
| PyStrings.SplitLast | task_2/linkedin_scraper.py:49 | `split(sep)[-1]` is a suffix without `sep`, preceded by an occurrence of `sep` when there is one, and the whole string when there is none |
| PyStrings.SplitLastResumesAfterFirst | task_2/linkedin_scraper.py:49 | separators do not overlap: the last piece of a string that contains `sep` is the last piece of what follows its first `sep`; with `SplitLast`'s case for a string without `sep`, this fixes the last piece of every string |
| PyStrings.Strip | task_2/linkedin_scraper.py:49 | `strip(cs)` drops a prefix and a suffix made only of characters in `cs` and keeps the run between, which starts and ends outside `cs` |
| PyStrings.KeptFrom | task_2/linkedin_scraper.py:49 | the left half of `strip('/')` and `.strip()` stops at the first character outside `cs`, having passed only characters in `cs` |
| PyStrings.KeptUntil | task_2/linkedin_scraper.py:49 | the right half of `strip('/')` and `.strip()` stops after the last character outside `cs`, having passed only characters in `cs` |
| PyStrings.StripOfTrimmed | task_2/linkedin_scraper.py:49 | text that starts and ends outside `cs` is left unchanged |
| PyStrings.StripIdempotent | task_2/linkedin_scraper.py:49 | stripping twice gives the same result as stripping once |
| PyStrings.StripKeepsAbsence | task_2/linkedin_scraper.py:49 | stripping cannot create an occurrence of a pattern |
| PyStrings.StripInSuffix | task_2/linkedin_scraper.py:49 | stripping a suffix of a string leaves a stretch of the string with only stripped characters between the suffix's start and it, and after it |
| PyStrings.ReplaceChar | task_2/linkedin_scraper.py:49 | `replace('-', ' ')` keeps the length, turns every `-` into a space and leaves every other character, so no `-` remains |
| PyStrings.Title | task_2/linkedin_scraper.py:49 | `title()` upper-cases each character that starts a word (first position or after an uncased character) and lower-cases the rest, keeping the length |
| PyStrings.TitleKeepsCasing | task_2/linkedin_scraper.py:49 | title-casing keeps each character cased or uncased |
| PyStrings.TitleChangesOnlyCase | task_2/linkedin_scraper.py:49 | title-casing changes only letter case; uncased characters are unchanged |
| PyStrings.TitleIsTitled | task_2/linkedin_scraper.py:49 | the result of `title()` has a capital exactly at each word start |
| PyStrings.TitledIsFixed | task_2/linkedin_scraper.py:49 | `title()` leaves a titled string unchanged |
| PyStrings.TitleIdempotent | task_2/linkedin_scraper.py:49 | `title()` applied twice equals `title()` applied once |
| ProfileUrls.Slug | task_2/linkedin_scraper.py:49 | the slug has no leading or trailing `/` and no `/in/` |
| ProfileUrls.SlugIsTrimmedLastPiece | task_2/linkedin_scraper.py:49 | the slug is a stretch of the URL inside the last `/in/` piece, which starts just after a `/in/` (or at the start when there is none); only `/` lies between the piece's start and the slug, and after the slug |
| ProfileUrls.SlugName | task_2/linkedin_scraper.py:49 | the slug name is as long as the slug, is titled and has no `-` |
| ProfileUrls.SlugNameIgnoringCase | task_2/linkedin_scraper.py:49 | ignoring case, the slug name is the slug with dashes turned into spaces |
| ProfileUrls.JohnQPublic | task_2/linkedin_scraper.py:49 | `https://www.linkedin.com/in/john-q-public/` gives `John Q Public` |
| ProfileUrls.SplitDoesNotOverlap | task_2/linkedin_scraper.py:49 | the last piece of `/in/in/` split on `/in/` is `in/` |
| ProfileUrls.SlugNameIsNotPlaceholder | task_2/linkedin_scraper.py:130-131 | no slug name equals `LinkedIn Member`, so the fallback never yields the placeholder |
| ProfileData.TextIsStripped | task_2/linkedin_scraper.py:60-62 | `.text.strip()` keeps one contiguous run of the raw text with only whitespace before and after it; the run neither starts nor ends with whitespace, and stripping it again changes nothing |
| ProfileData.TextOfTrimmed | task_2/linkedin_scraper.py:73 | `.text.strip()` returns text without surrounding whitespace as it is |
| ProfileData.SplitAtFirst | task_2/linkedin_scraper.py:75-76 | `split(" at ", 1)`: title, delimiter and company rebuild the headline, and the title holds no delimiter |
| ProfileData.SplitAtFirstUnique | task_2/linkedin_scraper.py:76 | any title and company that rebuild the headline around `" at "`, with no delimiter starting inside the title, are exactly what the split returns |
| ProfileData.JobAndCompany | task_2/linkedin_scraper.py:67-89 | a failed headline lookup leaves both `N/A`; a headline with `" at "` is split at its first delimiter; otherwise the headline is the job title and the company is the experience lookup's text, or `N/A` when that lookup fails |
| ProfileData.SoftwareEngineerAtAcme | task_2/linkedin_scraper.py:75-76 | `Software Engineer at Acme Corp` gives title `Software Engineer` and company `Acme Corp` |
| ProfileData.CompanyKeepsLaterDelimiters | task_2/linkedin_scraper.py:76 | `CTO at Foo at Bar` gives `CTO` and `Foo at Bar`: the split is limited to one |
| ProfileData.SplitHalvesKeepSpaces | task_2/linkedin_scraper.py:76 | `Dev  at Acme` gives `Dev ` and `Acme`: the halves are not trimmed |
| ProfileData.GetProfileData | task_2/linkedin_scraper.py:42-99 | raises exactly when navigation fails; a failed scroll gives the fallback record; the name, title and company rules are listed after this table |
| ProfileData.FieldsFailIndependently | task_2/linkedin_scraper.py:59-89 | a failed lookup affects only its own field: the name depends only on the heading, and title and company only on the headline and the experience lookup |
| ProfileData.NavigationFailureRaises | task_2/linkedin_scraper.py:45-49 | a failed navigation makes the call raise, with no record |
| ProfileData.GetProfileDataRecovered | task_2/linkedin_scraper.py:97-99 | with the slug name computed first, every call returns a record: the fallback record on a failed navigation, and otherwise the record `GetProfileData` gives |
| SearchResults.TakePrefix | task_2/linkedin_scraper.py:118 | `results[:n]` is a prefix of `min(n, len)` elements for `n >= 0`, and for negative `n` drops `-n` elements from the end |
| SearchResults.Extract | task_2/linkedin_scraper.py:119-159 | a container is kept exactly when it does not fault and its href contains `/in/`; the name, title and location rules are listed after this table |
| SearchResults.Search | task_2/linkedin_scraper.py:101-166 | at most `max_profiles` records (when non-negative) and at most one per container; a page that failed as a whole gives `[]` |
| SearchResults.DefaultSearchReadsTen | task_2/linkedin_scraper.py:101-118 | with the default `max_profiles=10`, at most ten records, and containers past the tenth never change the result |
| SearchResults.SearchOnlyProfiles | task_2/linkedin_scraper.py:118-131 | every record's url contains `/in/`, is the href of one of the first `max_profiles` containers, and never carries the placeholder name |
| SearchResults.SearchKeepsPageOrder | task_2/linkedin_scraper.py:118-159 | the records are those of the kept containers among the first `max_profiles`, each exactly once, in page order |
| SearchResults.SkippedContainerChangesNothing | task_2/linkedin_scraper.py:126-127 | a container that faults, has no href or has no `/in/` is dropped, not replaced, and the other records are unchanged |
| SearchResults.SearchReadsOnlyPrefix | task_2/linkedin_scraper.py:118 | containers past the first `max_profiles` never influence the result |
| SearchResults.ReadResult | task_2/linkedin_scraper.py:119-159 | the try block for one container yields what `Extract` specifies, `None` where it reaches `continue` or the handler |
| SearchResults.SearchProfiles | task_2/linkedin_scraper.py:101-166 | the loop appending to `profiles` returns `Search(page, max_profiles)`, and `[]` for a failed page |
| FilterMaps.FilterMapSnoc | task_2/linkedin_scraper.py:149-154 | one more element appends what is kept of it, and nothing else |
| FilterMaps.FilterMapStep | task_2/linkedin_scraper.py:118-154 | the loop step at index `i` appends the value of element `i` when it is kept, and nothing otherwise |
| FilterMaps.FilterMapBounded | task_2/linkedin_scraper.py:118-159 | the loop appends at most one value per element |
| FilterMaps.FilterMapAppend | task_2/linkedin_scraper.py:118-159 | walking two stretches in turn gives the values of the first, then those of the second |
| FilterMaps.FilterMapSkips | task_2/linkedin_scraper.py:157-159 | an element that is not kept can be removed without changing the output |
| FilterMaps.FilterMapFrom | task_2/linkedin_scraper.py:149-154 | every output value is what some element yields |
| FilterMaps.OriginsMatchValues | task_2/linkedin_scraper.py:118-159 | the k-th value is what the element at the k-th origin index yields |
| FilterMaps.OriginsIncrease | task_2/linkedin_scraper.py:118-159 | origin indices are in range and strictly increasing |
| FilterMaps.OriginsComplete | task_2/linkedin_scraper.py:118-159 | every kept element's index is among the origins |

`ProfileData.GetProfileData` states:

- It raises exactly when navigation fails.
- A failed scroll gives the fallback record.
- Otherwise:
  - The name is the heading's text, or the slug name when the heading lookup fails.
  - When the headline lookup fails, job title and company are both `N/A`.
  - When the headline contains `" at "`, title, delimiter and company rebuild it, and the title holds no earlier delimiter.
  - Otherwise the job title is the whole headline and the company is the experience lookup's text or `N/A`.

`SearchResults.Extract` states:

- A container is kept exactly when it does not fault, has an href, and the href contains `/in/`.
- The url is the href.
- The name is the stripped link text, or the slug name when that text is empty or `LinkedIn Member`.
- The name is never `LinkedIn Member`.
- Title and location are the stripped lookup texts, or `N/A`.

## Left out

- Selenium driver setup, `login` and `close` (task_2/linkedin_scraper.py:13-40, 168-169): these are foreign browser calls. The session they manage is not modelled.
- Page navigation, scrolling, `WebDriverWait` and every `time.sleep`: these are I/O and timing. Their outcomes are inputs:
  - `ProfilePage.opens` and `ProfilePage.scrolls`
  - the `Option` lookups
  - an absent search page
- What the CSS selectors match in the page is outside the model. Each lookup's result is an input.
- `main`: the example URL list, the per-target loop with `randint(3, 7)` pacing, and the CSV writing are process I/O and randomness.
- Every `print` call is left out because it is console output.
- `PyStrings.Title`: only ASCII letters are cased. Python's Unicode case mapping and titlecase characters are not modelled.
- `SearchResults.Search`: the bound `len <= max_profiles` is stated only for a non-negative `max_profiles`. For a negative value, `TakePrefix` models Python's slice, which drops elements from the end.
- The model follows the code as written, in particular:
  - The two halves of the `" at "` split are not trimmed (task_2/linkedin_scraper.py:76); see `ProfileData.SplitHalvesKeepSpaces`.
  - `get_profile_data` can raise (see Findings).
  - A heading found with empty text gives an empty name, not the slug name.
- Search treats an `href` of `None` like a faulting container. The source's `'/in/' not in None` raises a `TypeError`, and the per-container handler catches it.

## Findings

| source | as written | input that shows it | evidently intended | confidence | as-written member | corrected member |
|---|---|---|---|---|---|---|
| task_2/linkedin_scraper.py:45-49 | `profile_name` is first assigned at :49, after `driver.get` at :45, but the handler at :97-99 reads it | any URL whose `driver.get` raises, e.g. a navigation timeout: `ProfilePage(opens := false, ...)` | the handler returns the fallback record (slug name, `N/A`, `N/A`) | not executed | ProfileData.NavigationFailureRaises | ProfileData.GetProfileDataRecovered |
