/** The name the crawler derives from a profile URL when the page does not
    give one: the path after the profile marker `/in/`, without surrounding
    slashes, with dashes read as spaces, title-cased. */
module ProfileUrls {
  import opened Wrappers
  import opened PyStrings

  /** The path marker every profile URL carries. */
  const ProfileMarker := "/in/"

  /** The slug of a profile URL: `url.split('/in/')[-1].strip('/')`. */
  function Slug(url: string): (r: string)
    ensures r == [] || (r[0] != '/' && r[|r| - 1] != '/')
    ensures !Contains(r, ProfileMarker)
  {
    var tail := SplitLast(url, ProfileMarker);
    StripKeepsAbsence(tail, {'/'}, ProfileMarker);
    Strip(tail, {'/'})
  }

  /** Where the slug sits in the URL: the last piece of the split starts at
      `p`, right after a marker when the URL has one and at the start
      otherwise; the slug is the stretch `[a, a + |Slug(url)|)` of that
      piece, and only slashes surround it within the piece. */
  lemma SlugIsTrimmedLastPiece(url: string)
    ensures exists p, a :: 0 <= p <= a <= a + |Slug(url)| <= |url|
              && url[p..] == SplitLast(url, ProfileMarker)
              && (Contains(url, ProfileMarker) ==> p >= |ProfileMarker| && OccursAt(url, ProfileMarker, p - |ProfileMarker|))
              && (!Contains(url, ProfileMarker) ==> p == 0)
              && AllIn(url[p..a], {'/'})
              && Slug(url) == url[a..a + |Slug(url)|]
              && AllIn(url[a + |Slug(url)|..], {'/'})
  {
    var tail := SplitLast(url, ProfileMarker);
    var p := |url| - |tail|;
    assert Slug(url) == Strip(url[p..], {'/'});
    StripInSuffix(url, p, {'/'});
  }

  /** The fallback name: the slug with every `-` turned into a space, then
      title-cased. */
  function SlugName(url: string): (r: string)
    ensures |r| == |Slug(url)|
    ensures IsTitled(r)
    ensures '-' !in r
  {
    var spaced := ReplaceChar(Slug(url), '-', ' ');
    var r := Title(spaced);
    TitleIsTitled(spaced);
    assert '-' !in r by {
      TitleChangesOnlyCase(spaced);
      TitleKeepsCasing(spaced);
    }
    r
  }

  /** Ignoring case, the fallback name is the slug with dashes read as
      spaces. */
  lemma SlugNameIgnoringCase(url: string)
    ensures forall i :: 0 <= i < |Slug(url)| ==>
              ToLower(SlugName(url)[i]) == ToLower(ReplaceChar(Slug(url), '-', ' ')[i])
  {
    var spaced := ReplaceChar(Slug(url), '-', ' ');
    TitleChangesOnlyCase(spaced);
  }

  /** The placeholder the search page shows instead of a hidden member's name. */
  const HiddenMemberName := "LinkedIn Member"

  /** No slug name is the hidden-member placeholder: title-casing never leaves
      an upper-case letter straight after another letter, as the `I` of
      `LinkedIn` is. */
  lemma SlugNameIsNotPlaceholder(url: string)
    ensures SlugName(url) != HiddenMemberName
  {
    assert IsCased(HiddenMemberName[6]) && IsUpper(HiddenMemberName[6]);
    assert !StartsWord(HiddenMemberName, 6);
  }

  /** The fallback name of `.../in/john-q-public/` is `John Q Public`. */
  lemma JohnQPublic()
    ensures SlugName("https://www.linkedin.com/in/john-q-public/") == "John Q Public"
  {
    JohnQPublicTail();
    StripJohnQPublic();
    SpaceJohnQPublic();
    TitleJohnQPublic();
  }

  lemma JohnQPublicTail()
    ensures SplitLast("https://www.linkedin.com/in/john-q-public/", ProfileMarker) == "john-q-public/"
  {
    var url := "https://www.linkedin.com/in/john-q-public/";
    JohnQPublicFirstMarker();
    JohnQPublicNoLaterMarker();
    SplitLastAfterOnly(url, ProfileMarker, 24);
    JohnQPublicSlug();
  }

  lemma JohnQPublicSlug()
    ensures "https://www.linkedin.com/in/john-q-public/"[28..] == "john-q-public/"
  {
  }

  lemma JohnQPublicFirstMarker()
    ensures FindFrom("https://www.linkedin.com/in/john-q-public/", ProfileMarker, 0) == Some(24)
  {
    var url := "https://www.linkedin.com/in/john-q-public/";
    assert url[24..28] == ProfileMarker;
    forall j: nat | j < 24 ensures !OccursAt(url, ProfileMarker, j) {
      if j == 6 || j == 7 { MismatchAt(url, ProfileMarker, j, 1); } else { MismatchAt(url, ProfileMarker, j, 0); }
    }
    FindFromFinds(url, ProfileMarker, 0, 24);
  }

  lemma JohnQPublicNoLaterMarker()
    ensures FindFrom("https://www.linkedin.com/in/john-q-public/", ProfileMarker, 28) == None
  {
    var url := "https://www.linkedin.com/in/john-q-public/";
    forall j: nat | 28 <= j ensures !OccursAt(url, ProfileMarker, j) {
      if j + 4 <= |url| { MismatchAt(url, ProfileMarker, j, 0); }
    }
    FindFromMisses(url, ProfileMarker, 28);
  }

  lemma StripJohnQPublic()
    ensures Strip("john-q-public/", {'/'}) == "john-q-public"
  {
    var t := "john-q-public/";
    assert KeptFrom(t, {'/'}, 0) == 0;
    assert KeptUntil(t, {'/'}, 0, 13) == 13;
    assert KeptUntil(t, {'/'}, 0, 14) == 13;
    assert t[0..13] == "john-q-public";
  }

  lemma SpaceJohnQPublic()
    ensures ReplaceChar("john-q-public", '-', ' ') == "john q public"
  {
  }

  lemma TitleJohnQPublic()
    ensures Title("john q public") == "John Q Public"
  {
  }

  /** Python's split scans left to right and does not reuse the `/` that
      ends one marker as the start of the next: the last piece of
      `/in/in/` is `in/`, not the empty text after the last `/in/`. */
  lemma SplitDoesNotOverlap()
    ensures SplitLast("/in/in/", ProfileMarker) == "in/"
  {
    var s := "/in/in/";
    assert s[0..4] == ProfileMarker;
    FindFromFinds(s, ProfileMarker, 0, 0);
    FindFromMisses(s, ProfileMarker, 4);
    SplitLastAfterOnly(s, ProfileMarker, 0);
    assert s[4..] == "in/";
  }
}
