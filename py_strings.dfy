/** The Python `str` operations the scraper relies on, over `seq<char>`:
    `pat in s`, `s.find(pat)`, `s.split(sep)[-1]`, `s.strip(chars)`,
    `s.replace(a, b)` for single characters and `s.title()` on ASCII letters. */
module PyStrings {
  import opened Wrappers

  /** `pat` occurs in `s` starting at index `i`. */
  predicate OccursAt(s: string, pat: string, i: nat) {
    i + |pat| <= |s| && forall d :: 0 <= d < |pat| ==> s[i + d] == pat[d]
  }

  /** One differing character rules an occurrence out. */
  lemma MismatchAt(s: string, pat: string, i: nat, k: nat)
    requires i + |pat| <= |s| && k < |pat| && s[i + k] != pat[k]
    ensures !OccursAt(s, pat, i)
  {
  }

  /** Python's `pat in s`. */
  predicate Contains(s: string, pat: string) {
    exists i: nat | i <= |s| :: OccursAt(s, pat, i)
  }

  /** `s.find(pat, k)` as an option: the first occurrence at or after `k`. */
  function FindFrom(s: string, pat: string, k: nat): (r: Option<nat>)
    decreases |s| - k
    ensures r.Some? ==> k <= r.value && r.value + |pat| <= |s|
  {
    if k + |pat| > |s| then None
    else if OccursAt(s, pat, k) then Some(k)
    else FindFrom(s, pat, k + 1)
  }

  /** The search from `k` returns the first occurrence at or after `k`, and
      nothing exactly when there is none. */
  lemma {:induction false} FindFromFirst(s: string, pat: string, k: nat)
    decreases |s| - k
    ensures var r := FindFrom(s, pat, k);
            && (r.Some? ==> k <= r.value && OccursAt(s, pat, r.value))
            && (r.Some? ==> forall j: nat :: k <= j < r.value ==> !OccursAt(s, pat, j))
            && (r.None? ==> forall j: nat :: k <= j ==> !OccursAt(s, pat, j))
  {
    if k + |pat| <= |s| && !OccursAt(s, pat, k) {
      FindFromFirst(s, pat, k + 1);
    }
  }

  /** `s.find(pat)`: the first occurrence of `pat` in `s`, if any. */
  function FindFirst(s: string, pat: string): (r: Option<nat>)
    ensures r.Some? <==> Contains(s, pat)
    ensures r.Some? ==> OccursAt(s, pat, r.value)
    ensures r.Some? ==> forall j: nat :: j < r.value ==> !OccursAt(s, pat, j)
  {
    FindFromFirst(s, pat, 0);
    FindFrom(s, pat, 0)
  }

  /** The search from `k` finds `i` when `i` is the first occurrence there. */
  lemma FindFromFinds(s: string, pat: string, k: nat, i: nat)
    requires k <= i && OccursAt(s, pat, i)
    requires forall j: nat :: k <= j < i ==> !OccursAt(s, pat, j)
    ensures FindFrom(s, pat, k) == Some(i)
  {
    FindFromFirst(s, pat, k);
  }

  /** The search from `k` finds nothing when nothing occurs there. */
  lemma FindFromMisses(s: string, pat: string, k: nat)
    requires forall j: nat :: k <= j ==> !OccursAt(s, pat, j)
    ensures FindFrom(s, pat, k) == None
  {
    FindFromFirst(s, pat, k);
  }

  /** An occurrence in a slice of `s` is an occurrence in `s`. */
  lemma ContainsInSlice(s: string, pat: string, a: nat, b: nat)
    requires a <= b <= |s| && Contains(s[a..b], pat)
    ensures Contains(s, pat)
  {
    var t := s[a..b];
    var j: nat :| j <= |t| && OccursAt(t, pat, j);
    forall d | 0 <= d < |pat| ensures s[a + j + d] == pat[d] {
      assert t[j + d] == s[a + j + d];
    }
    assert OccursAt(s, pat, a + j);
  }

  /** Occurrences in a suffix `t` of `s` are the occurrences in `s` past its
      start, shifted. */
  lemma OccursShift(s: string, t: string, pat: string, o: nat, j: nat)
    requires o <= |s| && t == s[o..]
    ensures OccursAt(t, pat, j) <==> OccursAt(s, pat, o + j)
  {
    if OccursAt(s, pat, o + j) {
      forall d | 0 <= d < |pat| ensures t[j + d] == pat[d] {
        assert t[j + d] == s[o + j + d];
      }
    }
  }

  /** Searching a suffix `t` of `s` finds what searching `s` finds there,
      shifted. */
  lemma {:induction false} FindFromShift(s: string, t: string, pat: string, o: nat, k: nat)
    requires o <= |s| && t == s[o..]
    decreases |s| - o - k
    ensures FindFrom(s, pat, o + k).None? ==> FindFrom(t, pat, k).None?
    ensures FindFrom(s, pat, o + k).Some? ==>
              FindFrom(t, pat, k) == Some(FindFrom(s, pat, o + k).value - o)
  {
    OccursShift(s, t, pat, o, k);
    if o + k + |pat| <= |s| && !OccursAt(s, pat, o + k) {
      FindFromShift(s, t, pat, o, k + 1);
    }
  }

  /** Where the last piece of `s.split(sep)` starts when the left-to-right
      scan resumes at index `k`: the next occurrence at or after `k` closes a
      piece, and the scan resumes right after that occurrence. */
  function LastPieceStart(s: string, sep: string, k: nat): (m: nat)
    requires sep != [] && k <= |s|
    decreases |s| - k
    ensures k <= m <= |s|
  {
    match FindFrom(s, sep, k)
    case None => k
    case Some(j) => LastPieceStart(s, sep, j + |sep|)
  }

  /** The scan moves on exactly when a separator follows `k`; it stops right
      after a separator, and no separator starts at or after where it stops. */
  lemma {:induction false} LastPieceStartStops(s: string, sep: string, k: nat)
    requires sep != [] && k <= |s|
    decreases |s| - k
    ensures var m := LastPieceStart(s, sep, k);
            && (m > k <==> FindFrom(s, sep, k).Some?)
            && (forall j: nat :: m <= j ==> !OccursAt(s, sep, j))
            && (m > k ==> m >= |sep| && OccursAt(s, sep, m - |sep|))
  {
    FindFromFirst(s, sep, k);
    match FindFrom(s, sep, k)
    case None =>
    case Some(j) =>
      LastPieceStartStops(s, sep, j + |sep|);
  }

  /** The scan stops where no separator follows. */
  lemma LastPieceStartEnd(s: string, sep: string, k: nat)
    requires sep != [] && k <= |s| && FindFrom(s, sep, k) == None
    ensures LastPieceStart(s, sep, k) == k
  {
  }

  /** One step of the scan: it resumes past the next separator. */
  lemma LastPieceStartNext(s: string, sep: string, k: nat, j: nat)
    requires sep != [] && k <= |s| && FindFrom(s, sep, k) == Some(j)
    ensures LastPieceStart(s, sep, k) == LastPieceStart(s, sep, j + |sep|)
  {
  }

  /** Scanning a suffix `t` of `s` stops where scanning `s` from the same
      place stops, shifted. */
  lemma {:induction false} LastPieceStartShift(s: string, t: string, sep: string, o: nat, k: nat)
    requires sep != [] && o + k <= |s| && t == s[o..]
    decreases |s| - o - k
    ensures LastPieceStart(t, sep, k) + o == LastPieceStart(s, sep, o + k)
  {
    FindFromShift(s, t, sep, o, k);
    var found := FindFrom(s, sep, o + k);
    if found.Some? {
      var j := found.value;
      LastPieceStartNext(s, sep, o + k, j);
      LastPieceStartNext(t, sep, k, j - o);
      LastPieceStartShift(s, t, sep, o, j - o + |sep|);
    } else {
      LastPieceStartEnd(s, sep, o + k);
      LastPieceStartEnd(t, sep, k);
    }
  }

  /** `s.split(sep)[-1]`: Python splits left to right at non-overlapping
      occurrences of `sep`, so the last piece is what follows the occurrence
      found last by that scan. Python refuses an empty separator. */
  function SplitLast(s: string, sep: string): (r: string)
    requires sep != []
    ensures |r| <= |s| && r == s[|s| - |r|..]
    ensures !Contains(r, sep)
    ensures Contains(s, sep) ==> |r| + |sep| <= |s| && OccursAt(s, sep, |s| - |r| - |sep|)
    ensures !Contains(s, sep) ==> r == s
  {
    var m := LastPieceStart(s, sep, 0);
    LastPieceStartStops(s, sep, 0);
    assert !Contains(s[m..], sep) by {
      if Contains(s[m..], sep) {
        var j: nat :| j <= |s[m..]| && OccursAt(s[m..], sep, j);
        OccursShift(s, s[m..], sep, m, j);
      }
    }
    s[m..]
  }

  /** When the first occurrence is at `i` and none follows it, the last
      piece is everything after that occurrence. */
  lemma SplitLastAfterOnly(s: string, sep: string, i: nat)
    requires sep != [] && i + |sep| <= |s|
    requires FindFrom(s, sep, 0) == Some(i) && FindFrom(s, sep, i + |sep|) == None
    ensures SplitLast(s, sep) == s[i + |sep|..]
  {
    assert LastPieceStart(s, sep, 0) == LastPieceStart(s, sep, i + |sep|);
  }

  /** The split scans left to right and never reuses a separator: the last
      piece of `s` is the last piece of what follows the first separator.
      With `SplitLast`'s contract for a string without separator, this fixes
      the last piece of every string. */
  lemma SplitLastResumesAfterFirst(s: string, sep: string)
    requires sep != [] && Contains(s, sep)
    ensures var i := FindFirst(s, sep).value;
            i + |sep| <= |s| && SplitLast(s, sep) == SplitLast(s[i + |sep|..], sep)
  {
    var i := FindFirst(s, sep).value;
    var o := i + |sep|;
    var t := s[o..];
    LastPieceResumes(s, t, sep, i);
    SplitLastFrom(s, sep);
    SplitLastFrom(t, sep);
    SuffixOfSuffix(s, t, o, LastPieceStart(s, sep, 0));
  }

  /** The scan from the start, past the first separator at `i`, is the scan
      of the suffix `t` after that separator, shifted. */
  lemma LastPieceResumes(s: string, t: string, sep: string, i: nat)
    requires sep != [] && i + |sep| <= |s| && FindFrom(s, sep, 0) == Some(i) && t == s[i + |sep|..]
    ensures LastPieceStart(t, sep, 0) + i + |sep| == LastPieceStart(s, sep, 0)
  {
    LastPieceStartNext(s, sep, 0, i);
    LastPieceStartShift(s, t, sep, i + |sep|, 0);
  }

  /** A suffix of a suffix of `s` is a suffix of `s`. */
  lemma SuffixOfSuffix<T>(s: seq<T>, t: seq<T>, o: nat, m: nat)
    requires o <= m <= |s| && t == s[o..]
    ensures t[m - o..] == s[m..]
  {
  }

  /** The last piece is the suffix where the scan from the start stops. */
  lemma SplitLastFrom(s: string, sep: string)
    requires sep != []
    ensures SplitLast(s, sep) == s[LastPieceStart(s, sep, 0)..]
  {
  }

  /** Where the left half of `s.strip(cs)` stops when the scan is at `k`:
      the first index at or after `k` whose character is not in `cs`, or `|s|`. */
  function KeptFrom(s: string, cs: set<char>, k: nat): (i: nat)
    requires k <= |s|
    decreases |s| - k
    ensures k <= i <= |s|
    ensures forall j :: k <= j < i ==> s[j] in cs
    ensures i < |s| ==> s[i] !in cs
  {
    if k < |s| && s[k] in cs then KeptFrom(s, cs, k + 1) else k
  }

  /** Where the right half of `s.strip(cs)` ends a run that starts at `lo`
      and is scanned down from `k`: the last index after `lo` whose preceding
      character is not in `cs`, or `lo`. */
  function KeptUntil(s: string, cs: set<char>, lo: nat, k: nat): (e: nat)
    requires lo <= k <= |s|
    decreases k
    ensures lo <= e <= k
    ensures forall j :: e <= j < k ==> s[j] in cs
    ensures e > lo ==> s[e - 1] !in cs
  {
    if k > lo && s[k - 1] in cs then KeptUntil(s, cs, lo, k - 1) else k
  }

  /** Every character of `t` is in `cs`. */
  predicate AllIn(t: string, cs: set<char>) {
    forall k :: 0 <= k < |t| ==> t[k] in cs
  }

  /** `s.strip(cs)`: the longest run of `s` that starts and ends outside `cs`,
      after dropping a prefix and a suffix made only of characters in `cs`. */
  function Strip(s: string, cs: set<char>): (r: string)
    ensures r == [] || (r[0] !in cs && r[|r| - 1] !in cs)
    ensures exists i :: 0 <= i <= |s| - |r| && AllIn(s[..i], cs)
                        && r == s[i..i + |r|] && AllIn(s[i + |r|..], cs)
  {
    var i := KeptFrom(s, cs, 0);
    var e := KeptUntil(s, cs, i, |s|);
    assert AllIn(s[..i], cs) by {
      forall k | 0 <= k < i ensures s[..i][k] in cs {
        assert s[..i][k] == s[k];
      }
    }
    assert AllIn(s[e..], cs) by {
      forall k | 0 <= k < |s| - e ensures s[e..][k] in cs {
        assert s[e..][k] == s[e + k];
      }
    }
    s[i..e]
  }

  /** Text that starts and ends outside `cs` is left as it is. */
  lemma StripOfTrimmed(s: string, cs: set<char>)
    requires s == [] || (s[0] !in cs && s[|s| - 1] !in cs)
    ensures Strip(s, cs) == s
  {
    var i := KeptFrom(s, cs, 0);
    var e := KeptUntil(s, cs, 0, |s|);
    assert s[0..|s|] == s;
  }

  /** Stripping a suffix `s[p..]` leaves a stretch of `s` with only
      characters of `cs` between `p` and it and after it. */
  lemma StripInSuffix(s: string, p: nat, cs: set<char>)
    requires p <= |s|
    ensures var r := Strip(s[p..], cs);
            exists a :: p <= a <= a + |r| <= |s| && AllIn(s[p..a], cs)
                        && r == s[a..a + |r|] && AllIn(s[a + |r|..], cs)
  {
    var t := s[p..];
    var i := KeptFrom(t, cs, 0);
    var e := KeptUntil(t, cs, i, |t|);
    assert Strip(t, cs) == t[i..e];
    var before, after := s[p..p + i], s[p + e..];
    forall k | 0 <= k < |before| ensures before[k] in cs {
      assert before[k] == t[k];
    }
    forall k | 0 <= k < |after| ensures after[k] in cs {
      assert after[k] == t[e + k];
    }
    assert s[p + i..p + e] == t[i..e];
  }

  /** Stripping twice strips no more than stripping once. */
  lemma StripIdempotent(s: string, cs: set<char>)
    ensures Strip(Strip(s, cs), cs) == Strip(s, cs)
  {
    StripOfTrimmed(Strip(s, cs), cs);
  }

  /** Stripping cannot create an occurrence of a pattern. */
  lemma StripKeepsAbsence(s: string, cs: set<char>, pat: string)
    requires !Contains(s, pat)
    ensures !Contains(Strip(s, cs), pat)
  {
    var i := KeptFrom(s, cs, 0);
    var e := KeptUntil(s, cs, i, |s|);
    if Contains(s[i..e], pat) {
      ContainsInSlice(s, pat, i, e);
    }
  }

  /** The characters `str.strip()` removes when called without arguments. */
  const PyWhitespace: set<char> :=
    {' ', '\t', '\n', '\r', '\U{0B}', '\U{0C}', '\U{1C}', '\U{1D}', '\U{1E}', '\U{1F}',
     '\U{85}', '\U{A0}', '\U{1680}', '\U{2000}', '\U{2001}', '\U{2002}', '\U{2003}',
     '\U{2004}', '\U{2005}', '\U{2006}', '\U{2007}', '\U{2008}', '\U{2009}', '\U{200A}',
     '\U{2028}', '\U{2029}', '\U{202F}', '\U{205F}', '\U{3000}'}

  /** `s.replace(from, to)` for one-character strings. */
  function ReplaceChar(s: string, from: char, to: char): (r: string)
    ensures |r| == |s|
    ensures from != to ==> from !in r
    ensures forall i :: 0 <= i < |s| && s[i] != from ==> r[i] == s[i]
    ensures forall i :: 0 <= i < |s| && s[i] == from ==> r[i] == to
  {
    seq(|s|, i requires 0 <= i < |s| => if s[i] == from then to else s[i])
  }

  predicate IsUpper(c: char) { 'A' <= c <= 'Z' }
  predicate IsLower(c: char) { 'a' <= c <= 'z' }

  /** Cased characters in the sense of `str.title()`; only ASCII letters here. */
  predicate IsCased(c: char) { IsUpper(c) || IsLower(c) }

  /** A letter is never whitespace. */
  lemma LetterIsNotWhitespace(c: char)
    requires IsCased(c)
    ensures c !in PyWhitespace
  {
  }

  function ToUpper(c: char): char {
    if IsLower(c) then (c as int - 32) as char else c
  }

  function ToLower(c: char): char {
    if IsUpper(c) then (c as int + 32) as char else c
  }

  /** Position `i` of `t` starts a word for `str.title()`: it is the first
      position or follows an uncased character. */
  predicate StartsWord(t: string, i: nat)
    requires i < |t|
  {
    i == 0 || !IsCased(t[i - 1])
  }

  /** The title-casing loop of `str.title()`, `prevCased` telling whether the
      character before `s` was cased. */
  function TitleFrom(s: string, prevCased: bool): (r: string)
    ensures |r| == |s|
    ensures |s| > 0 ==> r[0] == if prevCased then ToLower(s[0]) else ToUpper(s[0])
    ensures forall i :: 0 < i < |s| ==>
              r[i] == if IsCased(s[i - 1]) then ToLower(s[i]) else ToUpper(s[i])
  {
    if s == [] then []
    else [if prevCased then ToLower(s[0]) else ToUpper(s[0])] + TitleFrom(s[1..], IsCased(s[0]))
  }

  /** `s.title()`: a letter is upper-cased when it starts the string or
      follows an uncased character, and lower-cased otherwise. */
  function Title(s: string): (r: string)
    ensures |r| == |s|
    ensures forall i {:trigger r[i]} :: 0 <= i < |s| ==>
              r[i] == if StartsWord(s, i) then ToUpper(s[i]) else ToLower(s[i])
  {
    TitleFrom(s, false)
  }

  /** A string `str.title()` leaves as it is: every cased character is
      upper-case exactly when it starts a word. */
  predicate IsTitled(t: string) {
    forall i {:trigger StartsWord(t, i)} :: 0 <= i < |t| && IsCased(t[i]) ==>
      (IsUpper(t[i]) <==> StartsWord(t, i))
  }

  /** Case conversion of one character keeps it cased or uncased, makes it
      upper- or lower-case when it is cased, and leaves it alone otherwise. */
  lemma CaseConversion(c: char)
    ensures IsCased(ToUpper(c)) == IsCased(c) && IsCased(ToLower(c)) == IsCased(c)
    ensures IsCased(c) ==> IsUpper(ToUpper(c)) && !IsUpper(ToLower(c))
    ensures !IsLower(c) ==> ToUpper(c) == c
    ensures !IsUpper(c) ==> ToLower(c) == c
  {
  }

  /** Title-casing keeps the cased/uncased shape of every character. */
  lemma TitleKeepsCasing(s: string)
    ensures forall i :: 0 <= i < |s| ==> (IsCased(Title(s)[i]) <==> IsCased(s[i]))
  {
    var r := Title(s);
    forall i | 0 <= i < |s| ensures IsCased(r[i]) <==> IsCased(s[i]) {
      CaseConversion(s[i]);
    }
  }

  /** Title-casing changes only the case of letters: ignoring case, the
      result is the input, and an uncased character stays as it is. */
  lemma TitleChangesOnlyCase(s: string)
    ensures forall i :: 0 <= i < |s| ==> ToLower(Title(s)[i]) == ToLower(s[i])
    ensures forall i :: 0 <= i < |s| && !IsCased(s[i]) ==> Title(s)[i] == s[i]
  {
    var r := Title(s);
    forall i | 0 <= i < |s| ensures ToLower(r[i]) == ToLower(s[i]) && (!IsCased(s[i]) ==> r[i] == s[i]) {
      CaseConversion(s[i]);
    }
  }

  /** The result of `title()` is titled. */
  lemma TitleIsTitled(s: string)
    ensures IsTitled(Title(s))
  {
    var r := Title(s);
    TitleKeepsCasing(s);
    forall i | 0 <= i < |r| && IsCased(r[i]) ensures IsUpper(r[i]) <==> StartsWord(r, i) {
      CaseConversion(s[i]);
    }
  }

  /** A titled string is a fixed point of `title()`. */
  lemma TitledIsFixed(t: string)
    requires IsTitled(t)
    ensures Title(t) == t
  {
    var r := Title(t);
    forall i | 0 <= i < |t| ensures r[i] == t[i] {
      CaseConversion(t[i]);
    }
  }

  /** `title()` is idempotent. */
  lemma TitleIdempotent(s: string)
    ensures Title(Title(s)) == Title(s)
  {
    TitleIsTitled(s);
    TitledIsFixed(Title(s));
  }
}
