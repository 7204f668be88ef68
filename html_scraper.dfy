/**
 * The pure parts of html_scraper.py: the episode page URL built from an
 * episode title, and the transcript cut out of a rendered page's text
 * between the "Transcript" heading and the "Show full transcript" link.
 */
module HtmlScraper {
  import opened Strings

  const BaseUrl: string := "https://omny.fm/shows/ping-proving-grounds/"
  const StartMarker: string := "Transcript"
  const EndMarker: string := "Show full transcript"

  predicate NotColon(c: char) {
    c != ':'
  }

  /** The characters that `re.sub(r'[^\w\s-]', '', s)` leaves in place. */
  predicate KeptBySlugFilter(c: char) {
    IsWordChar(c) || IsSpace(c) || c == '-'
  }

  /** The alphabet of a slug: small word characters and the dash. */
  predicate IsSlugChar(c: char) {
    (IsWordChar(c) && !IsUpper(c)) || c == '-'
  }

  /**
   * `re.sub(r'\s+', '-', s)` as a left-to-right scan: `inRun` says whether the
   * character before `s` was whitespace, so only the first character of a
   * whitespace run writes a dash and the rest of the run writes nothing.
   */
  function DashWhitespaceFrom(s: string, inRun: bool): (r: string)
    ensures |r| <= |s|
  {
    if s == [] then [] else DashFor(s[0], inRun) + DashWhitespaceFrom(s[1..], IsSpace(s[0]))
  }

  /** What one character writes: a dash for the first whitespace of a run, nothing for the rest, itself otherwise. */
  function DashFor(c: char, inRun: bool): string {
    if !IsSpace(c) then [c] else if inRun then [] else "-"
  }

  /** `re.sub(r'\s+', '-', s)`: every maximal run of whitespace becomes one dash. */
  function DashWhitespace(s: string): string {
    DashWhitespaceFrom(s, false)
  }

  /**
   * Reference definition of the same substitution, run by run: a text that
   * starts with whitespace gives one dash for its whole leading run.
   */
  function DashRuns(s: string): string
    decreases |s|
  {
    if s == [] then []
    else if IsSpace(s[0]) then "-" + DashRuns(s[LeadingSpaces(s)..])
    else [s[0]] + DashRuns(s[1..])
  }

  /** Whether the scan is inside a whitespace run once it has passed `x`. */
  function EndsInRun(x: string, inRun: bool): bool {
    if x == [] then inRun else IsSpace(x[|x| - 1])
  }

  /** The dashed text holds no whitespace; each of its characters is a dash or comes from the text. */
  lemma {:induction false} DashWhitespaceAlphabet(s: string, inRun: bool)
    ensures NoSpace(DashWhitespaceFrom(s, inRun))
    ensures forall i :: 0 <= i < |DashWhitespaceFrom(s, inRun)| ==>
              DashWhitespaceFrom(s, inRun)[i] == '-' || DashWhitespaceFrom(s, inRun)[i] in s
  {
    if s != [] {
      DashWhitespaceAlphabet(s[1..], IsSpace(s[0]));
      assert forall c :: c in s[1..] ==> c in s;
    }
  }

  /** The slug of an episode title, as `generate_episode_url` computes it. */
  function Slug(title: string): (r: string)
    ensures forall i :: 0 <= i < |r| ==> IsSlugChar(r[i])
  {
    var lowered := Lower(title);
    var noColons := Filter(NotColon, lowered);
    var kept := Filter(KeptBySlugFilter, noColons);
    FilterSubset(NotColon, lowered);
    FilterSubset(KeptBySlugFilter, noColons);
    DashWhitespaceAlphabet(kept, false);
    DashWhitespace(kept)
  }

  /** `generate_episode_url`: the show's base URL followed by the title's slug. */
  function EpisodeUrl(title: string): (url: string)
    ensures StartsWith(url, BaseUrl)
    ensures url[|BaseUrl|..] == Slug(title)
    ensures forall i :: |BaseUrl| <= i < |url| ==> IsSlugChar(url[i])
  {
    BaseUrl + Slug(title)
  }

  /** A slug holds no colon and no whitespace. */
  lemma SlugHasNoColonNorSpace(title: string)
    ensures ':' !in Slug(title)
    ensures NoSpace(Slug(title))
  {
    var s := Slug(title);
    assert forall i :: 0 <= i < |s| ==> IsSlugChar(s[i]);
  }

  /** The scan of a concatenation is the scan of the first part followed by the scan of the second, resumed. */
  lemma {:induction false} DashWhitespaceFromConcat(x: string, y: string, inRun: bool)
    ensures DashWhitespaceFrom(x + y, inRun)
         == DashWhitespaceFrom(x, inRun) + DashWhitespaceFrom(y, EndsInRun(x, inRun))
  {
    if x == [] {
      assert x + y == y;
    } else {
      var c := x[0];
      calc {
        DashWhitespaceFrom(x + y, inRun);
        { assert (x + y)[0] == c; assert (x + y)[1..] == x[1..] + y; }
        DashFor(c, inRun) + DashWhitespaceFrom(x[1..] + y, IsSpace(c));
        { DashWhitespaceFromConcat(x[1..], y, IsSpace(c)); }
        DashFor(c, inRun) + (DashWhitespaceFrom(x[1..], IsSpace(c)) + DashWhitespaceFrom(y, EndsInRun(x[1..], IsSpace(c))));
        { assert EndsInRun(x[1..], IsSpace(c)) == EndsInRun(x, inRun); }
        (DashFor(c, inRun) + DashWhitespaceFrom(x[1..], IsSpace(c))) + DashWhitespaceFrom(y, EndsInRun(x, inRun));
      }
    }
  }

  /** Splitting a text after a non-whitespace character splits its dashed form there too. */
  lemma DashWhitespaceConcat(x: string, y: string)
    requires x == [] || !IsSpace(x[|x| - 1])
    ensures DashWhitespace(x + y) == DashWhitespace(x) + DashWhitespace(y)
  {
    DashWhitespaceFromConcat(x, y, false);
  }

  /** Inside a run, further whitespace writes nothing. */
  lemma {:induction false} RestOfRunVanishes(w: string)
    requires AllSpace(w)
    ensures DashWhitespaceFrom(w, true) == []
  {
    if w != [] {
      RestOfRunVanishes(w[1..]);
    }
  }

  /** Before a non-whitespace character it makes no difference whether a run just ended. */
  lemma RunEndsBeforeWord(b: string)
    requires b == [] || !IsSpace(b[0])
    ensures DashWhitespaceFrom(b, true) == DashWhitespaceFrom(b, false)
  {
  }

  /** A whitespace run that starts a text becomes one dash. */
  lemma DashWhitespaceOfRun(w: string, b: string)
    requires w != [] && AllSpace(w)
    requires b == [] || !IsSpace(b[0])
    ensures DashWhitespace(w + b) == "-" + DashWhitespace(b)
  {
    calc {
      DashWhitespace(w + b);
      { DashWhitespaceFromConcat(w, b, false); }
      DashWhitespaceFrom(w, false) + DashWhitespaceFrom(b, true);
      { RestOfRunVanishes(w[1..]); RunEndsBeforeWord(b); }
      "-" + DashWhitespace(b);
    }
  }

  /**
   * Every maximal run of whitespace becomes exactly one dash: whitespace `w`
   * with no whitespace on either side of it turns into a single `-`.
   */
  lemma WhitespaceRunBecomesOneDash(a: string, w: string, b: string)
    requires a == [] || !IsSpace(a[|a| - 1])
    requires w != [] && AllSpace(w)
    requires b == [] || !IsSpace(b[0])
    ensures DashWhitespace(a + w + b) == DashWhitespace(a) + "-" + DashWhitespace(b)
  {
    calc {
      DashWhitespace(a + w + b);
      { assert a + w + b == a + (w + b); }
      DashWhitespace(a + (w + b));
      { DashWhitespaceConcat(a, w + b); }
      DashWhitespace(a) + DashWhitespace(w + b);
      { DashWhitespaceOfRun(w, b); }
      DashWhitespace(a) + ("-" + DashWhitespace(b));
    }
  }

  /** The scan agrees with the run-by-run reference definition on every text. */
  lemma {:induction false} DashWhitespaceReplacesRuns(s: string)
    ensures DashWhitespace(s) == DashRuns(s)
    decreases |s|
  {
    if s != [] {
      if IsSpace(s[0]) {
        var n := LeadingSpaces(s);
        LeadingSpacesAreSpace(s);
        var w := s[1..n];
        assert AllSpace(w);
        calc {
          DashWhitespace(s);
          "-" + DashWhitespaceFrom(s[1..], true);
          { assert s[1..] == w + s[n..]; DashWhitespaceFromConcat(w, s[n..], true); }
          "-" + (DashWhitespaceFrom(w, true) + DashWhitespaceFrom(s[n..], true));
          { RestOfRunVanishes(w); RunEndsBeforeWord(s[n..]); }
          "-" + DashWhitespace(s[n..]);
          { DashWhitespaceReplacesRuns(s[n..]); }
          DashRuns(s);
        }
      } else {
        DashWhitespaceReplacesRuns(s[1..]);
      }
    }
  }

  /** A text without whitespace is left unchanged. */
  lemma {:induction false} DashWhitespaceWithoutSpace(s: string)
    requires NoSpace(s)
    ensures DashWhitespace(s) == s
  {
    if s != [] {
      DashWhitespaceWithoutSpace(s[1..]);
    }
  }

  /** The word characters of the text survive the dashing, in their original order. */
  lemma {:induction false} DashWhitespaceKeepsWordChars(s: string, inRun: bool)
    ensures Filter(IsWordChar, DashWhitespaceFrom(s, inRun)) == Filter(IsWordChar, s)
  {
    if s != [] {
      DashWhitespaceKeepsWordChars(s[1..], IsSpace(s[0]));
      FilterConcat(IsWordChar, DashFor(s[0], inRun), DashWhitespaceFrom(s[1..], IsSpace(s[0])));
      assert Filter(IsWordChar, DashFor(s[0], inRun)) == (if IsWordChar(s[0]) then [s[0]] else []);
    }
  }

  /** Filtering by a predicate that implies another makes filtering by the other first redundant. */
  lemma {:induction false} FilterNarrower(p: char -> bool, q: char -> bool, s: string)
    requires forall c :: p(c) ==> q(c)
    ensures Filter(p, Filter(q, s)) == Filter(p, s)
  {
    if s != [] {
      FilterNarrower(p, q, s[1..]);
      FilterConcat(p, if q(s[0]) then [s[0]] else [], Filter(q, s[1..]));
    }
  }

  /** The colon-removal step of the slug is subsumed by the punctuation-removal step that follows it. */
  lemma ColonRemovalIsRedundant(s: string)
    ensures Filter(KeptBySlugFilter, Filter(NotColon, s)) == Filter(KeptBySlugFilter, s)
  {
    FilterNarrower(KeptBySlugFilter, NotColon, s);
  }

  /** Lowering and keeping the word characters can be done in either order. */
  lemma {:induction false} LowerKeepsWordChars(s: string)
    ensures Filter(IsWordChar, Lower(s)) == Lower(Filter(IsWordChar, s))
  {
    if s != [] {
      LowerKeepsWordChars(s[1..]);
      assert Lower(s) == [LowerChar(s[0])] + Lower(s[1..]);
      var rest := Filter(IsWordChar, s[1..]);
      if IsWordChar(s[0]) {
        assert Lower([s[0]] + rest) == [LowerChar(s[0])] + Lower(rest);
      }
    }
  }

  /**
   * The word characters of the title reach the slug lowercased and in their
   * original order; every other character of the slug is a dash.
   */
  lemma SlugKeepsWordChars(title: string)
    ensures Filter(IsWordChar, Slug(title)) == Lower(Filter(IsWordChar, title))
  {
    var lowered := Lower(title);
    var noColons := Filter(NotColon, lowered);
    var kept := Filter(KeptBySlugFilter, noColons);
    DashWhitespaceKeepsWordChars(kept, false);
    FilterNarrower(IsWordChar, KeptBySlugFilter, noColons);
    FilterNarrower(IsWordChar, NotColon, lowered);
    LowerKeepsWordChars(title);
  }

  /** A text made of slug characters is its own slug. */
  lemma SlugOfSlugText(s: string)
    requires forall i :: 0 <= i < |s| ==> IsSlugChar(s[i])
    ensures Slug(s) == s
  {
    assert Lower(s) == s;
    FilterAll(NotColon, s);
    FilterAll(KeptBySlugFilter, s);
    DashWhitespaceWithoutSpace(s);
  }

  /** Computing the slug of a slug changes nothing. */
  lemma SlugIdempotent(title: string)
    ensures Slug(Slug(title)) == Slug(title)
  {
    SlugOfSlugText(Slug(title));
  }

  predicate AllWordChars(s: string) {
    forall i :: 0 <= i < |s| ==> IsWordChar(s[i])
  }

  /**
   * A title of two words separated by a colon and a space, such as
   * "Episode: One", has the two words lowercased and joined by one dash as its
   * slug ("episode-one").
   */
  lemma ColonSpaceTitle(a: string, b: string)
    requires a != [] && AllWordChars(a)
    requires b != [] && AllWordChars(b)
    ensures Slug(a + ": " + b) == Lower(a) + "-" + Lower(b)
  {
    var la, lb := Lower(a), Lower(b);
    var spaced := la + " " + lb;
    ColonSpaceKeptText(a, b);
    calc {
      DashWhitespace(spaced);
      { WhitespaceRunBecomesOneDash(la, " ", lb); }
      DashWhitespace(la) + "-" + DashWhitespace(lb);
      { DashWhitespaceWithoutSpace(la); DashWhitespaceWithoutSpace(lb); }
      la + "-" + lb;
    }
  }

  /** Before the dashing, the colon of such a title is gone and the two lowercased words keep their space. */
  lemma ColonSpaceKeptText(a: string, b: string)
    requires AllWordChars(a) && AllWordChars(b)
    ensures Filter(KeptBySlugFilter, Filter(NotColon, Lower(a + ": " + b))) == Lower(a) + " " + Lower(b)
  {
    var la, lb := Lower(a), Lower(b);
    var spaced := la + " " + lb;
    calc {
      Filter(KeptBySlugFilter, Filter(NotColon, Lower(a + ": " + b)));
      { LowerColonSpace(a, b); }
      Filter(KeptBySlugFilter, Filter(NotColon, la + ":" + " " + lb));
      { DropColon(la, lb); }
      Filter(KeptBySlugFilter, spaced);
      { FilterAll(KeptBySlugFilter, spaced); }
      spaced;
    }
  }

  /** The episode titled "Episode: One" lives at the base URL followed by `episode-one`. */
  lemma EpisodeOneUrl(title: string)
    requires title == "Episode: One"
    ensures EpisodeUrl(title) == BaseUrl + "episode-one"
  {
    var a, b := "Episode", "One";
    assert AllWordChars(a) && AllWordChars(b);
    ColonSpaceTitle(a, b);
    assert a + ": " + b == title;
    assert Lower(a) == "episode";
    assert Lower(b) == "one";
  }

  /** Lowercasing `a: b` lowercases each word and keeps the colon and the space. */
  lemma LowerColonSpace(a: string, b: string)
    ensures Lower(a + ": " + b) == Lower(a) + ":" + " " + Lower(b)
  {
    assert Lower(": ") == ": ";
    assert a + ": " + b == a + (": " + b);
    assert Lower(a + (": " + b)) == Lower(a) + Lower(": " + b);
    assert Lower(": " + b) == Lower(": ") + Lower(b);
  }

  /** Removing colons from `la: lb`, when neither word has one, leaves `la lb`. */
  lemma DropColon(la: string, lb: string)
    requires ':' !in la && ':' !in lb
    ensures Filter(NotColon, la + ":" + " " + lb) == la + " " + lb
  {
    var tail := " " + lb;
    calc {
      Filter(NotColon, la + ":" + " " + lb);
      { assert la + ":" + " " + lb == la + (":" + tail); }
      Filter(NotColon, la + (":" + tail));
      { FilterConcat(NotColon, la, ":" + tail); }
      Filter(NotColon, la) + Filter(NotColon, ":" + tail);
      { ColonFree(la); DropLeadingColon(tail); }
      la + Filter(NotColon, tail);
      { ColonFree(tail); }
      la + tail;
    }
  }

  /** Removing colons from a text without one changes nothing (`FilterAll` for `NotColon`). */
  lemma ColonFree(s: string)
    requires ':' !in s
    ensures Filter(NotColon, s) == s
  {
    FilterAll(NotColon, s);
  }

  /** A leading colon is removed and the rest filtered as before (`FilterConcat` for `NotColon`). */
  lemma DropLeadingColon(s: string)
    ensures Filter(NotColon, ":" + s) == Filter(NotColon, s)
  {
    FilterConcat(NotColon, ":", s);
  }

  /** `pat` occurs at `i` and nowhere before: the index `str.find` reports. */
  ghost predicate FirstOccurrence(text: string, pat: string, i: nat) {
    OccursAt(text, pat, i) && forall k: nat :: k < i ==> !OccursAt(text, pat, k)
  }

  /** `Find` reports the first occurrence. */
  lemma FindIsFirstOccurrence(text: string, pat: string, i: nat)
    requires FirstOccurrence(text, pat, i)
    ensures Find(text, pat) == i
  {
    assert OccursAt(text, pat, i);
  }

  /**
   * The transcript cut out of a page's text, as `extract_transcript_segments`
   * does once the browser has produced the text: when both markers occur, the
   * stripped text between the first start marker and the first end marker;
   * otherwise the whole text.
   */
  function SliceBetweenMarkers(allText: string, startMarker: string, endMarker: string): (r: string)
    ensures |r| <= |allText|
  {
    var startIndex := Find(allText, startMarker);
    var endIndex := Find(allText, endMarker);
    if startIndex != -1 && endIndex != -1 then
      Strip(Slice(allText, startIndex + |startMarker|, endIndex))
    else
      allText
  }

  /**
   * With both markers present at first indices `i` and `j`, the result is the
   * stripped text from the end of the start marker up to the end marker, and
   * it is empty when the end marker does not come after the start marker.
   */
  lemma SliceWhenBothMarkersOccur(allText: string, startMarker: string, endMarker: string, i: nat, j: nat)
    requires FirstOccurrence(allText, startMarker, i)
    requires FirstOccurrence(allText, endMarker, j)
    ensures i + |startMarker| <= j ==>
              SliceBetweenMarkers(allText, startMarker, endMarker) == Strip(allText[i + |startMarker|..j])
    ensures j <= i + |startMarker| ==> SliceBetweenMarkers(allText, startMarker, endMarker) == []
  {
    FindIsFirstOccurrence(allText, startMarker, i);
    FindIsFirstOccurrence(allText, endMarker, j);
    SliceAtFoundIndices(allText, startMarker, endMarker, i, j);
  }

  /** The slice in terms of the indices `find` reports. */
  lemma SliceAtFoundIndices(allText: string, startMarker: string, endMarker: string, i: nat, j: nat)
    requires Find(allText, startMarker) == i && Find(allText, endMarker) == j
    ensures i + |startMarker| <= j ==>
              SliceBetweenMarkers(allText, startMarker, endMarker) == Strip(allText[i + |startMarker|..j])
    ensures j <= i + |startMarker| ==> SliceBetweenMarkers(allText, startMarker, endMarker) == []
  {
    SliceByFind(allText, startMarker, endMarker);
  }

  /** With both markers found, the result is the stripped Python slice between the indices `find` reports. */
  lemma SliceByFind(allText: string, startMarker: string, endMarker: string)
    requires Find(allText, startMarker) >= 0 && Find(allText, endMarker) >= 0
    ensures SliceBetweenMarkers(allText, startMarker, endMarker)
         == Strip(Slice(allText, Find(allText, startMarker) + |startMarker|, Find(allText, endMarker)))
  {
  }

  /** When either marker is missing, the page text is returned whole. */
  lemma SliceWhenMarkerMissing(allText: string, startMarker: string, endMarker: string)
    requires !Occurs(allText, startMarker) || !Occurs(allText, endMarker)
    ensures SliceBetweenMarkers(allText, startMarker, endMarker) == allText
  {
    FindMissing(allText, startMarker);
    FindMissing(allText, endMarker);
  }

  /** When both markers occur, the result has no whitespace at either end. */
  lemma SliceIsStripped(allText: string, startMarker: string, endMarker: string)
    requires Occurs(allText, startMarker) && Occurs(allText, endMarker)
    ensures var r := SliceBetweenMarkers(allText, startMarker, endMarker);
            r == [] || (!IsSpace(r[0]) && !IsSpace(r[|r| - 1]))
  {
    FindMissing(allText, startMarker);
    FindMissing(allText, endMarker);
    SliceByFind(allText, startMarker, endMarker);
  }

  /**
   * A successful slice lies between the end of the first start marker and the
   * first end marker, so the end marker does not occur in it.
   */
  lemma SliceHoldsNoEndMarker(allText: string, startMarker: string, endMarker: string)
    requires endMarker != []
    requires Occurs(allText, startMarker) && Occurs(allText, endMarker)
    ensures !Occurs(SliceBetweenMarkers(allText, startMarker, endMarker), endMarker)
  {
    FindMissing(allText, startMarker);
    FindMissing(allText, endMarker);
    SliceAtFoundIndicesHoldsNoEndMarker(allText, startMarker, endMarker, Find(allText, startMarker), Find(allText, endMarker));
  }

  /** The same, in terms of the indices `find` reports. */
  lemma SliceAtFoundIndicesHoldsNoEndMarker(allText: string, startMarker: string, endMarker: string, i: nat, j: nat)
    requires endMarker != []
    requires Find(allText, startMarker) == i && Find(allText, endMarker) == j
    ensures !Occurs(SliceBetweenMarkers(allText, startMarker, endMarker), endMarker)
  {
    var r := SliceBetweenMarkers(allText, startMarker, endMarker);
    SliceAtFoundIndices(allText, startMarker, endMarker, i, j);
    if i + |startMarker| <= j {
      assert r == Strip(allText[i + |startMarker|..j]);
      StrippedInfixHoldsNoEarlyOccurrence(r, allText, endMarker, i + |startMarker|, j);
    } else {
      assert r == [];
      EmptyHoldsNoOccurrence(r, endMarker);
    }
  }

  /** A non-empty pattern does not occur in the empty text. */
  lemma EmptyHoldsNoOccurrence(r: string, pat: string)
    requires r == [] && pat != []
    ensures !Occurs(r, pat)
  {
  }

  /**
   * The stripped text between `lo` and `hi` holds no occurrence of a non-empty
   * pattern when the pattern occurs nowhere before `hi`.
   */
  lemma StrippedInfixHoldsNoEarlyOccurrence(r: string, text: string, pat: string, lo: nat, hi: nat)
    requires pat != [] && lo <= hi <= |text|
    requires Find(text, pat) == hi
    requires r == Strip(text[lo..hi])
    ensures !Occurs(r, pat)
  {
    StripIsInfix(text[lo..hi]);
    InfixOfInfixHoldsNoEarlyOccurrence(r, text, pat, lo, hi, LeadingSpaces(text[lo..hi]));
  }

  /**
   * A piece of `text[lo..hi]` holds no occurrence of a non-empty pattern
   * whose first occurrence in `text` is at `hi`.
   */
  lemma InfixOfInfixHoldsNoEarlyOccurrence(r: string, text: string, pat: string, lo: nat, hi: nat, a: nat)
    requires pat != [] && lo <= hi <= |text| && a + |r| <= hi - lo
    requires Find(text, pat) == hi
    requires r == text[lo..hi][a..a + |r|]
    ensures !Occurs(r, pat)
  {
    SliceOfSlice(text, lo, hi, a, a + |r|);
    InfixHoldsNoEarlyOccurrence(r, text, pat, lo + a, hi);
  }

  /** An infix of `text` ending no later than the first occurrence of a non-empty `pat` holds no occurrence of it. */
  lemma InfixHoldsNoEarlyOccurrence(r: string, text: string, pat: string, start: nat, hi: nat)
    requires pat != [] && start + |r| <= hi <= |text|
    requires Find(text, pat) == hi
    requires r == text[start..start + |r|]
    ensures !Occurs(r, pat)
  {
    forall k: nat
      ensures !OccursAt(r, pat, k)
    {
      if OccursAt(r, pat, k) {
        OccurrenceInInfix(text, pat, start, |r|, k);
      }
    }
  }

  /** An occurrence inside an infix is an occurrence in the whole text, shifted by the infix's start. */
  lemma OccurrenceInInfix(text: string, pat: string, start: nat, len: nat, k: nat)
    requires start + len <= |text|
    requires OccursAt(text[start..start + len], pat, k)
    ensures OccursAt(text, pat, start + k)
  {
    var inSub, inText := text[start..start + len][k..k + |pat|], text[start + k..start + k + |pat|];
    forall m | 0 <= m < |inSub|
      ensures inSub[m] == inText[m]
    {
    }
    assert inSub == inText;
  }

  /** `extract_transcript_segments` on the text the browser rendered. */
  function TranscriptFromPageText(allText: string): (r: string)
    ensures |r| <= |allText|
  {
    SliceBetweenMarkers(allText, StartMarker, EndMarker)
  }
}
