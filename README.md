# PING transcript scraping — a Dafny model of its string transformations

The PING scraping project has two scripts about the "PING Proving Grounds"
podcast. `html_scraper.py` reads the newest episode's title from the RSS
feed, builds the episode's page URL from it, and cuts the transcript out of
the page text a headless browser returns. `transcript_fetcher.py` is a
Streamlit page: it lists every video of a YouTube playlist and, for the
video whose button the user clicks, fetches the transcript from YouTube's
transcript service and offers it as a Word file. Most of the code calls
those libraries. Four small string transformations do the actual work:

- **Episode URL** (`generate_episode_url` in `html_scraper.py`). The title is
  lowercased. Colons are removed, then every character that is not a word
  character, whitespace or `-`. Each run of whitespace becomes one `-`, and
  the result goes after the show's base URL.
- **Transcript slice** (in `extract_transcript_segments`). The browser returns
  the page's text. The script finds the first `Transcript` and the first
  `Show full transcript` in it. If both occur, it returns the stripped text
  between them. Otherwise it returns the whole text.
- **Line regrouping** (`save_transcript_to_docx` in `transcript_fetcher.py`).
  Lines whose stripped form starts with `>>` (speaker lines) come first,
  separated by blank lines. Then come a blank line and the other lines. A
  transcript with no speaker line is written unchanged.
- **File name and segment join.** The characters ``\ / : * ? " < > |`` are
  removed from the video title and `.docx` is appended. The transcript
  segments are joined with single spaces.

The project has three modules:

- `Strings` (`strings.dfy`) holds the Python built-ins these steps use, on
  the ASCII range:
  - the `\s`/`str.isspace` and `\w` character classes
  - `lower`, `strip`, `find`, slicing, `startswith`
  - `join`, and `splitlines` on `'\n'`
  - the filtering that comprehensions perform

  It also holds helpers used only to state and prove properties: `endswith`,
  `split` on one character (the pieces `splitlines` is built from), and
  `PieceOffset`, the place of each piece in a join.
- `HtmlScraper` (`html_scraper.dfy`) holds the slug, the URL and the marker
  slice. The slice logic is moved out of the browser routine into the pure
  function `SliceBetweenMarkers`.
- `TranscriptFetcher` (`transcript_fetcher.dfy`) holds the segment join, the
  regrouping and the file name.

The modelled parts only compute values: none of them loops over mutable
state or changes an object. So everything is modelled as functions and
lemmas. The loop over the playlist's videos, the Word document that
`add_paragraph` changes and the browser session are not modelled (see
"## Left out").

`re.sub(r'\s+', '-', s)` is modelled as a left-to-right scan,
`DashWhitespaceFrom`. A flag records whether the previous character was
whitespace. `DashRuns` is a second definition that replaces one whole leading
run at a time. `DashWhitespaceReplacesRuns` proves the two agree on every
text. `str.find` is `Find`: it returns -1 or the least index where the pattern
occurs.

## Model

| member | source | states |
|---|---|---|
| HtmlScraper.EpisodeUrl | html_scraper.py:12-18 | the URL starts with the base URL, the rest is exactly the title's slug, and every character after the base URL is a small word character or `-` |
| HtmlScraper.Slug | html_scraper.py:14-17 | every character of the slug is a small word character or `-` |
| HtmlScraper.SlugHasNoColonNorSpace | html_scraper.py:15-17 | a slug contains no colon and no whitespace |
| HtmlScraper.DashWhitespace | html_scraper.py:17 | definition: the scan started outside a whitespace run; stated by `DashWhitespaceReplacesRuns` and the lemmas below |
| HtmlScraper.DashRuns | html_scraper.py:17 | definition: the reference reading of `\s+` → `-`, one whole leading run or one other character at a time |
| HtmlScraper.DashWhitespaceFrom | html_scraper.py:17 | replacing whitespace runs by dashes never makes the text longer |
| HtmlScraper.DashWhitespaceAlphabet | html_scraper.py:17 | the dashed text has no whitespace, and each of its characters is `-` or a character of the input |
| HtmlScraper.DashWhitespaceReplacesRuns | html_scraper.py:17 | the scan gives the same text as the run-by-run definition, for every input |
| HtmlScraper.WhitespaceRunBecomesOneDash | html_scraper.py:17 | a maximal whitespace run between two texts becomes exactly one `-`, and each side is dashed on its own |
| HtmlScraper.DashWhitespaceOfRun | html_scraper.py:17 | a whitespace run at the start of a text becomes one `-` |
| HtmlScraper.DashWhitespaceFromConcat | html_scraper.py:17 | dashing a concatenation is dashing the first part, then resuming on the second part with the run flag the first part left |
| HtmlScraper.DashWhitespaceConcat | html_scraper.py:17 | cutting a text just after a non-whitespace character cuts its dashed form at the same place |
| HtmlScraper.DashWhitespaceWithoutSpace | html_scraper.py:17 | a text without whitespace is left unchanged |
| HtmlScraper.DashWhitespaceKeepsWordChars | html_scraper.py:17 | dashing keeps the word characters of the text, and their order |
| HtmlScraper.ColonRemovalIsRedundant | html_scraper.py:15-16 | removing colons before the punctuation filter changes nothing, since that filter removes colons too |
| HtmlScraper.LowerKeepsWordChars | html_scraper.py:14-16 | lowercasing and keeping only the word characters can be done in either order |
| HtmlScraper.SlugKeepsWordChars | html_scraper.py:14-17 | the word characters of the slug are those of the title, lowercased and in their original order |
| HtmlScraper.SlugOfSlugText | html_scraper.py:14-17 | a text made only of small word characters and `-` is its own slug |
| HtmlScraper.SlugIdempotent | html_scraper.py:14-17 | taking the slug of a slug changes nothing |
| HtmlScraper.ColonSpaceKeptText | html_scraper.py:14-16 | for word/word titles of the form `a: b`, the colon goes and the two lowercased words keep their space |
| HtmlScraper.ColonSpaceTitle | html_scraper.py:14-17 | the slug of `a: b`, for two non-empty words, is lower(a) + `-` + lower(b) |
| HtmlScraper.EpisodeOneUrl | html_scraper.py:12-18 | "Episode: One" gets the base URL followed by `episode-one` |
| HtmlScraper.FindIsFirstOccurrence | html_scraper.py:53-54 | `find` returns the index of the first occurrence |
| HtmlScraper.SliceBetweenMarkers | html_scraper.py:50-64 | the extracted text is never longer than the page text |
| HtmlScraper.SliceWhenMarkerMissing | html_scraper.py:56-64 | when either marker does not occur, the whole page text is returned |
| HtmlScraper.SliceAtFoundIndices | html_scraper.py:53-58 | with `find` giving i and j: the result is strip(text[i + len(start)..j]), and it is empty when j is at or before i + len(start) |
| HtmlScraper.SliceWhenBothMarkersOccur | html_scraper.py:53-58 | the same, stated for the first occurrences i and j of the two markers |
| HtmlScraper.SliceIsStripped | html_scraper.py:58 | when both markers occur, the result is empty or starts and ends with a non-whitespace character |
| HtmlScraper.SliceHoldsNoEndMarker | html_scraper.py:53-58 | when both markers occur, the extracted transcript does not contain the end marker |
| HtmlScraper.SliceAtFoundIndicesHoldsNoEndMarker | html_scraper.py:53-58 | the same, in terms of the indices `find` reports |
| HtmlScraper.TranscriptFromPageText | html_scraper.py:50-64 | the transcript cut out between the page's two markers is never longer than the page text |
| Strings.IsSpace | html_scraper.py:16-17 | definition: `\s` on the ASCII range (space, `\t`, `\n`, `\v`, `\f`, `\r`, `\x1c`-`\x1f`) |
| Strings.IsWordChar | html_scraper.py:16 | definition: `\w` on the ASCII range (letters, digits, `_`) |
| Strings.StartsWith | transcript_fetcher.py:44 | definition: `s.startswith(prefix)` |
| Strings.FindFrom | html_scraper.py:53-54 | `find` from index k returns -1 or an index at or after k where the pattern occurs, with no occurrence between k and that index (or anywhere from k on when -1) |
| Strings.Find | html_scraper.py:53-54 | `find` returns -1 or an index where the pattern occurs, and there is no occurrence before it (none at all when -1) |
| Strings.FindMissing | html_scraper.py:53-56 | `find` returns -1 exactly when the pattern does not occur |
| Strings.Slice | html_scraper.py:58 | a Python slice with in-range bounds is the subsequence, an end past the text stops at the end, and an inverted range is empty |
| Strings.Strip | html_scraper.py:58 | `strip` never makes the text longer, and its result is empty or starts and ends with non-whitespace |
| Strings.StripIsInfix | html_scraper.py:58 | the stripped text is the part of the input that starts right after the leading whitespace |
| Strings.StripRemovesOnlySpace | html_scraper.py:58 | every character `strip` removes, at the front or at the back, is whitespace |
| Strings.LeadingSpaces | html_scraper.py:58 | the leading whitespace run fits in the text and is followed by a non-whitespace character or the end |
| Strings.LeadingSpacesAreSpace | html_scraper.py:58 | the leading run is all whitespace |
| Strings.TrailingSpaces | html_scraper.py:58 | the trailing whitespace run fits in the text and is preceded by a non-whitespace character or the start |
| Strings.TrailingSpacesAreSpace | html_scraper.py:58 | the trailing run is all whitespace |
| Strings.LowerChar | html_scraper.py:14 | a lowercased character is not a capital, keeps its class as word character and as whitespace, and non-capitals are unchanged |
| Strings.Lower | html_scraper.py:14 | lowercasing keeps the length |
| Strings.Filter | transcript_fetcher.py:44-46 | a comprehension filter keeps no more elements than it is given, and all of them satisfy the condition |
| Strings.FilterSubset | transcript_fetcher.py:44-46 | every element kept by a filter comes from the input and satisfies the condition |
| Strings.FilterConcat | transcript_fetcher.py:44-46 | filtering a concatenation is filtering each part, so the kept elements stay in their original order |
| Strings.FilterCount | transcript_fetcher.py:54 | a filter keeps each element that satisfies the condition as often as it occurs, and drops every other element |
| Strings.FilterAll | transcript_fetcher.py:54 | a sequence whose elements all satisfy the condition is unchanged by the filter |
| Strings.FilterIdempotent | transcript_fetcher.py:54 | filtering twice by the same condition is filtering once |
| Strings.FilterPartition | transcript_fetcher.py:44-46 | a condition and its negation split a sequence into two filters whose lengths add up to its length and whose multisets add up to its multiset |
| Strings.JoinShape | transcript_fetcher.py:37 | a join's length is the pieces' total length plus one separator per gap; it starts with the first piece and ends with the last |
| Strings.Join | transcript_fetcher.py:37 | definition: `sep.join(xs)`; stated by `JoinShape` and `JoinPieces` |
| Strings.JoinPieces | transcript_fetcher.py:37 | a join is its pieces laid end to end: piece i occurs at its offset, the separator right after every piece but the last, and the next piece right after that separator |
| Strings.JoinLast | transcript_fetcher.py:49 | appending a piece to a join adds the separator and that piece |
| Strings.Split | transcript_fetcher.py:44 | splitting always gives at least one piece |
| Strings.SplitPieces | transcript_fetcher.py:44 | splitting on a character gives one more piece than the character's occurrences, and no piece contains it |
| Strings.SplitWithoutSeparator | transcript_fetcher.py:44 | a text without the separator is one piece |
| Strings.SplitConcat | transcript_fetcher.py:44 | splitting around one separator splits each side independently |
| Strings.SplitJoin | transcript_fetcher.py:44-49 | splitting the join of separator-free pieces gives back the pieces |
| Strings.JoinSplit | transcript_fetcher.py:44-49 | joining the pieces of a split with the separator gives back the text |
| Strings.SplitLines | transcript_fetcher.py:44 | no line contains a newline |
| Strings.SplitLinesRoundTrip | transcript_fetcher.py:44 | the empty text has no lines; otherwise the lines joined by newlines are the text, less one final newline if it has one |
| Strings.LastPieceEndsText | transcript_fetcher.py:44 | when the text does not end with the separator, its last piece is non-empty and ends with the text's last character |
| TranscriptFetcher.JoinTwoSegments | transcript_fetcher.py:37 | the segments "a" and "b" join to "a b" |
| TranscriptFetcher.JoinSegments | transcript_fetcher.py:37 | definition: the segment texts joined by single spaces; its content is stated by `JoinSegmentsShape` and `JoinSegmentsPieces` |
| TranscriptFetcher.JoinSegmentsShape | transcript_fetcher.py:37 | the joined transcript is as long as the segments plus one space per gap, starts with the first segment and ends with the last |
| TranscriptFetcher.JoinSegmentsPieces | transcript_fetcher.py:37 | every segment occurs in the joined transcript at its offset (the segments before it plus one space each), with a space right after each segment but the last and the next segment right after that space |
| TranscriptFetcher.JoinSegmentsRoundTrip | transcript_fetcher.py:37 | splitting the joined text on spaces gives back segments that contain no space |
| TranscriptFetcher.FormattedEmptyIffNoSpeaker | transcript_fetcher.py:44-47 | the joined speaker lines are empty exactly when there is no speaker line |
| TranscriptFetcher.RegroupWithoutSpeakers | transcript_fetcher.py:44-51 | without a speaker line, the text written is the transcript unchanged |
| TranscriptFetcher.NoSpeakerLines | transcript_fetcher.py:44 | lines none of which is a speaker line give no speaker lines |
| TranscriptFetcher.IsSpeakerLine | transcript_fetcher.py:44 | definition: the line, stripped, starts with `>>` |
| TranscriptFetcher.SpeakerLines | transcript_fetcher.py:44 | definition: the speaker lines of `splitlines`, in order; stated by `SpeakerPartition` |
| TranscriptFetcher.OtherLines | transcript_fetcher.py:46 | definition: the other lines of `splitlines`, in order; stated by `SpeakerPartition` |
| TranscriptFetcher.Regroup | transcript_fetcher.py:44-51 | definition: the text written into the document; stated by `RegroupWithoutSpeakers`, `RegroupWithSpeakers`, `RegroupAsOneJoin` and `RegroupedLines` |
| TranscriptFetcher.RegroupAsOneJoin | transcript_fetcher.py:44-49 | with a speaker line, the text is one blank-line join whose pieces are the speaker lines and, last, the other lines joined by newlines |
| TranscriptFetcher.RegroupWithSpeakers | transcript_fetcher.py:44-49 | with a speaker line, the text is the speaker lines joined by blank lines, a blank line, and the other lines joined by newlines |
| TranscriptFetcher.SpeakerPartition | transcript_fetcher.py:44-46 | each line lands in exactly one group: the groups' lengths and multisets add up to the lines', and each group holds only its own kind of line |
| TranscriptFetcher.SplitDoubleNewlineJoin | transcript_fetcher.py:44 | read back line by line, newline-free lines joined by blank lines are those lines with an empty line between each two |
| TranscriptFetcher.SplitDoubleNewlineCons | transcript_fetcher.py:44 | putting one more line in front of such a join adds that line and one empty line in front |
| TranscriptFetcher.SplitAroundBlankLine | transcript_fetcher.py:49 | read back line by line, `x + "\n\n" + y` is the lines of x, one empty line, and the lines of y |
| TranscriptFetcher.SpeakerLinesSpaced | transcript_fetcher.py:44 | the speaker part, read back line by line, is the speaker lines with empty lines between them |
| TranscriptFetcher.OtherLinesBack | transcript_fetcher.py:46-49 | the other part, read back line by line, is the other lines (one empty line when there are none) |
| TranscriptFetcher.RegroupedLines | transcript_fetcher.py:44-49 | read back line by line, a regrouped text with speaker lines is the speaker lines with empty lines between them, one empty line, then the other lines (two empty lines when there are none) |
| TranscriptFetcher.SafeTitle | transcript_fetcher.py:54 | the safe title is no longer than the title and contains none of the nine unsafe characters |
| TranscriptFetcher.DocxFilename | transcript_fetcher.py:54-55 | the file name is the safe title followed by `.docx`, and contains no unsafe character |
| TranscriptFetcher.SafeTitleCounts | transcript_fetcher.py:54 | each safe character occurs in the safe title as often as in the title; no unsafe character occurs |
| TranscriptFetcher.SafeTitleConcat | transcript_fetcher.py:54 | sanitising works piece by piece, so the kept characters stay in their original order |
| TranscriptFetcher.SafeTitleOfSafeTitle | transcript_fetcher.py:54 | a title without unsafe characters is left unchanged |
| TranscriptFetcher.SafeTitleIdempotent | transcript_fetcher.py:54 | sanitising twice is sanitising once |

## Left out

- RSS reading through feedparser (`get_latest_episode_from_rss`) and the video and title lookup through yt_dlp: network I/O through foreign libraries.
- The browser session in `extract_transcript_segments` is not modelled. This covers Chrome's options, loading the page, the ten-second wait, reading `body.text` and `driver.quit()`: browser I/O. The model starts from the page text the browser would return.
- The `except` branch of `extract_transcript_segments` is not modelled: it turns a browser failure into an error string. The same holds for `fetch_transcript`'s error string when the transcript service fails. Both come from exceptions of code outside the model.
- The call to `YouTubeTranscriptApi.fetch` is left out: foreign API. The model starts from the list of segment texts it returns.
- Building the Word document, the temporary directory path and writing the file: serialisation and file I/O through python-docx and the OS.
- The Streamlit page, its buttons and download widget; the debug prints; the `__main__` driver.
- Strings.IsSpace, Strings.IsWordChar, Strings.Lower: ASCII only. Python's `\s`, `\w`, `str.isspace` and `str.lower` also cover non-ASCII characters. For a title with a non-ASCII letter, for example, Python keeps the letter in the slug and the model removes it.
- Strings.SplitLines: only `'\n'` ends a line. Python's `splitlines` also breaks at `\r`, `\r\n`, `\v`, `\f`, `\x1c`-`\x1e` and several non-ASCII line separators.
- HtmlScraper.SlugKeepsWordChars: speaks of word characters only. A `-` in the title also reaches the slug, but it cannot be told apart there from a dash written for whitespace.
