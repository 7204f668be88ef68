/**
 * The pure parts of transcript_fetcher.py: joining the fetched transcript
 * segments into one text, regrouping that text so that the speaker lines
 * (those starting with `>>`) come first, and deriving the document's file
 * name from the video title.
 */
module TranscriptFetcher {
  import opened Strings

  /** The nine characters that never reach a file name. */
  const UnsafeChars: set<char> := {'\\', '/', ':', '*', '?', '"', '<', '>', '|'}

  /** `" ".join(entry.text for entry in transcript)`: the segment texts separated by single spaces. */
  function JoinSegments(texts: seq<string>): string {
    Join(" ", texts)
  }

  /** Two segments "a" and "b" become "a b". */
  lemma JoinTwoSegments()
    ensures JoinSegments(["a", "b"]) == "a b"
  {
  }

  /**
   * The joined text is as long as the segments plus one space per gap, and
   * starts with the first segment and ends with the last.
   */
  lemma JoinSegmentsShape(texts: seq<string>)
    requires |texts| > 0
    ensures |JoinSegments(texts)| == TotalLength(texts) + |texts| - 1
    ensures StartsWith(JoinSegments(texts), texts[0])
    ensures EndsWith(JoinSegments(texts), texts[|texts| - 1])
  {
    JoinShape(" ", texts);
  }

  /**
   * The joined text holds every segment text at its offset, one space right
   * after each segment but the last, and the next segment right after that space.
   */
  lemma JoinSegmentsPieces(texts: seq<string>)
    ensures forall i :: 0 <= i < |texts| ==> OccursAt(JoinSegments(texts), texts[i], PieceOffset(" ", texts, i))
    ensures forall i :: 0 <= i < |texts| - 1 ==> OccursAt(JoinSegments(texts), " ", PieceOffset(" ", texts, i) + |texts[i]|)
    ensures forall i :: 0 <= i < |texts| ==> PieceOffset(" ", texts, i + 1) == PieceOffset(" ", texts, i) + |texts[i]| + 1
  {
    JoinPieces(" ", texts);
  }

  /** Segments without spaces are recovered by splitting the joined text on spaces. */
  lemma JoinSegmentsRoundTrip(texts: seq<string>)
    requires |texts| > 0
    requires forall i :: 0 <= i < |texts| ==> ' ' !in texts[i]
    ensures Split(JoinSegments(texts), ' ') == texts
  {
    SplitJoin(texts, ' ');
  }

  /** A speaker line: with surrounding whitespace stripped it starts with `>>`. */
  predicate IsSpeakerLine(line: string) {
    StartsWith(Strip(line), ">>")
  }

  predicate IsOtherLine(line: string) {
    !IsSpeakerLine(line)
  }

  /** The speaker lines of the transcript, in their original order. */
  function SpeakerLines(transcript: string): seq<string> {
    Filter(IsSpeakerLine, SplitLines(transcript))
  }

  /** The lines of the transcript that are not speaker lines, in their original order. */
  function OtherLines(transcript: string): seq<string> {
    Filter(IsOtherLine, SplitLines(transcript))
  }

  /**
   * The text `save_transcript_to_docx` writes into the document: the speaker
   * lines separated by blank lines, then a blank line and the other lines;
   * the transcript itself when the first part comes out empty.
   */
  function Regroup(transcript: string): string {
    var formatted := Join("\n\n", SpeakerLines(transcript));
    if formatted != [] then formatted + "\n\n" + Join("\n", OtherLines(transcript))
    else transcript
  }

  /** The first part of the regrouped text is empty exactly when there is no speaker line. */
  lemma FormattedEmptyIffNoSpeaker(transcript: string)
    ensures Join("\n\n", SpeakerLines(transcript)) == [] <==> SpeakerLines(transcript) == []
  {
    var speakers := SpeakerLines(transcript);
    if speakers != [] {
      assert IsSpeakerLine(speakers[0]);
      assert |Strip(speakers[0])| >= 2;
      JoinShape("\n\n", speakers);
    }
  }

  /** Without a speaker line the transcript is written unchanged. */
  lemma RegroupWithoutSpeakers(transcript: string)
    requires forall i :: 0 <= i < |SplitLines(transcript)| ==> !IsSpeakerLine(SplitLines(transcript)[i])
    ensures Regroup(transcript) == transcript
  {
    NoSpeakerLines(SplitLines(transcript));
  }

  /** Filtering lines none of which is a speaker line keeps none of them. */
  lemma {:induction false} NoSpeakerLines(lines: seq<string>)
    requires forall i :: 0 <= i < |lines| ==> !IsSpeakerLine(lines[i])
    ensures Filter(IsSpeakerLine, lines) == []
  {
    if lines != [] {
      NoSpeakerLines(lines[1..]);
    }
  }

  /**
   * With at least one speaker line the text is the speaker lines joined by
   * blank lines, a blank line, and the other lines joined by newlines.
   */
  lemma RegroupWithSpeakers(transcript: string)
    requires SpeakerLines(transcript) != []
    ensures Regroup(transcript)
         == Join("\n\n", SpeakerLines(transcript)) + "\n\n" + Join("\n", OtherLines(transcript))
  {
    FormattedEmptyIffNoSpeaker(transcript);
  }

  /**
   * With at least one speaker line the text is a blank-line join whose last
   * piece is the other lines joined by newlines.
   */
  lemma RegroupAsOneJoin(transcript: string)
    requires SpeakerLines(transcript) != []
    ensures Regroup(transcript)
         == Join("\n\n", SpeakerLines(transcript) + [Join("\n", OtherLines(transcript))])
  {
    RegroupWithSpeakers(transcript);
    JoinLast(SpeakerLines(transcript), "\n\n", Join("\n", OtherLines(transcript)));
  }

  /**
   * Every line of the transcript lands in exactly one of the two groups; each
   * group keeps the original relative order, as filtering distributes over
   * concatenation (`Strings.FilterConcat`).
   */
  lemma SpeakerPartition(transcript: string)
    ensures |SpeakerLines(transcript)| + |OtherLines(transcript)| == |SplitLines(transcript)|
    ensures multiset(SpeakerLines(transcript)) + multiset(OtherLines(transcript))
         == multiset(SplitLines(transcript))
    ensures forall i :: 0 <= i < |SpeakerLines(transcript)| ==> IsSpeakerLine(SpeakerLines(transcript)[i])
    ensures forall i :: 0 <= i < |OtherLines(transcript)| ==> !IsSpeakerLine(OtherLines(transcript)[i])
  {
    FilterPartition(IsSpeakerLine, IsOtherLine, SplitLines(transcript));
  }

  /** Lines separated by blank lines: `[a, "", b, "", c]` for `[a, b, c]`. */
  function Spaced(lines: seq<string>): seq<string> {
    if |lines| <= 1 then lines else [lines[0], []] + Spaced(lines[1..])
  }

  /** Splitting a blank-line-separated join on newlines gives the lines with blank lines between them. */
  lemma {:induction false} SplitDoubleNewlineJoin(lines: seq<string>)
    requires |lines| > 0
    requires forall i :: 0 <= i < |lines| ==> '\n' !in lines[i]
    ensures Split(Join("\n\n", lines), '\n') == Spaced(lines)
  {
    if |lines| == 1 {
      SplitWithoutSeparator(lines[0], '\n');
    } else {
      SplitDoubleNewlineJoin(lines[1..]);
      SplitDoubleNewlineCons(lines[0], lines[1..]);
      assert lines == [lines[0]] + lines[1..];
    }
  }

  /** One more line in front of a blank-line-separated join adds it and one blank line in front of the split. */
  lemma SplitDoubleNewlineCons(first: string, tail: seq<string>)
    requires '\n' !in first && tail != []
    requires Split(Join("\n\n", tail), '\n') == Spaced(tail)
    ensures Split(Join("\n\n", [first] + tail), '\n') == Spaced([first] + tail)
  {
    var rest := Join("\n\n", tail);
    calc {
      Split(Join("\n\n", [first] + tail), '\n');
      { JoinCons("\n\n", first, tail); }
      Split(first + "\n\n" + rest, '\n');
      { SplitAroundBlankLine(first, rest); }
      Split(first, '\n') + [[]] + Split(rest, '\n');
      { SplitWithoutSeparator(first, '\n'); }
      [first] + [[]] + Spaced(tail);
      { assert ([first] + tail)[1..] == tail; }
      Spaced([first] + tail);
    }
  }

  /**
   * Read back line by line, a regrouped text with speaker lines is the speaker
   * lines with blank lines between them, one blank line, and then the other
   * lines (one more blank line when there are none).
   */
  lemma RegroupedLines(transcript: string)
    requires SpeakerLines(transcript) != []
    ensures Split(Regroup(transcript), '\n')
         == Spaced(SpeakerLines(transcript)) + [[]]
            + (if OtherLines(transcript) == [] then [[]] else OtherLines(transcript))
  {
    var speakers, others := SpeakerLines(transcript), OtherLines(transcript);
    var js, jo := Join("\n\n", speakers), Join("\n", others);
    calc {
      Split(Regroup(transcript), '\n');
      { RegroupWithSpeakers(transcript); }
      Split(js + "\n\n" + jo, '\n');
      { SplitAroundBlankLine(js, jo); }
      Split(js, '\n') + [[]] + Split(jo, '\n');
      { SpeakerLinesSpaced(transcript); OtherLinesBack(transcript); }
      Spaced(speakers) + [[]] + (if others == [] then [[]] else others);
    }
  }

  /** Splitting on newlines around a blank line leaves one empty line between the two sides. */
  lemma SplitAroundBlankLine(x: string, y: string)
    ensures Split(x + "\n\n" + y, '\n') == Split(x, '\n') + [[]] + Split(y, '\n')
  {
    calc {
      Split(x + "\n\n" + y, '\n');
      { assert x + "\n\n" + y == x + ['\n'] + ([] + ['\n'] + y); }
      Split(x + ['\n'] + ([] + ['\n'] + y), '\n');
      { SplitConcat(x, '\n', [] + ['\n'] + y); }
      Split(x, '\n') + Split([] + ['\n'] + y, '\n');
      { SplitConcat([], '\n', y); assert Split([], '\n') == [[]]; }
      Split(x, '\n') + ([[]] + Split(y, '\n'));
    }
  }

  /** The speaker part, split on newlines, is the speaker lines with blank lines between them. */
  lemma SpeakerLinesSpaced(transcript: string)
    requires SpeakerLines(transcript) != []
    ensures Split(Join("\n\n", SpeakerLines(transcript)), '\n') == Spaced(SpeakerLines(transcript))
  {
    FilterSubset(IsSpeakerLine, SplitLines(transcript));
    SplitDoubleNewlineJoin(SpeakerLines(transcript));
  }

  /** The other part, split on newlines, is the other lines (one empty line when there are none). */
  lemma OtherLinesBack(transcript: string)
    ensures Split(Join("\n", OtherLines(transcript)), '\n')
         == if OtherLines(transcript) == [] then [[]] else OtherLines(transcript)
  {
    var others := OtherLines(transcript);
    FilterSubset(IsOtherLine, SplitLines(transcript));
    if others != [] {
      SplitJoin(others, '\n');
    } else {
      assert Split([], '\n') == [[]];
    }
  }

  predicate IsSafeChar(c: char) {
    c !in UnsafeChars
  }

  /** The title with the nine unsafe characters removed, everything else kept in order. */
  function SafeTitle(title: string): (r: string)
    ensures |r| <= |title|
    ensures forall i :: 0 <= i < |r| ==> r[i] !in UnsafeChars
  {
    Filter(IsSafeChar, title)
  }

  /** `f"{safe_title}.docx"`: the document's file name. */
  function DocxFilename(title: string): (r: string)
    ensures EndsWith(r, ".docx")
    ensures r[..|r| - 5] == SafeTitle(title)
    ensures forall i :: 0 <= i < |r| ==> r[i] !in UnsafeChars
  {
    SafeTitle(title) + ".docx"
  }

  /** Every safe character occurs in the safe title as often as in the title; no unsafe one occurs. */
  lemma SafeTitleCounts(title: string, c: char)
    ensures multiset(SafeTitle(title))[c] == if c in UnsafeChars then 0 else multiset(title)[c]
  {
    FilterCount(IsSafeChar, title, c);
  }

  /** Removing the unsafe characters keeps the order of the rest: it works piece by piece. */
  lemma SafeTitleConcat(a: string, b: string)
    ensures SafeTitle(a + b) == SafeTitle(a) + SafeTitle(b)
  {
    FilterConcat(IsSafeChar, a, b);
  }

  /** A title without unsafe characters is its own safe title. */
  lemma SafeTitleOfSafeTitle(title: string)
    requires forall i :: 0 <= i < |title| ==> title[i] !in UnsafeChars
    ensures SafeTitle(title) == title
  {
    FilterAll(IsSafeChar, title);
  }

  /** Sanitising twice is sanitising once. */
  lemma SafeTitleIdempotent(title: string)
    ensures SafeTitle(SafeTitle(title)) == SafeTitle(title)
  {
    SafeTitleOfSafeTitle(SafeTitle(title));
  }
}
