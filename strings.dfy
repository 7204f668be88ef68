/**
 * The Python string built-ins that the scraping scripts rely on, restricted
 * to ASCII: character classes of `re` and `str`, `lower`, `strip`, `find`,
 * `startswith`, `join` and `splitlines`, and the filter that list
 * comprehensions and generator expressions perform. Helpers used only to
 * state and prove properties sit beside them: `endswith`, `split` on one
 * character (the pieces `splitlines` is built from) and `PieceOffset`.
 */
module Strings {

  /** Python's whitespace (`str.isspace`, and `\s` in a `str` pattern), on the ASCII range. */
  predicate IsSpace(c: char) {
    c == ' ' || c == '\t' || c == '\n' || c == '\r' || c == '\U{0B}' || c == '\U{0C}'
    || ('\U{1C}' <= c <= '\U{1F}')
  }

  /** `\w` on the ASCII range: letters, digits and the underscore. */
  predicate IsWordChar(c: char) {
    ('a' <= c <= 'z') || ('A' <= c <= 'Z') || ('0' <= c <= '9') || c == '_'
  }

  predicate IsUpper(c: char) {
    'A' <= c <= 'Z'
  }

  predicate AllSpace(s: string) {
    forall i :: 0 <= i < |s| ==> IsSpace(s[i])
  }

  predicate NoSpace(s: string) {
    forall i :: 0 <= i < |s| ==> !IsSpace(s[i])
  }

  /** `str.lower` on one character: ASCII capitals become small letters, nothing else changes. */
  function LowerChar(c: char): (r: char)
    ensures !IsUpper(r)
    ensures IsWordChar(r) == IsWordChar(c) && IsSpace(r) == IsSpace(c)
    ensures !IsUpper(c) ==> r == c
  {
    if IsUpper(c) then (c as int + 32) as char else c
  }

  /** `str.lower`. */
  function Lower(s: string): (r: string)
    ensures |r| == |s|
  {
    seq(|s|, i requires 0 <= i < |s| => LowerChar(s[i]))
  }

  /** Keeps the elements that satisfy `p`, in their original order. */
  function Filter<T>(p: T -> bool, s: seq<T>): (r: seq<T>)
    ensures |r| <= |s|
    ensures forall i :: 0 <= i < |r| ==> p(r[i])
  {
    if s == [] then []
    else (if p(s[0]) then [s[0]] else []) + Filter(p, s[1..])
  }

  /** Every element that survives filtering comes from the filtered sequence. */
  lemma {:induction false} FilterSubset<T>(p: T -> bool, s: seq<T>)
    ensures forall x :: x in Filter(p, s) ==> x in s && p(x)
  {
    if s != [] {
      FilterSubset(p, s[1..]);
    }
  }

  /** Filtering distributes over concatenation: the relative order of survivors is kept. */
  lemma {:induction false} FilterConcat<T>(p: T -> bool, a: seq<T>, b: seq<T>)
    ensures Filter(p, a + b) == Filter(p, a) + Filter(p, b)
  {
    if a != [] {
      assert (a + b)[0] == a[0];
      assert (a + b)[1..] == a[1..] + b;
      FilterConcat(p, a[1..], b);
    } else {
      assert a + b == b;
    }
  }

  /** Filtering keeps every element that satisfies `p` as often as it occurs, and no other. */
  lemma {:induction false} FilterCount<T>(p: T -> bool, s: seq<T>, x: T)
    ensures multiset(Filter(p, s))[x] == if p(x) then multiset(s)[x] else 0
  {
    if s != [] {
      FilterCount(p, s[1..], x);
      assert s == [s[0]] + s[1..];
    }
  }

  /** A sequence whose elements all satisfy `p` is left unchanged. */
  lemma {:induction false} FilterAll<T>(p: T -> bool, s: seq<T>)
    requires forall i :: 0 <= i < |s| ==> p(s[i])
    ensures Filter(p, s) == s
  {
    if s != [] {
      FilterAll(p, s[1..]);
    }
  }

  /** Filtering twice by the same predicate is filtering once. */
  lemma FilterIdempotent<T>(p: T -> bool, s: seq<T>)
    ensures Filter(p, Filter(p, s)) == Filter(p, s)
  {
    FilterAll(p, Filter(p, s));
  }

  /**
   * Filtering by `p` and by its complement splits a sequence into two parts
   * that together hold every element exactly once.
   */
  lemma {:induction false} FilterPartition<T>(p: T -> bool, q: T -> bool, s: seq<T>)
    requires forall x :: q(x) == !p(x)
    ensures |Filter(p, s)| + |Filter(q, s)| == |s|
    ensures multiset(Filter(p, s)) + multiset(Filter(q, s)) == multiset(s)
  {
    if s != [] {
      FilterPartition(p, q, s[1..]);
      assert s == [s[0]] + s[1..];
      assert multiset(s) == multiset([s[0]]) + multiset(s[1..]);
    }
  }

  /** Total length of the strings of `xs`. */
  function TotalLength(xs: seq<string>): nat {
    if xs == [] then 0 else |xs[0]| + TotalLength(xs[1..])
  }

  /** `sep.join(xs)`. */
  function Join(sep: string, xs: seq<string>): string {
    if |xs| == 0 then []
    else if |xs| == 1 then xs[0]
    else xs[0] + sep + Join(sep, xs[1..])
  }

  /**
   * A join is as long as its pieces plus one separator per gap, and starts
   * with the first piece and ends with the last (`JoinPieces` places every
   * piece and separator).
   */
  lemma {:induction false} JoinShape(sep: string, xs: seq<string>)
    requires |xs| > 0
    ensures |Join(sep, xs)| == TotalLength(xs) + (|xs| - 1) * |sep|
    ensures StartsWith(Join(sep, xs), xs[0])
    ensures EndsWith(Join(sep, xs), xs[|xs| - 1])
  {
    if |xs| > 1 {
      JoinShape(sep, xs[1..]);
      var j := Join(sep, xs[1..]);
      assert Join(sep, xs) == xs[0] + sep + j;
      assert (xs[0] + sep + j)[..|xs[0]|] == xs[0];
      assert (xs[0] + sep + j)[|xs[0] + sep + j| - |j|..] == j;
    }
  }

  /**
   * Where the `i`-th piece of `sep.join(xs)` begins: the lengths of the
   * pieces before it, plus one separator after each of them.
   */
  function PieceOffset(sep: string, xs: seq<string>, i: nat): nat
    requires i <= |xs|
  {
    TotalLength(xs[..i]) + i * |sep|
  }

  /** Dropping the first piece moves every later piece back by that piece and one separator. */
  lemma PieceOffsetTail(sep: string, xs: seq<string>, i: nat)
    requires 0 < i <= |xs|
    ensures PieceOffset(sep, xs, i) == |xs[0]| + |sep| + PieceOffset(sep, xs[1..], i - 1)
  {
    assert xs[..i][1..] == xs[1..][..i - 1];
    assert i * |sep| == |sep| + (i - 1) * |sep|;
  }

  /** The pieces before `i + 1` are those before `i` and the `i`-th. */
  lemma {:induction false} TotalLengthSnoc(xs: seq<string>, i: nat)
    requires i < |xs|
    ensures TotalLength(xs[..i + 1]) == TotalLength(xs[..i]) + |xs[i]|
  {
    if i > 0 {
      TotalLengthSnoc(xs[1..], i - 1);
      assert xs[..i + 1][1..] == xs[1..][..i];
      assert xs[..i][1..] == xs[1..][..i - 1];
    }
  }

  /**
   * A join is its pieces laid end to end with one separator between each two
   * neighbours: piece `i` occurs at `PieceOffset(sep, xs, i)`, the separator
   * right after it, and the next piece right after that separator.
   */
  lemma JoinPieces(sep: string, xs: seq<string>)
    ensures forall i :: 0 <= i < |xs| ==> OccursAt(Join(sep, xs), xs[i], PieceOffset(sep, xs, i))
    ensures forall i :: 0 <= i < |xs| - 1 ==> OccursAt(Join(sep, xs), sep, PieceOffset(sep, xs, i) + |xs[i]|)
    ensures forall i :: 0 <= i < |xs| ==> PieceOffset(sep, xs, i + 1) == PieceOffset(sep, xs, i) + |xs[i]| + |sep|
  {
    forall i | 0 <= i < |xs|
      ensures PieceOffset(sep, xs, i + 1) == PieceOffset(sep, xs, i) + |xs[i]| + |sep|
    {
      TotalLengthSnoc(xs, i);
    }
    forall i | 0 <= i < |xs|
      ensures OccursAt(Join(sep, xs), xs[i], PieceOffset(sep, xs, i))
    {
      PieceOccurs(sep, xs, i);
    }
    forall i | 0 <= i < |xs| - 1
      ensures OccursAt(Join(sep, xs), sep, PieceOffset(sep, xs, i) + |xs[i]|)
    {
      SeparatorOccurs(sep, xs, i);
    }
  }

  /** Piece `i` of a join occurs at its offset. */
  lemma {:induction false} PieceOccurs(sep: string, xs: seq<string>, i: nat)
    requires i < |xs|
    ensures OccursAt(Join(sep, xs), xs[i], PieceOffset(sep, xs, i))
  {
    assert xs[..0] == [];
    if |xs| == 1 {
      assert Join(sep, xs)[0..|xs[0]|] == xs[0];
    } else {
      var rest := Join(sep, xs[1..]);
      assert Join(sep, xs) == xs[0] + sep + rest;
      if i == 0 {
        assert (xs[0] + sep + rest)[0..|xs[0]|] == xs[0];
      } else {
        PieceOccurs(sep, xs[1..], i - 1);
        PieceOffsetTail(sep, xs, i);
        ShiftOccurrence(xs[0] + sep, rest, xs[i], PieceOffset(sep, xs[1..], i - 1));
      }
    }
  }

  /** The separator follows piece `i` of a join when another piece comes after it. */
  lemma {:induction false} SeparatorOccurs(sep: string, xs: seq<string>, i: nat)
    requires i + 1 < |xs|
    ensures OccursAt(Join(sep, xs), sep, PieceOffset(sep, xs, i) + |xs[i]|)
  {
    var rest := Join(sep, xs[1..]);
    assert Join(sep, xs) == xs[0] + sep + rest;
    if i == 0 {
      assert xs[..0] == [];
      assert (xs[0] + sep + rest)[|xs[0]|..|xs[0]| + |sep|] == sep;
    } else {
      SeparatorOccurs(sep, xs[1..], i - 1);
      PieceOffsetTail(sep, xs, i);
      ShiftOccurrence(xs[0] + sep, rest, sep, PieceOffset(sep, xs[1..], i - 1) + |xs[i]|);
    }
  }

  /** An occurrence in `t` is an occurrence in `p + t`, `|p|` further on. */
  lemma ShiftOccurrence(p: string, t: string, pat: string, k: nat)
    requires OccursAt(t, pat, k)
    ensures OccursAt(p + t, pat, |p| + k)
  {
    assert (p + t)[|p| + k..|p| + k + |pat|] == t[k..k + |pat|];
  }

  /** The number of occurrences of `c` in `s`. */
  function Count(c: char, s: string): nat {
    multiset(s)[c]
  }

  /** `s.split(c)` for a one-character separator: the pieces between the occurrences of `c`. */
  function Split(s: string, c: char): (r: seq<string>)
    ensures |r| > 0
  {
    if s == [] then [[]]
    else
      var rest := Split(s[1..], c);
      if s[0] == c then [[]] + rest
      else [[s[0]] + rest[0]] + rest[1..]
  }

  /** There is one more piece than there are separators, and no piece holds the separator. */
  lemma {:induction false} SplitPieces(s: string, c: char)
    ensures |Split(s, c)| == Count(c, s) + 1
    ensures forall i :: 0 <= i < |Split(s, c)| ==> c !in Split(s, c)[i]
  {
    if s != [] {
      SplitPieces(s[1..], c);
      assert s == [s[0]] + s[1..];
    }
  }

  /** A string without the separator is one piece. */
  lemma {:induction false} SplitWithoutSeparator(s: string, c: char)
    requires c !in s
    ensures Split(s, c) == [s]
  {
    if s != [] {
      assert s == [s[0]] + s[1..];
      SplitWithoutSeparator(s[1..], c);
    }
  }

  /** Splitting around one occurrence of the separator splits each side independently. */
  lemma {:induction false} SplitConcat(a: string, c: char, b: string)
    ensures Split(a + [c] + b, c) == Split(a, c) + Split(b, c)
  {
    if a == [] {
      assert a + [c] + b == [c] + b;
      assert ([c] + b)[1..] == b;
    } else {
      var whole := a + [c] + b;
      assert whole[0] == a[0];
      assert whole[1..] == a[1..] + [c] + b;
      var left, right := Split(a[1..], c), Split(b, c);
      if a[0] == c {
        calc {
          Split(whole, c);
          { SplitFirst(whole, c); }
          [[]] + Split(whole[1..], c);
          { SplitConcat(a[1..], c, b); }
          [[]] + (left + right);
          ([[]] + left) + right;
          { SplitFirst(a, c); }
          Split(a, c) + right;
        }
      } else {
        calc {
          Split(whole, c);
          { SplitFirst(whole, c); }
          [[a[0]] + Split(whole[1..], c)[0]] + Split(whole[1..], c)[1..];
          { SplitConcat(a[1..], c, b); }
          [[a[0]] + (left + right)[0]] + (left + right)[1..];
          { assert (left + right)[0] == left[0]; assert (left + right)[1..] == left[1..] + right; }
          [[a[0]] + left[0]] + (left[1..] + right);
          ([[a[0]] + left[0]] + left[1..]) + right;
          { SplitFirst(a, c); }
          Split(a, c) + right;
        }
      }
    }
  }

  /** Splitting a join on the same separator gives back the pieces. */
  lemma {:induction false} SplitJoin(xs: seq<string>, c: char)
    requires |xs| > 0
    requires forall i :: 0 <= i < |xs| ==> c !in xs[i]
    ensures Split(Join([c], xs), c) == xs
  {
    if |xs| == 1 {
      SplitWithoutSeparator(xs[0], c);
    } else {
      SplitJoin(xs[1..], c);
      SplitWithoutSeparator(xs[0], c);
      SplitConcat(xs[0], c, Join([c], xs[1..]));
      assert xs == [xs[0]] + xs[1..];
    }
  }

  /** A join of at least two pieces starts with the first piece and the separator. */
  lemma JoinCons(sep: string, x: string, rest: seq<string>)
    requires |rest| > 0
    ensures Join(sep, [x] + rest) == x + sep + Join(sep, rest)
  {
    assert ([x] + rest)[1..] == rest;
  }

  /** How `Split` treats the first character of a non-empty text. */
  lemma SplitFirst(s: string, c: char)
    requires s != []
    ensures s[0] == c ==> Split(s, c) == [[]] + Split(s[1..], c)
    ensures s[0] != c ==> Split(s, c) == [[s[0]] + Split(s[1..], c)[0]] + Split(s[1..], c)[1..]
  {
  }

  /** Joining the pieces of a split with the separator gives back the string. */
  lemma {:induction false} JoinSplit(s: string, c: char)
    ensures Join([c], Split(s, c)) == s
  {
    if s != [] {
      var rest := Split(s[1..], c);
      JoinSplit(s[1..], c);
      SplitFirst(s, c);
      if s[0] == c {
        JoinCons([c], [], rest);
        assert [] + [c] + s[1..] == s;
      } else {
        JoinSplitHead(s[0], rest, c);
        assert [s[0]] + s[1..] == s;
      }
    }
  }

  /** Gluing a character onto the first piece puts it in front of the join. */
  lemma {:induction false} JoinSplitHead(x: char, rest: seq<string>, c: char)
    requires |rest| > 0
    ensures Join([c], [[x] + rest[0]] + rest[1..]) == [x] + Join([c], rest)
  {
    var h, t := [x] + rest[0], rest[1..];
    if |t| > 0 {
      JoinCons([c], h, t);
      assert rest == [rest[0]] + t;
      JoinCons([c], rest[0], t);
      assert h + [c] + Join([c], t) == [x] + (rest[0] + [c] + Join([c], t));
    } else {
      assert [h] + t == [h];
    }
  }

  /**
   * `s.splitlines()` with `'\n'` as the only line boundary: the pieces between
   * newlines, without the empty piece that a final newline (or an empty text) leaves.
   */
  function SplitLines(s: string): (r: seq<string>)
    ensures forall i :: 0 <= i < |r| ==> '\n' !in r[i]
  {
    var pieces := Split(s, '\n');
    SplitPieces(s, '\n');
    if pieces[|pieces| - 1] == [] then pieces[..|pieces| - 1] else pieces
  }

  /** The lines, joined by newlines, are the text up to a final newline. */
  lemma SplitLinesRoundTrip(s: string)
    ensures s == [] ==> SplitLines(s) == []
    ensures s != [] && s[|s| - 1] == '\n' ==> Join("\n", SplitLines(s)) + "\n" == s
    ensures s != [] && s[|s| - 1] != '\n' ==> Join("\n", SplitLines(s)) == s
  {
    if s != [] {
      if s[|s| - 1] == '\n' {
        var a := s[..|s| - 1];
        assert s == a + ['\n'] + [];
        SplitConcat(a, '\n', []);
        assert SplitLines(s) == Split(a, '\n');
        JoinSplit(a, '\n');
      } else {
        LastPieceEndsText(s, '\n');
        assert SplitLines(s) == Split(s, '\n');
        JoinSplit(s, '\n');
      }
    }
  }

  /** The last piece of a split is the end of the text, so it is empty only if the text ends with the separator. */
  lemma {:induction false} LastPieceEndsText(s: string, c: char)
    requires s != [] && s[|s| - 1] != c
    ensures var r := Split(s, c); r[|r| - 1] != [] && r[|r| - 1][|r[|r| - 1]| - 1] == s[|s| - 1]
  {
    if |s| > 1 {
      LastPieceEndsText(s[1..], c);
    } else {
      assert s[1..] == [];
    }
  }

  /** Appending one piece to a join adds the separator and that piece. */
  lemma {:induction false} JoinLast(xs: seq<string>, sep: string, last: string)
    requires |xs| > 0
    ensures Join(sep, xs + [last]) == Join(sep, xs) + sep + last
  {
    if |xs| > 1 {
      assert (xs + [last])[1..] == xs[1..] + [last];
      JoinLast(xs[1..], sep, last);
    }
  }

  /** The length of the run of whitespace that `s` starts with. */
  function LeadingSpaces(s: string): (n: nat)
    ensures n <= |s|
    ensures n < |s| ==> !IsSpace(s[n])
  {
    if s == [] || !IsSpace(s[0]) then 0 else 1 + LeadingSpaces(s[1..])
  }

  /** The run `LeadingSpaces` measures is whitespace. */
  lemma {:induction false} LeadingSpacesAreSpace(s: string)
    ensures forall i :: 0 <= i < LeadingSpaces(s) ==> IsSpace(s[i])
  {
    if s != [] && IsSpace(s[0]) {
      LeadingSpacesAreSpace(s[1..]);
    }
  }

  /** The length of the run of whitespace that `s` ends with. */
  function TrailingSpaces(s: string): (n: nat)
    ensures n <= |s|
    ensures n < |s| ==> !IsSpace(s[|s| - n - 1])
  {
    if s == [] || !IsSpace(s[|s| - 1]) then 0 else 1 + TrailingSpaces(s[..|s| - 1])
  }

  /** The run `TrailingSpaces` measures is whitespace. */
  lemma {:induction false} TrailingSpacesAreSpace(s: string)
    ensures forall i :: |s| - TrailingSpaces(s) <= i < |s| ==> IsSpace(s[i])
  {
    if s != [] && IsSpace(s[|s| - 1]) {
      TrailingSpacesAreSpace(s[..|s| - 1]);
    }
  }

  /**
   * `str.strip()`: the text without its leading and trailing whitespace; it
   * neither starts nor ends with whitespace (`StripIsInfix` places it in `s`).
   */
  function Strip(s: string): (r: string)
    ensures |r| <= |s|
    ensures r == [] || (!IsSpace(r[0]) && !IsSpace(r[|r| - 1]))
  {
    var t := s[LeadingSpaces(s)..];
    t[..|t| - TrailingSpaces(t)]
  }

  /** The stripped text is the infix of `s` that starts after the leading run of whitespace. */
  lemma StripIsInfix(s: string)
    ensures LeadingSpaces(s) + |Strip(s)| <= |s|
    ensures Strip(s) == s[LeadingSpaces(s)..LeadingSpaces(s) + |Strip(s)|]
  {
  }

  /** Only whitespace surrounds the stripped text. */
  lemma StripRemovesOnlySpace(s: string)
    ensures forall i :: 0 <= i < LeadingSpaces(s) ==> IsSpace(s[i])
    ensures forall i :: LeadingSpaces(s) + |Strip(s)| <= i < |s| ==> IsSpace(s[i])
  {
    var lead := LeadingSpaces(s);
    var t := s[lead..];
    LeadingSpacesAreSpace(s);
    TrailingSpacesAreSpace(t);
    forall i | lead + |Strip(s)| <= i < |s|
      ensures IsSpace(s[i])
    {
      assert s[i] == t[i - lead];
    }
  }

  /** A slice of a slice is a slice of the whole. */
  lemma SliceOfSlice(s: string, lo: nat, hi: nat, a: nat, b: nat)
    requires lo <= hi <= |s| && a <= b <= hi - lo
    ensures s[lo..hi][a..b] == s[lo + a..lo + b]
  {
    var inner, outer := s[lo..hi][a..b], s[lo + a..lo + b];
    forall m | 0 <= m < |inner|
      ensures inner[m] == outer[m]
    {
    }
  }

  /** `s.startswith(prefix)`. */
  predicate StartsWith(s: string, prefix: string) {
    |prefix| <= |s| && s[..|prefix|] == prefix
  }

  /** `s.endswith(suffix)`. */
  predicate EndsWith(s: string, suffix: string) {
    |suffix| <= |s| && s[|s| - |suffix|..] == suffix
  }

  /** `pat` occurs in `text` at index `i`. */
  predicate OccursAt(text: string, pat: string, i: nat) {
    i + |pat| <= |text| && text[i..i + |pat|] == pat
  }

  ghost predicate Occurs(text: string, pat: string) {
    exists i: nat :: OccursAt(text, pat, i)
  }

  /** `text.find(pat, k)` for `0 <= k <= len(text)`: the least index from `k` on where `pat` occurs, or -1. */
  function FindFrom(text: string, pat: string, k: nat): (r: int)
    requires k <= |text|
    ensures r == -1 || (k <= r && OccursAt(text, pat, r))
    ensures forall i: nat :: k <= i && (r == -1 || i < r) ==> !OccursAt(text, pat, i)
    decreases |text| - k
  {
    if k + |pat| > |text| then -1
    else if text[k..k + |pat|] == pat then k
    else FindFrom(text, pat, k + 1)
  }

  /** `text.find(pat)`: the least index where `pat` occurs, or -1 when it does not occur. */
  function Find(text: string, pat: string): (r: int)
    ensures r == -1 || (0 <= r && OccursAt(text, pat, r))
    ensures forall i: nat :: (r == -1 || i < r) ==> !OccursAt(text, pat, i)
  {
    FindFrom(text, pat, 0)
  }

  /** `find` reports -1 exactly when the pattern occurs nowhere. */
  lemma FindMissing(text: string, pat: string)
    ensures Find(text, pat) == -1 <==> !Occurs(text, pat)
  {
    if Find(text, pat) != -1 {
      assert OccursAt(text, pat, Find(text, pat));
    }
  }

  /** `s[lo:hi]` for non-negative bounds: both are clamped to the length, and an inverted range is empty. */
  function Slice(s: string, lo: nat, hi: nat): (r: string)
    ensures lo <= hi <= |s| ==> r == s[lo..hi]
    ensures lo <= |s| <= hi ==> r == s[lo..]
    ensures hi <= lo ==> r == []
    ensures |r| <= |s|
  {
    var a := if lo <= |s| then lo else |s|;
    var b := if hi <= |s| then hi else |s|;
    if a < b then s[a..b] else []
  }
}
