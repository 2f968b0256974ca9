/** The string post-processing at the end of `html_to_text`: the extracted
    page text is cut into lines, every line into phrases at each double
    space, every phrase is stripped, blank phrases are dropped, and what is
    left is joined with newlines. */
module TextCleanup {

  /** Python's `str.isspace`. */
  predicate IsSpace(ch: char) {
    ch == ' ' || ('\t' <= ch <= '\r') || ('\U{1c}' <= ch <= '\U{1f}') ||
    ch == '\U{85}' || ch == '\U{a0}' || ch == '\U{1680}' ||
    ('\U{2000}' <= ch <= '\U{200a}') || ch == '\U{2028}' || ch == '\U{2029}' ||
    ch == '\U{202f}' || ch == '\U{205f}' || ch == '\U{3000}'
  }

  /** The line boundaries of Python's `str.splitlines`; "\r\n" counts as one. */
  predicate IsLineBreak(ch: char) {
    ch == '\n' || ch == '\r' || ch == '\U{0b}' || ch == '\U{0c}' ||
    ('\U{1c}' <= ch <= '\U{1e}') || ch == '\U{85}' || ch == '\U{2028}' || ch == '\U{2029}'
  }

  lemma {:induction false} LineBreakIsSpace(ch: char)
    ensures IsLineBreak(ch) ==> IsSpace(ch)
  {
  }

  predicate NoBreak(s: string) {
    forall k :: 0 <= k < |s| ==> !IsLineBreak(s[k])
  }

  predicate NoDoubleSpace(s: string) {
    forall k :: 0 <= k < |s| - 1 ==> !(s[k] == ' ' && s[k + 1] == ' ')
  }

  /** A line of the cleaned text: not blank, stripped, no run of two spaces,
      no line boundary inside. */
  predicate CleanLine(s: string) {
    s != [] && !IsSpace(s[0]) && !IsSpace(s[|s| - 1]) && NoDoubleSpace(s) && NoBreak(s)
  }

  // ---------------------------------------------------------------- strip

  /** Index of the first non-space character at or after `from`. */
  function SkipSpaces(s: string, from: nat): (k: nat)
    requires from <= |s|
    ensures from <= k <= |s| && (k < |s| ==> !IsSpace(s[k]))
    ensures forall j :: from <= j < k ==> IsSpace(s[j])
    decreases |s| - from
  {
    if from == |s| || !IsSpace(s[from]) then from else SkipSpaces(s, from + 1)
  }

  /** End of `s[lo..upto]` once its trailing spaces are cut off. */
  function TrimEnd(s: string, lo: nat, upto: nat): (k: nat)
    requires lo <= upto <= |s|
    ensures lo <= k <= upto && (k > lo ==> !IsSpace(s[k - 1]))
    ensures forall j :: k <= j < upto ==> IsSpace(s[j])
    decreases upto
  {
    if upto == lo || !IsSpace(s[upto - 1]) then upto else TrimEnd(s, lo, upto - 1)
  }

  /** `str.strip()`: the slice of `s` between its leading and trailing
      whitespace. */
  function Strip(s: string): (r: string)
    ensures r == [] || (!IsSpace(r[0]) && !IsSpace(r[|r| - 1]))
    ensures NoBreak(s) ==> NoBreak(r)
    ensures NoDoubleSpace(s) ==> NoDoubleSpace(r)
  {
    var i := SkipSpaces(s, 0);
    var j := TrimEnd(s, i, |s|);
    assert i < |s| ==> j > i;
    SliceKeeps(s, i, j);
    s[i..j]
  }

  lemma {:induction false} SliceKeeps(s: string, i: nat, j: nat)
    requires i <= j <= |s|
    ensures NoBreak(s) ==> NoBreak(s[i..j])
    ensures NoDoubleSpace(s) ==> NoDoubleSpace(s[i..j])
  {
    if NoDoubleSpace(s) {
      forall k | 0 <= k < j - i - 1 ensures !(s[i..j][k] == ' ' && s[i..j][k + 1] == ' ') {
        assert s[i..j][k] == s[i + k] && s[i..j][k + 1] == s[i + k + 1];
      }
    }
  }

  /** Stripping a stripped string changes nothing. */
  lemma {:induction false} StripIdempotent(s: string)
    ensures Strip(Strip(s)) == Strip(s)
  {
    StripOfStripped(Strip(s));
  }

  /** A string that is empty or starts and ends with a non-space is its own
      strip. */
  lemma {:induction false} StripOfStripped(t: string)
    requires t == [] || (!IsSpace(t[0]) && !IsSpace(t[|t| - 1]))
    ensures Strip(t) == t
  {
    assert SkipSpaces(t, 0) == 0;
    assert TrimEnd(t, 0, |t|) == |t|;
    assert t[0..|t|] == t;
  }

  // ------------------------------------------------------------ splitlines

  /** Index of the first line boundary at or after `from`. */
  function BreakIndex(s: string, from: nat): (k: nat)
    requires from <= |s|
    ensures from <= k <= |s| && (k < |s| ==> IsLineBreak(s[k]))
    ensures forall j :: from <= j < k ==> !IsLineBreak(s[j])
    decreases |s| - from
  {
    if from == |s| || IsLineBreak(s[from]) then from else BreakIndex(s, from + 1)
  }

  /** Length of the boundary at `k`: two for "\r\n", one otherwise. */
  function BreakWidth(s: string, k: nat): (width: nat)
    requires k < |s|
    ensures 1 <= width <= 2 && k + width <= |s|
  {
    if s[k] == '\r' && k + 1 < |s| && s[k + 1] == '\n' then 2 else 1
  }

  /** `str.splitlines()`: the lines without their boundaries; a final
      boundary does not start an empty last line. Put back together, the
      lines are the text with its boundary characters taken out. */
  function SplitLines(s: string): (lines: seq<string>)
    ensures s == [] ==> lines == []
    ensures forall l :: l in lines ==> NoBreak(l)
    ensures Concat(lines) == WithoutBreaks(s)
    decreases |s|
  {
    if s == [] then []
    else
      var k := BreakIndex(s, 0);
      if k == |s| then
        ConcatSingle(s);
        WithoutBreaksKeeps(s);
        [s]
      else
        var tail := SplitLines(s[k + BreakWidth(s, k)..]);
        WithoutBreaksAtBreak(s, k);
        ConcatCons(s[..k], tail);
        [s[..k]] + tail
  }

  /** The characters of `s` that are not line boundaries, in order. */
  function WithoutBreaks(s: string): string
    decreases |s|
  {
    if s == [] then [] else (if IsLineBreak(s[0]) then [] else [s[0]]) + WithoutBreaks(s[1..])
  }

  lemma {:induction false} WithoutBreaksAppend(a: string, b: string)
    ensures WithoutBreaks(a + b) == WithoutBreaks(a) + WithoutBreaks(b)
    decreases |a|
  {
    if a == [] {
      assert a + b == b;
    } else {
      assert (a + b)[0] == a[0];
      assert (a + b)[1..] == a[1..] + b;
      WithoutBreaksAppend(a[1..], b);
    }
  }

  lemma {:induction false} WithoutBreaksKeeps(s: string)
    requires NoBreak(s)
    ensures WithoutBreaks(s) == s
    decreases |s|
  {
    if s != [] {
      WithoutBreaksKeeps(s[1..]);
    }
  }

  /** Cutting at the first boundary removes exactly that boundary. */
  lemma {:induction false} WithoutBreaksAtBreak(s: string, k: nat)
    requires k < |s| && IsLineBreak(s[k])
    requires forall j :: 0 <= j < k ==> !IsLineBreak(s[j])
    ensures WithoutBreaks(s) == s[..k] + WithoutBreaks(s[k + BreakWidth(s, k)..])
  {
    var width := BreakWidth(s, k);
    var gap := s[k..k + width];
    Split3(s, k, k + width);
    WithoutBreaksAppend(s[..k] + gap, s[k + width..]);
    WithoutBreaksAppend(s[..k], gap);
    WithoutBreaksKeeps(s[..k]);
    assert forall j :: 0 <= j < |gap| ==> gap[j] == s[k + j];
    WithoutBreaksOfBreaks(gap);
  }

  lemma {:induction false} WithoutBreaksOfBreaks(s: string)
    requires forall j :: 0 <= j < |s| ==> IsLineBreak(s[j])
    ensures WithoutBreaks(s) == []
    decreases |s|
  {
    if s != [] {
      WithoutBreaksOfBreaks(s[1..]);
    }
  }

  /** A non-empty text without a boundary is one line. */
  lemma {:induction false} SplitLinesOfOneLine(s: string)
    requires s != [] && NoBreak(s)
    ensures SplitLines(s) == [s]
  {
    assert BreakIndex(s, 0) == |s|;
  }

  /** The first boundary of `s` is at `k` when `s[k]` is one and nothing
      before it is. */
  lemma {:induction false} BreakIndexFirst(s: string, k: nat)
    requires k < |s| && IsLineBreak(s[k])
    requires forall j :: 0 <= j < k ==> !IsLineBreak(s[j])
    ensures BreakIndex(s, 0) == k
  {
  }

  /** A line followed by a one-character boundary (anything but the `\r` of
      a `\r\n` pair) is cut off at that boundary, and the rest is split on
      its own. */
  lemma {:induction false} SplitLinesCons(line: string, b: char, rest: string)
    requires NoBreak(line) && IsLineBreak(b)
    requires !(b == '\r' && rest != [] && rest[0] == '\n')
    ensures SplitLines(line + [b] + rest) == [line] + SplitLines(rest)
  {
    var s := line + [b] + rest;
    var k := |line|;
    assert s[k] == b;
    assert forall j :: 0 <= j < k ==> s[j] == line[j];
    BreakIndexFirst(s, k);
    assert k + 1 < |s| ==> s[k + 1] == rest[0];
    assert BreakWidth(s, k) == 1;
    assert s[..k] == line;
    assert s[k + 1..] == rest;
  }

  /** A line followed by `"\r\n"` is cut off at that pair, which counts as a
      single boundary. */
  lemma {:induction false} SplitLinesCrLf(line: string, rest: string)
    requires NoBreak(line)
    ensures SplitLines(line + "\r\n" + rest) == [line] + SplitLines(rest)
  {
    var s := line + "\r\n" + rest;
    var k := |line|;
    assert s[k] == '\r' && s[k + 1] == '\n';
    assert forall j :: 0 <= j < k ==> s[j] == line[j];
    BreakIndexFirst(s, k);
    assert BreakWidth(s, k) == 2;
    assert s[..k] == line;
    assert s[k + 2..] == rest;
  }

  /** Lines without boundaries, the last one not empty, joined with newlines
      and split again, come back unchanged: the cuts are exactly at the
      boundaries. */
  lemma {:induction false} SplitLinesJoin(lines: seq<string>)
    requires lines != [] && lines[|lines| - 1] != []
    requires forall l :: l in lines ==> NoBreak(l)
    ensures SplitLines(Join("\n", lines)) == lines
    decreases |lines|
  {
    if |lines| == 1 {
      SplitLinesOfOneLine(lines[0]);
    } else {
      var head, tail := lines[0], lines[1..];
      assert lines == [head] + tail;
      assert head in lines;
      assert tail[|tail| - 1] == lines[|lines| - 1];
      forall l | l in tail ensures NoBreak(l) {
        assert l in lines;
      }
      JoinCons("\n", head, tail);
      SplitLinesCons(head, '\n', Join("\n", tail));
      SplitLinesJoin(tail);
    }
  }

  // ---------------------------------------------------------- split("  ")

  /** Index of the first pair of spaces starting at or after `from`, or |s|. */
  function PairIndex(s: string, from: nat): (k: nat)
    requires from <= |s|
    ensures from <= k <= |s|
    ensures k < |s| ==> k + 1 < |s| && s[k] == ' ' && s[k + 1] == ' '
    ensures forall j :: from <= j < k && j + 1 < |s| ==> !(s[j] == ' ' && s[j + 1] == ' ')
    decreases |s| - from
  {
    if from + 1 >= |s| then |s|
    else if s[from] == ' ' && s[from + 1] == ' ' then from
    else PairIndex(s, from + 1)
  }

  /** Every piece but the last ends in something other than a space, so
      each cut was made at the first pair of spaces available. */
  predicate LeftmostCuts(pieces: seq<string>) {
    forall k :: 0 <= k < |pieces| - 1 ==> pieces[k] == [] || pieces[k][|pieces[k]| - 1] != ' '
  }

  /** `line.split("  ")`: the pieces between non-overlapping pairs of spaces,
      found from the left. */
  function SplitDoubleSpace(s: string): (pieces: seq<string>)
    ensures |pieces| >= 1
    ensures Join("  ", pieces) == s
    ensures LeftmostCuts(pieces)
    ensures forall p :: p in pieces ==> NoDoubleSpace(p)
    ensures NoBreak(s) ==> forall p :: p in pieces ==> NoBreak(p)
    decreases |s|
  {
    var k := PairIndex(s, 0);
    if k == |s| then [s]
    else
      var tail := SplitDoubleSpace(s[k + 2..]);
      PiecesAtPair(s, k, tail);
      [s[..k]] + tail
  }

  /** The recursive case of `SplitDoubleSpace`: the text before the first
      pair of spaces, followed by the pieces of the rest. */
  lemma {:induction false} PiecesAtPair(s: string, k: nat, tail: seq<string>)
    requires k + 1 < |s| && s[k] == ' ' && s[k + 1] == ' '
    requires forall j :: 0 <= j < k ==> !(s[j] == ' ' && s[j + 1] == ' ')
    requires tail != [] && Join("  ", tail) == s[k + 2..]
    requires forall p :: p in tail ==> NoDoubleSpace(p)
    requires NoBreak(s[k + 2..]) ==> forall p :: p in tail ==> NoBreak(p)
    requires LeftmostCuts(tail)
    ensures Join("  ", [s[..k]] + tail) == s
    ensures LeftmostCuts([s[..k]] + tail)
    ensures forall p :: p in [s[..k]] + tail ==> NoDoubleSpace(p)
    ensures NoBreak(s) ==> forall p :: p in [s[..k]] + tail ==> NoBreak(p)
  {
    var head := s[..k];
    JoinCons("  ", head, tail);
    Split3(s, k, k + 2);
    assert s[k..k + 2] == "  ";
    forall j | 0 <= j < |head| - 1 ensures !(head[j] == ' ' && head[j + 1] == ' ') {
      assert head[j] == s[j] && head[j + 1] == s[j + 1];
    }
    SliceKeeps(s, 0, k);
    if NoBreak(s) {
      SliceKeeps(s, k + 2, |s|);
    }
    if k > 0 {
      assert head[k - 1] == s[k - 1];
    }
    var pieces := [head] + tail;
    forall i | 1 <= i < |pieces| - 1
      ensures pieces[i] == [] || pieces[i][|pieces[i]| - 1] != ' '
    {
      assert pieces[i] == tail[i - 1];
    }
  }

  lemma {:induction false} JoinCons(sep: string, head: string, tail: seq<string>)
    requires tail != []
    ensures Join(sep, [head] + tail) == head + sep + Join(sep, tail)
  {
    assert ([head] + tail)[1..] == tail;
  }

  /** A text without a pair of spaces is a single piece. */
  lemma {:induction false} SplitDoubleSpaceOfOnePiece(s: string)
    requires NoDoubleSpace(s)
    ensures SplitDoubleSpace(s) == [s]
  {
    assert PairIndex(s, 0) == |s|;
  }

  // --------------------------------------------------------- the pipeline

  /** The stripped phrases of one line, in order, blanks included. */
  function StripAll(pieces: seq<string>): (phrases: seq<string>)
    ensures |phrases| == |pieces|
    ensures forall i :: 0 <= i < |pieces| ==> phrases[i] == Strip(pieces[i])
    decreases |pieces|
  {
    if pieces == [] then [] else [Strip(pieces[0])] + StripAll(pieces[1..])
  }

  /** The inner generator for one line: the line is stripped, cut at every
      pair of spaces, and each piece stripped; only whitespace is lost. */
  function LinePhrases(line: string): (phrases: seq<string>)
    ensures |phrases| >= 1
    ensures NonSpace(Concat(phrases)) == NonSpace(line)
  {
    var pieces := SplitDoubleSpace(Strip(line));
    NonSpaceStripAll(pieces);
    NonSpaceJoinedBySpaces(Strip(line));
    NonSpaceStrip(line);
    StripAll(pieces)
  }

  /** The generator `chunks`: the phrases of every line, line after line. */
  function Phrases(lines: seq<string>): (phrases: seq<string>)
    ensures |lines| == 1 ==> phrases == LinePhrases(lines[0])
    decreases |lines|
  {
    if lines == [] then [] else LinePhrases(lines[0]) + Phrases(lines[1..])
  }

  /** Only whitespace is lost on the way from the lines to their phrases. */
  lemma {:induction false} NonSpacePhrases(lines: seq<string>)
    ensures NonSpace(Concat(Phrases(lines))) == NonSpace(Concat(lines))
    decreases |lines|
  {
    if lines != [] {
      var head := LinePhrases(lines[0]);
      var tail := Phrases(lines[1..]);
      NonSpacePhrases(lines[1..]);
      ConcatAppend(head, tail);
      NonSpaceAppend(Concat(head), Concat(tail));
      NonSpaceAppend(lines[0], Concat(lines[1..]));
    }
  }

  /** The phrases of two runs of lines are the phrases of the first run
      followed by those of the second. */
  lemma {:induction false} PhrasesAppend(a: seq<string>, b: seq<string>)
    ensures Phrases(a + b) == Phrases(a) + Phrases(b)
    decreases |a|
  {
    if a == [] {
      assert a + b == b;
    } else {
      var line, rest := a[0], a[1..];
      assert a == [line] + rest;
      PhrasesAppendStep(line, rest, b);
      PhrasesAppend(rest, b);
    }
  }

  lemma PhrasesAppendStep(line: string, rest: seq<string>, b: seq<string>)
    ensures Phrases([line] + rest + b) == LinePhrases(line) + Phrases(rest + b)
    ensures Phrases([line] + rest) + Phrases(b) == LinePhrases(line) + (Phrases(rest) + Phrases(b))
  {
    AppendAssociative([line], rest, b);
    PhrasesCons(line, rest + b);
    PhrasesCons(line, rest);
    AppendAssociative(LinePhrases(line), Phrases(rest), Phrases(b));
  }

  lemma AppendAssociative<T>(x: seq<T>, y: seq<T>, z: seq<T>)
    ensures (x + y) + z == x + (y + z)
  {
  }

  lemma {:induction false} PhrasesCons(line: string, rest: seq<string>)
    ensures Phrases([line] + rest) == LinePhrases(line) + Phrases(rest)
  {
    assert ([line] + rest)[1..] == rest;
  }

  /** The filter `if chunk`: the empty chunks go, the others stay in order. */
  function DropEmpty(chunks: seq<string>): (kept: seq<string>)
    ensures forall c :: c in kept ==> c in chunks && c != []
    ensures Concat(kept) == Concat(chunks)
    decreases |chunks|
  {
    if chunks == [] then []
    else if chunks[0] == [] then DropEmpty(chunks[1..])
    else
      ConcatCons(chunks[0], DropEmpty(chunks[1..]));
      [chunks[0]] + DropEmpty(chunks[1..])
  }

  /** `sep.join(chunks)`; with a whitespace separator only whitespace is
      added. */
  function Join(sep: string, chunks: seq<string>): (joined: string)
    ensures (forall k :: 0 <= k < |sep| ==> IsSpace(sep[k])) ==>
              NonSpace(joined) == NonSpace(Concat(chunks))
    decreases |chunks|
  {
    if chunks == [] then []
    else if |chunks| == 1 then
      ConcatSingle(chunks[0]);
      assert chunks == [chunks[0]];
      chunks[0]
    else
      var rest := Join(sep, chunks[1..]);
      NonSpaceAppend(chunks[0] + sep, rest);
      NonSpaceAppend(chunks[0], sep);
      NonSpaceAppend(chunks[0], Concat(chunks[1..]));
      NonSpaceOfSpaces(sep);
      chunks[0] + sep + rest
  }

  /** Lines 171-175: the text `soup.get_text()` returns, cleaned up; the
      clean-up changes whitespace only, so the visible characters of the
      extracted text all survive, in their order, and nothing is added. */
  function HtmlToText(extracted: string): (text: string)
    ensures NonSpace(text) == NonSpace(extracted)
  {
    var chunks := DropEmpty(Phrases(SplitLines(extracted)));
    NonSpaceSplitLines(extracted);
    NonSpacePhrases(SplitLines(extracted));
    LineBreakIsSpace('\n');
    Join("\n", chunks)
  }

  /** A single phrase already free of line boundaries and double spaces comes
      out stripped and otherwise unchanged. */
  lemma {:induction false} HtmlToTextOfOnePhrase(s: string)
    requires NoBreak(s) && NoDoubleSpace(s) && Strip(s) != []
    ensures HtmlToText(s) == Strip(s)
  {
    var t := Strip(s);
    assert s != [];
    SplitLinesOfOneLine(s);
    SplitDoubleSpaceOfOnePiece(t);
    StripIdempotent(s);
    assert StripAll([t]) == [t];
    assert Phrases([s]) == [t];
    assert DropEmpty([t]) == [t];
  }

  /** `str.split("\n")`, the inverse of `Join` on lines without newlines. */
  function SplitNewlines(s: string): (lines: seq<string>)
    ensures |lines| >= 1
    decreases |s|
  {
    var k := NewlineIndex(s, 0);
    if k == |s| then [s] else [s[..k]] + SplitNewlines(s[k + 1..])
  }

  function NewlineIndex(s: string, from: nat): (k: nat)
    requires from <= |s|
    ensures from <= k <= |s| && (k < |s| ==> s[k] == '\n')
    ensures forall j :: from <= j < k ==> s[j] != '\n'
    decreases |s| - from
  {
    if from == |s| || s[from] == '\n' then from else NewlineIndex(s, from + 1)
  }

  // --------------------------------------------------- shape of the output

  /** Every phrase that survives the filter is a clean line. */
  lemma {:induction false} PhrasesAreClean(lines: seq<string>)
    requires forall l :: l in lines ==> NoBreak(l)
    ensures forall c :: c in DropEmpty(Phrases(lines)) ==> CleanLine(c)
    decreases |lines|
  {
    if lines != [] {
      PhrasesAreClean(lines[1..]);
      var line := Strip(lines[0]);
      var pieces := SplitDoubleSpace(line);
      StripAllClean(pieces);
      DropEmptyAppend(StripAll(pieces), Phrases(lines[1..]));
    }
  }

  lemma {:induction false} StripAllClean(pieces: seq<string>)
    requires forall p :: p in pieces ==> NoBreak(p) && NoDoubleSpace(p)
    ensures forall c :: c in StripAll(pieces) && c != [] ==> CleanLine(c)
    decreases |pieces|
  {
    if pieces != [] {
      StripAllClean(pieces[1..]);
    }
  }

  lemma {:induction false} DropEmptyAppend(a: seq<string>, b: seq<string>)
    ensures DropEmpty(a + b) == DropEmpty(a) + DropEmpty(b)
    decreases |a|
  {
    if a == [] {
      assert a + b == b;
    } else {
      assert (a + b)[0] == a[0];
      assert (a + b)[1..] == a[1..] + b;
      DropEmptyAppend(a[1..], b);
    }
  }

  /** Joining clean lines never produces a blank line: no two newlines in a
      row, none at the start and none at the end. */
  lemma {:induction false} JoinHasNoBlankLine(chunks: seq<string>)
    requires forall c :: c in chunks ==> CleanLine(c)
    ensures var r := Join("\n", chunks);
            (r == [] <==> chunks == []) &&
            (r != [] ==> r[0] != '\n' && r[|r| - 1] != '\n') &&
            forall k :: 0 <= k < |r| - 1 ==> !(r[k] == '\n' && r[k + 1] == '\n')
    decreases |chunks|
  {
    if |chunks| > 1 {
      var c, rest := chunks[0], Join("\n", chunks[1..]);
      JoinHasNoBlankLine(chunks[1..]);
      assert CleanLine(c) && c[0] != '\n';
      var r := Join("\n", chunks);
      assert r == c + "\n" + rest;
      forall k | 0 <= k < |r| - 1 ensures !(r[k] == '\n' && r[k + 1] == '\n') {
        if k < |c| {
          assert r[k] == c[k];
          assert !IsLineBreak(c[k]);
        } else if k == |c| {
          assert r[k + 1] == rest[0];
        } else {
          assert r[k] == rest[k - |c| - 1] && r[k + 1] == rest[k - |c|];
        }
      }
      assert r[|r| - 1] == rest[|rest| - 1];
    } else if |chunks| == 1 {
      assert CleanLine(chunks[0]);
      var r := chunks[0];
      forall k | 0 <= k < |r| - 1 ensures !(r[k] == '\n' && r[k + 1] == '\n') {
        assert !IsLineBreak(r[k]);
      }
    }
  }

  /** Splitting joined lines at the newlines gives the lines back. */
  lemma {:induction false} SplitJoin(chunks: seq<string>)
    requires chunks != []
    requires forall c :: c in chunks ==> NoBreak(c)
    ensures SplitNewlines(Join("\n", chunks)) == chunks
    decreases |chunks|
  {
    var c := chunks[0];
    assert NoBreak(c);
    if |chunks| == 1 {
      assert NewlineIndex(c, 0) == |c|;
    } else {
      var rest := Join("\n", chunks[1..]);
      SplitJoin(chunks[1..]);
      SplitNewlinesCons(c, rest);
      assert chunks == [c] + chunks[1..];
    }
  }

  /** The first line of a text that starts with a line and a newline. */
  lemma {:induction false} SplitNewlinesCons(line: string, rest: string)
    requires NoBreak(line)
    ensures SplitNewlines(line + "\n" + rest) == [line] + SplitNewlines(rest)
  {
    var s := line + "\n" + rest;
    assert forall j :: 0 <= j < |line| ==> s[j] == line[j] && s[j] != '\n';
    NewlineIndexAt(s, |line|);
    assert s[..|line|] == line;
    assert s[|line| + 1..] == rest;
  }

  lemma {:induction false} NewlineIndexAt(s: string, k: nat)
    requires k < |s| && s[k] == '\n'
    requires forall j :: 0 <= j < k ==> s[j] != '\n'
    ensures NewlineIndex(s, 0) == k
  {
  }

  /** The cleaned text has no blank line, and each of its lines is a clean
      line: not blank, stripped, free of double spaces. */
  lemma {:induction false} HtmlToTextShape(extracted: string)
    ensures var r := HtmlToText(extracted);
            (r != [] ==> r[0] != '\n' && r[|r| - 1] != '\n') &&
            (forall k :: 0 <= k < |r| - 1 ==> !(r[k] == '\n' && r[k + 1] == '\n')) &&
            (r != [] ==> forall line :: line in SplitNewlines(r) ==> CleanLine(line))
  {
    var chunks := DropEmpty(Phrases(SplitLines(extracted)));
    PhrasesAreClean(SplitLines(extracted));
    JoinHasNoBlankLine(chunks);
    if chunks != [] {
      SplitJoin(chunks);
    }
  }

  // ------------------------------------------------ where the newlines go

  /** Two cleaned texts one after the other: a newline between them, unless
      one of them is empty and so contributes no line. */
  function Glue(x: string, y: string): string {
    if x == [] then y else if y == [] then x else x + "\n" + y
  }

  /** Joining two runs of non-empty lines with newlines is joining each run
      and gluing the results. */
  lemma {:induction false} JoinGlue(x: seq<string>, y: seq<string>)
    requires forall c :: c in x ==> c != []
    requires forall c :: c in y ==> c != []
    ensures Join("\n", x + y) == Glue(Join("\n", x), Join("\n", y))
    decreases |x|
  {
    if y != [] {
      assert y[0] in y;
    }
    if x == [] {
      assert x + y == y;
    } else {
      var head, tail := x[0], x[1..];
      assert x == [head] + tail;
      assert head in x;
      if tail == [] {
        JoinGlueSingle(head, y);
      } else {
        forall c | c in tail ensures c != [] {
          assert c in x;
        }
        assert tail[0] in tail;
        JoinGlue(tail, y);
        JoinGlueCons(head, tail, y);
      }
    }
  }

  lemma {:induction false} JoinGlueSingle(head: string, y: seq<string>)
    requires head != [] && (y == [] || y[0] != [])
    ensures Join("\n", [head] + y) == Glue(Join("\n", [head]), Join("\n", y))
  {
    if y == [] {
      assert [head] + y == [head];
    } else {
      JoinCons("\n", head, y);
      JoinStartsWithFirst(y);
    }
  }

  lemma {:induction false} JoinGlueCons(head: string, tail: seq<string>, y: seq<string>)
    requires head != [] && tail != [] && tail[0] != []
    requires Join("\n", tail + y) == Glue(Join("\n", tail), Join("\n", y))
    ensures Join("\n", [head] + tail + y) == Glue(Join("\n", [head] + tail), Join("\n", y))
  {
    AppendAssociative([head], tail, y);
    JoinCons("\n", head, tail + y);
    JoinCons("\n", head, tail);
    JoinStartsWithFirst(tail);
  }

  lemma {:induction false} JoinStartsWithFirst(chunks: seq<string>)
    requires chunks != [] && chunks[0] != []
    ensures Join("\n", chunks) != []
  {
    if |chunks| > 1 {
      JoinCons("\n", chunks[0], chunks[1..]);
      assert chunks == [chunks[0]] + chunks[1..];
    }
  }

  /** A text without line boundaries is cleaned as one line. */
  lemma {:induction false} HtmlToTextOfLine(line: string)
    requires NoBreak(line)
    ensures HtmlToText(line) == Join("\n", DropEmpty(LinePhrases(line)))
  {
    if line == [] {
      assert Strip(line) == [];
      assert PairIndex([], 0) == 0;
      assert SplitDoubleSpace([]) == [[]];
      assert StripAll([[]]) == [[]];
      assert DropEmpty([[]]) == [];
    } else {
      SplitLinesOfOneLine(line);
    }
  }

  /** A text whose lines are a first line followed by the lines of `rest`
      is cleaned as that line, glued to the cleaned `rest`. */
  lemma {:induction false} HtmlToTextOfLines(s: string, line: string, rest: string)
    requires NoBreak(line) && SplitLines(s) == [line] + SplitLines(rest)
    ensures HtmlToText(s) == Glue(HtmlToText(line), HtmlToText(rest))
  {
    var head, tail := LinePhrases(line), Phrases(SplitLines(rest));
    PhrasesCons(line, SplitLines(rest));
    DropEmptyAppend(head, tail);
    JoinGlue(DropEmpty(head), DropEmpty(tail));
    HtmlToTextOfLine(line);
  }

  /** Lines 171-175 at a one-character line boundary: the text before it and
      the text after it are cleaned apart and end up on separate lines. */
  lemma {:induction false} HtmlToTextAtBreak(line: string, b: char, rest: string)
    requires NoBreak(line) && IsLineBreak(b)
    requires !(b == '\r' && rest != [] && rest[0] == '\n')
    ensures HtmlToText(line + [b] + rest) == Glue(HtmlToText(line), HtmlToText(rest))
  {
    SplitLinesCons(line, b, rest);
    HtmlToTextOfLines(line + [b] + rest, line, rest);
  }

  /** The same at a `"\r\n"` pair, which is a single boundary. */
  lemma {:induction false} HtmlToTextAtCrLf(line: string, rest: string)
    requires NoBreak(line)
    ensures HtmlToText(line + "\r\n" + rest) == Glue(HtmlToText(line), HtmlToText(rest))
  {
    SplitLinesCrLf(line, rest);
    HtmlToTextOfLines(line + "\r\n" + rest, line, rest);
  }

  /** Lines 171-175 at a pair of spaces after a clean phrase: the phrase and
      the stripped text after the pair end up on separate lines. */
  lemma {:induction false} HtmlToTextAtDoubleSpace(phrase: string, rest: string)
    requires CleanLine(phrase) && NoBreak(rest) && Strip(rest) == rest
    ensures HtmlToText(phrase + "  " + rest) == Glue(HtmlToText(phrase), HtmlToText(rest))
  {
    NoBreakAroundPair(phrase, rest);
    HtmlToTextOfLine(phrase + "  " + rest);
    HtmlToTextOfLine(phrase);
    StripOfStripped(phrase);
    if rest == [] {
      StripTrailingPair(phrase);
      assert phrase + "  " + rest == phrase + "  ";
    } else {
      LinePhrasesAtDoubleSpace(phrase, rest);
      HtmlToTextOfLine(rest);
      GlueFirstPhrase(phrase, LinePhrases(rest));
    }
  }

  lemma {:induction false} NoBreakAroundPair(phrase: string, rest: string)
    requires NoBreak(phrase) && NoBreak(rest)
    ensures NoBreak(phrase + "  " + rest)
  {
    var s := phrase + "  " + rest;
    forall k | 0 <= k < |s| ensures !IsLineBreak(s[k]) {
      if k < |phrase| {
        assert s[k] == phrase[k];
      } else if k >= |phrase| + 2 {
        assert s[k] == rest[k - |phrase| - 2];
      }
    }
  }

  /** A non-empty phrase in front of more phrases becomes the first line. */
  lemma {:induction false} GlueFirstPhrase(phrase: string, phrases: seq<string>)
    requires phrase != []
    ensures Join("\n", DropEmpty([phrase] + phrases)) == Glue(phrase, Join("\n", DropEmpty(phrases)))
  {
    assert ([phrase] + phrases)[1..] == phrases;
    var tail := DropEmpty(phrases);
    JoinGlue([phrase], tail);
    assert [phrase][1..] == [];
  }

  /** A clean phrase followed by a pair of spaces strips to the phrase. */
  lemma {:induction false} StripTrailingPair(phrase: string)
    requires phrase != [] && !IsSpace(phrase[0]) && !IsSpace(phrase[|phrase| - 1])
    ensures Strip(phrase + "  ") == phrase
  {
    var s := phrase + "  ";
    var n := |phrase|;
    assert s[0] == phrase[0] && s[n - 1] == phrase[n - 1] && s[n] == ' ' && s[n + 1] == ' ';
    assert SkipSpaces(s, 0) == 0;
    assert TrimEnd(s, 0, n) == n;
    assert TrimEnd(s, 0, n + 2) == TrimEnd(s, 0, n + 1) == n;
    assert s[0..n] == phrase;
  }

  /** A clean phrase, a pair of spaces and a non-empty stripped rest: the
      phrase is the first phrase, the rest supplies the others. */
  lemma {:induction false} LinePhrasesAtDoubleSpace(phrase: string, rest: string)
    requires CleanLine(phrase) && rest != [] && Strip(rest) == rest
    ensures LinePhrases(phrase + "  " + rest) == [phrase] + LinePhrases(rest)
  {
    var s := phrase + "  " + rest;
    assert s[0] == phrase[0] && s[|s| - 1] == rest[|rest| - 1];
    StripOfStripped(s);
    StripOfStripped(phrase);
    SplitDoubleSpaceCons(phrase, rest);
    var q := SplitDoubleSpace(rest);
    assert ([phrase] + q)[1..] == q;
  }

  /** Cutting at the first pair of spaces, when it follows a piece that has
      no pair of spaces and does not end in a space. */
  lemma {:induction false} SplitDoubleSpaceCons(a: string, c: string)
    requires NoDoubleSpace(a) && (a == [] || a[|a| - 1] != ' ')
    ensures SplitDoubleSpace(a + "  " + c) == [a] + SplitDoubleSpace(c)
  {
    var s := a + "  " + c;
    var k := |a|;
    assert forall j :: 0 <= j < k ==> s[j] == a[j];
    assert s[k] == ' ' && s[k + 1] == ' ';
    PairIndexFirst(s, k, 0);
    assert s[..k] == a;
    assert s[k + 2..] == c;
  }

  lemma {:induction false} PairIndexFirst(s: string, k: nat, from: nat)
    requires from <= k && k + 1 < |s| && s[k] == ' ' && s[k + 1] == ' '
    requires forall j :: 0 <= j < k ==> !(s[j] == ' ' && s[j + 1] == ' ')
    ensures PairIndex(s, from) == k
    decreases k - from
  {
    if from < k {
      PairIndexFirst(s, k, from + 1);
    }
  }

  // ------------------------------------------------ nothing visible is lost

  /** The characters of `s` that are not whitespace, in order. */
  function NonSpace(s: string): string
    decreases |s|
  {
    if s == [] then [] else (if IsSpace(s[0]) then [] else [s[0]]) + NonSpace(s[1..])
  }

  /** `"".join(strings)`. */
  function Concat(strings: seq<string>): string
    decreases |strings|
  {
    if strings == [] then [] else strings[0] + Concat(strings[1..])
  }

  lemma {:induction false} NonSpaceAppend(a: string, b: string)
    ensures NonSpace(a + b) == NonSpace(a) + NonSpace(b)
    decreases |a|
  {
    if a == [] {
      assert a + b == b;
    } else {
      assert (a + b)[0] == a[0];
      assert (a + b)[1..] == a[1..] + b;
      NonSpaceAppend(a[1..], b);
    }
  }

  lemma {:induction false} NonSpaceOfSpaces(s: string)
    ensures (forall k :: 0 <= k < |s| ==> IsSpace(s[k])) ==> NonSpace(s) == []
    decreases |s|
  {
    if s != [] {
      NonSpaceOfSpaces(s[1..]);
    }
  }

  lemma {:induction false} ConcatAppend(a: seq<string>, b: seq<string>)
    ensures Concat(a + b) == Concat(a) + Concat(b)
    decreases |a|
  {
    if a == [] {
      assert a + b == b;
    } else {
      assert (a + b)[0] == a[0];
      assert (a + b)[1..] == a[1..] + b;
      ConcatAppend(a[1..], b);
    }
  }

  /** Stripping removes whitespace only. */
  lemma {:induction false} NonSpaceStrip(s: string)
    ensures NonSpace(Strip(s)) == NonSpace(s)
  {
    var i := SkipSpaces(s, 0);
    NonSpaceBetweenSpaces(s, i, TrimEnd(s, i, |s|));
  }

  lemma {:induction false} NonSpaceBetweenSpaces(s: string, i: nat, j: nat)
    requires i <= j <= |s|
    requires forall k :: 0 <= k < i ==> IsSpace(s[k])
    requires forall k :: j <= k < |s| ==> IsSpace(s[k])
    ensures NonSpace(s[i..j]) == NonSpace(s)
  {
    Split3(s, i, j);
    NonSpaceAppend(s[..i] + s[i..j], s[j..]);
    NonSpaceAppend(s[..i], s[i..j]);
    NonSpaceOfSpaces(s[..i]);
    NonSpaceOfSpaces(s[j..]);
  }

  lemma {:induction false} Split3(s: string, i: nat, j: nat)
    requires i <= j <= |s|
    ensures s == s[..i] + s[i..j] + s[j..]
  {
  }

  lemma {:induction false} ConcatSingle(s: string)
    ensures Concat([s]) == s
  {
    assert [s][1..] == [];
  }

  /** Cutting at pairs of spaces removes those spaces only. */
  lemma NonSpaceJoinedBySpaces(s: string)
    ensures NonSpace(Concat(SplitDoubleSpace(s))) == NonSpace(s)
  {
    var pieces := SplitDoubleSpace(s);
    assert IsSpace("  "[0]) && IsSpace("  "[1]);
    assert forall k :: 0 <= k < |"  "| ==> IsSpace("  "[k]);
    assert NonSpace(Join("  ", pieces)) == NonSpace(Concat(pieces));
  }

  lemma {:induction false} NonSpaceStripAll(pieces: seq<string>)
    ensures NonSpace(Concat(StripAll(pieces))) == NonSpace(Concat(pieces))
    decreases |pieces|
  {
    if pieces != [] {
      NonSpaceStripAll(pieces[1..]);
      NonSpaceStrip(pieces[0]);
      NonSpaceAppend(Strip(pieces[0]), Concat(StripAll(pieces[1..])));
      NonSpaceAppend(pieces[0], Concat(pieces[1..]));
    }
  }

  lemma {:induction false} ConcatCons(head: string, tail: seq<string>)
    ensures Concat([head] + tail) == head + Concat(tail)
  {
    assert ([head] + tail)[1..] == tail;
  }

  /** Line boundaries are whitespace, so cutting at them loses nothing. */
  lemma {:induction false} NonSpaceSplitLines(s: string)
    ensures NonSpace(Concat(SplitLines(s))) == NonSpace(s)
  {
    NonSpaceWithoutBreaks(s);
  }

  lemma {:induction false} NonSpaceWithoutBreaks(s: string)
    ensures NonSpace(WithoutBreaks(s)) == NonSpace(s)
    decreases |s|
  {
    if s != [] {
      NonSpaceWithoutBreaks(s[1..]);
      LineBreakIsSpace(s[0]);
      var first := if IsLineBreak(s[0]) then [] else [s[0]];
      NonSpaceAppend(first, WithoutBreaks(s[1..]));
      if !IsLineBreak(s[0]) {
        assert ([s[0]] + WithoutBreaks(s[1..]))[1..] == WithoutBreaks(s[1..]);
      }
    }
  }
}
