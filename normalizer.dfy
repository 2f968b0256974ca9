/** `makeComparable`: brings spreadsheet titles and e-book text into one
    comparable form with a character translation table
    (`str.translate(REPLACE_DICT_TRANS)`). The table itself is configuration
    and is a parameter here. */
module Normalizer {
  import opened Cells

  /** Each key character is replaced by its string (possibly empty, which
      deletes it); characters that are not keys are kept. */
  type Table = map<char, string>

  function Replacement(table: Table, ch: char): string {
    if ch in table then table[ch] else [ch]
  }

  /** Every key is replaced by exactly one character (a pure folding table,
      such as full-width to half-width). */
  predicate OneForOne(table: Table) {
    forall ch :: ch in table ==> |table[ch]| == 1
  }

  /** `str.translate` with `table`: the empty string stays empty, a single
      character becomes its replacement, and a one-for-one table keeps the
      length. With `TranslateAppend` this fixes the translation of every
      string. */
  function Translate(table: Table, s: string): (r: string)
    ensures OneForOne(table) ==> |r| == |s|
    ensures s == [] ==> r == []
    ensures |s| == 1 ==> r == Replacement(table, s[0])
    decreases |s|
  {
    if s == [] then [] else Replacement(table, s[0]) + Translate(table, s[1..])
  }

  /** `makeComparable`: a string is translated, anything else becomes "". */
  function MakeComparable(table: Table, value: Cell): (r: string)
    ensures !value.Text? ==> r == []
  {
    match value
    case Text(s) => Translate(table, s)
    case _ => []
  }

  /** Translation works character by character, so it distributes over
      concatenation. */
  lemma {:induction false} TranslateAppend(table: Table, a: string, b: string)
    ensures Translate(table, a + b) == Translate(table, a) + Translate(table, b)
    decreases |a|
  {
    if a == [] {
      assert a + b == b;
    } else {
      assert (a + b)[0] == a[0];
      assert (a + b)[1..] == a[1..] + b;
      TranslateAppend(table, a[1..], b);
    }
  }

  /** A string none of whose characters is in the table is left unchanged. */
  lemma {:induction false} TranslateUntouched(table: Table, s: string)
    requires forall k :: 0 <= k < |s| ==> s[k] !in table
    ensures Translate(table, s) == s
    decreases |s|
  {
    if s != [] {
      TranslateUntouched(table, s[1..]);
    }
  }

  /** A string all of whose characters the table deletes translates to "". */
  lemma {:induction false} TranslateDeleted(table: Table, s: string)
    requires forall k :: 0 <= k < |s| ==> s[k] in table && table[s[k]] == []
    ensures Translate(table, s) == []
    decreases |s|
  {
    if s != [] {
      TranslateDeleted(table, s[1..]);
    }
  }
}

/** `in_epub`: despite its name it returns the error flag, true exactly when
    the normalized title does not occur in the already normalized text. */
module Matcher {
  import opened Cells
  import opened Normalizer

  /** `needle` occurs in `haystack` starting at position `i`. */
  predicate OccursAt(needle: string, haystack: string, i: int) {
    0 <= i && i + |needle| <= |haystack| && haystack[i..i + |needle|] == needle
  }

  /** Python's `needle in haystack` on strings. */
  predicate IsSubstring(needle: string, haystack: string) {
    exists i :: 0 <= i <= |haystack| && OccursAt(needle, haystack, i)
  }

  /** The error flag for one title: a title that normalizes to "" is never
      missing, and a title that is missing normalizes to something non-empty
      that starts at no position of the text. */
  function InEpub(table: Table, search: Cell, text: string): (missing: bool)
    ensures MakeComparable(table, search) == [] ==> !missing
    ensures missing ==> forall i :: 0 <= i <= |text| ==> !OccursAt(MakeComparable(table, search), text, i)
    ensures !missing ==> exists i :: 0 <= i <= |text| && OccursAt(MakeComparable(table, search), text, i)
  {
    var title := MakeComparable(table, search);
    assert title == [] ==> OccursAt(title, text, 0);
    !IsSubstring(title, text)
  }

  /** A title that normalizes to "" (an empty cell, a non-string, a blank
      string) is never reported missing. */
  lemma BlankTitleNeverMissing(table: Table, search: Cell, text: string)
    requires MakeComparable(table, search) == []
    ensures !InEpub(table, search, text)
    ensures !InEpub(table, Empty, text) && !InEpub(table, Text(""), text)
  {
    assert OccursAt([], text, 0);
    assert MakeComparable(table, Text("")) == [];
  }

  /** A title that occurs literally in the raw e-book text is found in the
      normalized text, whatever the table: normalizing both sides never loses
      a match. */
  lemma {:induction false} RawOccurrenceIsFound(table: Table, title: string, raw: string)
    requires IsSubstring(title, raw)
    ensures !InEpub(table, Text(title), MakeComparable(table, Text(raw)))
  {
    var i :| 0 <= i <= |raw| && OccursAt(title, raw, i);
    var pre, post := raw[..i], raw[i + |title|..];
    assert raw == pre + title + post;
    TranslateAppend(table, pre + title, post);
    TranslateAppend(table, pre, title);
    OccursInMiddle(Translate(table, pre), Translate(table, title), Translate(table, post));
  }

  lemma {:induction false} OccursInMiddle(before: string, needle: string, after: string)
    ensures OccursAt(needle, before + needle + after, |before|)
  {
    assert (before + needle + after)[|before|..|before| + |needle|] == needle;
  }
}
