/**
 * `highlightText`: splitting a text around the case-insensitive occurrences
 * of a search query, marking each occurrence. The query is taken literally,
 * so it is restricted to ASCII characters that are not regular-expression
 * metacharacters.
 */
module Highlight {
  import opened Wrappers
  import Text

  /** A piece of the text, marked when it is an occurrence of the query. */
  datatype Segment = Segment(text: string, highlighted: bool)

  /** The text returned untouched, or the list of pieces rendered in its place. */
  datatype Rendered = Unchanged(text: string) | Segments(parts: seq<Segment>)

  predicate IsRegexMeta(c: char) {
    c in "\\^$.|?*+()[]{}"
  }

  /** A query the regular expression treats as a literal string. */
  predicate IsLiteralQuery(q: string) {
    forall i :: 0 <= i < |q| ==> Text.IsAscii(q[i]) && !IsRegexMeta(q[i])
  }

  function Concat(parts: seq<string>): string {
    if |parts| == 0 then "" else parts[0] + Concat(parts[1..])
  }

  /** Where piece `k` starts, counted from the start of the first piece. */
  function Offset(parts: seq<string>, k: nat): nat
    requires k <= |parts|
  {
    |Concat(parts[..k])|
  }

  /** No occurrence of `q` starts inside any even piece, the pieces laid out from `from`. */
  predicate EvenPiecesHoldNoMatchStart(text: string, q: string, from: nat, parts: seq<string>) {
    forall k, j :: 0 <= k < |parts| && k % 2 == 0 && from + Offset(parts, k) <= j < from + Offset(parts, k) + |parts[k]| ==>
      !Text.MatchesAt(text, q, j)
  }

  /**
   * `text.split(/(q)/gi)` from index `from`: the text before each leftmost
   * occurrence, then the occurrence itself, and finally what follows the
   * last occurrence. Pieces at even positions hold no occurrence, and no
   * occurrence in the text starts inside one, so the occurrences taken are
   * the leftmost non-overlapping ones; pieces at odd positions are the
   * occurrences.
   */
  function SplitAround(text: string, q: string, from: nat): (parts: seq<string>)
    requires 0 < |q| && from <= |text|
    ensures |parts| % 2 == 1
    ensures Concat(parts) == text[from..]
    ensures forall k :: 0 <= k < |parts| && k % 2 == 1 ==> Text.SameIgnoringCase(parts[k], q)
    ensures forall k :: 0 <= k < |parts| && k % 2 == 0 ==> !Text.ContainsIgnoringCase(parts[k], q)
    ensures EvenPiecesHoldNoMatchStart(text, q, from, parts)
    decreases |text| - from
  {
    match Text.FindFrom(text, q, from)
    case None =>
      NoMatchInside(text, q, from, |text|);
      assert text[from..] == text[from..|text|];
      SinglePieceNoMatchStart(text, q, from);
      [text[from..]]
    case Some(i) =>
      NoMatchInside(text, q, from, i);
      var rest := SplitAround(text, q, i + |q|);
      var parts := [text[from..i], text[i..i + |q|]] + rest;
      SplitConcat(text, from, i, i + |q|, rest);
      SplitPieces(text[from..i], text[i..i + |q|], rest, q);
      SplitLeftmost(text, q, from, i, rest);
      parts
  }

  lemma SinglePieceNoMatchStart(text: string, q: string, from: nat)
    requires from <= |text|
    requires forall j :: from <= j <= |text| ==> !Text.MatchesAt(text, q, j)
    ensures EvenPiecesHoldNoMatchStart(text, q, from, [text[from..]])
  {
    var parts := [text[from..]];
    assert parts[..0] == [];
    assert Offset(parts, 0) == 0;
  }

  /** Piece `k` of `[a, b] + rest`, for `k >= 2`, starts `|a| + |b|` after piece `k - 2` of `rest`. */
  lemma {:induction false} OffsetShift(a: string, b: string, rest: seq<string>, k: nat)
    requires 2 <= k <= |rest| + 2
    ensures Offset([a, b] + rest, k) == |a| + |b| + Offset(rest, k - 2)
  {
    var parts := [a, b] + rest;
    var prefix := parts[..k];
    assert prefix == [a, b] + rest[..k - 2];
    assert prefix[1..] == [b] + rest[..k - 2];
    assert prefix[1..][1..] == rest[..k - 2];
    assert Concat(prefix) == a + (b + Concat(rest[..k - 2]));
  }

  /**
   * The leftmost-occurrence fact for the pieces in front of `rest`: the
   * text before the first occurrence at `i` holds no start, and the later
   * even pieces sit exactly where `rest` laid them out.
   */
  lemma SplitLeftmost(text: string, q: string, from: nat, i: nat, rest: seq<string>)
    requires from <= i && i + |q| <= |text|
    requires forall j :: from <= j < i ==> !Text.MatchesAt(text, q, j)
    requires EvenPiecesHoldNoMatchStart(text, q, i + |q|, rest)
    ensures EvenPiecesHoldNoMatchStart(text, q, from, [text[from..i], text[i..i + |q|]] + rest)
  {
    var before, occurrence := text[from..i], text[i..i + |q|];
    var parts := [before, occurrence] + rest;
    forall k, j | 0 <= k < |parts| && k % 2 == 0 && from + Offset(parts, k) <= j < from + Offset(parts, k) + |parts[k]|
      ensures !Text.MatchesAt(text, q, j)
    {
      if k == 0 {
        assert parts[..0] == [];
      } else {
        OffsetShift(before, occurrence, rest, k);
        assert parts[k] == rest[k - 2];
        assert (k - 2) % 2 == 0;
      }
    }
  }

  /** `"aaa".split(/(aa)/gi)` is `["", "aa", "a"]`: the first occurrence wins, not a later one. */
  lemma OverlappingOccurrencesTakeTheLeftmost()
    ensures SplitAround("aaa", "aa", 0) == ["", "aa", "a"]
  {
    var text := "aaa";
    assert Text.MatchesAt(text, "aa", 0) by {
      assert text[0..2] == "aa";
    }
    assert Text.FindFrom(text, "aa", 0) == Some(0);
    assert Text.FindFrom(text, "aa", 2) == None;
    assert SplitAround(text, "aa", 2) == [text[2..]];
    assert text[0..0] == "" && text[0..2] == "aa" && text[2..] == "a";
  }

  lemma SplitConcat(text: string, from: nat, i: nat, j: nat, rest: seq<string>)
    requires from <= i <= j <= |text| && Concat(rest) == text[j..]
    ensures Concat([text[from..i], text[i..j]] + rest) == text[from..]
  {
    var parts := [text[from..i], text[i..j]] + rest;
    assert parts[1..] == [text[i..j]] + rest;
    assert parts[1..][1..] == rest;
    assert text[from..] == text[from..i] + (text[i..j] + text[j..]);
  }

  /** Two more pieces in front keep the parity pattern of the pieces. */
  lemma SplitPieces(before: string, occurrence: string, rest: seq<string>, q: string)
    requires !Text.ContainsIgnoringCase(before, q) && Text.SameIgnoringCase(occurrence, q)
    requires |rest| % 2 == 1
    requires forall k :: 0 <= k < |rest| && k % 2 == 1 ==> Text.SameIgnoringCase(rest[k], q)
    requires forall k :: 0 <= k < |rest| && k % 2 == 0 ==> !Text.ContainsIgnoringCase(rest[k], q)
    ensures var parts := [before, occurrence] + rest;
      && |parts| % 2 == 1
      && (forall k :: 0 <= k < |parts| && k % 2 == 1 ==> Text.SameIgnoringCase(parts[k], q))
      && (forall k :: 0 <= k < |parts| && k % 2 == 0 ==> !Text.ContainsIgnoringCase(parts[k], q))
  {
    var parts := [before, occurrence] + rest;
    assert forall k :: 2 <= k < |parts| ==> parts[k] == rest[k - 2];
  }

  /** With no occurrence starting in `[from, to)`, the piece `text[from..to]` contains none. */
  lemma NoMatchInside(text: string, q: string, from: nat, to: nat)
    requires 0 < |q| && from <= to <= |text|
    requires forall j :: from <= j < to ==> !Text.MatchesAt(text, q, j)
    ensures !Text.ContainsIgnoringCase(text[from..to], q)
  {
    var piece := text[from..to];
    forall j | 0 <= j <= |piece| && Text.MatchesAt(piece, q, j)
      ensures false
    {
      assert j + |q| <= |piece|;
      var inPiece, inText := piece[j..j + |q|], text[from + j..from + j + |q|];
      forall m | 0 <= m < |q|
        ensures inPiece[m] == inText[m]
      {
      }
      assert inPiece == inText;
      assert Text.MatchesAt(text, q, from + j);
    }
  }

  /** `highlightText(text, query)`. */
  function HighlightText(text: string, query: Option<string>): (r: Rendered)
    requires query.Some? ==> IsLiteralQuery(query.value)
    ensures query.None? || query.value == "" <==> r == Unchanged(text)
    ensures r.Segments? ==> Concat(Texts(r.parts)) == text
    ensures r.Segments? ==> forall k :: 0 <= k < |r.parts| ==>
      r.parts[k].highlighted == Text.SameIgnoringCase(r.parts[k].text, query.value)
  {
    if query.None? || query.value == "" then Unchanged(text)
    else
      var q := query.value;
      var pieces := SplitAround(text, q, 0);
      var parts := seq(|pieces|, k requires 0 <= k < |pieces| => Segment(pieces[k], Text.Lower(pieces[k]) == Text.Lower(q)));
      assert Texts(parts) == pieces;
      Segments(parts)
  }

  function Texts(parts: seq<Segment>): (r: seq<string>)
    ensures |r| == |parts| && forall k :: 0 <= k < |parts| ==> r[k] == parts[k].text
  {
    seq(|parts|, k requires 0 <= k < |parts| => parts[k].text)
  }

  /**
   * The marked pieces are exactly the occurrences: every other piece is
   * marked, starting from the second, no unmarked piece contains the
   * query, and no occurrence starts inside an unmarked piece.
   */
  lemma MarkedPiecesAreOccurrences(text: string, q: string)
    requires 0 < |q| && IsLiteralQuery(q)
    ensures var r := HighlightText(text, Some(q));
      && r.Segments? && |r.parts| % 2 == 1
      && (forall k :: 0 <= k < |r.parts| ==> (r.parts[k].highlighted <==> k % 2 == 1))
      && (forall k :: 0 <= k < |r.parts| && !r.parts[k].highlighted ==> !Text.ContainsIgnoringCase(r.parts[k].text, q))
      && EvenPiecesHoldNoMatchStart(text, q, 0, Texts(r.parts))
  {
    var r := HighlightText(text, Some(q));
    var pieces := SplitAround(text, q, 0);
    assert Texts(r.parts) == pieces;
    forall k | 0 <= k < |r.parts| && k % 2 == 0
      ensures !r.parts[k].highlighted
    {
      if Text.SameIgnoringCase(pieces[k], q) {
        assert |pieces[k]| == |q| by {
          assert |Text.Lower(pieces[k])| == |pieces[k]|;
        }
        assert pieces[k][0..|q|] == pieces[k];
        assert Text.MatchesAt(pieces[k], q, 0);
      }
    }
  }

  /** A text without the query comes back as a single unmarked piece. */
  lemma NoOccurrenceSinglePiece(text: string, q: string)
    requires 0 < |q| && IsLiteralQuery(q) && !Text.ContainsIgnoringCase(text, q)
    ensures HighlightText(text, Some(q)) == Segments([Segment(text, false)])
  {
    var pieces := SplitAround(text, q, 0);
    assert Text.FindFrom(text, q, 0).None?;
    assert pieces == [text];
  }
}
