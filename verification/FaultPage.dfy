/** The word wrap of the fault page: a sentence broken at spaces into lines of a bounded width. */
module FaultPage {
  import opened Options

  /** A C string: its terminator is the end of the sequence. */
  type Text = string

  /** A character drawn in a cell. */
  datatype Glyph = Glyph(column: int, row: int, code: char)

  /** The part of the text one line shows. */
  datatype Span = Span(start: nat, length: nat)

  // ------------------------------------------------------- one line, by definition

  /** The last space of `text[start..end]` that is not its first character, counted from the start;
      zero where there is none. */
  function Breakpoint(text: Text, start: nat, end: nat): (b: nat)
    requires start <= end <= |text|
    ensures b != 0 ==> start + b < end && text[start + b] == ' '
    ensures forall i | start + b < i < end && start < i :: text[i] != ' '
    decreases end - start
  {
    if start == end then 0
    else if text[end - 1] == ' ' then end - 1 - start
    else Breakpoint(text, start, end - 1)
  }

  /** Where a line begun at `start` is filled. */
  function Filled(text: Text, start: nat, width: int): nat
    requires start <= |text| && 0 < width
  {
    if start + width < |text| then start + width else |text|
  }

  /** Where a line begun at `start` ends. */
  function LineEnd(text: Text, start: nat, width: int): (end: nat)
    requires start < |text| && 0 < width
    ensures start < end <= Filled(text, start, width)
  {
    var full := Filled(text, start, width);
    var b := Breakpoint(text, start, full);
    if full < |text| && b != 0 then start + b else full
  }

  function SkipSpaces(text: Text, from: nat): (to: nat)
    requires from <= |text|
    ensures from <= to <= |text|
    ensures forall i | from <= i < to :: text[i] == ' '
    ensures to < |text| ==> text[to] != ' '
    decreases |text| - from
  {
    if from < |text| && text[from] == ' ' then SkipSpaces(text, from + 1) else from
  }

  /** The lines of the text from `start` on. */
  function Spans(text: Text, start: nat, width: int): seq<Span>
    requires start <= |text| && 0 < width
    decreases |text| - start
  {
    if start == |text| then []
    else
      var end := LineEnd(text, start, width);
      [Span(start, end - start)] + Spans(text, SkipSpaces(text, end), width)
  }

  /** The glyphs of one line. */
  function LineGlyphs(text: Text, span: Span, column: int, row: int): seq<Glyph>
    requires span.start + span.length <= |text|
  {
    seq(span.length, i requires 0 <= i < span.length => Glyph(column + i, row, text[span.start + i]))
  }

  ghost predicate Within(text: Text, spans: seq<Span>) {
    forall k | 0 <= k < |spans| :: spans[k].start + spans[k].length <= |text|
  }

  /** The glyphs of a run of lines, the first in the given row. */
  function Glyphs(text: Text, spans: seq<Span>, column: int, row: int): seq<Glyph>
    requires Within(text, spans)
  {
    if spans == [] then []
    else LineGlyphs(text, spans[0], column, row) + Glyphs(text, spans[1..], column, row + 1)
  }

  lemma {:induction false} SpansWithin(text: Text, start: nat, width: int)
    requires start <= |text| && 0 < width
    ensures Within(text, Spans(text, start, width))
    decreases |text| - start
  {
    if start < |text| {
      SpansWithin(text, SkipSpaces(text, LineEnd(text, start, width)), width);
    }
  }

  lemma GlyphsSplit(text: Text, start: nat, width: int, column: int, row: int)
    requires start < |text| && 0 < width
    requires Within(text, Spans(text, start, width))
    requires Within(text, Spans(text, SkipSpaces(text, LineEnd(text, start, width)), width))
    ensures var end := LineEnd(text, start, width);
            var rest := Spans(text, SkipSpaces(text, end), width);
            && Spans(text, start, width) == [Span(start, end - start)] + rest
            && Glyphs(text, Spans(text, start, width), column, row) ==
               LineGlyphs(text, Span(start, end - start), column, row) +
               Glyphs(text, rest, column, row + 1)
  {
    var end := LineEnd(text, start, width);
    var rest := Spans(text, SkipSpaces(text, end), width);
    assert ([Span(start, end - start)] + rest)[1..] == rest;
  }

  lemma NothingLeft(text: Text, width: int, column: int)
    requires 0 < width
    ensures Spans(text, |text|, width) == []
    ensures forall row: int :: Glyphs(text, [], column, row) == []
  {
  }

  // -------------------------------------------------------------- the loops

  class Page {
    /** What has been drawn, in the order of drawing. */
    var drawn: seq<Glyph>

    method Paragraph(column: int, row: int, text: Option<Text>, width: int) returns (after: int)
      modifies this
      ensures text.None? || width <= 0 ==> after == row && drawn == old(drawn)
      ensures text.Some? && width > 0 ==>
                var spans := Spans(text.value, 0, width);
                && Within(text.value, spans)
                && after == row + |spans|
                && drawn == old(drawn) + Glyphs(text.value, spans, column, row)
    {
      hide Spans, Glyphs, LineGlyphs, LineEnd, SkipSpaces;
      after := row;
      if text.None? || width <= 0 {
        return;
      }
      var chars := text.value;
      var start := 0;
      SpansWithin(chars, 0, width);
      NothingLeft(chars, width, column);
      while start < |chars|
        invariant 0 <= start <= |chars|
        invariant Within(chars, Spans(chars, start, width))
        invariant drawn + Glyphs(chars, Spans(chars, start, width), column, after) ==
                  old(drawn) + Glyphs(chars, Spans(chars, 0, width), column, row)
        invariant after + |Spans(chars, start, width)| == row + |Spans(chars, 0, width)|
        decreases |chars| - start
      {
        var length := Fit(chars, start, width);
        ghost var span := Span(start, length);
        ghost var next := SkipSpaces(chars, start + length);
        SpansWithin(chars, next, width);
        GlyphsSplit(chars, start, width, column, after);
        ghost var before := drawn;
        Draw(chars, start, length, column, after);
        ghost var rest := Glyphs(chars, Spans(chars, next, width), column, after + 1);
        assert before + (LineGlyphs(chars, span, column, after) + rest) == drawn + rest;
        after := after + 1;
        start := PassSpaces(chars, start + length);
      }
    }

    /** How many of the remaining characters the next line shows. */
    method Fit(chars: Text, start: nat, width: int) returns (length: nat)
      requires start < |chars| && 0 < width
      ensures start + length == LineEnd(chars, start, width)
    {
      length := 0;
      var breakpoint := 0;
      while start + length < |chars| && length < width
        invariant start + length <= Filled(chars, start, width)
        invariant breakpoint == Breakpoint(chars, start, start + length)
        decreases width - length
      {
        if chars[start + length] == ' ' {
          breakpoint := length;
        }
        length := length + 1;
      }
      if start + length < |chars| && breakpoint != 0 {
        length := breakpoint;
      }
    }

    method Draw(chars: Text, start: nat, length: nat, column: int, row: int)
      requires start + length <= |chars|
      modifies this
      ensures drawn == old(drawn) + LineGlyphs(chars, Span(start, length), column, row)
    {
      ghost var line := LineGlyphs(chars, Span(start, length), column, row);
      for index := 0 to length
        invariant drawn == old(drawn) + line[..index]
      {
        drawn := drawn + [Glyph(column + index, row, chars[start + index])];
      }
      assert line[..length] == line;
    }

    method PassSpaces(chars: Text, from: nat) returns (to: nat)
      requires from <= |chars|
      ensures to == SkipSpaces(chars, from)
    {
      to := from;
      while to < |chars| && chars[to] == ' '
        invariant from <= to <= |chars|
        invariant SkipSpaces(chars, to) == SkipSpaces(chars, from)
      {
        to := to + 1;
      }
    }
  }

  // ------------------------------------------------------------ what is promised

  /** Every line shows something and none is wider than the width. */
  lemma {:induction false} LinesFit(text: Text, start: nat, width: int)
    requires start <= |text| && 0 < width
    ensures forall k | 0 <= k < |Spans(text, start, width)| ::
              0 < Spans(text, start, width)[k].length <= width
    decreases |text| - start
  {
    if start < |text| {
      LinesFit(text, SkipSpaces(text, LineEnd(text, start, width)), width);
    }
  }

  /** The line holds as much as it can: all that is left where that fits, and otherwise up to the last space
      within the width past its first character, or the whole width where there is none. */
  ghost predicate HoldsAllItCan(text: Text, span: Span, width: int) {
    var end := span.start + span.length;
    && end <= |text|
    && (|text| - span.start <= width ==> end == |text|)
    && (|text| - span.start > width ==>
          && (forall i | end < i < span.start + width :: text[i] != ' ')
          && (if exists i :: span.start < i < span.start + width && text[i] == ' '
              then span.start < end < span.start + width && text[end] == ' '
              else span.length == width))
  }

  /** No line is shorter than it need be. */
  lemma {:induction false} LinesAreFilled(text: Text, start: nat, width: int)
    requires start <= |text| && 0 < width
    ensures forall k | 0 <= k < |Spans(text, start, width)| ::
              HoldsAllItCan(text, Spans(text, start, width)[k], width)
    decreases |text| - start
  {
    hide HoldsAllItCan;
    if start < |text| {
      var end := LineEnd(text, start, width);
      LineIsFilled(text, start, width);
      LinesAreFilled(text, SkipSpaces(text, end), width);
    }
  }

  lemma LineIsFilled(text: Text, start: nat, width: int)
    requires start < |text| && 0 < width
    ensures HoldsAllItCan(text, Span(start, LineEnd(text, start, width) - start), width)
  {
    var full := Filled(text, start, width);
    var b := Breakpoint(text, start, full);
    hide Breakpoint;
  }

  /** The next line begins at the first character past this one that is not a space. */
  ghost predicate FollowsOn(text: Text, line: Span, next: Span) {
    var end := line.start + line.length;
    end <= next.start < |text| && text[next.start] != ' ' && forall i | end <= i < next.start :: text[i] == ' '
  }

  /** The first line begins where the text does, and each other where the one above it leaves off. */
  lemma {:induction false} LinesFollowOn(text: Text, start: nat, width: int)
    requires start <= |text| && 0 < width
    ensures var spans := Spans(text, start, width);
            && (spans == [] <==> start == |text|)
            && (spans != [] ==> spans[0].start == start)
            && (forall k | 0 < k < |spans| :: FollowsOn(text, spans[k - 1], spans[k]))
    decreases |text| - start
  {
    if start < |text| {
      var end := LineEnd(text, start, width);
      var next := SkipSpaces(text, end);
      LinesFollowOn(text, next, width);
      var spans, rest := Spans(text, start, width), Spans(text, next, width);
      assert rest != [] ==> FollowsOn(text, Span(start, end - start), rest[0]);
      forall k | 0 < k < |spans| ensures FollowsOn(text, spans[k - 1], spans[k]) {
        if k > 1 {
          assert FollowsOn(text, rest[k - 2], rest[k - 1]);
        }
      }
    }
  }

  /** A glyph stands in its line's row, as many columns on as its character stands in the line. */
  ghost predicate OnItsLine(text: Text, spans: seq<Span>, column: int, row: int, g: Glyph)
    requires Within(text, spans)
  {
    && row <= g.row < row + |spans| && column <= g.column < column + spans[g.row - row].length
    && g.code == text[spans[g.row - row].start + (g.column - column)]
  }

  lemma LineInPlace(text: Text, span: Span, column: int, row: int, g: Glyph)
    requires span.start + span.length <= |text|
    ensures g in LineGlyphs(text, span, column, row) <==>
            g.row == row && column <= g.column < column + span.length &&
            g.code == text[span.start + (g.column - column)]
  {
    var line := LineGlyphs(text, span, column, row);
    if g.row == row && column <= g.column < column + span.length &&
       g.code == text[span.start + (g.column - column)] {
      assert line[g.column - column] == g;
    }
  }

  /** What is drawn is the lines, each character in its place and nothing besides. */
  lemma {:induction false} GlyphsInPlace(text: Text, spans: seq<Span>, column: int, row: int, g: Glyph)
    requires Within(text, spans)
    ensures g in Glyphs(text, spans, column, row) <==> OnItsLine(text, spans, column, row, g)
  {
    hide LineGlyphs;
    if spans != [] {
      var rest := spans[1..];
      GlyphsInPlace(text, rest, column, row + 1, g);
      LineInPlace(text, spans[0], column, row, g);
      if row < g.row < row + |spans| {
        assert rest[g.row - (row + 1)] == spans[g.row - row];
      }
    }
  }

  /** The lines stand one after another: each begins no earlier than the one above it ends. */
  lemma {:induction false} LinesInOrder(text: Text, start: nat, width: int)
    requires start <= |text| && 0 < width
    ensures forall k | 0 <= k < |Spans(text, start, width)| ::
              start <= Spans(text, start, width)[k].start
    ensures forall j, k | 0 <= j < k < |Spans(text, start, width)| ::
              Spans(text, start, width)[j].start + Spans(text, start, width)[j].length <=
              Spans(text, start, width)[k].start
    decreases |text| - start
  {
    if start < |text| {
      LinesInOrder(text, SkipSpaces(text, LineEnd(text, start, width)), width);
    }
  }

  ghost predicate Shows(span: Span, i: int) { span.start <= i < span.start + span.length }

  /** Every character that is not a space stands upon a line; as the lines are in order and do not
      overlap, it stands upon exactly one. */
  lemma {:induction false} NothingIsLost(text: Text, start: nat, width: int, i: nat)
    requires start <= i < |text| && 0 < width
    requires text[i] != ' '
    ensures exists k | 0 <= k < |Spans(text, start, width)| :: Shows(Spans(text, start, width)[k], i)
    decreases |text| - start
  {
    var end := LineEnd(text, start, width);
    var next := SkipSpaces(text, end);
    var spans := Spans(text, start, width);
    if i < end {
      assert Shows(spans[0], i);
    } else {
      NothingIsLost(text, next, width, i);
      var rest := Spans(text, next, width);
      var k :| 0 <= k < |rest| && Shows(rest[k], i);
      assert spans[k + 1] == rest[k];
    }
  }

  /** The characters of a text that leave ink, in order. */
  function Ink(text: Text): Text {
    if text == [] then []
    else Ink(text[..|text| - 1]) + if text[|text| - 1] == ' ' then [] else [text[|text| - 1]]
  }

  function Codes(glyphs: seq<Glyph>): Text {
    seq(|glyphs|, i requires 0 <= i < |glyphs| => glyphs[i].code)
  }

  lemma {:induction false} InkJoins(a: Text, b: Text)
    ensures Ink(a + b) == Ink(a) + Ink(b)
    decreases |b|
  {
    if b == [] {
      assert a + b == a;
    } else {
      InkJoins(a, b[..|b| - 1]);
      assert (a + b)[..|a + b| - 1] == a + b[..|b| - 1];
    }
  }

  lemma {:induction false} SpacesLeaveNone(s: Text)
    requires forall i | 0 <= i < |s| :: s[i] == ' '
    ensures Ink(s) == []
  {
    if s != [] {
      SpacesLeaveNone(s[..|s| - 1]);
    }
  }

  lemma InkPassesSpaces(text: Text, a: nat, b: nat, c: nat)
    requires a <= b <= c <= |text|
    requires forall i | b <= i < c :: text[i] == ' '
    ensures Ink(text[a..]) == Ink(text[a..b]) + Ink(text[c..])
  {
    hide Ink;
    SpacesLeaveNone(text[b..c]);
    InkJoins(text[b..c], text[c..]);
    InkJoins(text[a..b], text[b..]);
    assert text[a..] == text[a..b] + text[b..];
    assert text[b..] == text[b..c] + text[c..];
  }

  lemma LineCodes(text: Text, start: nat, end: nat, column: int, row: int)
    requires start <= end <= |text|
    ensures Codes(LineGlyphs(text, Span(start, end - start), column, row)) == text[start..end]
  {
  }

  /** The glyphs drawn, spaces aside, spell the text, spaces aside: every other character once and
      in order, and nothing besides. */
  lemma {:induction false} InkIsPreserved(text: Text, start: nat, width: int, column: int, row: int)
    requires start <= |text| && 0 < width
    requires Within(text, Spans(text, start, width))
    ensures Ink(Codes(Glyphs(text, Spans(text, start, width), column, row))) == Ink(text[start..])
    decreases |text| - start
  {
    hide Spans, Glyphs, LineGlyphs, LineEnd, SkipSpaces, Ink;
    if start == |text| {
      NothingLeft(text, width, column);
      assert text[start..] == Codes([]) == [];
    } else {
      var end := LineEnd(text, start, width);
      var next := SkipSpaces(text, end);
      SpansWithin(text, next, width);
      GlyphsSplit(text, start, width, column, row);
      var line := LineGlyphs(text, Span(start, end - start), column, row);
      var rest := Glyphs(text, Spans(text, next, width), column, row + 1);
      LineCodes(text, start, end, column, row);
      assert Codes(line + rest) == Codes(line) + Codes(rest);
      InkIsPreserved(text, next, width, column, row + 1);
      InkJoins(text[start..end], Codes(rest));
      InkPassesSpaces(text, start, end, next);
    }
  }

  /** A word: a longest stretch without a space. */
  ghost predicate Word(text: Text, a: int, b: int) {
    && 0 <= a < b <= |text|
    && (forall i | a <= i < b :: text[i] != ' ')
    && (a == 0 || text[a - 1] == ' ')
    && (b == |text| || text[b] == ' ')
  }

  ghost predicate Holds(span: Span, a: int, b: int) {
    span.start <= a && b <= span.start + span.length
  }

  ghost predicate WholeOnALine(text: Text, start: nat, width: int, a: int, b: int)
    requires start <= |text| && 0 < width
  {
    exists k | 0 <= k < |Spans(text, start, width)| :: Holds(Spans(text, start, width)[k], a, b)
  }

  /** The one shape of text the break at a space misses: a single leading space, which is not taken
      for a break, and then a word of exactly the width. */
  ghost predicate LeadingSpaceThenFullWord(text: Text, width: int) {
    1 < width && |text| > width && text[0] == ' ' && Word(text, 1, width + 1)
  }

  lemma {:induction false} FittingWordIsWhole(text: Text, start: nat, width: int, a: nat, b: nat)
    requires start <= a && 0 < width && Word(text, a, b) && b - a <= width
    requires start == 0 ==> !LeadingSpaceThenFullWord(text, width)
    requires start > 0 ==> text[start] != ' '
    ensures WholeOnALine(text, start, width, a, b)
    decreases |text| - start
  {
    var end := LineEnd(text, start, width);
    var next := SkipSpaces(text, end);
    var spans := Spans(text, start, width);
    if b <= end {
      assert Holds(spans[0], a, b);
    } else if a < end {
      assert false;
    } else {
      assert text[a] != ' ';
      FittingWordIsWhole(text, next, width, a, b);
      var rest := Spans(text, next, width);
      var k :| 0 <= k < |rest| && Holds(rest[k], a, b);
      assert spans[k + 1] == rest[k];
    }
  }

  /** No word that fits the width is split — for every text but those of that one shape. */
  lemma FittingWordsAreWhole(text: Text, width: int)
    requires 0 < width
    ensures (forall a, b | Word(text, a, b) && b - a <= width :: WholeOnALine(text, 0, width, a, b))
            <==> !LeadingSpaceThenFullWord(text, width)
  {
    if LeadingSpaceThenFullWord(text, width) {
      var spans := Spans(text, 0, width);
      LinesInOrder(text, 0, width);
      assert LineEnd(text, 0, width) == width;
      assert spans[0] == Span(0, width);
      assert Word(text, 1, width + 1) && !WholeOnALine(text, 0, width, 1, width + 1);
    } else {
      forall a, b | Word(text, a, b) && b - a <= width
        ensures WholeOnALine(text, 0, width, a, b)
      {
        FittingWordIsWhole(text, 0, width, a, b);
      }
    }
  }

  /** So a text with no leading space never has a fitting word split. */
  lemma NoLeadingSpaceNoSplit(text: Text, width: int, a: nat, b: nat)
    requires 0 < width && text != [] && text[0] != ' '
    requires Word(text, a, b) && b - a <= width
    ensures WholeOnALine(text, 0, width, a, b)
  {
    FittingWordsAreWhole(text, width);
  }
}
