/** The console's text, apart from its pixels: a grid of cells, a cursor, an erase limit, and where each
    row's text ended. */
module TextGrids {
  import opened Surfaces

  const BACKSPACE := 0x08
  const TAB := 0x09
  const LINE_FEED := 0x0A
  const FORM_FEED := 0x0C
  const CARRIAGE_RETURN := 0x0D
  const SPACE := 0x20

  /** A cell cleared in a colour, or a character drawn in its ink upon its paper. */
  datatype Cell = Blank(paper: Colour) | Drawn(code: Byte, ink: Colour, paper: Colour)

  datatype Text = Text(columns: int, rows: int, cells: seq<seq<Cell>>,
                       column: int, row: int, limitColumn: int, limitRow: int,
                       rowEnds: seq<int>, ink: Colour, paper: Colour, margin: Colour)

  ghost predicate CellsFit(t: Text) {
    && 1 <= t.columns && 1 <= t.rows
    && |t.cells| == t.rows && (forall r | 0 <= r < t.rows :: |t.cells[r]| == t.columns)
  }

  /** The cursor and the limit are inside the grid, and every row's end is upon it or at its edge. */
  ghost predicate InGrid(t: Text) { AtEdge(t) && t.column < t.columns }

  /** As above, but the cursor may stand beyond its row's last cell, about to wrap. */
  ghost predicate AtEdge(t: Text) {
    && CellsFit(t)
    && 0 <= t.column <= t.columns && 0 <= t.row < t.rows
    && 0 <= t.limitColumn < t.columns && 0 <= t.limitRow < t.rows
    && |t.rowEnds| == t.rows && (forall r | 0 <= r < t.rows :: 0 <= t.rowEnds[r] <= t.columns)
  }

  function BlankRow(columns: int, paper: Colour): seq<Cell>
    requires 0 <= columns
  {
    seq(columns, i => Blank(paper))
  }

  /** A grid with nothing written upon it. */
  function Fresh(columns: int, rows: int, ink: Colour, paper: Colour): (t: Text)
    requires 1 <= columns && 1 <= rows
    ensures InGrid(t)
  {
    Text(columns, rows, seq(rows, r => BlankRow(columns, paper)), 0, 0, 0, 0, seq(rows, r => 0), ink, paper, paper)
  }

  /** A cell's number in reading order. */
  function Position(t: Text, row: int, column: int): int { row * t.columns + column }

  /** Positions are ordered by row and then by column. */
  lemma PositionOrder(t: Text, row: int, column: int, row': int, column': int)
    requires 0 <= column < t.columns && 0 <= column' < t.columns
    ensures Position(t, row, column) <= Position(t, row', column') <==>
            row < row' || (row == row' && column <= column')
  {
    if row < row' {
      PlacesApart(row, row', t.columns);
    } else if row' < row {
      PlacesApart(row', row, t.columns);
    }
  }

  // -------------------------------------------------------------- what each code does

  /** Every row moves up by one, the first being lost, and with them what marks places in them. */
  function Scrolled(t: Text): Text
    requires t.cells != [] && t.rowEnds != [] && 0 <= t.columns
  {
    t.(cells := t.cells[1..] + [BlankRow(t.columns, t.paper)],
       rowEnds := t.rowEnds[1..] + [0],
       limitRow := if t.limitRow > 0 then t.limitRow - 1 else 0,
       limitColumn := if t.limitRow > 0 then t.limitColumn else 0)
  }

  function NewLine(t: Text): Text
    requires 0 <= t.row < |t.rowEnds| && t.cells != [] && 0 <= t.columns
  {
    var left := t.(rowEnds := t.rowEnds[t.row := t.column], column := 0);
    if t.row + 1 < t.rows then left.(row := t.row + 1) else Scrolled(left)
  }

  function Advanced(t: Text): Text
    requires 0 <= t.row < |t.rowEnds| && t.cells != [] && 0 <= t.columns
  {
    if t.column + 1 < t.columns then t.(column := t.column + 1) else NewLine(t.(column := t.column + 1))
  }

  function Tabbed(t: Text): Text
    requires 0 <= t.row < |t.rowEnds| && t.cells != [] && 0 <= t.columns
  {
    var next := (t.column / 8 + 1) * 8;
    if next >= t.columns then NewLine(t) else t.(column := next)
  }

  function Cleared(t: Text): Text
    requires 0 <= t.rows && 0 <= t.columns
  {
    t.(cells := seq(t.rows, r => BlankRow(t.columns, t.paper)), column := 0, row := 0,
       limitColumn := 0, limitRow := 0, rowEnds := seq(t.rows, r => 0), margin := t.paper)
  }

  /** Where a backspace goes before the limit is considered. */
  function Retreated(t: Text): Text
    requires 0 <= t.row <= |t.rowEnds|
  {
    if t.column > 0 then t.(column := t.column - 1)
    else if t.row > 0 then
      var end := t.rowEnds[t.row - 1];
      t.(row := t.row - 1, column := if end < t.columns then end else t.columns - 1)
    else t
  }

  function Backspaced(t: Text): Text
    requires 0 <= t.row <= |t.rowEnds|
  {
    var limit := Position(t, t.limitRow, t.limitColumn);
    if Position(t, t.row, t.column) <= limit then t
    else
      var back := Retreated(t);
      if Position(t, back.row, back.column) < limit then t.(row := t.limitRow, column := t.limitColumn) else back
  }

  function Written(t: Text, code: Byte): Text
    requires 0 <= t.row < |t.cells| && 0 <= t.column < |t.cells[t.row]|
  {
    t.(cells := t.cells[t.row := t.cells[t.row][t.column := Drawn(code, t.ink, t.paper)]])
  }

  predicate Printable(code: Byte) {
    code != BACKSPACE && code != TAB && code != LINE_FEED && code != FORM_FEED && code != CARRIAGE_RETURN
  }

  function After(t: Text, code: Byte): (t': Text)
    requires InGrid(t)
    ensures InGrid(t') && t'.columns == t.columns && t'.rows == t.rows
  {
    if code == LINE_FEED then NewLine(t)
    else if code == CARRIAGE_RETURN then t.(column := 0)
    else if code == TAB then Tabbed(t)
    else if code == FORM_FEED then Cleared(t)
    else if code == BACKSPACE then Backspaced(t)
    else Advanced(Written(t, code))
  }

  function AfterAll(t: Text, codes: seq<Byte>): (t': Text)
    requires InGrid(t)
    ensures InGrid(t') && t'.columns == t.columns && t'.rows == t.rows
  {
    if codes == [] then t else After(AfterAll(t, codes[..|codes| - 1]), codes[|codes| - 1])
  }

  // ------------------------------------------------------------ where the cursor goes

  /** The rows stand so many higher, with as many rows in the paper's colour at the foot. */
  ghost predicate MovedUp(cells: seq<seq<Cell>>, t': Text, rows: nat)
    requires CellsFit(t') && |cells| == t'.rows && (forall r | 0 <= r < t'.rows :: |cells[r]| == t'.columns)
  {
    forall r, c | 0 <= r < t'.rows && 0 <= c < t'.columns ::
      t'.cells[r][c] == if r + rows < t'.rows then cells[r + rows][c] else Blank(t'.paper)
  }

  /** A character stands in the cell the cursor was upon, in the ink and on the paper of the moment, and
      no other is written; the cursor is one place on in reading order. From the last place of all
      everything first moves up by a row. */
  lemma CharacterGoes(t: Text, code: Byte)
    requires InGrid(t) && Printable(code)
    ensures var t' := After(t, code);
            var scrolled := if Position(t, t.row, t.column) == t.rows * t.columns - 1 then 1 else 0;
            && Position(t', t'.row, t'.column) == Position(t, t.row, t.column) + 1 - scrolled * t.columns
            && MovedUp(t.cells[t.row := t.cells[t.row][t.column := Drawn(code, t.ink, t.paper)]], t', scrolled)
  {
    hide Advanced, Written, MovedUp, Position, NewLine, Tabbed, Cleared, Backspaced;
    LastPlace(t);
    WrittenIs(t, code);
    SamePosition(t, Written(t, code), t.row, t.column);
    Advances(Written(t, code));
  }

  lemma WrittenIs(t: Text, code: Byte)
    requires InGrid(t)
    ensures var cells := t.cells[t.row := t.cells[t.row][t.column := Drawn(code, t.ink, t.paper)]];
            Written(t, code) == t.(cells := cells) && InGrid(Written(t, code))
  {
  }

  /** The last place of all is the last column's of the last row. */
  lemma LastPlace(t: Text)
    requires InGrid(t)
    ensures Position(t, t.row, t.column) == t.rows * t.columns - 1 <==> t.row + 1 == t.rows && t.column + 1 == t.columns
  {
    if t.row + 1 < t.rows {
      PlacesApart(t.row, t.rows - 1, t.columns);
    }
  }

  lemma Advances(t: Text)
    requires InGrid(t)
    ensures var t' := Advanced(t);
            var scrolled := if t.row + 1 == t.rows && t.column + 1 == t.columns then 1 else 0;
            && CellsFit(t') && t'.columns == t.columns && t'.rows == t.rows && MovedUp(t.cells, t', scrolled)
            && Position(t', t'.row, t'.column) == Position(t, t.row, t.column) + 1 - scrolled * t.columns
  {
  }

  /** A line feed goes to the first column of the next row, which at the foot is a new row beneath. */
  lemma LineFeedGoes(t: Text)
    requires InGrid(t)
    ensures var t' := After(t, LINE_FEED);
            && t'.column == 0 && t'.row == (if t.row == t.rows - 1 then t.row else t.row + 1)
            && MovedUp(t.cells, t', if t.row == t.rows - 1 then 1 else 0)
  {
  }

  predicate IsStop(t: Text, column: int) { t.column < column < t.columns && column % 8 == 0 }

  /** A tab goes to the first multiple of eight past the cursor, writing nothing, and begins a new line
      where its row has none. */
  lemma TabGoes(t: Text)
    requires InGrid(t)
    ensures var t' := After(t, TAB);
            if exists column :: IsStop(t, column) then
              && t' == t.(column := t'.column) && IsStop(t, t'.column)
              && forall column | IsStop(t, column) :: t'.column <= column
            else t' == After(t, LINE_FEED)
  {
    var next := (t.column / 8 + 1) * 8;
    if next < t.columns {
      assert IsStop(t, next);
    }
  }

  /** A form feed leaves the empty grid that the console began with, and a carriage return takes the
      cursor to its own row's first column and no more. */
  lemma PageAndReturn(t: Text)
    requires InGrid(t)
    ensures var t' := After(t, FORM_FEED);
            t'.row == t'.column == 0 && forall r, c | 0 <= r < t.rows && 0 <= c < t.columns ::
                                          t'.cells[r][c] == Blank(t.paper)
    ensures t.margin == t.paper ==> After(t, FORM_FEED) == Fresh(t.columns, t.rows, t.ink, t.paper)
    ensures After(t, CARRIAGE_RETURN) == t.(column := 0)
  {
  }

  /** A backspace goes one column back; from a first column it undoes the line feed that brought it there.
      It goes nowhere at the limit or before it, and writes nothing. */
  lemma BackspaceGoes(t: Text)
    requires InGrid(t)
    ensures After(t, BACKSPACE) == t.(row := After(t, BACKSPACE).row, column := After(t, BACKSPACE).column)
    ensures !PastLimit(t) || (t.row == t.limitRow && t.column == t.limitColumn) ==> After(t, BACKSPACE) == t
    ensures t.column > 0 && Position(t, t.row, t.column) > Position(t, t.limitRow, t.limitColumn) ==>
              After(t, BACKSPACE) == t.(column := t.column - 1)
    ensures var back := After(After(t, LINE_FEED), BACKSPACE);
            PastLimit(t) && t.rows > 1 ==>
              back.column == t.column && back.row == if t.row == t.rows - 1 then t.row - 1 else t.row
  {
    hide Position;
    PositionOrder(t, t.limitRow, t.limitColumn, t.row, t.column);
    PositionOrder(t, t.row, t.column, t.limitRow, t.limitColumn);
    var fed := After(t, LINE_FEED);
    PositionOrder(fed, fed.row, fed.column, fed.limitRow, fed.limitColumn);
    var back := Retreated(fed);
    PositionOrder(fed, fed.limitRow, fed.limitColumn, back.row, back.column);
    if t.column > 0 {
      PositionOrder(t, t.limitRow, t.limitColumn, t.row, t.column - 1);
    }
  }

  // ------------------------------------------------------------------ the erase limit

  ghost predicate PastLimit(t: Text) {
    Position(t, t.row, t.column) >= Position(t, t.limitRow, t.limitColumn)
  }

  /** How many rows a code scrolls: one where it begins a new line at the foot. */
  function Scrolls(t: Text, code: Byte): nat {
    if t.row + 1 < t.rows || code == CARRIAGE_RETURN || code == BACKSPACE || code == FORM_FEED then 0
    else if code == LINE_FEED then 1
    else if code == TAB then if (t.column / 8 + 1) * 8 >= t.columns then 1 else 0
    else if t.column + 1 < t.columns then 0 else 1
  }

  function ScrollsOfAll(t: Text, codes: seq<Byte>): nat
    requires InGrid(t)
  {
    if codes == [] then 0
    else ScrollsOfAll(t, codes[..|codes| - 1])
         + Scrolls(AfterAll(t, codes[..|codes| - 1]), codes[|codes| - 1])
  }

  /** Every cell before the limit of the second text is the cell so many rows below it of the first, and
      was before the limit there. */
  ghost predicate Protected(t: Text, t': Text, scrolled: nat)
    requires InGrid(t) && InGrid(t') && t'.columns == t.columns && t'.rows == t.rows
  {
    forall r, c | 0 <= r < t.rows && 0 <= c < t.columns &&
                  Position(t', r, c) < Position(t', t'.limitRow, t'.limitColumn) ::
      && r + scrolled < t.rows && t'.cells[r][c] == t.cells[r + scrolled][c]
      && Position(t, r + scrolled, c) < Position(t, t.limitRow, t.limitColumn)
  }

  /** The limit is where it was, but for the rows scrolled away above it. */
  ghost predicate LimitMoved(t: Text, t': Text, scrolled: nat) {
    if scrolled <= t.limitRow then t'.limitRow == t.limitRow - scrolled && t'.limitColumn == t.limitColumn
    else t'.limitRow == 0 && t'.limitColumn == 0
  }

  lemma ProtectedByBackspace(t: Text)
    requires InGrid(t) && PastLimit(t)
    ensures PastLimit(Backspaced(t))
  {
    hide Position;
    var t' := Backspaced(t);
    PositionOrder(t, t.limitRow, t.limitColumn, t'.row, t'.column);
    PositionOrder(t, t.row, t.column, t.limitRow, t.limitColumn);
    PositionOrder(t', t'.limitRow, t'.limitColumn, t'.row, t'.column);
  }

  /** A carriage return comes before the limit where the two stand in one row and the limit is not its
      first cell; a form feed drops the limit unless that is the first cell of all. */
  predicate Harmless(t: Text, code: Byte) {
    && (code == CARRIAGE_RETURN ==> t.limitRow < t.row || t.limitColumn == 0)
    && (code == FORM_FEED ==> t.limitRow == 0 && t.limitColumn == 0)
  }

  lemma ProtectedStep(t: Text, code: Byte)
    requires InGrid(t) && PastLimit(t) && Harmless(t, code)
    ensures PastLimit(After(t, code)) && LimitMoved(t, After(t, code), Scrolls(t, code))
    ensures Protected(t, After(t, code), Scrolls(t, code))
  {
    hide Position;
    var t' := After(t, code);
    if code == BACKSPACE {
      ProtectedByBackspace(t);
      forall r, c ensures Position(t', r, c) == Position(t, r, c) {
        SamePosition(t, t', r, c);
      }
      return;
    }
    PositionOrder(t, t.limitRow, t.limitColumn, t.row, t.column);
    PositionOrder(t', t'.limitRow, t'.limitColumn, t'.row, t'.column);
    forall r, c | 0 <= r < t.rows && 0 <= c < t.columns &&
                  Position(t', r, c) < Position(t', t'.limitRow, t'.limitColumn)
      ensures r + Scrolls(t, code) < t.rows && t'.cells[r][c] == t.cells[r + Scrolls(t, code)][c]
      ensures Position(t, r + Scrolls(t, code), c) < Position(t, t.limitRow, t.limitColumn)
    {
      PositionOrder(t', t'.limitRow, t'.limitColumn, r, c);
      PositionOrder(t, t.limitRow, t.limitColumn, r + Scrolls(t, code), c);
    }
  }

  lemma HarmfulStep(t: Text, code: Byte)
    requires InGrid(t) && PastLimit(t) && !Harmless(t, code)
    ensures code == CARRIAGE_RETURN ==> !PastLimit(After(t, code))
    ensures code == FORM_FEED ==> !LimitMoved(t, After(t, code), 0)
    ensures Scrolls(t, code) == 0
  {
    hide Position;
    var t' := After(t, code);
    PositionOrder(t, t.limitRow, t.limitColumn, t.row, t.column);
    PositionOrder(t', t'.limitRow, t'.limitColumn, t'.row, t'.column);
  }

  lemma SamePosition(t: Text, t': Text, row: int, column: int)
    requires t'.columns == t.columns
    ensures Position(t', row, column) == Position(t, row, column)
  {
  }

  lemma ProtectedChain(a: Text, b: Text, c: Text, first: nat, second: nat)
    requires InGrid(a) && InGrid(b) && InGrid(c)
    requires a.columns == b.columns == c.columns && a.rows == b.rows == c.rows
    requires Protected(a, b, first) && Protected(b, c, second)
    ensures Protected(a, c, first + second)
  {
    hide Position;
    forall r, k | 0 <= r < a.rows && 0 <= k < a.columns &&
                  Position(c, r, k) < Position(c, c.limitRow, c.limitColumn)
      ensures r + first + second < a.rows && c.cells[r][k] == a.cells[r + first + second][k]
      ensures Position(a, r + first + second, k) < Position(a, a.limitRow, a.limitColumn)
    {
      assert c.cells[r][k] == b.cells[r + second][k];
    }
  }

  /** The cursor has not come before the limit, the limit is where it was but for scrolling, and no
      character before it has been erased: each has moved up with its row until scrolled away. */
  ghost predicate StillProtected(t: Text, codes: seq<Byte>)
    requires InGrid(t)
  {
    var t' := AfterAll(t, codes);
    PastLimit(t') && Protected(t, t', ScrollsOfAll(t, codes)) && LimitMoved(t, t', ScrollsOfAll(t, codes))
  }

  lemma {:induction false} ProtectedAfter(t: Text, codes: seq<Byte>)
    requires InGrid(t) && PastLimit(t)
    requires forall n | 0 <= n < |codes| :: Harmless(AfterAll(t, codes[..n]), codes[n])
    ensures StillProtected(t, codes)
  {
    hide Position, After, Scrolls, Harmless;
    if codes != [] {
      var init, last := codes[..|codes| - 1], codes[|codes| - 1];
      assert forall n | 0 <= n < |init| :: init[..n] == codes[..n];
      ProtectedAfter(t, init);
      var before := AfterAll(t, init);
      assert codes[..|codes| - 1] == init;
      ProtectedStep(before, last);
      ProtectedChain(t, before, After(before, last), ScrollsOfAll(t, init), Scrolls(before, last));
    }
  }

  /** Whatever is typed after the erase limit is set, the limit holds all along exactly when every return
      and every form feed among it is harmless where it comes. */
  lemma ProtectedRun(t: Text, codes: seq<Byte>)
    requires InGrid(t) && PastLimit(t)
    ensures (forall n | 0 <= n <= |codes| :: StillProtected(t, codes[..n])) <==>
            (forall n | 0 <= n < |codes| :: Harmless(AfterAll(t, codes[..n]), codes[n]))
  {
    hide Position, After, Scrolls, Harmless, StillProtected;
    if forall n | 0 <= n < |codes| :: Harmless(AfterAll(t, codes[..n]), codes[n]) {
      forall n | 0 <= n <= |codes| ensures StillProtected(t, codes[..n]) {
        assert forall m | 0 <= m < n :: codes[..n][..m] == codes[..m] && codes[..n][m] == codes[m];
        ProtectedAfter(t, codes[..n]);
      }
    } else {
      var n :| 0 <= n < |codes| && !Harmless(AfterAll(t, codes[..n]), codes[n]);
      if StillProtected(t, codes[..n]) {
        HarmEnds(t, codes, n);
      }
    }
  }

  /** A return or a form feed that is not harmless ends the protection there. */
  lemma HarmEnds(t: Text, codes: seq<Byte>, n: nat)
    requires InGrid(t) && n < |codes| && StillProtected(t, codes[..n])
    requires !Harmless(AfterAll(t, codes[..n]), codes[n])
    ensures !StillProtected(t, codes[..n + 1])
  {
    hide Position, After, Scrolls, Harmless, Protected;
    assert codes[..n + 1][..n] == codes[..n];
    HarmfulStep(AfterAll(t, codes[..n]), codes[n]);
    HarmfulIs(AfterAll(t, codes[..n]), codes[n]);
  }

  lemma HarmfulIs(t: Text, code: Byte)
    requires !Harmless(t, code)
    ensures code == CARRIAGE_RETURN || code == FORM_FEED
  {
  }

  /** What comes of the other kind of return: the next character is drawn over one before the limit. */
  lemma ReturnOverwrites(t: Text, code: Byte)
    requires InGrid(t) && PastLimit(t) && !Harmless(t, CARRIAGE_RETURN) && Printable(code)
    ensures Position(t, t.row, 0) < Position(t, t.limitRow, t.limitColumn)
    ensures After(After(t, CARRIAGE_RETURN), code).cells[t.row][0] == Drawn(code, t.ink, t.paper)
  {
    hide Position;
    PositionOrder(t, t.limitRow, t.limitColumn, t.row, t.column);
    PositionOrder(t, t.limitRow, t.limitColumn, t.row, 0);
  }

  // ---------------------------------------------------------------------- erasing

  /** Where a character written at the cursor stands once it has been written. */
  function CellRow(t: Text): int {
    if t.column + 1 == t.columns && t.row + 1 == t.rows then t.row - 1 else t.row
  }

  /** A backspace after a character returns to the character's own cell, whether or not its writing
      wrapped. */
  lemma BackToIt(t: Text, code: Byte)
    requires InGrid(t) && Printable(code) && PastLimit(t) && (t.rows > 1 || t.column + 1 < t.columns)
    ensures var written := After(t, code);
            var back := After(written, BACKSPACE);
            && 0 <= CellRow(t) && back.row == CellRow(t) && back.column == t.column && PastLimit(back)
            && back.cells == written.cells && back.ink == t.ink && back.paper == t.paper
            && back.limitRow == written.limitRow && back.limitColumn == written.limitColumn
            && (CellRow(t) == t.row ==> back.limitRow == t.limitRow && back.limitColumn == t.limitColumn)
    ensures After(t, code).cells[CellRow(t)][t.column] == Drawn(code, t.ink, t.paper)
    ensures CellRow(t) == t.row ==> After(t, code).cells == Written(t, code).cells
    ensures t.column + 1 == t.columns ==> CellRow(t) + 1 < t.rows
  {
    hide Position;
    var written := After(t, code);
    PositionOrder(t, t.limitRow, t.limitColumn, t.row, t.column);
    PositionOrder(written, written.row, written.column, written.limitRow, written.limitColumn);
    PositionOrder(written, written.limitRow, written.limitColumn, CellRow(t), t.column);
    var back := After(written, BACKSPACE);
    PositionOrder(back, back.limitRow, back.limitColumn, back.row, back.column);
  }

  /** Backspace, space, backspace, after a character, which is how a caller erases it: the cursor stands
      again upon the character's cell, a space has taken its place, and no other cell, nor the limit,
      differs from what the character's own writing left. */
  ghost predicate Erases(t: Text, code: Byte)
    requires InGrid(t)
  {
    var written := After(t, code);
    var erased := After(After(After(written, BACKSPACE), SPACE), BACKSPACE);
    var row := CellRow(t);
    && 0 <= row && written.cells[row][t.column] == Drawn(code, t.ink, t.paper)
    && erased.row == row && erased.column == t.column
    && erased.limitRow == written.limitRow && erased.limitColumn == written.limitColumn
    && erased.cells == written.cells[row := written.cells[row][t.column := Drawn(SPACE, t.ink, t.paper)]]
  }

  lemma ErasesPastLimit(t: Text, code: Byte)
    requires InGrid(t) && Printable(code) && PastLimit(t) && (t.rows > 1 || t.column + 1 < t.columns)
    ensures Erases(t, code)
  {
    hide Position, After, PastLimit;
    BackToIt(t, code);
    BackToIt(After(After(t, code), BACKSPACE), SPACE);
  }

  /** Before the limit a backspace goes nowhere, and the erasure ends upon a later cell. */
  lemma NoErasureBeforeLimit(t: Text, code: Byte)
    requires InGrid(t) && Printable(code) && !PastLimit(t)
    ensures !Erases(t, code)
  {
    hide Position;
    var written := After(t, code);
    PositionOrder(t, t.limitRow, t.limitColumn, t.row, t.column);
    PositionOrder(written, written.row, written.column, written.limitRow, written.limitColumn);
    assert After(written, BACKSPACE) == written;
    var spaced := After(written, SPACE);
    PositionOrder(spaced, spaced.row, spaced.column, spaced.limitRow, spaced.limitColumn);
  }

  /** The erasure works exactly at the limit or past it, on a grid of more rows than one or short of the
      last column. */
  lemma ErasureErases(t: Text, code: Byte)
    requires InGrid(t) && Printable(code)
    ensures Erases(t, code) <==> PastLimit(t) && (t.rows > 1 || t.column + 1 < t.columns)
  {
    hide Position, After, PastLimit;
    if !PastLimit(t) {
      NoErasureBeforeLimit(t, code);
    } else if t.rows > 1 || t.column + 1 < t.columns {
      ErasesPastLimit(t, code);
    } else {
      assert CellRow(t) == -1;
    }
  }

  /** On a grid of one row a character written in the last column is scrolled away, and the erasure
      cannot find it: the condition above is needed. */
  lemma OneRowForgets(t: Text, code: Byte)
    requires InGrid(t) && Printable(code) && t.rows == 1 && t.column + 1 == t.columns
    ensures After(t, code).cells == [BlankRow(t.columns, t.paper)]
    ensures After(After(t, code), BACKSPACE) == After(t, code)
  {
    hide Position;
    var written := After(t, code);
    PositionOrder(written, written.row, written.column, written.limitRow, written.limitColumn);
  }
}
