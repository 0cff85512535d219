/** The console: a grid of text drawn upon a surface, whose pixels are always the rendering of the text. */
module Consoles {
  import opened Options
  import opened Rectangles
  import opened Surfaces
  import opened Compositors
  import opened TextGrids

  const MAXIMUM_ROWS := 512
  const EARLY_CAPACITY := 4096

  /** Eight rows of bits. */
  type Glyph = g: seq<Byte> | |g| == 8 witness [0, 0, 0, 0, 0, 0, 0, 0]

  type Font = Byte -> Glyph

  /** The colour of one pixel of a cell. */
  function CellShade(font: Font, cell: Cell, row: int, column: int): Colour {
    match cell
    case Blank(paper) => paper
    case Drawn(code, ink, paper) => Shade(font(code), row, column, ink, paper)
  }

  /** What the text shows at a pixel. */
  function Rendering(font: Font, t: Text, x: int, y: int): Colour
    requires CellsFit(t)
  {
    if 0 <= x < 8 * t.columns && 0 <= y < 8 * t.rows
    then CellShade(font, t.cells[y / 8][x / 8], y % 8, x % 8) else t.margin
  }

  /** A cell shows its character's glyph, the leftmost pixel of a row by the row's highest bit, in the ink
      where it is lit and on the paper where it is not; a cleared cell shows paper, and what the grid does
      not reach shows the margin. */
  lemma CellShows(font: Font, t: Text, row: int, column: int, i: int, j: int)
    requires CellsFit(t) && 0 <= row < t.rows && 0 <= column < t.columns && 0 <= i < 8 && 0 <= j < 8
    ensures Rendering(font, t, 8 * column + i, 8 * row + j) ==
            match t.cells[row][column]
            case Blank(paper) => paper
            case Drawn(code, ink, paper) => if Lit(font(code)[j], i) then ink else paper
    ensures Rendering(font, t, 8 * t.columns + i, j) == Rendering(font, t, i, 8 * t.rows + j) == t.margin
  {
  }

  /** The rendering of the scrolled text is the rendering of the text eight pixels below, with a cleared
      row at its foot. */
  lemma ScrolledShows(font: Font, t: Text, x: int, y: int)
    requires AtEdge(t)
    ensures Rendering(font, Scrolled(t), x, y) ==
            if Contains(Rectangle(0, 0, 8 * t.columns, 8 * (t.rows - 1)), x, y) then Rendering(font, t, x, y + 8)
            else if Contains(Rectangle(0, 8 * (t.rows - 1), 8 * t.columns, 8), x, y) then t.paper
            else Rendering(font, t, x, y)
  {
    hide Shade;
    var s := Scrolled(t);
    if 0 <= x < 8 * t.columns && 0 <= y < 8 * (t.rows - 1) {
      assert s.cells[y / 8] == t.cells[y / 8 + 1] && (y + 8) / 8 == y / 8 + 1 && (y + 8) % 8 == y % 8;
    } else if 0 <= x < 8 * t.columns && 8 * (t.rows - 1) <= y < 8 * t.rows {
      assert y / 8 == t.rows - 1 && s.cells[t.rows - 1] == BlankRow(t.columns, t.paper);
    }
  }

  /** The rendering of the text with a character written differs in the character's cell. */
  lemma WrittenShows(font: Font, t: Text, code: Byte, x: int, y: int)
    requires InGrid(t)
    ensures Rendering(font, Written(t, code), x, y) ==
            if Contains(Rectangle(8 * t.column, 8 * t.row, 8, 8), x, y)
            then Shade(font(code), y - 8 * t.row, x - 8 * t.column, t.ink, t.paper)
            else Rendering(font, t, x, y)
  {
    hide Shade;
    if 0 <= x < 8 * t.columns && 0 <= y < 8 * t.rows {
      if Contains(Rectangle(8 * t.column, 8 * t.row, 8, 8), x, y) {
        assert y / 8 == t.row && x / 8 == t.column;
      } else {
        assert y / 8 != t.row || x / 8 != t.column;
      }
    }
  }

  /** A grid with nothing written upon it shows its paper. */
  lemma FreshShows(font: Font, t: Text)
    requires CellsFit(t) && t.cells == Cleared(t).cells && t.margin == t.paper
    ensures forall x, y :: Rendering(font, t, x, y) == t.paper
  {
    hide Shade;
  }

  class Console {
    const surface: Surface
    /** The compositor whose back buffer the surface is, or none where it is the display's own. */
    const compositor: Compositor?
    const font: Font
    const columns: int
    const rows: int
    const rowEnds: array<int>
    var column: int
    var row: int
    var limitColumn: int
    var limitRow: int
    var ink: Colour
    var paper: Colour
    var suspended: bool
    ghost var cells: seq<seq<Cell>>
    ghost var margin: Colour

    constructor (surface: Surface, compositor: Compositor?, font: Font, ink: Colour, paper: Colour)
      requires surface.Valid() && surface.width >= 8 && surface.height >= 8
      modifies surface`clip, surface.memory
      ensures Valid() && fresh(rowEnds) && this.surface == surface && this.compositor == compositor
      ensures this.font == font && !suspended
      ensures columns == surface.width / 8 && rows == Min(surface.height / 8, MAXIMUM_ROWS)
      ensures Content() == Fresh(columns, rows, ink, paper)
    {
      this.surface, this.compositor, this.font := surface, compositor, font;
      columns := surface.width / 8;
      rows := if surface.height / 8 > MAXIMUM_ROWS then MAXIMUM_ROWS else surface.height / 8;
      this.ink, this.paper := ink, paper;
      column, row, limitColumn, limitRow := 0, 0, 0, 0;
      suspended := false;
      cells := Fresh(surface.width / 8, Min(surface.height / 8, MAXIMUM_ROWS), ink, paper).cells;
      margin := paper;
      rowEnds := new int[MAXIMUM_ROWS];
      new;
      ForgetRowEnds();
      surface.ResetClip();
      surface.Clear(paper);
      FreshShows(font, Content());
    }

    ghost predicate Shape()
      reads surface
    {
      && surface.Valid() && surface.clip == ClipReset(Bounds(surface.width, surface.height))
      && 1 <= columns == surface.width / 8 && 1 <= rows <= MAXIMUM_ROWS && 8 * rows <= surface.height
      && rowEnds.Length == MAXIMUM_ROWS
    }

    ghost function Content(): Text
      requires 0 <= rows <= rowEnds.Length
      reads this, rowEnds
    {
      Text(columns, rows, cells, column, row, limitColumn, limitRow, rowEnds[..rows], ink, paper, margin)
    }

    /** The pixels are the rendering of the text. */
    ghost predicate Valid()
      reads this, rowEnds, surface, surface.memory
    {
      && Shape() && InGrid(Content())
      && Renders(Content())
    }

    ghost predicate Renders(t: Text)
      requires surface.Shaped() && CellsFit(t)
      reads surface.memory
    {
      forall x, y | surface.InBounds(x, y) ::
        surface.Pixel(x, y) == Truncate(Rendering(font, t, x, y), surface.depth)
    }

    /** The pixels' part of a scroll: the cells' rows below the first are blitted eight pixels higher, and
        the last row is filled with paper. */
    method MovePixels()
      requires Shape()
      modifies surface.memory
      ensures forall x, y | surface.InBounds(x, y) ::
                surface.Pixel(x, y) ==
                if Contains(Rectangle(0, 0, 8 * columns, 8 * (rows - 1)), x, y) then old(surface.Pixel(x, y + 8))
                else if Contains(Rectangle(0, 8 * (rows - 1), 8 * columns, 8), x, y)
                then Truncate(paper, surface.depth)
                else old(surface.Pixel(x, y))
    {
      hide Truncate, Spelled, Lane;
      var body := Rectangle(0, 8, columns * 8, (rows - 1) * 8);
      var last := Rectangle(0, (rows - 1) * 8, columns * 8, 8);
      var done := surface.Blit(0, 0, surface, body);
      assert done;
      surface.FillRectangle(last, paper);
    }

    method ScrollPixels()
      requires Shape() && AtEdge(Content()) && Renders(Content())
      modifies surface.memory
      ensures Renders(Scrolled(Content()))
    {
      hide Truncate, Rendering;
      ghost var t := Content();
      MovePixels();
      forall x, y | surface.InBounds(x, y)
        ensures surface.Pixel(x, y) == Truncate(Rendering(font, Scrolled(t), x, y), surface.depth)
      {
        ScrolledShows(font, t, x, y);
      }
    }

    method ForgetRowEnds()
      requires 0 <= rows <= rowEnds.Length
      modifies rowEnds
      ensures rowEnds[..rows] == seq(rows, r => 0)
    {
      for r := 0 to rows
        invariant forall k | 0 <= k < r :: rowEnds[k] == 0
      {
        rowEnds[r] := 0;
      }
    }

    /** The row ends move up with the rows they describe. */
    method ShiftRowEnds()
      requires 1 <= rows <= rowEnds.Length
      modifies rowEnds
      ensures rowEnds[..rows] == old(rowEnds[1..rows]) + [0]
    {
      var r := 0;
      while r + 1 < rows
        invariant 0 <= r < rows
        invariant forall k | 0 <= k < r :: rowEnds[k] == old(rowEnds[k + 1])
        invariant forall k | r <= k < rows :: rowEnds[k] == old(rowEnds[k])
      {
        rowEnds[r] := rowEnds[r + 1];
        r := r + 1;
      }
      rowEnds[rows - 1] := 0;
    }

    /** The surface is another description of the same pixels. */
    ghost predicate Describes(back: Surface) {
      && surface.memory == back.memory && surface.width == back.width && surface.height == back.height
      && surface.depth == back.depth
    }

    /** What is drawn here is reported: where there is a compositor, the display is stale within its damage
        alone. */
    ghost predicate Reporting()
      reads if compositor != null then {compositor, compositor.front, compositor.front.memory, compositor.back.memory}
                                       + LayerMemories(compositor.layers) else {}
    {
      compositor != null ==>
        && compositor.Valid()
        && Describes(compositor.back) && surface != compositor.front
        && surface.memory !in LayerMemories(compositor.layers)
    }

    lemma RendersAlike(t: Text, t': Text)
      requires surface.Shaped() && CellsFit(t) && Renders(t)
      requires t'.columns == t.columns && t'.rows == t.rows && t'.cells == t.cells && t'.margin == t.margin
      ensures CellsFit(t') && Renders(t')
    {
    }

    /** To whom a change is reported. */
    ghost function Reported(): set<Compositor> {
      if compositor != null then {compositor} else {}
    }

    twostate predicate LayersAsTheyWere()
      reads Reported()
    {
      compositor != null ==>
        compositor.layers == old(compositor.layers) && compositor.suspended == old(compositor.suspended)
    }

    /** Reports that the whole surface has changed. */
    method ReportAll()
      requires compositor != null ==> compositor.Paired() && compositor.LayersSound()
      modifies Reported()
      ensures LayersAsTheyWere() && (compositor != null ==> compositor.Valid())
    {
      if compositor != null {
        compositor.InvalidateAll();
      }
    }

    /** The whole of a scroll but its report: pixels, cells, limit and row ends. */
    method ScrollText()
      requires Shape() && AtEdge(Content()) && Renders(Content())
      modifies this`limitRow, this`limitColumn, this`cells, rowEnds, surface.memory
      ensures Content() == Scrolled(old(Content()))
      ensures CellsFit(Content()) && Renders(Content())
    {
      hide Truncate, Rendering;
      ghost var t := Content();
      ScrollPixels();
      if limitRow > 0 {
        limitRow := limitRow - 1;
      } else {
        limitColumn := 0;
      }
      ShiftRowEnds();
      cells := Scrolled(t).cells;
      RendersAlike(Scrolled(t), Content());
    }

    /** Scrolls, and reports that everything has changed. */
    method Scroll()
      requires Shape() && AtEdge(Content()) && Renders(Content()) && Reporting()
      modifies this`limitRow, this`limitColumn, this`cells, rowEnds, surface.memory, Reported()
      ensures Content() == Scrolled(old(Content())) && Reporting()
      ensures CellsFit(Content()) && Renders(Content()) && LayersAsTheyWere()
    {
      hide Truncate, Rendering, Renders, Compositor.ValidBut, AtEdge, Scrolled;
      if compositor != null {
        ReportingParts();
      }
      ScrollText();
      ReportAll();
    }

    lemma ReportingParts()
      requires Reporting() && compositor != null
      ensures compositor.Paired() && compositor.LayersSound()
    {
    }

    /** Ends the row: its length is kept, and the cursor begins another, which a scroll makes at the foot. */
    method NewLine()
      requires Shape() && AtEdge(Content()) && Renders(Content()) && Reporting()
      modifies this`limitRow, this`limitColumn, this`cells, this`column, this`row
      modifies rowEnds, surface.memory, Reported()
      ensures Valid() && Reporting() && LayersAsTheyWere()
      ensures Content() == TextGrids.NewLine(old(Content()))
    {
      hide Truncate, Rendering, Compositor.ValidBut;
      ghost var t := Content();
      rowEnds[row] := column;
      column := 0;
      assert rowEnds[..rows] == t.rowEnds[row := t.column];
      RendersAlike(t, Content());
      if row + 1 < rows {
        row := row + 1;
        RendersAlike(t, Content());
        return;
      }
      ghost var left := Content();
      Scroll();
    }

    /** The cursor goes right, or begins another row once the row is full. */
    method Advance()
      requires Valid() && Reporting()
      modifies this`limitRow, this`limitColumn, this`cells, this`column, this`row
      modifies rowEnds, surface.memory, Reported()
      ensures Valid() && Reporting() && LayersAsTheyWere() && Content() == Advanced(old(Content()))
    {
      hide Truncate, Rendering, Compositor.ValidBut;
      ghost var t := Content();
      column := column + 1;
      RendersAlike(t, Content());
      if column >= columns {
        NewLine();
      }
    }

    /** The cursor goes to the following tab stop, or begins another row where none is left. */
    method Tab()
      requires Valid() && Reporting()
      modifies this`limitRow, this`limitColumn, this`cells, this`column, this`row
      modifies rowEnds, surface.memory, Reported()
      ensures Valid() && Reporting() && LayersAsTheyWere() && Content() == Tabbed(old(Content()))
    {
      hide Truncate, Rendering, Compositor.ValidBut;
      var next := (column / 8 + 1) * 8;
      if next >= columns {
        NewLine();
      } else {
        ghost var t := Content();
        column := next;
        RendersAlike(t, Content());
      }
    }

    /** The cursor goes left, or behind the text of the row above, but not before the limit. */
    method Backspace()
      requires Valid()
      modifies this`column, this`row
      ensures Valid() && Content() == Backspaced(old(Content()))
    {
      hide Truncate, Rendering;
      ghost var t := Content();
      var limit := limitRow * columns + limitColumn;
      if row * columns + column <= limit {
        return;
      }
      if column > 0 {
        column := column - 1;
      } else if row > 0 {
        assert t.rowEnds[row - 1] == rowEnds[row - 1];
        var end := rowEnds[row - 1];
        row := row - 1;
        column := if end < columns then end else columns - 1;
      } else {
        return;
      }
      if row * columns + column < limit {
        row, column := limitRow, limitColumn;
      }
      RendersAlike(t, Content());
    }

    method SetColour(ink: Colour, paper: Colour)
      requires Valid()
      modifies this`ink, this`paper
      ensures Valid() && Content() == old(Content()).(ink := ink, paper := paper)
    {
      hide Truncate, Rendering;
      ghost var t := Content();
      this.ink, this.paper := ink, paper;
      RendersAlike(t, Content());
    }

    /** Marks where the cursor stands as the place a backspace does not pass. */
    method SetEraseLimit()
      requires Valid()
      modifies this`limitColumn, this`limitRow
      ensures Valid() && Content() == old(Content()).(limitColumn := column, limitRow := row)
    {
      hide Truncate, Rendering;
      ghost var t := Content();
      limitColumn, limitRow := column, row;
      RendersAlike(t, Content());
    }

    /** Draws a character's glyph upon its paper in the cursor's cell. */
    method DrawCell(code: Byte)
      requires Valid()
      modifies this`cells, surface.memory
      ensures Valid() && Content() == Written(old(Content()), code)
      ensures forall x, y | surface.InBounds(x, y) && !Contains(Rectangle(8 * column, 8 * row, 8, 8), x, y) ::
                surface.Pixel(x, y) == old(surface.Pixel(x, y))
    {
      hide Truncate, Rendering, Shade;
      ghost var t := Content();
      surface.PatternBlock(column * 8, row * 8, font(code), 8, ink, paper);
      cells := Written(t, code).cells;
      forall x, y | surface.InBounds(x, y)
        ensures surface.Pixel(x, y) == Truncate(Rendering(font, Written(t, code), x, y), surface.depth)
      {
        WrittenShows(font, t, code, x, y);
      }
      assert Renders(Written(t, code));
    }

    lemma SamePixels(back: Surface)
      requires Describes(back) && surface.Shaped() && back.Shaped()
      ensures forall x, y | surface.InBounds(x, y) :: back.Pixel(x, y) == surface.Pixel(x, y)
    {
    }

    /** Draws a character in the cursor's cell and reports the cell as changed. */
    method WriteCell(code: Byte)
      requires Valid() && Reporting()
      modifies this`cells, surface.memory, Reported()
      ensures Valid() && Reporting() && LayersAsTheyWere() && Content() == Written(old(Content()), code)
    {
      hide Truncate, Rendering, InGrid, Renders;
      if compositor == null {
        DrawCell(code);
        return;
      }
      SamePixels(compositor.back);
      DrawCell(code);
      SamePixels(compositor.back);
      var cell := Rectangle(column * 8, row * 8, 8, 8);
      assert compositor.BackKept(cell);
      compositor.Stale(cell);
      compositor.Invalidate(cell);
    }

    method ClearText()
      requires Valid()
      modifies this`column, this`row, this`limitColumn, this`limitRow, this`cells, this`margin
      modifies rowEnds, surface.memory
      ensures Valid() && Content() == Cleared(old(Content()))
    {
      hide Truncate, Rendering;
      ghost var t := Content();
      surface.Clear(paper);
      column, row, limitColumn, limitRow := 0, 0, 0, 0;
      ForgetRowEnds();
      cells, margin := Cleared(t).cells, paper;
      FreshShows(font, Cleared(t));
    }

    /** Clears the whole surface, and takes the cursor and the limit to its first cell. */
    method Clear()
      requires Valid() && Reporting()
      modifies this`column, this`row, this`limitColumn, this`limitRow, this`cells, this`margin
      modifies rowEnds, surface.memory, Reported()
      ensures Valid() && Reporting() && LayersAsTheyWere() && Content() == Cleared(old(Content()))
    {
      hide Truncate, Rendering, Compositor.ValidBut, Renders, InGrid, Cleared;
      if compositor != null {
        ReportingParts();
      }
      ClearText();
      ReportAll();
    }

    /** Writes one character: what it draws is drawn and reported, and the text is afterwards what the
        character makes of it. A console suspended does nothing. */
    method WriteCharacter(code: Byte)
      requires Valid() && Reporting()
      modifies this`column, this`row, this`limitColumn, this`limitRow, this`cells, this`margin
      modifies rowEnds, surface.memory, Reported()
      ensures Valid() && Reporting() && LayersAsTheyWere()
      ensures Content() == if suspended then old(Content()) else After(old(Content()), code)
    {
      hide Truncate, Rendering, Compositor.ValidBut, Renders, AtEdge;
      if suspended {
        return;
      }
      if code == LINE_FEED {
        NewLine();
      } else if code == CARRIAGE_RETURN {
        Return();
      } else if code == TAB {
        Tab();
      } else if code == FORM_FEED {
        Clear();
      } else if code == BACKSPACE {
        Backspace();
      } else {
        WriteCell(code);
        Advance();
      }
    }

    method Return()
      requires Valid()
      modifies this`column
      ensures Valid() && Content() == old(Content()).(column := 0)
    {
      hide Truncate, Rendering;
      ghost var t := Content();
      column := 0;
      RendersAlike(t, Content());
    }

    method WriteString(codes: seq<Byte>)
      requires Valid() && Reporting()
      modifies this`column, this`row, this`limitColumn, this`limitRow, this`cells, this`margin
      modifies rowEnds, surface.memory, Reported()
      ensures Valid() && Reporting() && LayersAsTheyWere()
      ensures Content() == if suspended then old(Content()) else AfterAll(old(Content()), codes)
    {
      hide Compositor.ValidBut, Renders, InGrid, After;
      var index := 0;
      assert codes[..0] == [];
      while index < |codes|
        invariant 0 <= index <= |codes| && Valid() && Reporting() && LayersAsTheyWere()
        invariant Content() == if suspended then old(Content()) else AfterAll(old(Content()), codes[..index])
      {
        WriteCharacter(codes[index]);
        index := index + 1;
        assert codes[..index][..index - 1] == codes[..index - 1];
      }
      assert codes[..index] == codes;
    }

    method Suspend()
      requires Valid()
      modifies this`suspended
      ensures Valid() && Content() == old(Content()) && suspended
    {
      hide Truncate, Rendering;
      suspended := true;
      RendersAlike(old(Content()), Content());
    }
  }

  /** What is written before there is a console: its beginning, as much as fits, is kept for replay. */
  class EarlyLog {
    var buffer: seq<Byte>
    var dropped: nat
    ghost var written: seq<Byte>

    ghost predicate Valid()
      reads this
    {
      && buffer == written[..Min(|written|, EARLY_CAPACITY)]
      && dropped == |written| - |buffer|
    }

    constructor ()
      ensures Valid() && written == []
    {
      buffer, dropped, written := [], 0, [];
    }

    method Record(code: Byte)
      requires Valid()
      modifies this
      ensures Valid() && written == old(written) + [code]
    {
      if |buffer| < EARLY_CAPACITY {
        buffer := buffer + [code];
      } else {
        dropped := dropped + 1;
      }
      written := written + [code];
    }
  }

  /** Starts the console upon a surface, replaying what was written before; refused where there is no
      surface or it is smaller than one cell. The surface is cleared unreported, which the display
      shows in time only because a compositor just initialised has the whole of it to present. */
  method Start(surface: Surface?, compositor: Compositor?, font: Font, ink: Colour, paper: Colour, early: EarlyLog)
    returns (console: Console?)
    requires early.Valid() && (surface != null ==> surface.Valid())
    requires surface != null && compositor != null ==>
               && compositor.Valid() && compositor.damaged == Bounds(compositor.back.width, compositor.back.height)
               && surface.memory == compositor.back.memory && surface.width == compositor.back.width
               && surface.height == compositor.back.height && surface.depth == compositor.back.depth
               && surface != compositor.front && surface.memory !in LayerMemories(compositor.layers)
    modifies if surface != null then {surface, surface.memory} else {}
    modifies if compositor != null then {compositor} else {}
    ensures console == null <==> surface == null || surface.width < 8 || surface.height < 8
    ensures console != null ==>
              && fresh(console) && console.surface == surface && console.Valid() && console.Reporting()
              && (var shown := early.written[..Min(|early.written|, EARLY_CAPACITY)];
                  console.Content() == AfterAll(Fresh(console.columns, console.rows, ink, paper), shown))
  {
    hide Truncate, Rendering, After, Composite, Console.Renders;
    if surface == null || surface.width < 8 || surface.height < 8 {
      return null;
    }
    console := new Console(surface, compositor, font, ink, paper);
    console.WriteString(early.buffer);
  }
}
