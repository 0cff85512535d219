/** A run in which repainting the damage alone is not repainting everything: the focus passes from a
    window too narrow for its close glyph to another. */
module NarrowRun {
  import opened Options
  import opened Rectangles
  import opened Surfaces
  import opened Events
  import opened Windows
  import opened Stacking
  import opened Desk
  import opened WindowManagers

  const OTHER_X := 100
  const OTHER_WIDTH := 100

  /** A narrow window stands at the origin and an ample one to its right, above it in the stack. */
  ghost predicate SideBySide(table: seq<Window>, stack: seq<int>, a: int, b: int, width: int) {
    && stack == [a, b] && a != b && Live(table, a) && Live(table, b)
    && IsAt(table[a], 0, width) && IsAt(table[b], OTHER_X, OTHER_WIDTH)
  }

  predicate IsAt(w: Window, x: int, width: int) {
    && w.inUse && w.decorated && !w.minimised && w.layer.Normal?
    && w.x == x && w.y == 0 && w.width == width && w.height == MINIMUM_EXTENT
  }

  /** The tip of the narrow window's glyph is painted in the ink of its focus. */
  lemma TipShown(look: Look, table: seq<Window>, contents: seq<Colour>, stack: seq<int>, focused: int,
                 a: int, b: int, width: int)
    requires SideBySide(table, stack, a, b, width) && MINIMUM_EXTENT <= width < WIDTH_FOR_BAND
    ensures Shown(look, table, contents, stack, focused, 0, width) == Truncate(Ink(look, a == focused), look.depth)
    ensures a != b && Live(table, a)
  {
    hide Truncate, PaintOf;
    assert stack[..1] == [a];
    TipIsInk(look, table[a], a == focused, Pick(contents, a), OTHER_X, OTHER_X);
    PaintsItsFrame(look, table[b], b == focused, Pick(contents, b), 0, width);
  }

  /** Either window touches the screen. */
  lemma BothTouch(table: seq<Window>, stack: seq<int>, a: int, b: int, width: int, bounds: Rectangle)
    requires SideBySide(table, stack, a, b, width) && MINIMUM_EXTENT <= width
    requires bounds == Bounds(bounds.width, bounds.height) && bounds.width > OTHER_X && bounds.height > 0
    ensures Touching(table, stack, bounds) == stack
  {
    assert stack[..1] == [a] && stack[..1][..0] == [];
    assert Touching(table, [a], bounds) == [] + [a];
  }

  /** The two title bands enclose nothing of the screen's left edge. */
  lemma BandsLeaveTheEdge(manager: WindowManager, table: seq<Window>, stack: seq<int>, a: int, b: int, width: int,
                          y: int)
    requires SideBySide(table, stack, a, b, width)
    ensures !Contains(manager.MarkedBands(table, Nowhere, b, a), 0, y)
  {
  }

  lemma RingsLeaveThem(table: seq<Window>, table': seq<Window>, stack: seq<int>, a: int, b: int, width: int)
    requires SideBySide(table, stack, a, b, width) && SameButRings(table, table')
    ensures SideBySide(table', stack, a, b, width)
  {
    QueuedIs(table[a], table'[a]);
    QueuedIs(table[b], table'[b]);
  }

  /** A window just made stands where it was asked to, and the others as they did. */
  lemma MadeStands(manager: WindowManager, before: seq<Window>, after: seq<Window>, id: int, x: int, width: int,
                   title: string)
    requires 0 <= |after| - |before| && 0 <= id < |after| && after[id].surface != null && 0 <= x && 0 < width
    requires manager.screen.width >= OTHER_X + REACHABLE_WIDTH && x <= OTHER_X
    requires manager.screen.height >= TITLE_HEIGHT + 2 * BORDER
    requires var grown := before + Blanks(|after| - |before|);
             SameButRings(grown[id := manager.Opened(grown[id], x, 0, width, MINIMUM_EXTENT, title, Normal,
                                                     after[id].surface)], after)
    ensures IsAt(after[id], x, width)
    ensures forall i, x', width' | 0 <= i < |before| && i != id && IsAt(before[i], x', width') ::
              IsAt(after[i], x', width')
  {
    var grown := before + Blanks(|after| - |before|);
    var placed := grown[id := manager.Opened(grown[id], x, 0, width, MINIMUM_EXTENT, title, Normal,
                                             after[id].surface)];
    forall i | 0 <= i < |after| ensures after[i] == placed[i].(ring := after[i].ring) {
      QueuedIs(placed[i], after[i]);
    }
  }

  lemma AboveIt(table: seq<Window>, a: int, b: int)
    requires 0 <= a < |table| && 0 <= b < |table| && table[a].layer.Normal? && table[b].layer.Normal?
    ensures With(table, [], a) == [a] && With(table, [a], b) == [a, b]
  {
    TopIs(table, [], 1, 0);
    TopIs(table, [a], 1, 1);
  }

  /** Makes the two windows, the ample one taking the focus from the narrow one. */
  method MakeBoth(manager: WindowManager, width: int) returns (a: int, b: int)
    requires manager.Valid() && manager.Stack() == []
    requires MINIMUM_EXTENT <= width < WIDTH_FOR_BAND
    requires manager.screen.width >= OTHER_X + REACHABLE_WIDTH
    requires manager.screen.height >= TITLE_HEIGHT + 2 * BORDER
    modifies manager
    ensures manager.Valid() && manager.DamageKept()
    ensures a != WINDOW_NONE && b != WINDOW_NONE ==>
              && SideBySide(manager.table, manager.Stack(), a, b, width) && manager.focused == b
  {
    hide WindowManager.Valid, Passed, RootsNoticed, SameButRings, WindowManager.PlainPaper, With;
    hide WindowManager.Opened, IsAt, Blanks;
    ghost var none := manager.table;
    a := manager.Create(0, 0, width, MINIMUM_EXTENT, Some("narrow"), Normal);
    if a == WINDOW_NONE {
      return a, WINDOW_NONE;
    }
    ghost var one := manager.table;
    MadeStands(manager, none, one, a, 0, width, "narrow");
    StandingIs(one[a], 0, width);
    AboveIt(one, a, a);
    b := manager.Create(OTHER_X, 0, OTHER_WIDTH, MINIMUM_EXTENT, Some("ample"), Normal);
    if b == WINDOW_NONE {
      return;
    }
    assert (one + Blanks(|manager.table| - |one|))[a] == one[a];
    MadeStands(manager, one, manager.table, b, OTHER_X, OTHER_WIDTH, "ample");
    StandingIs(manager.table[a], 0, width);
    StandingIs(manager.table[b], OTHER_X, OTHER_WIDTH);
    AboveIt(manager.table, a, b);
  }

  lemma StandingIs(w: Window, x: int, width: int)
    requires IsAt(w, x, width)
    ensures w.inUse && w.layer.Normal?
  {
  }

  lemma ScreenStands(manager: WindowManager)
    requires manager.Valid()
    ensures manager.screen.Shaped() && 0 <= manager.stackCount <= |manager.stackSlots| && manager.DamageSound()
  {
    manager.CoreParts(WINDOW_NONE);
  }

  /** Damage that holds every point of the screen is the whole of it. */
  lemma WholeScreen(manager: WindowManager)
    requires manager.Valid() && manager.screen.width > 0 && manager.screen.height > 0
    requires forall x, y | manager.screen.InBounds(x, y) :: Contains(manager.Damage(), x, y)
    ensures manager.Damage() == Bounds(manager.screen.width, manager.screen.height)
  {
    hide WindowManager.Valid;
    ScreenStands(manager);
    assert manager.screen.InBounds(0, 0);
    assert manager.screen.InBounds(manager.screen.width - 1, manager.screen.height - 1);
    assert Contains(manager.Damage(), 0, 0);
    assert Contains(manager.Damage(), manager.screen.width - 1, manager.screen.height - 1);
    var whole := manager.Damage();
    assert Contains(whole, whole.x, whole.y) && Contains(whole, whole.x + whole.width - 1, whole.y + whole.height - 1);
  }

  /** The screen shows both; the focus given to the narrow window then shows in its band alone. */
  method PassTheFocus(manager: WindowManager, a: int, b: int, width: int)
    requires manager.Valid() && manager.Damage() == Nowhere && manager.focused == b
    requires SideBySide(manager.table, manager.Stack(), a, b, width) && MINIMUM_EXTENT <= width < WIDTH_FOR_BAND
    requires manager.screen.width >= OTHER_X + REACHABLE_WIDTH
    requires manager.screen.height >= TITLE_HEIGHT + 2 * BORDER
    requires manager.ShowsTouching(Bounds(manager.screen.width, manager.screen.height))
    requires Truncate(Ink(manager.look, true), manager.look.depth) !=
             Truncate(Ink(manager.look, false), manager.look.depth)
    modifies manager, manager.screen`clip, manager.screen.memory
    ensures manager.Valid() && manager.Damage() == Nowhere && !manager.ShowsAll()
  {
    hide WindowManager.Valid, Passed, Truncate, Shown, SideBySide, WindowManager.MarkedBands, Touching;
    ScreenStands(manager);
    ghost var screen, stack, before := manager.screen, manager.Stack(), manager.table;
    ghost var bounds := Bounds(screen.width, screen.height);
    BothTouch(before, stack, a, b, width, bounds);
    TipShown(manager.look, before, ContentsAt(before, 0, width), stack, b, a, b, width);
    BandsLeaveTheEdge(manager, before, stack, a, b, width, width);
    assert screen.InBounds(0, width) && Contains(bounds, 0, width);
    assert screen.Pixel(0, width) == Truncate(Ink(manager.look, false), manager.look.depth);
    manager.Focus(a);
    RingsLeaveThem(before, manager.table, stack, a, b, width);
    var composed := manager.Compose();
    ScreenStands(manager);
    TipShown(manager.look, manager.table, ContentsAt(manager.table, 0, width), stack, a, a, b, width);
    assert screen.Pixel(0, width) == Truncate(Ink(manager.look, false), manager.look.depth);
  }

  /** Made upon a screen, shown, and the focus given to the narrow window: what a repaint of everything
      would show is then not what the screen shows, however narrow the window is of the widths too narrow. */
  method FocusLeavesAPixel(screen: Surface, look: Look, encode: Option<(Byte, Byte, Byte) -> Colour>, width: int)
    returns (manager: WindowManager, made: bool)
    requires screen.Valid() && screen.depth == look.depth
    requires screen.clip == ClipReset(Bounds(screen.width, screen.height))
    requires screen.width >= OTHER_X + REACHABLE_WIDTH && screen.height >= TITLE_HEIGHT + 2 * BORDER
    requires MINIMUM_EXTENT <= width < WIDTH_FOR_BAND
    requires Truncate(Ink(look, true), look.depth) != Truncate(Ink(look, false), look.depth)
    modifies screen`clip, screen.memory
    ensures manager.Valid() && manager.screen == screen && manager.Damage() == Nowhere
    ensures made ==> !manager.ShowsAll()
  {
    manager := new WindowManager(screen, look, encode);
    var a, b := MakeBoth(manager, width);
    WholeScreen(manager);
    var whole := manager.Compose();
    made := a != WINDOW_NONE && b != WINDOW_NONE;
    if made {
      PassTheFocus(manager, a, b, width);
    }
  }
}
