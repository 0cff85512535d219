# Oxys-OS display stack and entropy pool: a verified model

The display stack of Oxys-OS is state over memory with cheap incremental rules: a damage rectangle
stands for a whole repaint, a front buffer for a composition, pixels for a grid of text, a running
error for the distance to a line or a circle. This project models those rules and proves that each
agrees with the simple thing it stands for. It also models the entropy pool.

| file | models |
|---|---|
| `Rectangles.dfy`, `Lines.dfy`, `Discs.dfy`, `Surfaces.dfy` | `graphics/draw.c`: rectangles, the clip stack, and every primitive writing bytes of memory |
| `Events.dfy`, `Windows.dfy`, `Frames.dfy`, `Stacking.dfy`, `Desk.dfy`, `WindowManager.dfy` | `graphics/window.c`: event rings, what one window paints, the drawing of it, the stack and a whole repaint, the table, and the manager |
| `Runs.dfy`, `NarrowRun.dfy` | any run of calls upon the manager, and the run in which the damage is not enough |
| `Compositor.dfy`, `Display.dfy` | `graphics/compositor.c` and the display's tick in `kernel/kernel.c` |
| `TextGrid.dfy`, `Console.dfy` | `graphics/console.c`: the text apart from its pixels, and the console that draws it |
| `Clients.dfy` | `graphics/client.c`: the calls processes make upon their windows |
| `Desktop.dfy` | the three together: any run of calls upon the manager, of processes' calls and of ticks |
| `FaultPage.dfy` | `FaultParagraph` of `graphics/faultscreen.c` |
| `Entropy.dfy`, `Rotations.dfy`, `RepetitionTest.dfy` | `crypto/entropy.c` and the test of section 4.4.1 of NIST SP 800-90B |

A surface is a class over an array of bytes, rows by pitch. A window is a value in the manager's table
with a surface of its own. `Shown` repaints the ground and the whole stack at one point of the screen;
`Core` is what holds of the manager between calls, and `Valid` adds the focus and the pointer's
bindings. Every operation of the manager keeps `Valid`, so each statement about a valid manager is
about every reachable state; `Runs.Run` and `Desktops.Desktop.Run` state it of whole runs. The heap's
refusals are arbitrary choices of the methods that ask it.

Everywhere the code and its documentation disagree the model follows the code, and a lemma says exactly
when they agree:

- A window may be as narrow as 16, but its close glyph lies inside its frame only from 18, and inside
  its band only from 19 (`Windows.CrossInsideWhenWide`, `Windows.PaintsOutsideWhenNarrow`). What the
  damage of a band misses on the screen when the focus passes, and what the damage of a frame misses when
  a window goes, is told exactly by the width, the frame's left edge and the height of the screen
  (`Windows.FocusShowsOutsideTheBand`, `Windows.PaintStaysInTheFrame`, `Desk.NarrowLeavesAPixel`).
  Repainting the damage alone is repainting everything as long as no ordinary window narrower than 19 was
  ever made; the manager's ghost `narrow` records that, and a creation reports it. The other way one can
  come about is a full window on a screen narrower than 21. For each width too narrow there is a run after
  which the screen does not show what a whole repaint would (`NarrowRun.FocusLeavesAPixel`).
- `docs/design/DRAWING.md:110` promises that a line drawn backwards lights the same pixels. It does
  exactly unless the longer extent has more factors of two than the shorter, which is where some point of
  the ideal line is half way between two pixels (`Lines.SameBackwardsUnlessTied`, `Lines.TiedByTwos`,
  `Lines.BackwardsCanDiffer`).
- The header of the compositor (`kernel/include/oxys/gfx/compositor.h:75-76`) says the layer added last is
  the topmost. A layer added takes the lowest free place; however the layers are then moved and shown it is
  the topmost exactly when no layer above that place can cover anything (`Compositors.AddedIsTopmost`), and
  two additions, a withdrawal and a third addition end otherwise (`Compositors.AddedLastYetBeneath`).
- The erase limit is to protect what stands before it. It does through any run exactly when each carriage
  return comes in a row below the limit's, or finds the limit in a first column, and each form feed finds
  it at the first cell (`TextGrids.ProtectedRun`); after any other return the next character is drawn over
  a protected one (`TextGrids.ReturnOverwrites`).
- The repeat count of the repetition test is 32 bits wide: the failures it counts are the runs that
  reached the cutoff exactly when no run comes to 2^32 + 41 equal deltas
  (`RepetitionTest.FailuresCountRuns`), and the verdict on a reading is the true run's exactly unless the
  run is of 2^32 deltas or more and its remainder by 2^32 below the cutoff
  (`RepetitionTest.VerdictUnlessRound`, `RepetitionTest.StuckCounterPasses`).
- Word wrap splits a word that fits in exactly one shape of text: a single leading space and then a
  word of exactly the width (`FaultPage.FittingWordsAreWhole`). The comment that a longer word overruns
  (`graphics/faultscreen.c:288-290`) is not what the code does; it cuts the word at the width.
- Asking for the focus for a window that may not hold it breaks the rule of the focus until an ordinary
  window is given it by a request, a press, a creation or a restoration; the manager's ghost `strayed`
  records that, and without it the rule holds.

## Model

| member | source | states |
|---|---|---|
| `WindowManagers.WindowManager.Compose` | graphics/window.c:1821-1864 | What was damaged is repainted with the windows whose frames touch it and nothing else is written; the damage is empty after; and where no window was ever too narrow every pixel of the screen is as a repaint of the ground and of every window would show it. |
| `WindowManagers.WindowManager.constructor` | graphics/window.c:811-839 | The empty table, nobody focused or bound, and the whole screen damaged. |
| `WindowManagers.WindowManager.DrawStack` | graphics/window.c:1836-1858 | In the region drawn the painter's loop shows, at any widths, what painting the windows whose frames touch it defines, and outside it writes nothing; the clip is as it was. |
| `Desk.ShownTouching` | graphics/window.c:1836-1858 | Leaving out the windows whose frames do not touch a region changes nothing shown in it, each window being at least 18 wide. |
| `WindowManagers.WindowManager.DamageAdd` | graphics/window.c:356-385 | The damage is the least rectangle enclosing what was damaged and what of the region lies upon the screen. |
| `WindowManagers.WindowManager.MarkedIsLeast` | graphics/window.c:356-385 | The damage holds what it did and all of the region that is upon the screen, and lies in every rectangle that does. |
| `WindowManagers.WindowManager.Move` | graphics/window.c:1138-1159 | The window stands at the confined place, the reachable one nearest to that asked for, and everything that holds holds on; nothing else changes. |
| `WindowManagers.WindowManager.Raise` | graphics/window.c:1097-1126 | The stack with the window put at the top of its own layer, in order and each window once. |
| `WindowManagers.WindowManager.PassFocus` | graphics/window.c:612-642 | The loser is told, then the gainer, then the roots where either is ordinary; the damage grows by exactly the two bands, and the notices recorded are exactly those. |
| `WindowManagers.PassedTells` | graphics/window.c:612-642 | The loser's next event is that it lost the focus and the gainer's that it gained it, where there is room; every root is left with word of the windows, or with no room; nobody else hears anything. |
| `WindowManagers.WindowManager.Focus` | graphics/window.c:1128-1136 | The focus passes to an existing window and the damage grows by exactly the two bands; the rule of the focus holds again or ceases to, by whether the window may hold it. |
| `WindowManagers.WindowManager.TopmostFocusable` | graphics/window.c:590-604 | The topmost window that may hold the focus; none exactly where none may. |
| `Desk.TopFocusableIsTopmost` | graphics/window.c:590-604 | Of the ordinary windows in sight it is the one with none of them above it in the stack, and none where there are none. |
| `WindowManagers.WindowManager.Minimise` | graphics/window.c:1346-1382 | The window is out of sight, unbound, its focus with the topmost that may hold one, and the roots told after the two windows were; any other binding stands. |
| `WindowManagers.WindowManager.Restore` | graphics/window.c:1384-1404 | The window is in sight, on top of its layer and focused, and the roots are told. |
| `WindowManagers.WindowManager.Create` | graphics/window.c:859-984 | The lowest free slot holds a window with an own content, new and all of paper, confined if ordinary, its title cut at 31, on top of its layer and focused if ordinary; refused, nothing changes but the room for more. |
| `WindowManagers.WindowManager.Destroy` | graphics/window.c:1003-1052 | The window is out of the table, the stack and the bindings; a focus it held passes to the topmost that may hold it; the gainer and, for an ordinary window, the roots are told. |
| `WindowManagers.WindowManager.DestroyOwnedBy` | graphics/window.c:1076-1095 | Exactly the windows of the owner are gone from the table, the stack and the bindings, and counted; the others differ by notices alone, in their order; a focus one of them held is the topmost's that may hold it. |
| `WindowManagers.WindowManager.WorkArea` | graphics/window.c:1163-1218 | The rows between the lowest foot of the panels at the top edge and the highest head of those at the bottom, or the whole screen where there are none. |
| `WindowManagers.WindowManager.WorkAreaClearsPanels` | graphics/window.c:1163-1218 | Unless it is the whole screen the work area meets no panel in sight that stands at the top edge or at the bottom edge. |
| `WindowManagers.WindowManager.ResizeContent` | graphics/window.c:1228-1285 | A new content shows the old where they meet and paper elsewhere, both frames are damaged and the owner is told; refused, nothing changed. |
| `WindowManagers.WindowManager.SetFull` | graphics/window.c:1287-1344 | Full, the frame is the work area and the old geometry is kept; not full, the geometry is the one kept; a drag of the window ends and the roots are told. |
| `WindowManagers.WindowManager.FullAndBack` | graphics/window.c:1287-1344 | Full, any moves, and not full: exactly the old position and extent, and every pixel of the content that fitted, paper elsewhere. |
| `WindowManagers.WindowManager.BandsStayReachable` | graphics/window.c:320-352 | In every state each ordinary window's band is wholly on the screen in height and within reach in width exactly where the screen has room for a band and for what must be reached from either side. |
| `Windows.ConfinedIsReachable` | graphics/window.c:320-352 | Confining is idempotent, and the reachable places are exactly the confined ones of a screen with room for a band. |
| `Windows.ConfinedIsNearest` | graphics/window.c:320-352 | Along either axis the confined place is reachable and strictly nearer to the one asked for than any other reachable place. |
| `Windows.ConfinedWithoutRoom` | graphics/window.c:333-352 | On a screen without room the bound at its right, or at its foot, has the last word wherever the frame was asked to stand. |
| `Windows.ReachableShows` | graphics/window.c:320-352 | A place is reachable exactly where the band is on the screen in height and 48 columns of the frame, or all it has, are on it in width. |
| `WindowManagers.WindowManager.Invalidate` | graphics/window.c:1441-1458 | The damage grows by exactly what of the region lies in the content and upon the screen. |
| `WindowManagers.WindowManager.PartIsUponContent` | graphics/window.c:1441-1458 | The part marked is exactly the points of the content that are in the region, counted from the content's corner. |
| `WindowManagers.WindowManager.DrawInto` | graphics/window.c:1500-1549 | A drawing upon part of a content that marks that part keeps the screen right outside the damage. |
| `WindowManagers.WindowManager.WritePixels` | graphics/window.c:1460-1498 | Every pixel of the area takes the encoded pixel given for it, or no byte changes, exactly as the area lies upon the content or not. |
| `WindowManagers.WindowManager.EncodedByChannel` | graphics/window.c:1484-1492 | A client's pixel is its red, green and blue from the highest byte down, encoded in that order. |
| `WindowManagers.WindowManager.GivenRowByRow` | graphics/window.c:1484-1492 | The pixels are given a row after the other, each from the left. |
| `WindowManagers.WindowManager.WindowAt` | graphics/window.c:1876-1897 | The first window from the top, in sight, whose frame holds the point. |
| `WindowManagers.WindowManager.HitIsWhatShows` | graphics/window.c:1876-1897 | Each ordinary window being at least 18 wide, the window hit is the one whose paint a repaint shows there; none is hit exactly where the ground shows. |
| `Desk.HitIsShown` | graphics/window.c:1876-1897 | The hit test and the painter's order name the same window, whatever the contents and the focus, each decorated window being at least 18 wide. |
| `WindowManagers.WindowManager.HandleMouse` | graphics/window.c:1721-1817 | Dragging, the window follows the pointer and nobody is told; bound, every report goes to the bound window in order; otherwise the window hit is told or pressed upon, with the whole table, focus and stack that come of it; contents are the slots' own or new. |
| `WindowManagers.LowestButton` | graphics/window.c:1617-1630 | The lowest of the buttons given, alone, or none where none is. |
| `WindowManagers.ReportedInOrder` | graphics/window.c:1755-1789 | A movement is reported first, then what was pressed, then what was released, each exactly where it happened, with its own button and at the place in the window's content. |
| `WindowManagers.PointerEventIsUponContent` | graphics/window.c:487-517 | A report's place is a pixel of the content exactly where the pointer is upon the content, at the same distance from its corner. |
| `WindowManagers.WindowManager.BeginPress` | graphics/window.c:1646-1719 | A press raises and focuses by layer, and closes, makes full or puts back, minimises, drags or binds by the spot it lands upon, each with the table it leaves. |
| `WindowManagers.WindowManager.HoldButton` | graphics/window.c:1755-1789 | Through movements alone with a button held, all reports of the pointer go to the bound window, which stays bound, and nothing else of the table changes. |
| `Desktops.Desktop.HoldThrough` | graphics/window.c:1755-1789 | From the press that bound a window until no button is held, whatever calls, system calls and ticks come between: the window stays bound, each movement is reported to it and to it alone, and no other queue gains a report of the pointer, until it is destroyed or minimised. |
| `Runs.Perform` | graphics/window.c:859-1817 | Any call upon the manager keeps all that holds between calls; but for a movement no queue gains a report of the pointer and the bindings stand unless their windows are gone or out of sight; contents are the slots' own or new. |
| `Runs.Run` | graphics/window.c:859-1864 | After any calls and a composition the screen shows what a repaint of everything would, unless an ordinary window narrower than 19 was asked for or the screen is narrower than 21. |
| `WindowManagers.WindowManager.HandleKey` | graphics/window.c:1590-1613 | A key goes to the window that holds the focus, or is discarded. |
| `WindowManagers.WindowManager.NotifyRootsOf` | graphics/window.c:446-472 | Every root without a notice of the kind waiting is sent one, and no other window anything. |
| `WindowManagers.NoticedHasWord` | graphics/window.c:446-472 | Each root is left with a notice of the kind, or with no room for one, and any other window as it was. |
| `WindowManagers.WindowManager.ReadEvent` | graphics/window.c:1558-1572 | The oldest event waiting is taken, and only that. |
| `WindowManagers.WindowManager.StackRemove` | graphics/window.c:532-547 | The shifting loop removes exactly the one entry. |
| `WindowManagers.WindowManager.StackInsert` | graphics/window.c:559-580 | The shifting loop puts the window below the first entry of a higher layer: a root below every ordinary window and panel, an ordinary window below every panel. |
| `Stacking.WithKeeps` | graphics/window.c:549-580 | Inserting keeps the stack ordered by layer and each window in it once; which layer is over which is the next row's. |
| `WindowManagers.WindowManager.LayersStandInOrder` | kernel/include/oxys/gfx/window.h:146-148 | In every state no root stands above an ordinary window or a panel, and no ordinary window above a panel; so where a panel in sight holds a point a panel is hit and a root only where roots alone hold it, and likewise of what shows there. |
| `Stacking.HitIsTopmost` | graphics/window.c:1876-1897 | The window hit is, of all those in sight whose frames hold the point, the one with none of them above it; none exactly where there are none. |
| `Stacking.PaintIsTopmost` | graphics/window.c:1836-1858 | The window that shows at a point is, of all those that paint there, the one with none of them above it. |
| `Stacking.RaisedIsOverItsLayer` | graphics/window.c:1097-1126 | A window raised stands over every other of its own layer. |
| `Stacking.RaisedKeepsOrder` | graphics/window.c:1097-1126 | Of two other windows the one stands over the other exactly where it did before the raising. |
| `Stacking.WithIsOnTop` | graphics/window.c:549-580 | What stands above an inserted window belongs to a higher layer. |
| `Stacking.RaisedAlready` | graphics/window.c:1106-1121 | A window with only higher layers above it is where raising would put it: the early return skips nothing. |
| `Stacking.ShownIsTheTopmost` | graphics/window.c:1836-1858 | The painter's result is the topmost contributing window's paint, or the ground. |
| `Desk.RepaintChanged` | graphics/window.c:1152-1158 | A window changed in its place, at least 18 wide before and after, changes what shows only where it stood and where it stands. |
| `Desk.RepaintFocus` | graphics/window.c:624-634 | The passing of the focus between windows at least 19 wide changes what shows only in the two title bands. |
| `Windows.PaintsItsFrame` | graphics/window.c:758-787 | A window at least 18 wide paints every point of its frame and none besides. |
| `Windows.FocusShowsInTheBand` | graphics/window.c:758-787 | Focus shows in the title band alone, of a window at least 19 wide. |
| `Windows.FocusShowsOutsideTheBand` | graphics/window.c:744-787 | On a screen with room for a band a confined window's focus shows in its band alone exactly from a width of 19; on a smaller one also left of the screen's edge, or where the screen ends above the glyph's tip. |
| `Windows.PaintStaysInTheFrame` | graphics/window.c:744-787 | On a screen with room for a band all a confined window paints there lies in its frame exactly from a width of 18 or at the screen's left edge; on a smaller one also left of that edge, or where the screen ends above the glyph's tip. |
| `Windows.FrameParts` | graphics/window.c:250-289 | A frame is its outline, its band and its content, every point in exactly one of them. |
| `Windows.ReachesInOrder` | graphics/window.c:291-318 | From the right the reaches are those of closing, of filling the screen and of minimising, no two of them meeting. |
| `Windows.FrameShows` | graphics/window.c:758-787 | The border shows on the outline; in the band the title's ink and paper left of every control, and elsewhere the band's colour, both by whether the window holds the focus. |
| `Windows.ControlsShowWhereTheyAct` | graphics/window.c:679-736 | Within the reach of each inner control the band shows that control's glyph, pixel by pixel, and elsewhere neither. |
| `WindowManagers.GlyphsTellTheSpot` | graphics/window.c:1646-1719 | In the band a press upon a glyph does what the glyph stands for: the cross closes, the square fills and the bar minimises. |
| `WindowManagers.SpotByPlace` | graphics/window.c:1646-1719 | What a press lands upon by its distance from the frame's right edge and its row; the controls' reaches go one row below the band. |
| `Stacking.ContributedByPart` | graphics/window.c:758-787 | A window's content shows within, its border around, and its band in the colour of its own focus. |
| `Windows.ContentFromItsCorner` | graphics/window.c:758-787 | A content stands with its first pixel at the corner of its rectangle. |
| `Windows.CrossInsideWhenWide` | graphics/window.c:744-756 | The close glyph is inside the frame exactly from a width of 18 and inside the band exactly from 19. |
| `Windows.PaintsOutsideWhenNarrow` | graphics/window.c:744-756 | A window paints outside its frame exactly when it is narrower than 18. |
| `Desk.NarrowLeavesAPixel` | graphics/window.c:1003-1012 | Taking the topmost window away changes a pixel of the screen outside its frame, where its glyph differs from what is beneath, exactly when it is narrower than 18, right of the screen's edge and the screen reaches its glyph's tip. |
| `NarrowRun.FocusLeavesAPixel` | graphics/window.c:612-642 | For each width from 16 to 18 a run from an empty manager ends with a composed screen that does not show what a repaint of everything would. |
| `Frames.DrawFrame` | graphics/window.c:758-787 | The primitives drawn, in their order and within the clip, add up to the window's paint at every pixel. |
| `Frames.DrawControls` | graphics/window.c:679-736 | The glyphs of the two controls, clipped to the band, the clip restored. |
| `Events.RingIsFifo` | graphics/window.c:389-415 | Every run of a ring is a run of a first-in first-out queue that drops only the newest, and counts them. |
| `Events.ReadInOrder` | graphics/window.c:1558-1572 | What is read is an in-order subsequence of what was offered. |
| `Events.OfferKeepsQuiet` | graphics/window.c:446-472 | A notice sent only where none of its kind waits is the only one of its kind. |
| `Displays.Display.Tick` | kernel/kernel.c:516-530 | After a tick the display shows at every point the pointer, its hot spot at the mouse, over what a repaint of everything shows. |
| `Desktops.Assemble` | kernel/init/devices.c:45-68 | A display, a manager upon its back buffer and the pointer's layer begin with all that the runs below keep. |
| `Desktops.Desktop.Perform` | kernel/kernel.c:516-530 | Any call upon the manager, any process's call, the pointer shown or hidden, and a tick each keep the manager, the compositor, their separation and the clients' rules. |
| `Desktops.Desktop.Run` | kernel/kernel.c:516-530 | After any run of these and a tick the display shows at every point the pointer over what a repaint of everything shows, unless a window too narrow was asked for or could come about. |
| `Compositors.Compositor.Present` | graphics/compositor.c:507-548 | The whole display shows the composition, only what was damaged being written; suspended, nothing is. |
| `Compositors.Compositor.constructor` | graphics/compositor.c:314-386 | No layers, a cleared back buffer, and all of it to be presented. |
| `Compositors.Compositor.Invalidate` | graphics/compositor.c:165-180 | A display stale in a region and the damage is afterwards stale in the damage alone. |
| `Compositors.Compositor.Stale` | graphics/compositor.c:165-180 | A drawing upon the back buffer makes the display stale where it drew and nowhere else. |
| `Compositors.Compositor.AddLayer` | graphics/compositor.c:197-224 | The lowest free place holds the layer, not shown; the display stays right outside the damage. |
| `Compositors.Compositor.RemoveLayer` | graphics/compositor.c:226-248 | The place is free, and the display right outside the damage. |
| `Compositors.Compositor.MoveLayer` | graphics/compositor.c:250-287 | The layer stands elsewhere, and the display is right outside the damage. |
| `Compositors.Compositor.SetLayerVisible` | graphics/compositor.c:289-299 | The layer is shown or not, and the display is right outside the damage. |
| `Compositors.Compositor.ComposeLayer` | graphics/compositor.c:446-500 | Where the layer covers the region the display takes its blend with the back buffer, and nowhere else anything. |
| `Compositors.CompositeIsTheTopmost` | graphics/compositor.c:446-548 | What is shown is the highest covering layer blended over the back buffer and not over lower layers. |
| `Compositors.CoverageTells` | graphics/compositor.c:446-466 | A layer covers nothing unless it is shown and the point is its surface's, and then as much as its mask's byte says, the rows following each other, or all without a mask. |
| `Compositors.SampleFromItsCorner` | graphics/compositor.c:457-473 | A layer's surface stands with its first pixel at the layer's place. |
| `Compositors.BlendedByChannel` | graphics/compositor.c:483-492 | With a codec that reads back what it encodes, each channel of the blend is the nearest to the mean of that channel of the two colours; whole coverage gives the covering colour itself. |
| `Compositors.AddedIsTopmost` | graphics/compositor.c:197-224 | A layer added to the lowest free place is the topmost wherever it covers, however the layers are then moved and shown, exactly when no layer above that place can cover anything. |
| `Compositors.AddedLastYetBeneath` | kernel/include/oxys/gfx/compositor.h:75-76 | After two additions, the withdrawal of the first and a third addition, the layer added last is composed beneath another. |
| `Compositors.Blend` | graphics/compositor.c:483-492 | The channel nearest to the weighted mean, exact at no and at full coverage. |
| `Consoles.Console.WriteCharacter` | graphics/console.c:426-540 | The pixels are the rendering of the text the character makes, and a compositor's display is stale only within its damage. |
| `Consoles.Console.Scroll` | graphics/console.c:116-164 | One self-blit and one fill show the grid without its first row and with a cleared last; limit and row ends move along. |
| `Consoles.Console.NewLine` | graphics/console.c:167-187 | The cursor is at the next row's first column, the grid scrolled at the foot, the row left recorded. |
| `Consoles.Console.Backspace` | graphics/console.c:388-424 | One position back, after the text of the row above from a first column, and never past the limit. |
| `Consoles.Console.Clear` | graphics/console.c:318-343 | An empty grid upon the whole surface, and everything reported. |
| `Consoles.Console.SetEraseLimit` | graphics/console.c:345-349 | The limit is the cursor's place, and nothing else changes. |
| `Consoles.Start` | graphics/console.c:200-285 | The console shows the first 4096 characters written before it, or is refused for want of one cell. |
| `Consoles.EarlyLog.Record` | graphics/console.c:444-457 | The beginning of what was written is kept and the rest is counted. |
| `Consoles.ScrolledShows` | graphics/console.c:116-164 | The scrolled text's rendering is the text's eight pixels up with a cleared row at its foot. |
| `Consoles.CellShows` | graphics/console.c:505-540 | A pixel of a cell shows its character's ink where the glyph's bit for that row and column is lit and its paper elsewhere; past the grid the margin shows. |
| `TextGrids.After` | graphics/console.c:426-540 | Every character keeps the cursor, the limit and the row ends inside the grid. |
| `TextGrids.CharacterGoes` | graphics/console.c:505-540 | A character is written in the cell at the cursor and nowhere else, and the cursor is one place on in reading order; from the last place everything first moves up by a row. |
| `TextGrids.LineFeedGoes` | graphics/console.c:167-187 | A line feed goes to the first column of the next row, at the foot to that of a new row beneath. |
| `TextGrids.TabGoes` | graphics/console.c:470-490 | A tab goes to the first multiple of eight past the cursor, and begins a new line exactly where its row has none. |
| `TextGrids.PageAndReturn` | graphics/console.c:466-495 | A form feed leaves the empty grid and the cursor at its first cell; a carriage return goes to its own row's first column and changes nothing else. |
| `TextGrids.BackspaceGoes` | graphics/console.c:388-424 | A backspace goes one column back, undoes a line feed from a first column, stands still at the limit, and writes nothing. |
| `TextGrids.ProtectedRun` | graphics/console.c:345-424 | Whatever is typed after the limit is set, the cursor never comes before it and nothing before it is erased, scrolling included, exactly when every carriage return and form feed among it is harmless where it comes. |
| `TextGrids.ReturnOverwrites` | graphics/console.c:426-540 | After a carriage return that is not harmless the next character is drawn over one before the limit. |
| `TextGrids.ErasureErases` | graphics/console.c:366-424 | Backspace, space, backspace after a character leaves a space in its place, the cursor upon it and nothing else changed, across a wrap too, exactly where the cursor was not before the limit and the grid has another row or column to go to. |
| `TextGrids.OneRowForgets` | graphics/console.c:388-424 | On one row a character in the last column scrolls away and cannot be erased. |
| `Clients.ClientCalls.Create` | graphics/client.c:120-196 | The refusals in the order of the tests; otherwise a window of the caller's as asked for, in the layer the number names. A root or a panel is the session holder's alone, in every state. |
| `Clients.ClientCalls.RefusedUnless` | graphics/client.c:120-196 | Exactly what a process and the window it asks for must be for the request not to be refused. |
| `Clients.ClientCalls.Destroy` | graphics/client.c:198-217 | The caller's window and no other goes. |
| `Clients.ClientCalls.Move` | graphics/client.c:219-241 | The caller's window is moved, confined; refused, nothing changes. |
| `Clients.ClientCalls.Blit` | graphics/client.c:243-293 | Every pixel of the area is written, or no byte. |
| `Clients.ClientCalls.ClaimSession` | graphics/client.c:533-567 | First come, held, and claimable again by its holder. |
| `Clients.ClientCalls.State` | graphics/client.c:605-685 | The owner or the session brings an ordinary window into the state asked for, with the whole table, the focus and the bindings that come of it, or nothing changes. |
| `Clients.ClientCalls.ReadAny` | graphics/client.c:357-383 | An event is returned exactly when one of the caller's windows has one, the oldest of its window; every window passed over is nearer its turn. |
| `Clients.ClientCalls.HasEvent` | graphics/client.c:915-932 | True exactly when the read in turn would return an event. |
| `Clients.ClientCalls.OwnsAny` | graphics/client.c:936-952 | True exactly when the process owns a window. |
| `Clients.ClientCalls.Notify` | graphics/client.c:798-847 | The ring holds the last eight posted since the last taken, and the roots are told. |
| `Clients.ClientCalls.TakeNotification` | graphics/client.c:849-880 | The session alone takes the oldest waiting. |
| `Clients.ClientCalls.ReleaseProcess` | graphics/client.c:882-901 | The process has no window and no session afterwards, and nobody else lost one; the stack, the focus and the bindings are what the windows gone leave. |
| `Clients.TurnComesNearer` | graphics/client.c:345-383 | Serving one window brings every other nearer by exactly the distance served and one. |
| `Clients.ClientCalls.ReadUntilServed` | graphics/client.c:345-383 | A window with something waiting is served within as many reads in turn as the table has slots. |
| `Rectangles.IntersectMeets` | graphics/draw.c:66-106 | The intersection holds exactly the points both hold and is never negative. |
| `Rectangles.IntersectFits32` | graphics/draw.c:66-106 | Narrowing the 64-bit edges loses nothing. |
| `Rectangles.EncloseIsLeast` | graphics/compositor.c:112-145 | The enclosing rectangle holds both and lies in every rectangle that does. |
| `Rectangles.ClipNeverEscapes` | graphics/draw.c:208-261 | Through any run of clip calls the clip, and every clip saved, stays within the surface. |
| `Rectangles.ClipMeets` | graphics/draw.c:208-261 | A setting keeps the region to the surface and a push to the clip in force, which it saves; a fifth push does nothing. |
| `Rectangles.BalancedRunRestores` | graphics/draw.c:229-261 | A push, any run above it and its pop restore the clip exactly. |
| `Rectangles.PushesOnlyNarrow` | graphics/draw.c:229-261 | Pushing and popping alone never widen a clip beyond the one beneath. |
| `Surfaces.TruncateIsRemainder` | graphics/draw.c:294-307 | A pixel keeps its colour's low bytes. |
| `Surfaces.LanesAreDigits` | graphics/draw.c:294-307 | The bytes stored are the colour's digits to the base 256, the lowest first. |
| `Surfaces.Surface.PixelBytes` | graphics/draw.c:265-307 | The bytes of a row's pixels stand one after another, and each pixel's the lowest first. |
| `Surfaces.Surface.Describe` | graphics/draw.c:137-194 | A description is accepted exactly when it is possible. |
| `Surfaces.Surface.StorePixel` | graphics/draw.c:294-307 | One pixel takes the colour; no other, and no padding, changes. |
| `Surfaces.Surface.PixelAt` | graphics/draw.c:407-425 | The colour the bytes spell, or zero outside. |
| `Surfaces.Surface.FillRectangle` | graphics/draw.c:427-471 | Exactly the pixels in both the clip and the rectangle take the colour, whichever way words are written. |
| `Surfaces.Surface.PatternBlock` | graphics/draw.c:478-553 | Exactly the pixels in both the clip and the block take ink or paper by their bit. |
| `Surfaces.LitSpells` | graphics/draw.c:478-553 | The columns a pattern's byte lights spell the byte, the leftmost being worth the most. |
| `Surfaces.Surface.DrawRectangle` | graphics/draw.c:555-606 | Exactly the one-pixel outline, within the clip. |
| `Surfaces.OutlineIsTheEdge` | graphics/draw.c:555-606 | The outline is the points of the rectangle beside one that is not its own. |
| `Surfaces.Surface.FillCircle` | graphics/draw.c:638-678 | The walk paints exactly the disc given in closed form, within the clip, and ends. |
| `Discs.WalkCoversTheDisc` | graphics/draw.c:638-678 | The spans of the walk, which keeps only a running error, cover exactly the points with a² - a + b² < r², a and b being the greater and the lesser distance along an axis, and the centre alone for a radius of zero. |
| `Discs.DiscBetweenCircles` | graphics/draw.c:638-678 | Every point with d² ≤ r² and none with d² > r² + r is in the disc. |
| `Discs.EveryRowIsPainted` | graphics/draw.c:638-678 | Each axis reaches exactly the radius: no row from -r to r is left out. |
| `Discs.DiscSymmetric` | graphics/draw.c:638-678 | The disc turned over either axis, or over the diagonal, is the same. |
| `Surfaces.Surface.DrawLine` | graphics/draw.c:680-759 | Exactly the points of the line, within the clip, in exactly as many steps as the longer axis is long, in every octant. |
| `Lines.OnePointEach` | graphics/draw.c:680-759 | One point for each step along the longer axis. |
| `Lines.StepTracks` | graphics/draw.c:726-757 | The accumulated error keeps the point within half a pixel of the ideal line. |
| `Lines.TrackingAtTheEnd` | graphics/draw.c:726-757 | The point tracked is the second endpoint exactly after as many steps as the longer axis is long. |
| `Lines.ErrorFits32` | graphics/draw.c:726-757 | Between coordinates within the limit the doubled error never leaves the 32 bits it is kept in. |
| `Lines.SameBackwardsUnlessTied` | graphics/draw.c:680-759 | The reversed line has the same points exactly unless its longer extent has more factors of two than its shorter. |
| `Lines.TiedByTwos` | graphics/draw.c:726-757 | A point of the ideal line is half way between two pixels exactly where the longer extent has more factors of two. |
| `Lines.BackwardsCanDiffer` | docs/design/DRAWING.md:110 | The shortest line that differs. |
| `Surfaces.Surface.Blit` | graphics/draw.c:761-914 | Every pixel the clip and both extents leave takes the value its source held before, onto itself in any direction too, and nothing else changes. |
| `Surfaces.Surface.CopySpan` | graphics/draw.c:852-913 | Words or bytes, from either end: the target takes the bytes the source held before. |
| `Entropy.MixAllIsBijective` | crypto/entropy.c:68-93 | Mixing any samples has a two-sided inverse on the pool. |
| `Entropy.PoolsNeverMerge` | crypto/entropy.c:68-93 | Two pools are the same after the same samples exactly when they were before. |
| `Entropy.SixtyFourLandOnceEach` | crypto/entropy.c:68-93 | Of any sixty-four consecutive samples exactly one lands in each word. |
| `Entropy.WordsNotLandedInAreKept` | crypto/entropy.c:68-93 | No sample changes a word it does not land in. |
| `Entropy.SampleTells` | crypto/entropy.c:68-93 | The pool after one sample and after another is the same exactly when the samples are. |
| `Entropy.OneSampleTells` | crypto/entropy.c:68-93 | However many samples come before and after it, one sample changed alone leaves another pool. |
| `Entropy.SixtyFourAreKept` | crypto/entropy.c:68-93 | Of runs of up to sixty-four samples mixed into one pool any two that differ anywhere leave different pools. |
| `Entropy.BitsMeet` | crypto/entropy.c:68-93 | Bit i of a sample meets bit i and the rotation, going round 64, of the word it lands in, and flips it exactly where it is set. |
| `Rotations.RotateMovesBits` | crypto/entropy.c:51-56 | Every bit of a word rotated stands as many places on as the rotation says, going round. |
| `Rotations.RotateKeepsApart` | crypto/entropy.c:51-56 | Words rotated alike are the same exactly where they were before. |
| `Entropy.Pool.Add` | crypto/entropy.c:68-93 | The pool is the mixing of all its samples, and is what it became by this sample and by no other; its credit is the lesser of the ceiling and all that was credited. |
| `Entropy.Pool.AddJitter` | crypto/entropy.c:95-141 | A reading is credited exactly when it has a delta and the run of equal deltas it ends is below the cutoff, or has come round the 32-bit count; it is mixed in either way. |
| `Entropy.Pool.Bits` | crypto/entropy.c:143-146 | The whole bits of the credit, at most 4096. |
| `Entropy.Pool.Copy` | crypto/entropy.c:148-159 | The pool's words, and nothing beyond them. |
| `RepetitionTest.RunLengthIsMaximal` | crypto/entropy.c:95-141 | The run counted is the longest stretch of equal deltas at the end. |
| `RepetitionTest.WatchRecordsHistory` | crypto/entropy.c:95-141 | The few fields kept are those of the whole history of readings. |
| `RepetitionTest.DeltasLead` | crypto/entropy.c:95-141 | Among readings that are not zero there is a delta between every two, and it is what the counter has come by. |
| `RepetitionTest.FailuresCountRuns` | crypto/entropy.c:107-132 | The failures are the runs that reached the cutoff, once each, exactly when no run wraps the count. |
| `RepetitionTest.VerdictUnlessRound` | crypto/entropy.c:95-141 | The 32-bit count gives the verdict of the run's true length exactly unless the run has come round: 2^32 deltas or more, their remainder below the cutoff. |
| `RepetitionTest.StuckCounterPasses` | crypto/entropy.c:95-141 | 2^32 equal deltas make a run at the cutoff whose 32-bit count is below it. |
| `FaultPage.Page.Paragraph` | graphics/faultscreen.c:273-324 | The loops draw exactly the lines, from the row given, and return the row after them; they end for every width. |
| `FaultPage.LinesFit` | graphics/faultscreen.c:273-324 | Every line shows something and none is wider than the width. |
| `FaultPage.LinesAreFilled` | graphics/faultscreen.c:291-304 | Every line holds all it can: it ends at the text's end where the rest fits the width; otherwise it ends at a space with no later one it could have ended at, or, where there is none past its first character, it is of the whole width. |
| `FaultPage.LinesFollowOn` | graphics/faultscreen.c:314-320 | The first line begins where the text does, and each other at the first character past the line above that is not a space. |
| `FaultPage.GlyphsInPlace` | graphics/faultscreen.c:306-312 | A character is drawn exactly where its line and its place in it put it, one row to a line, and nothing besides. |
| `FaultPage.LinesInOrder` | graphics/faultscreen.c:273-324 | Lines neither overlap nor change their order. |
| `FaultPage.InkIsPreserved` | graphics/faultscreen.c:273-324 | What is drawn, spaces aside, spells the text, spaces aside. |
| `FaultPage.NothingIsLost` | graphics/faultscreen.c:273-324 | Every character that is not a space stands upon a line. |
| `FaultPage.FittingWordsAreWhole` | graphics/faultscreen.c:273-324 | No word that fits is split, exactly unless the text is a leading space and then a word of the width. |
| `FaultPage.NoLeadingSpaceNoSplit` | graphics/faultscreen.c:273-324 | A text without a leading space never has a word that fits split. |

## Left out

- Compose: its promise of a whole repaint is for managers in which no ordinary window narrower than 19 was made, because for others the code does not keep it; for those it says what the damaged region shows.
- Describe: takes pixels of one to four bytes; the code accepts any larger size too, for which its byte loop shifts a 32-bit colour by 32 or more, which C leaves undefined.
- DrawInto: stands for the drawing of text into a content with an arbitrary paint inside the rectangle marked; the metrics and glyphs of the face are not part of this model, so that the ink stays inside that rectangle is not proved.
- SetFull: a window whose content is not an extent of the bounds once full is refused, as the code does; the sizes of memory are not modelled, only that the heap may refuse.
- Start: relies on the whole of a composited surface being damaged already, as it is when the compositor was just initialised.
- Notify: texts are values, and why one cannot be read is a parameter.
- Layers other than the pointer's in the runs of the desktop, as the system adds no other, and the fault screen, which suspends the compositor for good.
- An inactive window manager, console or compositor, and the manager's shutdown.
- 32-bit wrap-around of a panel's or a root's unconfined coordinates, of a circle's radius and of counters.
- Memory as one stretch of addresses: a surface is rows by pitch, and two surfaces are the same memory or share none.
- The face's title text is an arbitrary paint clipped to the band short of the controls.
- Encoding and decoding of pixels, glyph and pointer tables, and the palette, which are parameters.
- Reports, counts of presentations and of refusals, sleeping and waking, interrupt masking and user-address checks.
- The blend of one surface over another in the drawing layer, and the list of windows the session reads.
- The waiting form of the event request, which repeats the read modelled here until it succeeds.
