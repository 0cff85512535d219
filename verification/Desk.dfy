/** The table of windows as a whole: what holds of it between calls, and what a change of it leaves
    shown. */
module Desk {
  import opened Options
  import opened Rectangles
  import opened Surfaces
  import opened Events
  import opened Windows
  import opened Frames
  import opened Stacking

  // --------------------------------------------------------------- one window

  /** A window's extent is within bounds, its layer decides its decoration, only a decorated window
      is minimised or full, and its frame is confined to the screen — and would be again where it
      was before it was made full. */
  ghost predicate WindowFits(w: Window, screenWidth: int, screenHeight: int, depth: int) {
    && MINIMUM_EXTENT <= w.width <= MAXIMUM_EXTENT
    && MINIMUM_EXTENT <= w.height <= MAXIMUM_EXTENT
    && (w.decorated <==> w.layer.Normal?)
    && (w.minimised || w.full ==> w.decorated)
    && HasContent(w, depth)
    && (w.decorated ==> Confined(screenWidth, screenHeight, w.width, w.x, w.y))
    && (w.full ==> && MINIMUM_EXTENT <= w.restoreWidth <= MAXIMUM_EXTENT
                   && MINIMUM_EXTENT <= w.restoreHeight <= MAXIMUM_EXTENT
                   && Confined(screenWidth, screenHeight, w.restoreWidth, w.restoreX, w.restoreY))
  }

  lemma Extents(w: Window, screenWidth: int, screenHeight: int, depth: int)
    requires WindowFits(w, screenWidth, screenHeight, depth)
    ensures MINIMUM_EXTENT <= w.width <= MAXIMUM_EXTENT && MINIMUM_EXTENT <= w.height <= MAXIMUM_EXTENT
  {
  }

  ghost predicate TableSound(table: seq<Window>, screenWidth: int, screenHeight: int, depth: int) {
    forall i | 0 <= i < |table| && table[i].inUse ::
      WindowFits(table[i], screenWidth, screenHeight, depth)
  }

  ghost function SurfacesOf(table: seq<Window>): set<object> {
    set i | 0 <= i < |table| && table[i].surface != null :: table[i].surface
  }

  ghost predicate ContentSound(w: Window, screen: Surface)
    reads if w.surface != null then {w.surface} else {}
  {
    && w.surface != null && w.surface.Valid()
    && w.surface.clip == ClipReset(Bounds(w.surface.width, w.surface.height))
    && w.surface != screen && w.surface.memory != screen.memory
  }

  ghost predicate Apart(a: Window, b: Window) {
    && a.surface != null && b.surface != null
    && a.surface != b.surface && a.surface.memory != b.surface.memory
  }

  /** Every window has a content of its own, and none is the screen. */
  ghost predicate ContentsSound(table: seq<Window>, screen: Surface)
    reads SurfacesOf(table)
  {
    && (forall i | 0 <= i < |table| && table[i].inUse :: ContentSound(table[i], screen))
    && (forall i, j | 0 <= i < j < |table| && table[i].inUse && table[j].inUse ::
          Apart(table[i], table[j]))
  }

  ghost predicate QueuesQuiet(table: seq<Window>) {
    forall i | 0 <= i < |table| :: Quiet(table[i].ring)
  }

  // ------------------------------------------------------------------ the focus

  /** What the focus may rest upon: an ordinary window in sight. */
  predicate Focusable(w: Window) { w.inUse && w.layer.Normal? && !w.minimised }

  /** The focus is nobody's exactly when no window may hold it, and otherwise such a window's. */
  ghost predicate FocusSound(table: seq<Window>, focused: int) {
    && (focused == WINDOW_NONE ==> forall i | 0 <= i < |table| :: !Focusable(table[i]))
    && (focused != WINDOW_NONE ==> 0 <= focused < |table| && Focusable(table[focused]))
  }

  /** The topmost window of a stack that may hold the focus, or none. */
  function TopFocusable(table: seq<Window>, stack: seq<int>): int {
    if stack == [] then WINDOW_NONE
    else
      var id := stack[|stack| - 1];
      if 0 <= id < |table| && Focusable(table[id]) then id else TopFocusable(table, stack[..|stack| - 1])
  }

  ghost function AllFocusable(table: seq<Window>): set<int> {
    set id | 0 <= id < |table| && table[id].inUse && table[id].layer.Normal? && !table[id].minimised
  }

  /** Of the ordinary windows in sight it is the one above all others of the stack, or none. */
  lemma {:induction false} TopFocusableIsTopmost(table: seq<Window>, stack: seq<int>)
    ensures TopmostOf(stack, AllFocusable(table), TopFocusable(table, stack))
  {
    if stack != [] {
      var id := stack[|stack| - 1];
      if 0 <= id < |table| && Focusable(table[id]) {
        assert NoneAbove(stack, AllFocusable(table), |stack| - 1);
      } else {
        TopFocusableIsTopmost(table, stack[..|stack| - 1]);
        TopmostBelow(stack, AllFocusable(table), TopFocusable(table, stack));
      }
    }
  }

  lemma {:induction false} TopIgnoresRings(table: seq<Window>, table': seq<Window>, stack: seq<int>)
    requires SameButRings(table, table')
    ensures TopFocusable(table', stack) == TopFocusable(table, stack)
  {
    if stack != [] {
      var id := stack[|stack| - 1];
      if 0 <= id < |table| {
        assert Queued(table[id], table'[id]);
      }
      TopIgnoresRings(table, table', stack[..|stack| - 1]);
    }
  }

  /** The last focus notice generated for a window. */
  datatype Notice = Untold | ToldIn | ToldOut

  /** For each existing window the last focus notice was "in" exactly when it holds the focus. */
  ghost predicate ToldSound(table: seq<Window>, told: seq<Notice>, focused: int) {
    && |told| == |table|
    && forall i | 0 <= i < |table| && table[i].inUse :: told[i] == ToldIn <==> focused == i
  }

  /** The notices after the focus passes: the loser's and then the gainer's. */
  ghost function Retold(table: seq<Window>, told: seq<Notice>, previous: int, id: int): seq<Notice>
    requires |told| == |table|
  {
    if previous == id then told
    else
      var lost := if Live(table, previous) then told[previous := ToldOut] else told;
      if Live(table, id) then lost[id := ToldIn] else lost
  }

  lemma RetoldIsSound(table: seq<Window>, told: seq<Notice>, previous: int, id: int, table': seq<Window>)
    requires ToldSound(table, told, previous) && SameButRings(table, table')
    requires id == WINDOW_NONE || Live(table, id)
    ensures ToldSound(table', Retold(table, told, previous, id), id)
  {
    assert forall i | 0 <= i < |table| :: Queued(table[i], table'[i]);
    assert forall i | 0 <= i < |table| :: table'[i] == table[i].(ring := table'[i].ring);
  }

  /** At most one of grab and drag is in force; each names a window that exists and is not minimised,
      and a dragged one is decorated and not full. */
  ghost predicate PointerSound(table: seq<Window>, grabbed: int, dragged: int) {
    && (grabbed == WINDOW_NONE || dragged == WINDOW_NONE)
    && (grabbed != WINDOW_NONE ==> Live(table, grabbed) && !table[grabbed].minimised)
    && (dragged != WINDOW_NONE ==> Live(table, dragged) && !table[dragged].minimised &&
                                   table[dragged].decorated && !table[dragged].full)
  }

  // ----------------------------------------------------------- changes of the table

  /** The window differs in its queue alone, and that only by notices added at its end. */
  ghost predicate Queued(w: Window, w': Window) {
    w' == w.(ring := w'.ring) && Heard(Waiting(w.ring), Waiting(w'.ring))
  }

  /** The tables differ in their queues alone, and those only by notices added. */
  ghost predicate SameButRings(table: seq<Window>, table': seq<Window>) {
    |table'| == |table| && forall i | 0 <= i < |table| :: Queued(table[i], table'[i])
  }

  lemma RingsSame(a: seq<Window>)
    ensures SameButRings(a, a)
  {
  }

  lemma RingsChain(a: seq<Window>, b: seq<Window>, c: seq<Window>)
    requires SameButRings(a, b) && SameButRings(b, c)
    ensures SameButRings(a, c)
  {
    hide Waiting, Heard;
    forall i | 0 <= i < |a| ensures Queued(a[i], c[i]) {
      assert Queued(a[i], b[i]) && Queued(b[i], c[i]);
      HeardChain(Waiting(a[i].ring), Waiting(b[i].ring), Waiting(c[i].ring));
    }
  }

  /** No window has come, gone or changed hands. */
  ghost predicate SameHands(table: seq<Window>, table': seq<Window>) {
    && |table'| == |table|
    && forall i | 0 <= i < |table| ::
         table'[i].inUse == table[i].inUse && table'[i].owner == table[i].owner && table'[i].layer == table[i].layer
  }

  /** Every queue has gained at its end, and none but one has gained reports of the pointer; no window
      has come, gone or changed hands. */
  ghost predicate RoutedOnlyTo(table: seq<Window>, table': seq<Window>, bound: int) {
    && SameHands(table, table')
    && forall i | 0 <= i < |table| ::
         if i == bound then Waiting(table[i].ring) <= Waiting(table'[i].ring)
         else Heard(Waiting(table[i].ring), Waiting(table'[i].ring))
  }

  lemma StillRouted(table: seq<Window>, bound: int)
    ensures RoutedOnlyTo(table, table, bound)
  {
  }

  lemma RoutedWider(a: seq<Window>, b: seq<Window>, bound: int)
    requires RoutedOnlyTo(a, b, WINDOW_NONE)
    ensures RoutedOnlyTo(a, b, bound)
  {
  }

  lemma QueuedIs(w: Window, w': Window)
    requires Queued(w, w')
    ensures w' == w.(ring := w'.ring)
  {
  }

  lemma RoutedChain(a: seq<Window>, b: seq<Window>, c: seq<Window>, bound: int)
    requires RoutedOnlyTo(a, b, bound) && RoutedOnlyTo(b, c, bound)
    ensures RoutedOnlyTo(a, c, bound)
  {
    hide Heard, Waiting;
    forall i | 0 <= i < |a| && i != bound ensures Heard(Waiting(a[i].ring), Waiting(c[i].ring)) {
      HeardChain(Waiting(a[i].ring), Waiting(b[i].ring), Waiting(c[i].ring));
    }
  }

  /** Notices added to the queues report no pointer to anybody. */
  lemma NoticesRoute(a: seq<Window>, b: seq<Window>, c: seq<Window>, bound: int)
    requires SameHands(a, b) && (forall i | 0 <= i < |a| :: b[i].ring == a[i].ring) && SameButRings(b, c)
    ensures RoutedOnlyTo(a, c, bound)
  {
    hide Waiting;
    assert forall i | 0 <= i < |a| :: Queued(b[i], c[i]);
  }

  lemma BandsAlike(a: seq<Window>, b: seq<Window>)
    requires SameButRings(a, b)
    ensures forall i | 0 <= i < |a| ::
              TitleBandOf(b[i]) == TitleBandOf(a[i]) && FrameOf(b[i]) == FrameOf(a[i]) &&
              b[i].inUse == a[i].inUse
  {
    assert forall i | 0 <= i < |a| :: Queued(a[i], b[i]);
  }

  lemma SurfacesAlike(a: seq<Window>, b: seq<Window>, id: int)
    requires SameButRings(a, b) && 0 <= id < |a|
    ensures b[id].surface == a[id].surface
  {
    assert Queued(a[id], b[id]);
    assert b[id] == a[id].(ring := b[id].ring);
  }

  lemma SurfacesKept(a: seq<Window>, b: seq<Window>)
    requires SameButRings(a, b)
    ensures forall i | 0 <= i < |a| :: b[i].surface == a[i].surface
  {
    forall i | 0 <= i < |a| ensures b[i].surface == a[i].surface {
      SurfacesAlike(a, b, i);
    }
  }

  /** Nothing but the queues themselves depends on them. */
  lemma RingsDoNotMatter(table: seq<Window>, table': seq<Window>, stack: seq<int>, told: seq<Notice>,
                         screenWidth: int, screenHeight: int, depth: int,
                         focused: int, grabbed: int, dragged: int)
    requires SameButRings(table, table')
    ensures TableSound(table, screenWidth, screenHeight, depth) <==>
            TableSound(table', screenWidth, screenHeight, depth)
    ensures StackSound(table, stack) <==> StackSound(table', stack)
    ensures FocusSound(table, focused) <==> FocusSound(table', focused)
    ensures ToldSound(table, told, focused) <==> ToldSound(table', told, focused)
    ensures PointerSound(table, grabbed, dragged) <==> PointerSound(table', grabbed, dragged)
    ensures WideEnough(table) <==> WideEnough(table')
    ensures SurfacesOf(table) == SurfacesOf(table') && Memories(table) == Memories(table')
  {
    assert forall i | 0 <= i < |table| :: Queued(table[i], table'[i]);
    assert forall i | 0 <= i < |table| :: table'[i] == table[i].(ring := table'[i].ring);
    assert forall i | 0 <= i < |table| && table[i].inUse ::
        WindowFits(table[i], screenWidth, screenHeight, depth) <==>
        WindowFits(table'[i], screenWidth, screenHeight, depth);
    assert SameLayers(table, table') && SameLayers(table', table);
    if StackSound(table, stack) {
      StackStaysSound(table, table', stack);
    }
    if StackSound(table', stack) {
      StackStaysSound(table', table, stack);
    }
  }

  lemma RingsDoNotMatterToContents(table: seq<Window>, table': seq<Window>, screen: Surface)
    requires SameButRings(table, table')
    ensures ContentsSound(table, screen) <==> ContentsSound(table', screen)
  {
    assert forall i | 0 <= i < |table| :: Queued(table[i], table'[i]);
    assert forall i | 0 <= i < |table| :: table'[i] == table[i].(ring := table'[i].ring);
    assert forall i | 0 <= i < |table| :: ContentSound(table[i], screen) <==> ContentSound(table'[i], screen);
    assert forall i, j | 0 <= i < j < |table| ::
        Apart(table[i], table[j]) <==> Apart(table'[i], table'[j]);
  }

  /** The tables differ in one window, which keeps its place in the world: its layer and its content;
      and its queue, if it changes, stays quiet. */
  ghost predicate ChangedAt(table: seq<Window>, table': seq<Window>, id: int) {
    && Live(table, id) && |table'| == |table|
    && (forall i | 0 <= i < |table| && i != id :: table'[i] == table[i])
    && table'[id].inUse && table'[id].layer == table[id].layer
    && table'[id].surface == table[id].surface
    && (table'[id].ring == table[id].ring || Quiet(table'[id].ring))
  }

  lemma ChangeKeeps(table: seq<Window>, table': seq<Window>, id: int, screen: Surface, stack: seq<int>,
                    told: seq<Notice>, focused: int, screenWidth: int, screenHeight: int, depth: int)
    requires ChangedAt(table, table', id) && WindowFits(table'[id], screenWidth, screenHeight, depth)
    ensures TableSound(table, screenWidth, screenHeight, depth) ==>
              TableSound(table', screenWidth, screenHeight, depth)
    ensures ContentsSound(table, screen) ==> ContentsSound(table', screen)
    ensures QueuesQuiet(table) ==> QueuesQuiet(table')
    ensures StackSound(table, stack) ==> StackSound(table', stack)
    ensures ToldSound(table, told, focused) ==> ToldSound(table', told, focused)
    ensures WideEnough(table) && Wide(table'[id]) ==> WideEnough(table')
    ensures SurfacesOf(table') == SurfacesOf(table) && Memories(table') == Memories(table)
  {
    hide WindowFits, Quiet, Wide;
    assert SameLayers(table, table');
    if StackSound(table, stack) {
      StackStaysSound(table, table', stack);
    }
    assert forall i | 0 <= i < |table| :: table'[i].surface == table[i].surface;
    if ContentsSound(table, screen) {
      assert forall i | 0 <= i < |table| && table'[i].inUse :: ContentSound(table[i], screen);
      assert forall i, j | 0 <= i < j < |table| && table'[i].inUse && table'[j].inUse :: Apart(table[i], table[j]);
    }
  }

  /** Neither the focus nor the pointer's binding depends on where a window stands or what it shows. */
  lemma PlaceDoesNotMatter(table: seq<Window>, table': seq<Window>, id: int,
                           focused: int, grabbed: int, dragged: int)
    requires 0 <= id < |table| == |table'| && forall i | 0 <= i < |table| && i != id :: table'[i] == table[i]
    requires table'[id].inUse == table[id].inUse && table'[id].layer == table[id].layer
    requires table'[id].minimised == table[id].minimised && table'[id].full == table[id].full
    requires table'[id].decorated == table[id].decorated
    ensures FocusSound(table, focused) ==> FocusSound(table', focused)
    ensures PointerSound(table, grabbed, dragged) ==> PointerSound(table', grabbed, dragged)
  {
  }

  lemma FrameWithout(w: Window)
    ensures FrameOf(w.(minimised := false)) == FrameOf(w)
  {
  }

  lemma FocusOnFocusable(table: seq<Window>, id: int)
    requires 0 <= id < |table| && Focusable(table[id])
    ensures FocusSound(table, id)
  {
  }

  /** Where a window is put in the stack depends on layers alone. */
  lemma WithIgnoresRings(table: seq<Window>, table': seq<Window>, stack: seq<int>, id: int)
    requires SameButRings(table, table')
    ensures With(table', stack, id) == With(table, stack, id)
    ensures Raised(table', stack, id) == Raised(table, stack, id)
  {
    forall j ensures RankOf(table', j) == RankOf(table, j) {
      if 0 <= j < |table| {
        assert Queued(table[j], table'[j]);
      }
    }
    var rank := RankOf(table, id);
    TopIs(table', stack, rank, TopOfLayer(table, stack, rank));
    TopIs(table', Without(stack, id), rank, TopOfLayer(table, Without(stack, id), rank));
  }

  lemma FocusNotHidden(table: seq<Window>, id: int, focused: int)
    requires Live(table, id) && table[id].minimised && FocusSound(table, focused)
    ensures focused != id
  {
  }

  lemma HiddenIsHidden(hidden: seq<Window>, settled: seq<Window>, id: int)
    requires 0 <= id < |hidden| && SameButRings(hidden, settled)
    ensures settled[id].minimised == hidden[id].minimised && settled[id].inUse == hidden[id].inUse
  {
    assert Queued(hidden[id], settled[id]);
    assert settled[id] == hidden[id].(ring := settled[id].ring);
  }

  lemma HiddenAlready(table: seq<Window>, id: int, focused: int, grabbed: int, dragged: int)
    requires Live(table, id) && PointerSound(table, grabbed, dragged)
    ensures table[id].minimised ==> grabbed != id && dragged != id
    ensures table[id].minimised && FocusSound(table, focused) ==> focused != id
  {
  }

  lemma HidingKeeps(table: seq<Window>, table': seq<Window>, id: int, screenWidth: int, screenHeight: int,
                    depth: int, focused: int, grabbed: int, dragged: int)
    requires Live(table, id) && table[id].decorated
    requires table' == table[id := table[id].(minimised := true)]
    ensures ChangedAt(table, table', id) && FrameOf(table'[id]) == FrameOf(table[id])
    ensures WindowFits(table[id], screenWidth, screenHeight, depth) ==>
              WindowFits(table'[id], screenWidth, screenHeight, depth)
    ensures Wide(table[id]) ==> Wide(table'[id])
    ensures FocusSound(table, focused) && focused != id ==> FocusSound(table', focused)
    ensures PointerSound(table, grabbed, dragged) ==>
              PointerSound(table', if grabbed == id then WINDOW_NONE else grabbed,
                           if dragged == id then WINDOW_NONE else dragged)
  {
  }

  /** The tables differ in one window, which is no more. */
  ghost predicate ReleasedAt(table: seq<Window>, table': seq<Window>, id: int) {
    && Live(table, id) && |table'| == |table|
    && (forall i | 0 <= i < |table| && i != id :: table'[i] == table[i])
    && !table'[id].inUse && table'[id].surface == null && Quiet(table'[id].ring)
  }

  /** The table once a window has been destroyed in it. */
  function WithoutWindow(table: seq<Window>, id: int): seq<Window>
    requires 0 <= id < |table|
  {
    table[id := table[id].(inUse := false, surface := null, ring := Emptied(table[id].ring))]
  }

  lemma NobodyThere(table: seq<Window>, stack: seq<int>)
    requires StackSound(table, stack) && stack == []
    ensures FocusSound(table, WINDOW_NONE)
  {
    forall i | 0 <= i < |table| ensures !Focusable(table[i]) {
      assert i !in stack;
    }
  }

  lemma ReleasedIs(table: seq<Window>, table': seq<Window>, id: int, focused: int, grabbed: int, dragged: int)
    requires Live(table, id)
    requires table' == WithoutWindow(table, id)
    ensures ReleasedAt(table, table', id)
    ensures PointerSound(table, grabbed, dragged) ==>
              PointerSound(table', if grabbed == id then WINDOW_NONE else grabbed,
                           if dragged == id then WINDOW_NONE else dragged)
    ensures FocusSound(table, focused) && focused != id ==> FocusSound(table', focused)
  {
  }

  lemma ReleaseKeeps(table: seq<Window>, table': seq<Window>, id: int, screen: Surface, stack: seq<int>,
                     told: seq<Notice>, focused: int, screenWidth: int, screenHeight: int, depth: int)
    requires ReleasedAt(table, table', id)
    ensures TableSound(table, screenWidth, screenHeight, depth) ==>
              TableSound(table', screenWidth, screenHeight, depth)
    ensures ContentsSound(table, screen) ==> ContentsSound(table', screen)
    ensures QueuesQuiet(table) ==> QueuesQuiet(table')
    ensures StackSound(table, stack) ==> StackSound(table', Without(stack, id))
    ensures ToldSound(table, told, focused) ==>
              ToldSound(table', told, if focused == id then WINDOW_NONE else focused)
    ensures focused == WINDOW_NONE || Live(table, focused) ==>
              focused == id || focused == WINDOW_NONE || Live(table', focused)
    ensures WideEnough(table) ==> WideEnough(table')
    ensures SurfacesOf(table') <= SurfacesOf(table) && Memories(table') <= Memories(table)
  {
    hide WindowFits, Quiet, Without;
    if StackSound(table, stack) {
      WithoutKeeps(table, stack, id);
      forall i, j | 0 <= i < j < |Without(stack, id)|
        ensures RankOf(table', Without(stack, id)[i]) <= RankOf(table', Without(stack, id)[j])
      {
        assert Without(stack, id)[i] in Without(stack, id) && Without(stack, id)[j] in Without(stack, id);
      }
    }
    if ContentsSound(table, screen) {
      assert forall i | 0 <= i < |table| && table'[i].inUse :: ContentSound(table[i], screen);
      assert forall i, j | 0 <= i < j < |table| && table'[i].inUse && table'[j].inUse :: Apart(table[i], table[j]);
    }
  }

  function Blanks(n: nat): seq<Window> { seq(n, i => BlankSlot()) }

  ghost function Silence(n: nat): seq<Notice> { seq(n, i => Untold) }

  /** A table that grows gains slots no window stands in. */
  lemma GrownKeeps(table: seq<Window>, n: nat, screen: Surface, stack: seq<int>, told: seq<Notice>,
                   focused: int, grabbed: int, dragged: int, screenWidth: int, screenHeight: int, depth: int)
    ensures TableSound(table, screenWidth, screenHeight, depth) ==>
              TableSound(table + Blanks(n), screenWidth, screenHeight, depth)
    ensures ContentsSound(table, screen) ==> ContentsSound(table + Blanks(n), screen)
    ensures QueuesQuiet(table) ==> QueuesQuiet(table + Blanks(n))
    ensures StackSound(table, stack) ==> StackSound(table + Blanks(n), stack)
    ensures ToldSound(table, told, focused) ==> ToldSound(table + Blanks(n), told + Silence(n), focused)
    ensures FocusSound(table, focused) ==> FocusSound(table + Blanks(n), focused)
    ensures PointerSound(table, grabbed, dragged) ==> PointerSound(table + Blanks(n), grabbed, dragged)
    ensures WideEnough(table) ==> WideEnough(table + Blanks(n))
    ensures SurfacesOf(table + Blanks(n)) == SurfacesOf(table) && Memories(table + Blanks(n)) == Memories(table)
  {
    hide WindowFits, ContentSound, Apart;
    var grown := table + Blanks(n);
    assert Waiting(EmptyRing()) == [];
    assert forall i | 0 <= i < |table| :: grown[i] == table[i];
    assert forall i | |table| <= i < |grown| :: grown[i] == BlankSlot();
    if StackSound(table, stack) {
      assert forall id :: Live(grown, id) <==> Live(table, id);
      forall i, j | 0 <= i < j < |stack| ensures RankOf(grown, stack[i]) <= RankOf(grown, stack[j]) {
        assert stack[i] in stack && stack[j] in stack;
      }
    }
  }

  /** One slot of the table holds a window with a content of its own, and another than before. */
  ghost predicate PlacedAt(table: seq<Window>, table': seq<Window>, id: int) {
    && 0 <= id < |table| == |table'|
    && (forall i | 0 <= i < |table| && i != id :: table'[i] == table[i])
    && table'[id].inUse && Quiet(table'[id].ring)
    && (forall i | 0 <= i < |table| && i != id && table[i].inUse :: Apart(table[i], table'[id]))
  }

  lemma PlacedKeeps(table: seq<Window>, table': seq<Window>, id: int, screen: Surface,
                    screenWidth: int, screenHeight: int, depth: int)
    requires PlacedAt(table, table', id)
    requires ContentSound(table'[id], screen) && WindowFits(table'[id], screenWidth, screenHeight, depth)
    ensures TableSound(table, screenWidth, screenHeight, depth) ==>
              TableSound(table', screenWidth, screenHeight, depth)
    ensures ContentsSound(table, screen) ==> ContentsSound(table', screen)
    ensures QueuesQuiet(table) ==> QueuesQuiet(table')
    ensures WideEnough(table) && Wide(table'[id]) ==> WideEnough(table')
  {
    hide WindowFits, Quiet, Wide, ContentSound;
    if ContentsSound(table, screen) {
      assert forall i | 0 <= i < |table| && i != id && table'[i].inUse :: ContentSound(table[i], screen);
      forall i, j | 0 <= i < j < |table| && table'[i].inUse && table'[j].inUse
        ensures Apart(table'[i], table'[j])
      {
        if i != id && j != id {
          assert Apart(table[i], table[j]);
        }
      }
    }
  }

  lemma ReplacedKeeps(table: seq<Window>, table': seq<Window>, id: int, stack: seq<int>, told: seq<Notice>,
                      focused: int)
    requires PlacedAt(table, table', id) && table[id].inUse && table'[id].layer == table[id].layer
    ensures StackSound(table, stack) ==> StackSound(table', stack)
    ensures ToldSound(table, told, focused) ==> ToldSound(table', told, focused)
  {
    hide Apart, Quiet;
    assert SameLayers(table, table');
    if StackSound(table, stack) {
      StackStaysSound(table, table', stack);
    }
  }

  /** A window made in a free slot is put in the stack, and is told nothing yet. */
  lemma MadeKeeps(table: seq<Window>, table': seq<Window>, id: int, stack: seq<int>, told: seq<Notice>,
                  focused: int, grabbed: int, dragged: int)
    requires PlacedAt(table, table', id) && !table[id].inUse && |told| == |table|
    ensures StackSound(table, stack) ==> id !in stack && StackSound(table', With(table', stack, id))
    ensures ToldSound(table, told, focused) && focused != id ==>
              ToldSound(table', told[id := Untold], focused)
    ensures PointerSound(table, grabbed, dragged) ==> PointerSound(table', grabbed, dragged)
    ensures FocusSound(table, focused) && !Focusable(table'[id]) ==> FocusSound(table', focused)
  {
    hide Apart, Quiet, With;
    if StackSound(table, stack) {
      forall i, j | 0 <= i < j < |stack| ensures RankOf(table', stack[i]) <= RankOf(table', stack[j]) {
        assert stack[i] in stack && stack[j] in stack;
        assert stack[i] != id && stack[j] != id;
      }
      WithKeeps(table', stack, id);
    }
  }

  // ------------------------------------------------------- what a call leaves as it was

  /** A slot of the table, blank where the table has not grown so far. */
  function SlotAt(table: seq<Window>, i: int): Window {
    if 0 <= i < |table| then table[i] else BlankSlot()
  }

  /** No queue but one has gained a report of the pointer, whatever else the queues gained or lost. */
  ghost predicate PointedOnlyAt(before: seq<Window>, after: seq<Window>, bound: int) {
    && |before| <= |after|
    && forall i | 0 <= i < |after| && i != bound ::
         Unpointed(Waiting(SlotAt(before, i).ring), Waiting(after[i].ring))
  }

  lemma PointedChain(a: seq<Window>, b: seq<Window>, c: seq<Window>, bound: int)
    requires PointedOnlyAt(a, b, bound) && PointedOnlyAt(b, c, bound)
    ensures PointedOnlyAt(a, c, bound)
  {
    hide Unpointed, Waiting;
    assert Waiting(BlankSlot().ring) == [] by { BlankIsQuiet(); }
    forall i | 0 <= i < |c| && i != bound
      ensures Unpointed(Waiting(SlotAt(a, i).ring), Waiting(c[i].ring))
    {
      if i < |b| {
        assert SlotAt(b, i) == b[i];
        UnpointedChain(Waiting(SlotAt(a, i).ring), Waiting(b[i].ring), Waiting(c[i].ring));
      }
    }
  }

  lemma GrownFrom(before: seq<Window>, grown: seq<Window>, after: seq<Window>)
    requires |before| <= |grown| && grown == before + Blanks(|grown| - |before|)
    ensures forall i :: SlotAt(grown, i) == SlotAt(before, i)
    ensures forall bound :: PointedOnlyAt(grown, after, bound) ==> PointedOnlyAt(before, after, bound)
  {
    hide Unpointed, Waiting;
  }

  lemma BlankIsQuiet()
    ensures Waiting(BlankSlot().ring) == []
  {
  }

  lemma RoutedIsPointed(before: seq<Window>, after: seq<Window>, bound: int)
    requires RoutedOnlyTo(before, after, bound)
    ensures PointedOnlyAt(before, after, bound)
  {
    hide Unpointed, Waiting, Heard;
    forall i | 0 <= i < |after| && i != bound
      ensures Unpointed(Waiting(SlotAt(before, i).ring), Waiting(after[i].ring))
    {
      HeardIsUnpointed(Waiting(before[i].ring), Waiting(after[i].ring));
    }
  }

  lemma PointedWider(before: seq<Window>, after: seq<Window>, bound: int)
    requires PointedOnlyAt(before, after, WINDOW_NONE)
    ensures PointedOnlyAt(before, after, bound)
  {
  }

  /** A queue as it was, or an empty one. */
  ghost predicate KeptOrEmptied(ring: Ring, ring': Ring) { ring' == ring || Waiting(ring') == [] }

  lemma OneSlotNew(before: seq<Window>, id: int, w: Window)
    requires 0 <= id < |before| && Waiting(w.ring) == []
    ensures forall i | 0 <= i < |before| :: KeptOrEmptied(SlotAt(before, i).ring, before[id := w][i].ring)
    ensures forall i | 0 <= i < |before| && i != id :: before[id := w][i].surface == SlotAt(before, i).surface
  {
  }

  lemma NoticesPointNobody(before: seq<Window>, changed: seq<Window>, after: seq<Window>)
    requires |before| <= |changed| && SameButRings(changed, after)
    requires forall i | 0 <= i < |changed| :: KeptOrEmptied(SlotAt(before, i).ring, changed[i].ring)
    ensures PointedOnlyAt(before, after, WINDOW_NONE)
    ensures forall i | 0 <= i < |after| :: after[i].surface == changed[i].surface
  {
    hide Unpointed, Waiting, Heard;
    forall i | 0 <= i < |after|
      ensures after[i].surface == changed[i].surface
      ensures Unpointed(Waiting(SlotAt(before, i).ring), Waiting(after[i].ring))
    {
      QueuedIs(changed[i], after[i]);
      assert Queued(changed[i], after[i]);
      var was := Waiting(SlotAt(before, i).ring);
      HeardIsUnpointed(Waiting(changed[i].ring), Waiting(after[i].ring));
      if changed[i].ring != SlotAt(before, i).ring {
        LosingIsUnpointed(was, [], |was|);
        UnpointedChain(was, [], Waiting(after[i].ring));
      }
    }
  }

  lemma TakingPointsNobody(before: seq<Window>, after: seq<Window>, id: int)
    requires 0 <= id < |before| == |after| && forall i | 0 <= i < |before| && i != id :: after[i] == before[i]
    requires Waiting(before[id].ring) != [] && Waiting(after[id].ring) == Waiting(before[id].ring)[1..]
    ensures PointedOnlyAt(before, after, WINDOW_NONE)
  {
    hide Unpointed, Waiting;
    forall i | 0 <= i < |after|
      ensures Unpointed(Waiting(SlotAt(before, i).ring), Waiting(after[i].ring))
    {
      LosingIsUnpointed(Waiting(before[i].ring), Waiting(after[i].ring), if i == id then 1 else 0);
    }
  }

  /** A window that stands is one that stood, with its owner and in its layer, or is the kernel's own. */
  ghost predicate HandedOn(before: seq<Window>, after: seq<Window>) {
    forall i | Live(after, i) :: after[i].owner == 0 || SameHand(SlotAt(before, i), after[i])
  }

  predicate SameHand(w: Window, w': Window) {
    w.inUse == w'.inUse && w.owner == w'.owner && w.layer == w'.layer
  }

  lemma SameHandsOn(before: seq<Window>, after: seq<Window>)
    requires SameHands(before, after)
    ensures HandedOn(before, after)
  {
  }

  lemma HandedOnBy(before: seq<Window>, changed: seq<Window>, after: seq<Window>)
    requires HandedOn(before, changed) && SameButRings(changed, after)
    ensures HandedOn(before, after)
  {
    hide Queued;
    OwnersAlike(changed, after);
  }

  lemma GoneHandOn(before: seq<Window>, after: seq<Window>, gone: set<int>)
    requires OnlyGone(before, after, gone)
    ensures HandedOn(before, after)
  {
    hide LeftBy;
    forall i | Live(after, i) ensures SameHand(SlotAt(before, i), after[i]) {
      SlotLeft(before, after, gone, i);
    }
  }

  /** A binding of the pointer stands, or has ended with its window gone or out of sight. */
  ghost predicate GrabHeld(table: seq<Window>, was: int, now: int) {
    now == was || (now == WINDOW_NONE && !(Live(table, was) && !table[was].minimised))
  }

  /** A drag goes on, or has ended with its window gone, out of sight or full. */
  ghost predicate DragHeld(table: seq<Window>, was: int, now: int) {
    now == was || (now == WINDOW_NONE && !(Live(table, was) && !table[was].minimised && !table[was].full))
  }

  // ------------------------------------------------------- the windows of one owner

  /** The windows of an owner among the first so many slots. */
  ghost function Owned(table: seq<Window>, owner: nat, upTo: nat): set<int> {
    set i | 0 <= i < upTo && Live(table, i) && table[i].owner == owner
  }

  /** The slot is as a destroyed window leaves it, or has been sent notices at most. */
  ghost predicate LeftBy(before: Window, after: Window, gone: bool) {
    if gone then !after.inUse && after.surface == null && Waiting(after.ring) == [] &&
                 after.owner == before.owner && after.layer == before.layer
    else Queued(before, after)
  }

  /** Of a table only some windows are gone, and the others have been sent notices at most. */
  ghost predicate OnlyGone(table: seq<Window>, table': seq<Window>, gone: set<int>) {
    |table'| == |table| && forall i | 0 <= i < |table| :: LeftBy(table[i], table'[i], i in gone)
  }

  lemma NobodyGone(table: seq<Window>)
    ensures OnlyGone(table, table, {})
  {
  }

  /** One more window gone, and the slots no window stands in being sent nothing. */
  lemma OneMoreGone(start: seq<Window>, before: seq<Window>, after: seq<Window>, gone: set<int>, id: int)
    requires OnlyGone(start, before, gone) && Live(before, id)
    requires SameButRings(WithoutWindow(before, id), after)
    requires forall i | 0 <= i < |before| && !WithoutWindow(before, id)[i].inUse ::
               after[i] == WithoutWindow(before, id)[i]
    ensures OnlyGone(start, after, gone + {id})
  {
    hide Heard;
    var released := WithoutWindow(before, id);
    forall i | 0 <= i < |start| ensures LeftBy(start[i], after[i], i in gone + {id}) {
      assert LeftBy(start[i], before[i], i in gone) && Queued(released[i], after[i]);
      if i != id && i !in gone {
        HeardChain(Waiting(start[i].ring), Waiting(before[i].ring), Waiting(after[i].ring));
      }
    }
  }

  lemma SlotLeft(table: seq<Window>, table': seq<Window>, gone: set<int>, i: int)
    requires OnlyGone(table, table', gone) && 0 <= i < |table|
    ensures |table'| == |table| && LeftBy(table[i], table'[i], i in gone)
    ensures table'[i].owner == table[i].owner && table'[i].layer == table[i].layer
    ensures table'[i].inUse <==> table[i].inUse && i !in gone
  {
  }

  lemma OneMoreOwned(table: seq<Window>, owner: nat, upTo: nat)
    requires upTo < |table|
    ensures Owned(table, owner, upTo + 1) ==
            Owned(table, owner, upTo) + if table[upTo].inUse && table[upTo].owner == owner then {upTo} else {}
    ensures upTo !in Owned(table, owner, upTo)
  {
  }

  /** With the windows gone, nobody has gained a report of the pointer or another content. */
  lemma GonePointNobody(before: seq<Window>, after: seq<Window>, gone: set<int>)
    requires OnlyGone(before, after, gone)
    ensures PointedOnlyAt(before, after, WINDOW_NONE)
    ensures forall i | 0 <= i < |after| && after[i].surface != null :: after[i].surface == before[i].surface
  {
    hide Unpointed, Waiting, Heard;
    forall i | 0 <= i < |after|
      ensures after[i].surface != null ==> after[i].surface == before[i].surface
      ensures Unpointed(Waiting(SlotAt(before, i).ring), Waiting(after[i].ring))
    {
      var was := Waiting(before[i].ring);
      assert LeftBy(before[i], after[i], i in gone);
      if i in gone {
        LosingIsUnpointed(was, [], |was|);
      } else {
        QueuedIs(before[i], after[i]);
        HeardIsUnpointed(was, Waiting(after[i].ring));
      }
    }
  }

  /** Another window gone, the topmost that may hold the focus still is. */
  lemma {:induction false} TopSurvives(table: seq<Window>, stack: seq<int>, id: int, after: seq<Window>)
    requires Live(table, id) && SameButRings(WithoutWindow(table, id), after)
    requires Distinct(stack) && TopFocusable(table, stack) != id
    ensures TopFocusable(after, Without(stack, id)) == TopFocusable(table, stack)
  {
    hide Without, Queued;
    if stack == [] {
      NothingWithout(id);
    } else {
      var init, last := stack[..|stack| - 1], stack[|stack| - 1];
      assert init + [last] == stack;
      WithoutLast(init, last, id);
      if !(0 <= last < |table| && Focusable(table[last])) {
        TopSurvives(table, init, id, after);
      }
      if 0 <= last < |table| {
        QueuedIs(WithoutWindow(table, id)[last], after[last]);
      }
      var rest := Without(stack, id);
      if last != id {
        assert rest == Without(init, id) + [last];
        assert rest[..|rest| - 1] == Without(init, id);
      }
    }
  }

  // ------------------------------------------------------------ changes of what shows

  /** Wide enough for the close glyph to lie inside the band, where it is drawn, and so where it was
      before it was made full. */
  predicate Wide(w: Window) {
    w.inUse && w.decorated ==> w.width >= WIDTH_FOR_BAND && (w.full ==> w.restoreWidth >= WIDTH_FOR_BAND)
  }

  ghost predicate WideEnough(table: seq<Window>) {
    forall i | 0 <= i < |table| :: Wide(table[i])
  }

  /** Wide enough for the close glyph to lie inside the frame. */
  predicate Roomy(w: Window) { w.inUse && w.decorated ==> w.width >= WIDTH_FOR_FRAME }

  ghost predicate RoomyEnough(table: seq<Window>) {
    forall i | 0 <= i < |table| :: Roomy(table[i])
  }

  lemma WideIsRoomy(w: Window)
    requires Wide(w)
    ensures Roomy(w)
  {
  }

  lemma NothingOutsideTheFrame(look: Look, w: Window, focused: bool, content: Colour, x: int, y: int)
    requires w.inUse ==> w.width >= MINIMUM_EXTENT && w.height >= MINIMUM_EXTENT
    requires Roomy(w) && !Contains(FrameOf(w), x, y)
    ensures VisibleAt(look, w, focused, content, x, y).None?
  {
    hide PaintOf, FrameOf;
    if w.inUse {
      PaintsItsFrame(look, w, focused, content, x, y);
    }
  }

  /** Painting only the windows whose frames touch a region paints it as painting all of them would, where
      each is wide enough for its frame to hold its glyph. */
  lemma {:induction false} ShownTouching(look: Look, table: seq<Window>, contents: seq<Colour>, stack: seq<int>,
                                         focused: int, region: Rectangle, x: int, y: int)
    requires RoomyEnough(table) && Contains(region, x, y)
    requires forall id | id in stack && Live(table, id) ::
               table[id].width >= MINIMUM_EXTENT && table[id].height >= MINIMUM_EXTENT
    ensures Shown(look, table, contents, Touching(table, stack, region), focused, x, y) ==
            Shown(look, table, contents, stack, focused, x, y)
  {
    hide VisibleAt, FrameOf, Roomy;
    if stack != [] {
      var id, below := stack[|stack| - 1], stack[..|stack| - 1];
      var drawn := Touching(table, below, region);
      ShownTouching(look, table, contents, below, focused, region, x, y);
      if 0 <= id < |table| {
        assert id in stack;
        if Touches(table[id], region) {
          assert (drawn + [id])[..|drawn|] == drawn;
        } else {
          IntersectMeets(FrameOf(table[id]), region, x, y);
          NothingOutsideTheFrame(look, table[id], id == focused, Pick(contents, id), x, y);
          assert drawn + [] == drawn;
        }
      } else {
        assert drawn + [] == drawn;
      }
    }
  }

  /** The windows differ in their queue and their owner alone. */
  predicate LooksAlike(w: Window, w': Window) { w' == w.(ring := w'.ring, owner := w'.owner) }

  lemma FrameIgnoresBooks(look: Look, w: Window, w': Window, focused: bool, x: int, y: int)
    requires LooksAlike(w, w')
    ensures FramePaint(look, w', focused, x, y) == FramePaint(look, w, focused, x, y)
  {
    hide OnCross, SquaresPaint, OnOutline;
    assert TitlePaint(look, w', focused, x, y) == TitlePaint(look, w, focused, x, y);
    assert ControlsPaint(look, w', focused, x, y) == ControlsPaint(look, w, focused, x, y);
    assert CrossAt(w', x, y) == CrossAt(w, x, y);
    assert FrameOf(w') == FrameOf(w) && TitleBandOf(w') == TitleBandOf(w);
  }

  /** Neither its queue nor its owner shows in what a window paints. */
  lemma PaintIgnoresBooks(look: Look, w: Window, w': Window, focused: bool, content: Colour, x: int, y: int)
    requires LooksAlike(w, w')
    ensures VisibleAt(look, w', focused, content, x, y) == VisibleAt(look, w, focused, content, x, y)
  {
    hide FramePaint, Truncate;
    FrameIgnoresBooks(look, w, w', focused, x, y);
  }

  lemma RepaintContents(look: Look, table: seq<Window>, contents: seq<Colour>, contents': seq<Colour>,
                        stack: seq<int>, focused: int, x: int, y: int)
    requires forall i | i in stack :: Pick(contents', i) == Pick(contents, i)
    ensures Shown(look, table, contents', stack, focused, x, y) ==
            Shown(look, table, contents, stack, focused, x, y)
  {
    hide VisibleAt, Pick;
    ShownAlike(look, stack, table, contents, focused, table, contents', focused, x, y);
  }

  lemma LooksAlikeFits(w: Window, w': Window, screenWidth: int, screenHeight: int, depth: int)
    requires LooksAlike(w, w')
    ensures WindowFits(w, screenWidth, screenHeight, depth) <==> WindowFits(w', screenWidth, screenHeight, depth)
    ensures Wide(w') == Wide(w)
  {
  }

  lemma ContentsLookAlike(table: seq<Window>, table': seq<Window>, id: int, x: int, y: int)
    requires 0 <= id < |table| == |table'| && LooksAlike(table[id], table'[id])
    requires forall i | 0 <= i < |table| && i != id :: table'[i] == table[i]
    ensures ContentsAt(table', x, y) == ContentsAt(table, x, y)
  {
    assert ContentOf(table'[id]) == ContentOf(table[id]);
  }

  lemma OwnersAlike(a: seq<Window>, b: seq<Window>)
    requires SameButRings(a, b)
    ensures SameHands(a, b)
  {
    assert forall i | 0 <= i < |a| :: Queued(a[i], b[i]);
    assert forall i | 0 <= i < |a| :: b[i] == a[i].(ring := b[i].ring);
  }

  /** A change of one window's queue or owner shows nowhere. */
  lemma RepaintBooks(look: Look, table: seq<Window>, contents: seq<Colour>,
                     table': seq<Window>, contents': seq<Colour>, stack: seq<int>, focused: int,
                     id: int, x: int, y: int)
    requires 0 <= id < |table| == |table'| && contents == contents'
    requires forall i | 0 <= i < |table| && i != id :: table'[i] == table[i]
    requires LooksAlike(table[id], table'[id])
    ensures Shown(look, table', contents', stack, focused, x, y) ==
            Shown(look, table, contents, stack, focused, x, y)
  {
    hide VisibleAt, LooksAlike;
    PaintIgnoresBooks(look, table[id], table'[id], id == focused, Pick(contents, id), x, y);
    ShownAlike(look, stack, table, contents, focused, table', contents', focused, x, y);
  }

  lemma RepaintRings(look: Look, table: seq<Window>, table': seq<Window>, contents: seq<Colour>,
                     stack: seq<int>, focused: int, x: int, y: int)
    requires SameButRings(table, table')
    ensures Shown(look, table', contents, stack, focused, x, y) ==
            Shown(look, table, contents, stack, focused, x, y)
  {
    hide VisibleAt;
    forall id | id in stack
      ensures Contributed(look, table, contents, focused, id, x, y) ==
              Contributed(look, table', contents, focused, id, x, y)
    {
      if 0 <= id < |table| {
        assert Queued(table[id], table'[id]);
        PaintIgnoresBooks(look, table[id], table'[id], id == focused, Pick(contents, id), x, y);
      }
    }
    ShownAlike(look, stack, table, contents, focused, table', contents, focused, x, y);
  }

  lemma ContentsIgnoreRings(table: seq<Window>, table': seq<Window>, x: int, y: int)
    requires SameButRings(table, table')
    ensures ContentsAt(table', x, y) == ContentsAt(table, x, y)
  {
    forall i | 0 <= i < |table| ensures ContentAt(table'[i], x, y) == ContentAt(table[i], x, y) {
      assert Queued(table[i], table'[i]);
    }
  }

  twostate predicate Untouched(table: seq<Window>)
    reads SurfacesOf(table), Memories(table)
  {
    forall i | 0 <= i < |table| && table[i].surface != null ::
      unchanged(table[i].surface) && unchanged(table[i].surface.memory)
  }

  /** The pixels of the contents are what they were. */
  twostate predicate ContentsKept(table: seq<Window>)
    reads Memories(table)
  {
    forall x, y :: ContentsAt(table, x, y) == old(ContentsAt(table, x, y))
  }

  twostate lemma UntouchedKeepsContents(table: seq<Window>)
    requires Untouched(table)
    ensures ContentsKept(table)
  {
    forall x, y ensures ContentsAt(table, x, y) == old(ContentsAt(table, x, y)) {
      assert forall i | 0 <= i < |table| :: ContentAt(table[i], x, y) == old(ContentAt(table[i], x, y));
    }
  }

  /** The passing of the focus shows in the two title bands alone. */
  lemma RepaintFocus(look: Look, table: seq<Window>, contents: seq<Colour>, stack: seq<int>,
                     focused: int, focused': int, x: int, y: int)
    requires Live(table, focused) ==> Wide(table[focused]) && !Contains(TitleBandOf(table[focused]), x, y)
    requires Live(table, focused') ==> Wide(table[focused']) && !Contains(TitleBandOf(table[focused']), x, y)
    ensures Shown(look, table, contents, stack, focused', x, y) ==
            Shown(look, table, contents, stack, focused, x, y)
  {
    hide PaintOf, TitleBandOf;
    forall id | id in stack
      ensures Contributed(look, table, contents, focused, id, x, y) ==
              Contributed(look, table, contents, focused', id, x, y)
    {
      if 0 <= id < |table| && (id == focused || id == focused') {
        if table[id].inUse {
          FocusShowsInTheBand(look, table[id], Pick(contents, id), x, y);
        }
      }
    }
    ShownAlike(look, stack, table, contents, focused, table, contents, focused', x, y);
  }

  /** One window changed in its place shows where it stood and where it stands, and nowhere else. */
  lemma RepaintChanged(look: Look, table: seq<Window>, contents: seq<Colour>,
                       table': seq<Window>, contents': seq<Colour>, stack: seq<int>, focused: int,
                       id: int, x: int, y: int)
    requires 0 <= id < |table| == |table'| == |contents| == |contents'|
    requires forall i | 0 <= i < |table| && i != id :: table'[i] == table[i] && contents'[i] == contents[i]
    requires table[id].inUse ==> table[id].width >= MINIMUM_EXTENT && table[id].height >= MINIMUM_EXTENT
    requires table'[id].inUse ==> table'[id].width >= MINIMUM_EXTENT && table'[id].height >= MINIMUM_EXTENT
    requires Roomy(table[id]) && Roomy(table'[id])
    requires !Contains(FrameOf(table[id]), x, y) && !Contains(FrameOf(table'[id]), x, y)
    ensures Shown(look, table', contents', stack, focused, x, y) ==
            Shown(look, table, contents, stack, focused, x, y)
  {
    hide VisibleAt, FrameOf, Roomy;
    NothingOutsideTheFrame(look, table[id], id == focused, contents[id], x, y);
    NothingOutsideTheFrame(look, table'[id], id == focused, contents'[id], x, y);
    ShownAlike(look, stack, table, contents, focused, table', contents', focused, x, y);
  }

  /** A window that does not stand in the stack may become anything, or cease to be. */
  lemma RepaintUnstacked(look: Look, table: seq<Window>, contents: seq<Colour>,
                         table': seq<Window>, contents': seq<Colour>, stack: seq<int>,
                         focused: int, focused': int, id: int, x: int, y: int)
    requires 0 <= id < |table'| && |contents| == |table| <= |table'| == |contents'| && id !in stack
    requires forall i | 0 <= i < |table| && i != id :: table'[i] == table[i] && contents'[i] == contents[i]
    requires forall j | j in stack :: 0 <= j < |table| && (j == focused <==> j == focused')
    ensures Shown(look, table', contents', stack, focused', x, y) ==
            Shown(look, table, contents, stack, focused, x, y)
  {
    hide VisibleAt;
    ShownAlike(look, stack, table, contents, focused, table', contents', focused', x, y);
  }

  lemma RaisedIs(table: seq<Window>, stack: seq<int>, id: int)
    ensures Raised(table, stack, id) == With(table, Without(stack, id), id)
  {
  }

  /** A window raised shows within its frame and nowhere else. */
  lemma ShownRaised(look: Look, table: seq<Window>, contents: seq<Colour>, focused: int, stack: seq<int>,
                    id: int, x: int, y: int)
    requires Live(table, id) && Roomy(table[id]) && !Contains(FrameOf(table[id]), x, y)
    requires table[id].width >= MINIMUM_EXTENT && table[id].height >= MINIMUM_EXTENT
    ensures Shown(look, table, contents, Raised(table, stack, id), focused, x, y) ==
            Shown(look, table, contents, stack, focused, x, y)
  {
    hide FrameOf, VisibleAt, Roomy, With, Without;
    NothingOutsideTheFrame(look, table[id], id == focused, Pick(contents, id), x, y);
    ShownWithout(look, table, contents, focused, stack, id, x, y);
    ShownWith(look, table, contents, focused, Without(stack, id), id, x, y);
  }

  /** A window taken away shows where it stood and nowhere else. */
  lemma ShownReleased(look: Look, table: seq<Window>, contents: seq<Colour>,
                      table': seq<Window>, contents': seq<Colour>,
                      stack: seq<int>, focused: int, id: int, x: int, y: int)
    requires ReleasedAt(table, table', id) && StackSound(table, stack)
    requires |contents| == |table| && |contents'| == |table'|
    requires forall i | 0 <= i < |table| && i != id :: contents'[i] == contents[i]
    requires Roomy(table[id]) && !Contains(FrameOf(table[id]), x, y)
    requires table[id].width >= MINIMUM_EXTENT && table[id].height >= MINIMUM_EXTENT
    ensures Shown(look, table', contents', Without(stack, id), if focused == id then WINDOW_NONE else focused,
                  x, y) == Shown(look, table, contents, stack, focused, x, y)
  {
    hide FrameOf, VisibleAt, Roomy, Without, Quiet;
    WithoutKeeps(table, stack, id);
    NothingOutsideTheFrame(look, table[id], id == focused, contents[id], x, y);
    ShownWithout(look, table, contents, focused, stack, id, x, y);
    RepaintUnstacked(look, table, contents, table', contents', Without(stack, id),
                     focused, if focused == id then WINDOW_NONE else focused, id, x, y);
  }

  /** A window made shows where it stands and nowhere else. */
  lemma ShownMade(look: Look, table: seq<Window>, contents: seq<Colour>,
                  table': seq<Window>, contents': seq<Colour>,
                  stack: seq<int>, focused: int, id: int, x: int, y: int)
    requires StackSound(table, stack) && 0 <= id < |table| == |table'| && !table[id].inUse
    requires |contents| == |table| && |contents'| == |table'|
    requires forall i | 0 <= i < |table| && i != id :: table'[i] == table[i] && contents'[i] == contents[i]
    requires Roomy(table'[id]) && !Contains(FrameOf(table'[id]), x, y)
    requires table'[id].width >= MINIMUM_EXTENT && table'[id].height >= MINIMUM_EXTENT
    ensures Shown(look, table', contents', With(table', stack, id), focused, x, y) ==
            Shown(look, table, contents, stack, focused, x, y)
  {
    hide FrameOf, VisibleAt, Roomy, With;
    NothingOutsideTheFrame(look, table'[id], id == focused, contents'[id], x, y);
    ShownWith(look, table', contents', focused, stack, id, x, y);
    RepaintUnstacked(look, table, contents, table', contents', stack, focused, focused, id, x, y);
  }

  lemma ShownGrown(look: Look, table: seq<Window>, contents: seq<Colour>, n: nat, contents': seq<Colour>,
                   stack: seq<int>, focused: int, x: int, y: int)
    requires StackSound(table, stack) && |contents| == |table| && |contents'| == |table| + n
    requires forall i | 0 <= i < |table| :: contents'[i] == contents[i]
    ensures Shown(look, table + Blanks(n), contents', stack, focused, x, y) ==
            Shown(look, table, contents, stack, focused, x, y)
  {
    hide VisibleAt;
    ShownAlike(look, stack, table, contents, focused, table + Blanks(n), contents', focused, x, y);
  }

  /** What taking the topmost window away, which damages its frame, leaves wrong: a pixel of the screen
      outside the frame shows something else afterwards exactly where the content is narrower than 18 and
      the frame not at the screen's left edge, unless the screen does not reach the tip of the glyph. */
  lemma NarrowLeavesAPixel(look: Look, table: seq<Window>, contents: seq<Colour>, below: seq<int>, id: int,
                           focused: int, screenWidth: int, screenHeight: int)
    requires Live(table, id) && !table[id].minimised && Confinable(table[id], screenWidth, screenHeight)
    requires Shown(look, table, contents, below, focused, TipColumn(table[id]), TipRow(table[id])) !=
             Truncate(Ink(look, id == focused), look.depth)
    ensures (exists x, y :: OnScreen(screenWidth, screenHeight, x, y) && !Contains(FrameOf(table[id]), x, y) &&
               Shown(look, table, contents, below + [id], focused, x, y) !=
               Shown(look, table, contents, below, focused, x, y)) <==>
            table[id].width < WIDTH_FOR_FRAME && table[id].x > 0 && screenHeight >= TipHeight(table[id])
  {
    hide Truncate, PaintOf, FrameOf, Contains;
    var w, content, whole := table[id], Pick(contents, id), below + [id];
    assert whole[..|whole| - 1] == below && whole[|whole| - 1] == id;
    PaintStaysInTheFrame(look, w, id == focused, content, screenWidth, screenHeight);
    if w.width < WIDTH_FOR_FRAME && w.x > 0 && screenHeight >= TipHeight(w) {
      TipIsInk(look, w, id == focused, content, screenWidth, screenHeight);
      TipIsLeft(w);
      assert OnScreen(screenWidth, screenHeight, TipColumn(w), TipRow(w));
    }
  }

  /** The window hit at a point is the one whose paint shows there, whatever the contents are and
      whichever window holds the focus; none is hit exactly where the ground shows. */
  lemma {:induction false} HitIsShown(look: Look, table: seq<Window>, contents: seq<Colour>, stack: seq<int>,
                                      focused: int, x: int, y: int)
    requires RoomyEnough(table)
    requires forall id | id in stack ::
               Live(table, id) && table[id].width >= MINIMUM_EXTENT && table[id].height >= MINIMUM_EXTENT
    ensures HitAt(table, stack, x, y) == ShownBy(look, table, contents, stack, focused, x, y)
  {
    hide PaintOf, FrameOf;
    if stack != [] {
      var id := stack[|stack| - 1];
      assert id in stack && Roomy(table[id]);
      PaintsItsFrame(look, table[id], id == focused, Pick(contents, id), x, y);
      HitIsShown(look, table, contents, stack[..|stack| - 1], focused, x, y);
    }
  }

  lemma {:induction false} DistinctFits(stack: seq<int>, n: nat)
    requires Distinct(stack) && forall k | 0 <= k < |stack| :: 0 <= stack[k] < n
    ensures |stack| <= n
  {
    if stack != [] {
      assert 0 <= stack[0] < n;
      var p := IndexOf(stack, n - 1);
      var rest := Without(stack, n - 1);
      forall k | 0 <= k < |rest| ensures 0 <= rest[k] < n - 1 {
        assert rest[k] == if p < |stack| && k >= p then stack[k + 1] else stack[k];
        assert rest[k] != n - 1;
      }
      DistinctFits(rest, n - 1);
    }
  }
}
