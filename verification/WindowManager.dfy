/** The window manager: the table, the stack, the focus, the pointer and the damage. */
module WindowManagers {
  import opened Options
  import opened Rectangles
  import opened Surfaces
  import opened Events
  import opened Windows
  import opened Frames
  import opened Stacking
  import opened Desk

  const CHUNK := 16

  /** A movement of the mouse, as its driver reports it. */
  datatype Movement = Movement(x: int, y: int, deltaX: int, deltaY: int, buttons: Buttons, changed: Buttons)

  /** Of the buttons of a mouse the lowest, alone, and none where none of them is given. */
  function LowestButton(buttons: Buttons): (lowest: Buttons)
    ensures lowest <= buttons && lowest <= {0, 1, 2} && |lowest| <= 1
    ensures lowest == {} <==> buttons * {0, 1, 2} == {}
    ensures forall b, c | b in lowest && c in buttons && 0 <= c <= 2 :: b <= c
  {
    if LEFT in buttons then {LEFT} else if RIGHT in buttons then {RIGHT}
    else if MIDDLE in buttons then {MIDDLE} else {}
  }

  /** Part of a window's content. */
  datatype Part = Part(id: int, area: Rectangle)

  /** What of a window a press lands upon. */
  datatype Spot = OnClose | OnFull | OnMinimise | OnBand | Inside

  function SpotOf(w: Window, x: int, y: int): Spot {
    if Contains(CloseReachOf(w), x, y) then OnClose
    else if Contains(ControlReachOf(w, FullControl), x, y) then OnFull
    else if Contains(ControlReachOf(w, MinimiseControl), x, y) then OnMinimise
    else if Contains(TitleBandOf(w), x, y) then OnBand
    else Inside
  }

  /** What a press lands upon, by where the pointer is in the frame: three squares of 25, their columns counted from
      the frame's right edge, each reaching one row below the band; then the rest of the band; then everything else. */
  lemma SpotByPlace(w: Window, x: int, y: int)
    requires w.decorated && w.width > 0
    ensures var fromRight, row := w.x + w.width + 2 - x, y - w.y;
            && (SpotOf(w, x, y).OnClose? <==> 3 <= fromRight <= 27 && 1 <= row <= 25)
            && (SpotOf(w, x, y).OnFull? <==> 29 <= fromRight <= 53 && 1 <= row <= 25 && w.width >= 118)
            && (SpotOf(w, x, y).OnMinimise? <==> 55 <= fromRight <= 79 && 1 <= row <= 25 && w.width >= 118)
            && (SpotOf(w, x, y).OnBand? ==> 1 <= x - w.x <= w.width && 1 <= row <= 24)
            && (SpotOf(w, x, y).Inside? ==> !(1 <= x - w.x <= w.width && 1 <= row <= 24))
  {
  }

  /** In the band a press does what the glyph beneath it stands for. */
  lemma GlyphsTellTheSpot(look: Look, w: Window, focused: bool, x: int, y: int)
    requires w.decorated && w.width > 0 && Contains(TitleBandOf(w), x, y)
    ensures CrossAt(w, x, y) ==> SpotOf(w, x, y).OnClose?
    ensures ControlsPaint(look, w, focused, x, y).Some? ==>
              SpotOf(w, x, y).OnFull? || SpotOf(w, x, y).OnMinimise?
    ensures SpotOf(w, x, y).OnMinimise? ==>
              var dx, dy := x - CentreX(w, MinimiseControl), y - CentreY(w, MinimiseControl);
              ControlsPaint(look, w, focused, x, y).Some? <==> -5 <= dx <= 5 && 4 <= dy <= 5
    ensures SpotOf(w, x, y).OnFull? && !w.full ==>
              var dx, dy := x - CentreX(w, FullControl), y - CentreY(w, FullControl);
              ControlsPaint(look, w, focused, x, y).Some? <==>
              -5 <= dx <= 5 && -5 <= dy <= 5 && (dx == -5 || dx == 5 || dy <= -4 || dy == 5)
    ensures SpotOf(w, x, y) != Inside
  {
    hide OnCross, CrossAt, ControlsPaint;
    if CrossAt(w, x, y) {
      CrossIsWithinReach(w, x, y);
    }
    if FrameOf(w).width >= CONTROLS_MINIMUM_WIDTH {
      ReachesInOrder(w);
      ControlsShowWhereTheyAct(look, w, focused, x, y);
    } else {
      NoControls(look, w, focused, x, y);
    }
  }

  /** An event of the pointer, its position relative to the window's content. */
  function PointerEvent(w: Window, kind: Kind, x: int, y: int, button: Buttons, buttons: Buttons): Event {
    Event(kind, x - ContentOf(w).x, y - ContentOf(w).y, button, buttons, NoKey)
  }

  /** The place an event gives is a pixel of the content exactly where the pointer is upon the content, and the
      same distance from its corner. */
  lemma PointerEventIsUponContent(w: Window, kind: Kind, x: int, y: int, button: Buttons, buttons: Buttons)
    requires w.width > 0 && w.height > 0
    ensures var e := PointerEvent(w, kind, x, y, button, buttons);
            && (0 <= e.x < w.width && 0 <= e.y < w.height <==> Contains(ContentOf(w), x, y))
            && ContentOf(w).x + e.x == x && ContentOf(w).y + e.y == y
            && e.kind == kind && e.button == button && e.buttons == buttons
  {
  }

  /** What a bound window is told of a movement, in order. */
  function Reported(w: Window, m: Movement): seq<Event> {
    (if m.deltaX != 0 || m.deltaY != 0 then [PointerEvent(w, PointerMove, m.x, m.y, {}, m.buttons)] else [])
    + (if m.changed * m.buttons != {}
       then [PointerEvent(w, ButtonPress, m.x, m.y, LowestButton(m.changed * m.buttons), m.buttons)] else [])
    + (if m.changed - m.buttons != {}
       then [PointerEvent(w, ButtonRelease, m.x, m.y, LowestButton(m.changed - m.buttons), m.buttons)] else [])
  }

  /** A movement is reported before what was pressed in it, and that before what was released; each is
      reported exactly where it happened, and a button with its own name. */
  lemma ReportedInOrder(w: Window, m: Movement)
    ensures var moved, pressed, released := m.deltaX != 0 || m.deltaY != 0, m.changed * m.buttons,
                                            m.changed - m.buttons;
            var r := Reported(w, m);
            && |r| == (if moved then 1 else 0) + (if pressed != {} then 1 else 0) + (if released != {} then 1 else 0)
            && (moved ==> r[0].kind.PointerMove?)
            && (pressed != {} ==>
                  var e := r[if moved then 1 else 0];
                  e.kind.ButtonPress? && e.button <= m.changed && e.button <= m.buttons)
            && (released != {} ==>
                  var e := r[|r| - 1];
                  e.kind.ButtonRelease? && e.button <= m.changed && e.button * m.buttons == {})
            && forall e | e in r ::
                 && e.buttons == m.buttons && Pointing(e.kind)
                 && e.x == m.x - ContentOf(w).x && e.y == m.y - ContentOf(w).y
  {
    hide ContentOf, LowestButton;
  }

  /** The table after several events are put in one window's queue. */
  ghost function SentAll(table: seq<Window>, id: int, events: seq<Event>): seq<Window> {
    if events == [] then table
    else Sent(SentAll(table, id, events[..|events| - 1]), id, events[|events| - 1])
  }

  lemma {:induction false} SentAllJoins(table: seq<Window>, id: int, first: seq<Event>, more: seq<Event>)
    ensures SentAll(table, id, first + more) == SentAll(SentAll(table, id, first), id, more)
    decreases |more|
  {
    hide Sent;
    if more == [] {
      assert first + more == first;
    } else {
      SentAllJoins(table, id, first, more[..|more| - 1]);
      assert (first + more)[..|first + more| - 1] == first + more[..|more| - 1];
    }
  }

  lemma SentKeepsPlace(table: seq<Window>, id: int, e: Event)
    requires Live(table, id)
    ensures Live(Sent(table, id, e), id) && ContentOf(Sent(table, id, e)[id]) == ContentOf(table[id])
  {
  }

  lemma SentDrawsNothing(table: seq<Window>, id: int, e: Event)
    ensures |Sent(table, id, e)| == |table|
    ensures forall i | 0 <= i < |table| :: Sent(table, id, e)[i].surface == table[i].surface
  {
  }

  lemma {:induction false} SentAllOnly(table: seq<Window>, id: int, events: seq<Event>)
    requires 0 <= id < |table|
    ensures var t := SentAll(table, id, events);
            && |t| == |table| && t[id] == table[id].(ring := t[id].ring)
            && forall i | 0 <= i < |table| && i != id :: t[i] == table[i]
  {
    if events != [] {
      SentAllOnly(table, id, events[..|events| - 1]);
    }
  }

  lemma {:induction false} SentAllRoutes(table: seq<Window>, id: int, events: seq<Event>)
    ensures RoutedOnlyTo(table, SentAll(table, id, events), id)
  {
    hide Sent, Heard;
    if events == [] {
      StillRouted(table, id);
    } else {
      var init := SentAll(table, id, events[..|events| - 1]);
      SentAllRoutes(table, id, events[..|events| - 1]);
      SentQueues(init, id, events[|events| - 1]);
      RoutedChain(table, init, SentAll(table, id, events), id);
    }
  }

  /** The notice the roots are sent, where none of its kind waits yet. */
  ghost function Noticed(w: Window, kind: Kind): Window {
    if w.inUse && w.layer.Root? && !Waits(w.ring, kind) then w.(ring := Offer(w.ring, KindEvent(kind))) else w
  }

  ghost function RootsNoticed(table: seq<Window>, kind: Kind): seq<Window> {
    seq(|table|, i requires 0 <= i < |table| => Noticed(table[i], kind))
  }

  /** The table after an event is put in a window's queue, or discarded where there is no window. */
  ghost function Sent(table: seq<Window>, id: int, e: Event): seq<Window> {
    if 0 <= id < |table| && table[id].inUse then table[id := table[id].(ring := Offer(table[id].ring, e))]
    else table
  }

  predicate Ordinary(table: seq<Window>, id: int) {
    0 <= id < |table| && table[id].inUse && table[id].layer.Normal?
  }

  function ResizeEvent(width: int, height: int): (e: Event)
    ensures e.kind.Resize? && e.x == width && e.y == height
  {
    Event(Resize, width, height, {}, {}, NoKey)
  }

  /** The table after the focus passes: the loser is told, then the gainer, and then the roots, where
      either is an ordinary window. */
  ghost function Passed(table: seq<Window>, previous: int, id: int): seq<Window> {
    if previous == id then table
    else
      var told := Sent(Sent(table, previous, KindEvent(FocusOut)), id, KindEvent(FocusIn));
      if Ordinary(table, previous) || Ordinary(table, id) then RootsNoticed(told, Windows) else told
  }

  /** Whatever is passed on, the loser hears that it lost the focus and the gainer that it gained it, each first
      of all and where its queue has room; and where either is an ordinary window each root is left with word
      that the windows changed, or with no room. */
  lemma PassedTells(table: seq<Window>, previous: int, id: int)
    requires previous != id
    ensures |Passed(table, previous, id)| == |table|
    ensures Live(table, previous) && table[previous].ring.count < CAPACITY ==>
              HearsNext(table, Passed(table, previous, id), previous, FocusOut)
    ensures Live(table, id) && table[id].ring.count < CAPACITY ==>
              HearsNext(table, Passed(table, previous, id), id, FocusIn)
    ensures Ordinary(table, previous) || Ordinary(table, id) ==>
              forall i | Live(table, i) && table[i].layer.Root? ::
                HasWord(Passed(table, previous, id)[i].ring, Windows)
    ensures forall i | 0 <= i < |table| && i != previous && i != id &&
                       !(table[i].inUse && table[i].layer.Root?) :: Passed(table, previous, id)[i] == table[i]
  {
    hide Waiting, Offer;
    var lost := Sent(table, previous, KindEvent(FocusOut));
    var told := Sent(lost, id, KindEvent(FocusIn));
    if Live(table, previous) {
      OfferQueues(table[previous].ring, KindEvent(FocusOut));
    }
    if Live(table, id) {
      OfferQueues(table[id].ring, KindEvent(FocusIn));
    }
    if Ordinary(table, previous) || Ordinary(table, id) {
      forall i | 0 <= i < |told|
        ensures told[i].inUse && told[i].layer.Root? ==> HasWord(Noticed(told[i], Windows).ring, Windows)
        ensures Waiting(told[i].ring) <= Waiting(Noticed(told[i], Windows).ring)
      {
        NoticedHasWord(told[i], Windows);
      }
    }
  }

  /** The next a window hears, after what waited, is of the kind. */
  ghost predicate HearsNext(before: seq<Window>, after: seq<Window>, id: int, kind: Kind) {
    && 0 <= id < |before| == |after|
    && var was, now := Waiting(before[id].ring), Waiting(after[id].ring);
       was < now && now[|was|].kind == kind
  }

  /** A notice of the kind waits, or there is no room for one. */
  ghost predicate HasWord(r: Ring, kind: Kind) { Waits(r, kind) || r.count == CAPACITY }

  /** Each root is left with a notice of the kind, or with no room for one, and nobody else hears anything. */
  lemma NoticedHasWord(w: Window, kind: Kind)
    ensures w.inUse && w.layer.Root? ==> HasWord(Noticed(w, kind).ring, kind)
    ensures !(w.inUse && w.layer.Root?) ==> Noticed(w, kind) == w
    ensures Waiting(w.ring) <= Waiting(Noticed(w, kind).ring)
  {
    hide Waiting, Offer;
    OfferQueues(w.ring, KindEvent(kind));
    var o := Offer(w.ring, KindEvent(kind));
    CountIs(o);
    CountIs(w.ring);
    if w.ring.count < CAPACITY {
      assert Waiting(o)[w.ring.count].kind == kind;
    }
  }

  lemma CountIs(r: Ring)
    ensures |Waiting(r)| == r.count <= CAPACITY
  {
  }

  lemma SentQueues(table: seq<Window>, id: int, e: Event)
    ensures !Pointing(e.kind) ==> SameButRings(table, Sent(table, id, e))
    ensures RoutedOnlyTo(table, Sent(table, id, e), id)
  {
    if 0 <= id < |table| && table[id].inUse {
      OfferHeard(table[id].ring, e);
    }
  }

  lemma SentKeeps(table: seq<Window>, id: int, e: Event)
    requires QueuesQuiet(table) && !e.kind.Windows? && !e.kind.Notify?
    ensures QueuesQuiet(Sent(table, id, e))
    ensures !Pointing(e.kind) ==> SameButRings(table, Sent(table, id, e))
  {
    SentQueues(table, id, e);
    if 0 <= id < |table| && table[id].inUse {
      OfferKeepsQuiet(table[id].ring, e);
    }
  }

  lemma RootsNoticedKeeps(table: seq<Window>, kind: Kind)
    requires QueuesQuiet(table) && !Pointing(kind)
    ensures QueuesQuiet(RootsNoticed(table, kind)) && SameButRings(table, RootsNoticed(table, kind))
  {
    forall i | 0 <= i < |table|
      ensures Quiet(Noticed(table[i], kind).ring) && Queued(table[i], Noticed(table[i], kind))
    {
      OfferHeard(table[i].ring, KindEvent(kind));
      if !Waits(table[i].ring, kind) {
        OfferKeepsQuiet(table[i].ring, KindEvent(kind));
      }
    }
  }

  /** An intersection and a union of the damage with what is added to it. */
  lemma DamageGrows(damage: Rectangle, region: Rectangle, bounds: Rectangle, x: int, y: int)
    requires Contains(bounds, x, y) && (Contains(damage, x, y) || Contains(region, x, y))
    ensures Contains(Enclose(damage, Intersect(region, bounds)), x, y)
  {
  }

  /** Moves the entries from a position to the last up by one, making room there. */
  method MakeRoom(slots: seq<int>, position: int, count: int) returns (moved: seq<int>)
    requires 0 <= position <= count < |slots|
    ensures |moved| == |slots| && moved[..position] == slots[..position]
    ensures moved[position + 1..count + 1] == slots[position..count]
  {
    moved := slots;
    var index := count;
    while index > position
      invariant position <= index <= count && |moved| == |slots|
      invariant moved[..index] == slots[..index]
      invariant moved[index + 1..count + 1] == slots[index..count]
    {
      moved := moved[index := moved[index - 1]];
      index := index - 1;
    }
  }

  /** Moves the entries above a position down by one, over the one that stood there. */
  method CloseUp(slots: seq<int>, position: int, count: int) returns (moved: seq<int>)
    requires 0 <= position < count <= |slots|
    ensures |moved| == |slots|
    ensures moved[..count - 1] == slots[..position] + slots[position + 1..count]
  {
    moved := slots;
    var index := position;
    while index + 1 < count
      invariant position <= index < count && |moved| == |slots|
      invariant moved[..index] == slots[..position] + slots[position + 1..index + 1]
      invariant moved[index + 1..count] == slots[index + 1..count]
    {
      assert moved[index + 1] == moved[index + 1..count][0] == slots[index + 1];
      ghost var was := moved;
      moved := moved[index := moved[index + 1]];
      assert moved[..index + 1] == was[..index] + [slots[index + 1]];
      assert slots[position + 1..index + 2] == slots[position + 1..index + 1] + [slots[index + 1]];
      assert moved[index + 2..count] == was[index + 1..count][1..];
      index := index + 1;
    }
  }

  /** A title as far as a window keeps it. */
  function Cut(title: string): (kept: string)
    ensures kept <= title && |kept| == Min(|title|, TITLE_CAPACITY)
  {
    if |title| <= TITLE_CAPACITY then title else title[..TITLE_CAPACITY]
  }

  method CopyTitle(title: string) returns (copy: string)
    ensures copy == Cut(title)
  {
    copy := [];
    while |copy| < |title| && |copy| < TITLE_CAPACITY
      invariant |copy| <= |title| && |copy| <= TITLE_CAPACITY && copy == title[..|copy|]
      decreases |title| - |copy|
    {
      copy := copy + [title[|copy|]];
    }
  }

  class WindowManager {
    const screen: Surface
    const look: Look
    /** How the red, green and blue of a client's pixel become the screen's; none where the pixel is
        the screen's already. */
    const encode: Option<(Byte, Byte, Byte) -> Colour>

    var table: seq<Window>
    var stackSlots: seq<int>
    var stackCount: int
    var focused: int
    var session: nat
    var grabbed: int
    var dragged: int
    var dragOffsetX: int
    var dragOffsetY: int
    var pointerX: int
    var pointerY: int
    var damage: Rectangle
    var damaged: bool
    var routed: nat
    var discarded: nat
    var compositions: nat

    /** The last focus notice generated for each window; whether the focus was asked for a window that may not
        hold it and no ordinary window has been given it since; whether a window too narrow for its close glyph
        ever stood. */
    ghost var told: seq<Notice>
    ghost var strayed: bool
    ghost var narrow: bool

    // ----------------------------------------------------------------- what holds

    ghost function Stack(): seq<int>
      requires 0 <= stackCount <= |stackSlots|
      reads this`stackSlots, this`stackCount
    {
      stackSlots[..stackCount]
    }

    function Damage(): Rectangle
      reads this`damage, this`damaged
    {
      if damaged then damage else Nowhere
    }

    /** A region of damage once another has been marked. */
    function Marked(damage: Rectangle, region: Rectangle): Rectangle {
      Enclose(damage, Intersect(region, Bounds(screen.width, screen.height)))
    }

    /** That is the least rectangle holding all the damage and all of the other region upon the screen. */
    lemma MarkedIsLeast(damage: Rectangle, region: Rectangle, other: Rectangle)
      ensures Within(damage, Marked(damage, region))
      ensures forall x, y | Contains(region, x, y) && screen.InBounds(x, y) :: Contains(Marked(damage, region), x, y)
      ensures Within(damage, other) && Within(Intersect(region, Bounds(screen.width, screen.height)), other) ==>
                Within(Marked(damage, region), other)
    {
      var upon := Intersect(region, Bounds(screen.width, screen.height));
      forall x, y ensures Contains(upon, x, y) <==> Contains(region, x, y) && screen.InBounds(x, y) {
        IntersectMeets(region, Bounds(screen.width, screen.height), x, y);
      }
      hide Intersect, Enclose;
      EncloseIsLeast(damage, upon, other);
    }

    /** A region of damage once a window's title band has been marked, where the window exists. */
    ghost function MarkedBand(windows: seq<Window>, damage: Rectangle, id: int): Rectangle {
      if Live(windows, id) then Marked(damage, TitleBandOf(windows[id])) else damage
    }

    /** A region of damage once the focus has passed. */
    ghost function MarkedBands(windows: seq<Window>, damage: Rectangle, previous: int, id: int): Rectangle {
      if previous == id then damage else MarkedBand(windows, MarkedBand(windows, damage, previous), id)
    }

    ghost predicate DamageSound()
      reads this`damage, this`damaged
    {
      damaged ==> !IsEmpty(damage) && Within(damage, Bounds(screen.width, screen.height))
    }

    ghost predicate ScreenSound()
      reads screen
    {
      && screen.Valid() && screen.depth == look.depth
      && screen.clip == ClipReset(Bounds(screen.width, screen.height))
    }

    ghost predicate StackHeld()
      reads this`table, this`stackSlots, this`stackCount
    {
      && 0 <= stackCount <= |stackSlots|
      && StackSound(table, Stack())
    }

    /** Outside the damage the screen already shows what a repaint of everything would show. */
    ghost predicate PaintSound()
      requires screen.Shaped() && 0 <= stackCount <= |stackSlots|
      reads this`table, this`stackSlots, this`stackCount, this`focused, this`damage, this`damaged, this`narrow
      reads screen.memory, Memories(table)
    {
      !narrow ==>
        && WideEnough(table)
        && forall x, y | screen.InBounds(x, y) && !Contains(Damage(), x, y) ::
             screen.Pixel(x, y) == Shown(look, table, ContentsAt(table, x, y), Stack(), focused, x, y)
    }

    /** All that holds between calls but the choice of the focus and the binding of the pointer. */
    ghost predicate Core()
      reads this`table, this`stackSlots, this`stackCount, this`focused, this`damage, this`damaged, this`narrow
      reads this`told, screen, screen.memory, SurfacesOf(table), Memories(table)
    {
      && ScreenSound()
      && TableSound(table, screen.width, screen.height, look.depth)
      && ContentsSound(table, screen)
      && QueuesQuiet(table)
      && StackHeld()
      && ToldSound(table, told, focused)
      && (focused == WINDOW_NONE || Live(table, focused))
      && DamageSound()
      && PaintSound()
    }

    ghost predicate Valid()
      reads this, screen, screen.memory, SurfacesOf(table), Memories(table)
    {
      && Core()
      && PointerSound(table, grabbed, dragged)
      && (!strayed ==> FocusSound(table, focused))
    }

    constructor (screen: Surface, look: Look, encode: Option<(Byte, Byte, Byte) -> Colour>)
      requires screen.Valid() && screen.depth == look.depth
      requires screen.clip == ClipReset(Bounds(screen.width, screen.height))
      ensures Valid() && this.screen == screen && this.look == look && this.encode == encode
      ensures Damage() == Bounds(screen.width, screen.height)
      ensures |table| == CHUNK && stackCount == 0 && session == 0 && !strayed && !narrow
      ensures focused == WINDOW_NONE && grabbed == WINDOW_NONE && dragged == WINDOW_NONE
      ensures forall i | 0 <= i < |table| :: table[i] == BlankSlot()
    {
      this.screen, this.look, this.encode := screen, look, encode;
      table := seq(CHUNK, i => BlankSlot());
      stackSlots := seq(CHUNK, i => 0);
      stackCount := 0;
      focused, grabbed, dragged := WINDOW_NONE, WINDOW_NONE, WINDOW_NONE;
      session := 0;
      dragOffsetX, dragOffsetY, pointerX, pointerY := 0, 0, 0, 0;
      damage, damaged := Bounds(screen.width, screen.height), true;
      routed, discarded, compositions := 0, 0, 0;
      told := Silence(CHUNK);
      strayed, narrow := false, false;
      new;
      assert Waiting(EmptyRing()) == [];
    }

    // -------------------------------------------------------------------- damage

    method DamageAdd(region: Rectangle)
      requires ScreenSound() && DamageSound()
      modifies this`damage, this`damaged
      ensures DamageSound() && Damage() == Marked(old(Damage()), region)
      ensures forall x, y | screen.InBounds(x, y) && (Contains(old(Damage()), x, y) || Contains(region, x, y)) ::
                Contains(Damage(), x, y)
    {
      var bounds := Bounds(screen.width, screen.height);
      var bounded := Intersect(region, bounds);
      forall x, y | screen.InBounds(x, y) && (Contains(Damage(), x, y) || Contains(region, x, y))
        ensures Contains(Enclose(Damage(), bounded), x, y)
      {
        DamageGrows(Damage(), region, bounds, x, y);
      }
      if IsEmpty(bounded) {
        return;
      }
      EncloseIsLeast(Damage(), bounded, bounds);
      if !damaged {
        damage, damaged := bounded, true;
        return;
      }
      var left, top := Min(damage.x, bounded.x), Min(damage.y, bounded.y);
      var right := Max(damage.x + damage.width, bounded.x + bounded.width);
      var bottom := Max(damage.y + damage.height, bounded.y + bounded.height);
      damage := Rectangle(left, top, right - left, bottom - top);
    }

    // -------------------------------------------------------------------- queues

    method Enqueue(id: int, event: Event)
      modifies this`table, this`routed, this`discarded
      ensures table == Sent(old(table), id, event)
      ensures routed + discarded == old(routed + discarded) + 1
      ensures routed == old(routed) + (if 0 <= id < |old(table)| && old(table)[id].inUse &&
                                          old(table)[id].ring.count < CAPACITY then 1 else 0)
    {
      if !(0 <= id < |table|) || !table[id].inUse {
        discarded := discarded + 1;
        return;
      }
      var target := table[id];
      var ring: Ring := target.ring;
      if ring.count == CAPACITY {
        table := table[id := target.(ring := ring.(dropped := ring.dropped + 1))];
        discarded := discarded + 1;
        return;
      }
      table := table[id := target.(ring := ring.(slots := ring.slots[(ring.head + ring.count) % 32 := event],
                                                 count := ring.count + 1))];
      routed := routed + 1;
    }

    method EnqueueKind(id: int, kind: Kind)
      modifies this`table, this`routed, this`discarded
      ensures table == Sent(old(table), id, KindEvent(kind))
      ensures !Pointing(kind) ==> SameButRings(old(table), table)
      ensures QueuesQuiet(old(table)) && !kind.Windows? && !kind.Notify? ==> QueuesQuiet(table)
    {
      SentQueues(table, id, KindEvent(kind));
      if QueuesQuiet(table) && !kind.Windows? && !kind.Notify? {
        SentKeeps(table, id, KindEvent(kind));
      }
      Enqueue(id, Event(kind, 0, 0, {}, {}, NoKey));
    }

    /** Queues an event of the pointer, measured from the corner of the content. */
    method EnqueuePointer(id: int, kind: Kind, x: int, y: int, button: Buttons, buttons: Buttons)
      modifies this`table, this`routed, this`discarded
      ensures table == if 0 <= id < |old(table)| && old(table)[id].inUse
                       then Sent(old(table), id,
                                 Event(kind, x - ContentOf(old(table)[id]).x, y - ContentOf(old(table)[id]).y,
                                       button, buttons, NoKey))
                       else old(table)
    {
      if !(0 <= id < |table|) || !table[id].inUse {
        discarded := discarded + 1;
        return;
      }
      var content := ContentOf(table[id]);
      Enqueue(id, Event(kind, x - content.x, y - content.y, button, buttons, NoKey));
    }

    /** Sends every root a notice, unless one of its kind waits. */
    method NotifyRootsOf(kind: Kind)
      modifies this`table, this`routed, this`discarded
      ensures table == RootsNoticed(old(table), kind)
    {
      var id := 0;
      while id < |table|
        invariant 0 <= id <= |table| == |old(table)|
        invariant forall i | 0 <= i < id :: table[i] == Noticed(old(table)[i], kind)
        invariant forall i | id <= i < |table| :: table[i] == old(table)[i]
      {
        var root := table[id];
        if root.inUse && root.layer.Root? {
          var waiting := IsWaiting(root.ring, kind);
          if !waiting {
            EnqueueKind(id, kind);
          }
        }
        id := id + 1;
      }
      assert table == RootsNoticed(old(table), kind);
    }

    // --------------------------------------------------------------------- stack

    method StackPositionOf(id: int) returns (position: int)
      requires 0 <= stackCount <= |stackSlots|
      ensures position == if IndexOf(Stack(), id) < stackCount then IndexOf(Stack(), id) else WINDOW_NONE
    {
      position := 0;
      while position < stackCount
        invariant 0 <= position <= stackCount
        invariant forall i | 0 <= i < position :: Stack()[i] != id
      {
        if stackSlots[position] == id {
          assert Stack()[position] == id;
          return;
        }
        position := position + 1;
      }
      position := WINDOW_NONE;
    }

    method StackRemove(id: int)
      requires 0 <= stackCount <= |stackSlots|
      modifies this`stackSlots, this`stackCount
      ensures |stackSlots| == |old(stackSlots)| && 0 <= stackCount <= |stackSlots|
      ensures Stack() == Without(old(Stack()), id)
    {
      var position := StackPositionOf(id);
      if position == WINDOW_NONE {
        return;
      }
      var moved := CloseUp(stackSlots, position, stackCount);
      assert moved[..stackCount - 1] == Without(Stack(), id);
      stackSlots, stackCount := moved, stackCount - 1;
    }

    /** The place of the first entry of a higher layer. */
    method StackPlaceFor(layer: Layer) returns (position: int)
      requires 0 <= stackCount <= |stackSlots|
      requires forall k | 0 <= k < stackCount :: 0 <= stackSlots[k] < |table|
      ensures position == TopOfLayer(table, Stack(), Rank(layer))
    {
      position := 0;
      while position < stackCount
        invariant 0 <= position <= stackCount
        invariant forall i | 0 <= i < position :: RankOf(table, Stack()[i]) <= Rank(layer)
      {
        assert Stack()[position] == stackSlots[position];
        if Rank(table[stackSlots[position]].layer) > Rank(layer) {
          return;
        }
        position := position + 1;
      }
    }

    /** Enters a window into the stack, above all of no higher layer. */
    method StackInsert(id: int)
      requires 0 <= stackCount < |stackSlots| && 0 <= id < |table|
      requires forall k | 0 <= k < stackCount :: 0 <= stackSlots[k] < |table|
      modifies this`stackSlots, this`stackCount
      ensures |stackSlots| == |old(stackSlots)| && 0 <= stackCount <= |stackSlots|
      ensures Stack() == With(table, old(Stack()), id)
    {
      hide TopOfLayer, Rank;
      var position := StackPlaceFor(table[id].layer);
      var moved := MakeRoom(stackSlots, position, stackCount);
      moved := moved[position := id];
      assert moved[..stackCount + 1] == moved[..position] + [id] + moved[position + 1..stackCount + 1];
      assert moved[..stackCount + 1] == With(table, Stack(), id);
      stackSlots, stackCount := moved, stackCount + 1;
    }

    // --------------------------------------------------------------------- focus

    /** Looks down the stack for an ordinary window in sight. */
    method TopmostFocusable() returns (id: int)
      requires StackHeld()
      ensures id == TopFocusable(table, Stack()) && FocusSound(table, id)
    {
      var position := stackCount;
      assert Stack()[..position] == Stack();
      while position != 0
        invariant 0 <= position <= stackCount
        invariant TopFocusable(table, Stack()) == TopFocusable(table, Stack()[..position])
        invariant forall k | position <= k < stackCount ::
                    0 <= Stack()[k] < |table| && !Focusable(table[Stack()[k]])
      {
        id := stackSlots[position - 1];
        assert id == Stack()[position - 1] && id in Stack();
        assert Stack()[..position][..position - 1] == Stack()[..position - 1];
        if table[id].layer.Normal? && !table[id].minimised {
          return;
        }
        position := position - 1;
      }
      id := WINDOW_NONE;
      forall i | 0 <= i < |table| ensures !Focusable(table[i]) {
        if table[i].inUse {
          assert i in Stack();
        }
      }
    }

    // ---------------------------------------------- what any call but a movement leaves

    /** Each window's content is the one its slot had, or a new one in memory of its own. */
    twostate predicate OwnOrNew()
      reads this`table
    {
      forall i | 0 <= i < |table| && table[i].surface != null ::
        table[i].surface == SlotAt(old(table), i).surface ||
        (fresh(table[i].surface) && fresh(table[i].surface.memory))
    }

    /** The contents are their slots' own or new, the pointer's bindings stand unless their windows are gone
        or out of sight, and no queue has gained a report of the pointer. */
    twostate predicate Steady()
      reads this`table, this`grabbed, this`dragged
    {
      && OwnOrNew() && PointedOnlyAt(old(table), table, WINDOW_NONE)
      && GrabHeld(table, old(grabbed), grabbed) && DragHeld(table, old(dragged), dragged)
    }

    twostate lemma SteadyStill()
      requires unchanged(this`table, this`grabbed, this`dragged)
      ensures Steady()
    {
      StillRouted(table, WINDOW_NONE);
      RoutedIsPointed(table, table, WINDOW_NONE);
    }

    /** A change of the slots that keeps or empties their queues, and notices after it. */
    twostate lemma SteadyBy(new changed: seq<Window>)
      requires |old(table)| <= |changed| && SameButRings(changed, table)
      requires forall i | 0 <= i < |changed| :: KeptOrEmptied(SlotAt(old(table), i).ring, changed[i].ring)
      requires forall i | 0 <= i < |changed| && changed[i].surface != null ::
                 changed[i].surface == SlotAt(old(table), i).surface ||
                 (fresh(changed[i].surface) && fresh(changed[i].surface.memory))
      requires GrabHeld(table, old(grabbed), grabbed) && DragHeld(table, old(dragged), dragged)
      ensures Steady()
    {
      hide PointedOnlyAt, KeptOrEmptied;
      NoticesPointNobody(old(table), changed, table);
    }

    /** No surface was drawn upon. */
    twostate predicate Undrawn(windows: seq<Window>)
      reads screen, screen.memory, SurfacesOf(windows), Memories(windows)
    {
      && unchanged(screen) && unchanged(screen.memory)
      && Untouched(windows)
    }

    /** What was damaged still is. */
    twostate predicate DamageKept()
      reads this`damage, this`damaged
    {
      forall x, y | screen.InBounds(x, y) && Contains(old(Damage()), x, y) :: Contains(Damage(), x, y)
    }

    /** Nothing that holds but the quiet of the queues depends on them. */
    twostate lemma KeepsShape()
      requires old(Core()) && Undrawn(old(table)) && SameButRings(old(table), table)
      requires unchanged(this`stackSlots, this`stackCount)
      ensures ScreenSound() && TableSound(table, screen.width, screen.height, look.depth)
      ensures ContentsSound(table, screen) && StackHeld()
    {
      hide WindowFits, ContentSound, Apart, Quiet, StackSound;
      RingsDoNotMatter(old(table), table, Stack(), told, screen.width, screen.height, look.depth,
                       focused, grabbed, dragged);
      RingsDoNotMatterToContents(old(table), table, screen);
    }

    twostate lemma FocusPaints()
      requires old(Core()) && Undrawn(old(table)) && SameButRings(old(table), table) && screen.Shaped()
      requires ContentsKept(old(table))
      requires unchanged(this`stackSlots, this`stackCount, this`narrow)
      requires DamageKept()
      requires old(focused) != focused ==>
                 BandDamaged(old(table), old(focused)) && BandDamaged(old(table), focused)
      ensures PaintSound()
    {
      hide TitleBandOf, WindowFits, ContentSound, Apart, Quiet, StackSound, Shown, Contributed;
      RingsDoNotMatter(old(table), table, Stack(), told, screen.width, screen.height, look.depth,
                       focused, grabbed, dragged);
      forall x, y | !narrow && screen.InBounds(x, y) && !Contains(Damage(), x, y)
        ensures screen.Pixel(x, y) == Shown(look, table, ContentsAt(table, x, y), Stack(), focused, x, y)
      {
        ContentsIgnoreRings(old(table), table, x, y);
        RepaintRings(look, old(table), table, ContentsAt(table, x, y), Stack(), focused, x, y);
        if old(focused) != focused {
          RepaintFocus(look, old(table), ContentsAt(table, x, y), Stack(), old(focused), focused, x, y);
        }
      }
    }

    /** Tells a window that it gained or lost the focus, and marks its title band. */
    method TellFocus(id: int, gained: bool)
      requires ScreenSound() && DamageSound() && QueuesQuiet(table) && |told| == |table|
      modifies this`table, this`told, this`damage, this`damaged, this`routed, this`discarded
      ensures DamageSound() && QueuesQuiet(table) && SameButRings(old(table), table)
      ensures table == Sent(old(table), id, KindEvent(if gained then FocusIn else FocusOut))
      ensures told == if Live(old(table), id) then old(told)[id := if gained then ToldIn else ToldOut]
                      else old(told)
      ensures forall x, y | screen.InBounds(x, y) && Contains(old(Damage()), x, y) :: Contains(Damage(), x, y)
      ensures forall x, y | Live(old(table), id) && screen.InBounds(x, y) &&
                            Contains(TitleBandOf(old(table)[id]), x, y) :: Contains(Damage(), x, y)
      ensures Damage() == MarkedBand(old(table), old(Damage()), id)
    {
      hide TitleBandOf, Quiet, Offer, Marked;
      if 0 <= id < |table| && table[id].inUse {
        var band := TitleBandOf(table[id]);
        EnqueueKind(id, if gained then FocusIn else FocusOut);
        told := told[id := if gained then ToldIn else ToldOut];
        DamageAdd(band);
      }
    }

    /** Sends every root a notice, unless one waits, the queues staying quiet. */
    method NotifyRoots(kind: Kind)
      requires QueuesQuiet(table) && !Pointing(kind)
      modifies this`table, this`routed, this`discarded
      ensures table == RootsNoticed(old(table), kind)
      ensures QueuesQuiet(table) && SameButRings(old(table), table)
    {
      RootsNoticedKeeps(table, kind);
      NotifyRootsOf(kind);
    }

    /** Tells the loser of the focus and then the gainer, and marks both title bands. */
    method TellBoth(previous: int, id: int)
      requires ScreenSound() && DamageSound() && QueuesQuiet(table) && |told| == |table| && previous != id
      modifies this`table, this`told, this`damage, this`damaged, this`routed, this`discarded
      ensures table == Sent(Sent(old(table), previous, KindEvent(FocusOut)), id, KindEvent(FocusIn))
      ensures DamageSound() && DamageKept() && QueuesQuiet(table) && SameButRings(old(table), table)
      ensures told == Retold(old(table), old(told), previous, id)
      ensures BandDamaged(old(table), previous) && BandDamaged(old(table), id)
      ensures Damage() == MarkedBands(old(table), old(Damage()), previous, id)
    {
      hide TitleBandOf, Quiet, Sent, Queued, Marked;
      TellFocus(previous, false);
      ghost var middle := table;
      TellFocus(id, true);
      BandsAlike(old(table), middle);
      RingsChain(old(table), middle, table);
    }

    /** Changes the holder of the focus, and lets the two and the roots know. */
    method PassFocus(id: int)
      requires ScreenSound() && DamageSound() && QueuesQuiet(table) && |told| == |table|
      modifies this`focused, this`table, this`told, this`damage, this`damaged, this`routed, this`discarded
      ensures focused == id && table == Passed(old(table), old(focused), id)
      ensures DamageSound() && DamageKept() && QueuesQuiet(table) && SameButRings(old(table), table)
      ensures told == Retold(old(table), old(told), old(focused), id)
      ensures old(focused) != id ==> BandDamaged(old(table), old(focused)) && BandDamaged(old(table), id)
      ensures Damage() == MarkedBands(old(table), old(Damage()), old(focused), id)
    {
      hide TitleBandOf, Quiet, RootsNoticed, Sent, BandDamaged, Queued, MarkedBand;
      var previous := focused;
      if previous == id {
        RingsSame(table);
        return;
      }
      focused := id;
      TellBoth(previous, id);
      ghost var before := table;
      OwnersAlike(old(table), before);
      RingsSame(table);
      if (0 <= previous < |table| && table[previous].inUse && table[previous].layer.Normal?) ||
         (0 <= id < |table| && table[id].inUse && table[id].layer.Normal?) {
        NotifyRoots(Windows);
      }
      RingsChain(old(table), before, table);
    }

    /** A window's title band, where the window exists, lies within the damage. */
    ghost predicate BandDamaged(windows: seq<Window>, id: int)
      reads this`damage, this`damaged
    {
      Live(windows, id) ==>
        forall x, y | screen.InBounds(x, y) && Contains(TitleBandOf(windows[id]), x, y) :: Contains(Damage(), x, y)
    }

    /** Passes the focus, everything else that holds holding on. */
    method TransferFocus(id: int)
      requires Core() && (id == WINDOW_NONE || Live(table, id))
      modifies this`focused, this`table, this`told, this`damage, this`damaged, this`routed, this`discarded
      ensures Core() && focused == id && table == Passed(old(table), old(focused), id)
      ensures SameButRings(old(table), table) && DamageKept()
      ensures Damage() == MarkedBands(old(table), old(Damage()), old(focused), id)
    {
      hide TitleBandOf, WindowFits, ContentSound, Quiet, Apart, PaintSound, BandDamaged, Passed, MarkedBands;
      PassFocus(id);
      KeepsShape();
      UntouchedKeepsContents(old(table));
      FocusPaints();
      RetoldIsSound(old(table), old(told), old(focused), id, table);
    }

    // ------------------------------------------------------ moving and minimising

    ghost predicate FrameDamaged(w: Window)
      reads this`damage, this`damaged
    {
      forall x, y | screen.InBounds(x, y) && Contains(FrameOf(w), x, y) :: Contains(Damage(), x, y)
    }

    /** One window changed in its place, where it stood and where it stands being damaged. */
    twostate lemma ChangedInPlace(id: int)
      requires old(Core()) && Undrawn(old(table)) && ContentsKept(old(table))
      requires unchanged(this`stackSlots, this`stackCount, this`narrow, this`focused, this`told)
      requires ChangedAt(old(table), table, id)
      requires WindowFits(table[id], screen.width, screen.height, look.depth)
      requires DamageSound() && DamageKept()
      requires FrameDamaged(old(table)[id]) && FrameDamaged(table[id])
      requires !narrow ==> Wide(table[id])
      ensures Core()
    {
      hide TitleBandOf, WindowFits, ContentSound, Quiet, Apart, Shown, Contributed, FrameOf, StackSound;
      ChangeKeeps(old(table), table, id, screen, Stack(), told, focused, screen.width, screen.height, look.depth);
      Extents(old(table)[id], screen.width, screen.height, look.depth);
      Extents(table[id], screen.width, screen.height, look.depth);
      forall x, y | !narrow && screen.InBounds(x, y) && !Contains(Damage(), x, y)
        ensures screen.Pixel(x, y) == Shown(look, table, ContentsAt(table, x, y), Stack(), focused, x, y)
      {
        RepaintChanged(look, old(table), ContentsAt(old(table), x, y), table, ContentsAt(table, x, y),
                       Stack(), focused, id, x, y);
      }
    }

    /** What the operations below read of all that holds. */
    lemma CoreParts(id: int)
      requires Core()
      ensures ScreenSound() && DamageSound() && QueuesQuiet(table) && |told| == |table| && StackHeld()
      ensures Live(table, id) ==> WindowFits(table[id], screen.width, screen.height, look.depth)
      ensures Live(table, id) && !narrow ==> Wide(table[id])
    {
    }

    /** Puts another window in a window's place, marking where either stands. */
    method Substitute(id: int, window: Window)
      requires ScreenSound() && DamageSound() && 0 <= id < |table|
      modifies this`table, this`damage, this`damaged
      ensures DamageSound() && DamageKept() && table == old(table)[id := window]
      ensures FrameDamaged(old(table)[id]) && FrameDamaged(window)
    {
      hide FrameOf, Intersect, Enclose;
      DamageAdd(FrameOf(table[id]));
      table := table[id := window];
      DamageAdd(FrameOf(window));
    }

    /** Puts a window where it is to stand, marking both places. */
    method Relocate(id: int, x: int, y: int)
      requires Valid() && Live(table, id)
      requires Confined(screen.width, screen.height, table[id].width, x, y)
      modifies this`table, this`damage, this`damaged
      ensures Valid() && DamageKept()
      ensures table == old(table)[id := old(table)[id].(x := x, y := y)]
    {
      hide Core, PointerSound, FocusSound, FrameOf, StackHeld, ToldSound, QueuesQuiet;
      hide ClipReset, Shown, ContentsAt, FrameDamaged;
      CoreParts(id);
      Substitute(id, table[id].(x := x, y := y));
      UntouchedKeepsContents(old(table));
      ChangedInPlace(id);
      PlaceDoesNotMatter(old(table), table, id, focused, grabbed, dragged);
    }

    /** Moves a frame to where confining puts it. */
    method Move(id: int, x: int, y: int)
      requires Valid()
      modifies this`table, this`damage, this`damaged
      ensures Valid() && DamageKept()
      ensures table == if Live(old(table), id)
                       then old(table)[id := old(table)[id].(x := ConfineX(screen.width, old(table)[id].width, x),
                                                             y := ConfineY(screen.height, y))]
                       else old(table)
      ensures Steady()
    {
      hide Core, PointerSound, FocusSound, Steady;
      RingsSame(table);
      if !(0 <= id < |table|) || !table[id].inUse {
        SteadyBy(table);
        return;
      }
      CoreParts(id);
      var window := table[id];
      var confinedX := ConfineX(screen.width, window.width, x);
      var confinedY := ConfineY(screen.height, y);
      if confinedX == window.x && confinedY == window.y {
        assert table[id := window.(x := confinedX, y := confinedY)] == table;
        SteadyBy(table);
        return;
      }
      ConfinedIsReachable(screen.width, screen.height, window.width, x, y);
      Relocate(id, confinedX, confinedY);
      RingsSame(table);
      SteadyBy(table);
    }

    /** One window raised, its frame being damaged. */
    twostate lemma Restacked(id: int)
      requires old(Core()) && Undrawn(old(table)) && ContentsKept(old(table))
      requires unchanged(this`table, this`narrow, this`focused, this`told)
      requires Live(table, id) && 0 <= stackCount <= |stackSlots|
      requires Stack() == Raised(table, old(Stack()), id)
      requires DamageSound() && DamageKept() && FrameDamaged(table[id])
      ensures Core()
    {
      hide WindowFits, ContentSound, Quiet, Apart, Shown, Contributed, FrameOf, Raised;
      RaisedKeeps(table, old(Stack()), id);
      Extents(table[id], screen.width, screen.height, look.depth);
      forall x, y | !narrow && screen.InBounds(x, y) && !Contains(Damage(), x, y)
        ensures screen.Pixel(x, y) == Shown(look, table, ContentsAt(table, x, y), Stack(), focused, x, y)
      {
        ShownRaised(look, table, ContentsAt(table, x, y), focused, old(Stack()), id, x, y);
      }
    }

    /** Whether what stands above a window belongs to a higher layer, or nothing does. */
    method IsOnTop(id: int) returns (top: bool)
      requires StackHeld() && Live(table, id)
      ensures top ==> Raised(table, Stack(), id) == Stack()
    {
      hide Raised;
      assert id in Stack();
      var position := StackPositionOf(id);
      assert position == IndexOf(Stack(), id);
      if position + 1 < stackCount {
        assert Stack()[position + 1] in Stack();
        top := Rank(table[stackSlots[position + 1]].layer) > Rank(table[id].layer);
      } else {
        top := true;
      }
      if top {
        RaisedAlready(table, Stack(), id);
      }
    }

    /** Raises a window in the stack, unless nothing of its own layer stands above it. */
    method RestackOnTop(id: int) returns (moved: bool)
      requires StackHeld() && Live(table, id)
      modifies this`stackSlots, this`stackCount
      ensures StackHeld() && Stack() == Raised(table, old(Stack()), id)
      ensures !moved ==> stackSlots == old(stackSlots) && stackCount == old(stackCount)
    {
      hide Raised, With, Without, Ordered;
      var top := IsOnTop(id);
      if top {
        return false;
      }
      RaisedKeeps(table, Stack(), id);
      RaisedIs(table, Stack(), id);
      WithoutKeeps(table, Stack(), id);
      RemovedFits(table, Stack(), id);
      StackRemove(id);
      assert forall k | 0 <= k < stackCount :: Stack()[k] == stackSlots[k] && Stack()[k] in Stack();
      StackInsert(id);
      return true;
    }

    /** Raises a window, and damages its frame if that moved it. */
    method Raise(id: int)
      requires Core()
      modifies this`stackSlots, this`stackCount, this`damage, this`damaged
      ensures Core() && (old(Valid()) ==> Valid()) && DamageKept()
      ensures Stack() == if Live(table, id) then Raised(table, old(Stack()), id) else old(Stack())
    {
      hide Core, PointerSound, FocusSound, FrameOf, Raised, Apart, ContentSound;
      if !(0 <= id < |table|) || !table[id].inUse {
        return;
      }
      CoreParts(id);
      var moved := RestackOnTop(id);
      UntouchedKeepsContents(old(table));
      if moved {
        DamageAdd(FrameOf(table[id]));
        Restacked(id);
      } else {
        SameCore();
      }
    }

    // ----------------------------------------------- notices, focus and minimising

    /** The queues alone have changed. */
    twostate lemma OnlyQueued()
      requires old(Core()) && Undrawn(old(table)) && ContentsKept(old(table))
      requires unchanged(this`stackSlots, this`stackCount, this`narrow, this`focused, this`told)
      requires unchanged(this`damage, this`damaged)
      requires SameButRings(old(table), table) && QueuesQuiet(table)
      ensures Core()
    {
      hide WindowFits, ContentSound, Quiet, Apart, Shown, Contributed, FrameOf, StackSound;
      RingsDoNotMatter(old(table), table, Stack(), told, screen.width, screen.height, look.depth,
                       focused, grabbed, dragged);
      RingsDoNotMatterToContents(old(table), table, screen);
      forall x, y | !narrow && screen.InBounds(x, y) && !Contains(Damage(), x, y)
        ensures screen.Pixel(x, y) == Shown(look, table, ContentsAt(table, x, y), Stack(), focused, x, y)
      {
        ContentsIgnoreRings(old(table), table, x, y);
        RepaintRings(look, old(table), table, ContentsAt(table, x, y), Stack(), focused, x, y);
      }
    }

    /** Sends every root a notice, everything else that holds holding on. */
    method TellRoots(kind: Kind)
      requires Core() && !Pointing(kind)
      modifies this`table, this`routed, this`discarded
      ensures Core() && SameButRings(old(table), table)
      ensures table == RootsNoticed(old(table), kind)
    {
      hide Core, Quiet, RootsNoticed;
      CoreParts(WINDOW_NONE);
      NotifyRoots(kind);
      UntouchedKeepsContents(old(table));
      OnlyQueued();
    }

    /** Gives a window the focus; meant for an ordinary one that is not minimised. */
    method Focus(id: int)
      requires Valid()
      modifies this`focused, this`table, this`told, this`damage, this`damaged, this`routed, this`discarded
      modifies this`strayed
      ensures Valid() && SameButRings(old(table), table) && DamageKept()
      ensures focused == if Live(old(table), id) then id else old(focused)
      ensures table == Passed(old(table), old(focused), focused)
      ensures Damage() == MarkedBands(old(table), old(Damage()), old(focused), focused)
      ensures strayed <==> if Live(old(table), id) then !Focusable(old(table)[id]) else old(strayed)
      ensures Steady()
    {
      hide Core, MarkedBand, Steady;
      if !(0 <= id < |table|) || !table[id].inUse {
        RingsSame(table);
        SteadyBy(table);
        return;
      }
      strayed := !Focusable(table[id]);
      UntouchedKeepsContents(old(table));
      SameCore();
      TransferFocus(id);
      RingsDoNotMatter(old(table), table, [], told, 0, 0, 0, focused, grabbed, dragged);
      SteadyBy(old(table));
    }

    /** Core does not depend on the fields it does not read. */
    twostate lemma SameCore()
      requires old(Core()) && Undrawn(old(table)) && ContentsKept(old(table))
      requires unchanged(this`table, this`stackSlots, this`stackCount, this`narrow, this`focused, this`told,
                         this`damage, this`damaged)
      ensures Core()
    {
      hide WindowFits, ContentSound, Quiet, Apart, Shown, StackSound, ToldSound, Wide;
    }

    /** Passes the focus of a window that may no longer hold it to the topmost that may. */
    method GiveUpFocus(id: int)
      requires Core()
      modifies this`focused, this`table, this`told, this`damage, this`damaged, this`routed, this`discarded
      ensures Core() && SameButRings(old(table), table) && DamageKept()
      ensures focused == if old(focused) == id then TopFocusable(old(table), Stack()) else old(focused)
      ensures table == Passed(old(table), old(focused), focused)
      ensures old(focused) == id ==> FocusSound(table, focused)
    {
      hide Core, Sent, RootsNoticed;
      if focused == id {
        CoreParts(id);
        var top := TopmostFocusable();
        UntouchedKeepsContents(old(table));
        SameCore();
        TransferFocus(top);
        RingsDoNotMatter(old(table), table, [], told, 0, 0, 0, focused, grabbed, dragged);
      }
    }

    /** Takes the pointer from a window that is going out of sight. */
    method Unbind(id: int)
      modifies this`grabbed, this`dragged
      ensures grabbed == if old(grabbed) == id then WINDOW_NONE else old(grabbed)
      ensures dragged == if old(dragged) == id then WINDOW_NONE else old(dragged)
    {
      if grabbed == id {
        grabbed := WINDOW_NONE;
      }
      if dragged == id {
        dragged := WINDOW_NONE;
      }
    }

    /** Hides a window and unbinds the pointer from it. */
    method Hide(id: int)
      requires Valid() && Live(table, id) && table[id].decorated
      modifies this`table, this`damage, this`damaged, this`grabbed, this`dragged
      ensures Core() && DamageKept()
      ensures table == old(table)[id := old(table)[id].(minimised := true)]
      ensures PointerSound(table, grabbed, dragged)
      ensures grabbed == if old(grabbed) == id then WINDOW_NONE else old(grabbed)
      ensures dragged == if old(dragged) == id then WINDOW_NONE else old(dragged)
      ensures !strayed && focused != id ==> FocusSound(table, focused)
    {
      hide Core, FrameOf, WindowFits, QueuesQuiet, FocusSound, PointerSound, ToldSound, StackHeld, ChangedAt, Wide;
      hide HasContent, Confined, ClipReset, Intersect, Enclose, Shown, ContentsAt;
      CoreParts(id);
      var window := table[id];
      table := table[id := window.(minimised := true)];
      DamageAdd(FrameOf(window));
      Unbind(id);
      UntouchedKeepsContents(old(table));
      HidingKeeps(old(table), table, id, screen.width, screen.height, look.depth, focused,
                  old(grabbed), old(dragged));
      ChangedInPlace(id);
    }

    /** Puts an ordinary window out of sight, with all that a window out of sight may not keep. */
    method Minimise(id: int) returns (done: bool)
      requires Valid()
      modifies this`focused, this`table, this`told, this`damage, this`damaged, this`routed, this`discarded
      modifies this`grabbed, this`dragged
      ensures Valid() && DamageKept()
      ensures !done ==> table == old(table) && focused == old(focused)
      ensures done <==> Live(old(table), id) && old(table)[id].decorated
      ensures done && !old(table)[id].minimised ==>
                var hidden := old(table)[id := old(table)[id].(minimised := true)];
                && focused == (if old(focused) == id then TopFocusable(hidden, Stack()) else old(focused))
                && table == RootsNoticed(Passed(hidden, old(focused), focused), Windows)
      ensures done && old(table)[id].minimised ==> table == old(table) && focused == old(focused)
      ensures SameButRings(if done then old(table)[id := old(table)[id].(minimised := true)] else old(table),
                           table)
      ensures old(focused) != id ==> focused == old(focused)
      ensures grabbed == if done && old(grabbed) == id then WINDOW_NONE else old(grabbed)
      ensures dragged == if done && old(dragged) == id then WINDOW_NONE else old(dragged)
      ensures done && (!strayed || !old(table)[id].minimised) ==> focused != id
      ensures Steady()
    {
      hide Core, FrameOf, WindowFits, Quiet, RootsNoticed, FocusSound, PointerSound, Queued, Passed, Steady;
      if !(0 <= id < |table|) || !table[id].inUse || !table[id].decorated {
        RingsSame(table);
        SteadyBy(table);
        return false;
      }
      if table[id].minimised {
        HiddenAlready(table, id, focused, grabbed, dragged);
        assert table[id := table[id].(minimised := true)] == table;
        RingsSame(table);
        SteadyBy(table);
        return true;
      }
      ghost var hidden := table[id := table[id].(minimised := true)];
      Vanish(id);
      HiddenIsHidden(hidden, table, id);
      SteadyBy(hidden);
      return true;
    }

    /** Hides a window in sight, its focus passing on, and tells the roots. */
    method Vanish(id: int)
      requires Valid() && Live(table, id) && table[id].decorated && !table[id].minimised
      modifies this`focused, this`table, this`told, this`damage, this`damaged, this`routed, this`discarded
      modifies this`grabbed, this`dragged
      ensures Valid() && DamageKept()
      ensures SameButRings(old(table)[id := old(table)[id].(minimised := true)], table)
      ensures var hidden := old(table)[id := old(table)[id].(minimised := true)];
              && focused == (if old(focused) == id then TopFocusable(hidden, Stack()) else old(focused))
              && table == RootsNoticed(Passed(hidden, old(focused), focused), Windows)
      ensures grabbed == if old(grabbed) == id then WINDOW_NONE else old(grabbed)
      ensures dragged == if old(dragged) == id then WINDOW_NONE else old(dragged)
      ensures focused != id
    {
      hide Core, FrameOf, WindowFits, Quiet, RootsNoticed, FocusSound, PointerSound, Queued, Passed;
      Hide(id);
      ghost var hidden := table;
      AfterHiding(id);
      RingsDoNotMatter(hidden, table, [], told, 0, 0, 0, focused, grabbed, dragged);
      if old(focused) == id {
        FocusNotHidden(hidden, id, focused);
      }
    }

    /** The focus of a window just hidden passes on, and the roots hear of it. */
    method AfterHiding(id: int)
      requires Core()
      modifies this`focused, this`table, this`told, this`damage, this`damaged, this`routed, this`discarded
      ensures Core() && SameButRings(old(table), table) && DamageKept()
      ensures focused == if old(focused) == id then TopFocusable(old(table), Stack()) else old(focused)
      ensures table == RootsNoticed(Passed(old(table), old(focused), focused), Windows)
      ensures old(focused) == id ==> FocusSound(table, focused)
    {
      hide Core, Quiet, RootsNoticed, FocusSound, Queued, Passed;
      GiveUpFocus(id);
      ghost var middle := table;
      TellRoots(Windows);
      RingsChain(old(table), middle, table);
      RingsDoNotMatter(middle, table, [], told, 0, 0, 0, focused, grabbed, dragged);
    }

    /** Shows a window again. */
    method Unhide(id: int)
      requires Valid() && Live(table, id) && table[id].decorated
      modifies this`table, this`damage, this`damaged
      ensures Core() && DamageKept()
      ensures table == old(table)[id := old(table)[id].(minimised := false)]
      ensures PointerSound(table, grabbed, dragged) && Focusable(table[id])
    {
      hide Core, FrameOf, QueuesQuiet, FocusSound, ToldSound, StackHeld;
      hide Confined, ClipReset, Intersect, Enclose, Shown, ContentsAt;
      CoreParts(id);
      var window := table[id];
      table := table[id := window.(minimised := false)];
      DamageAdd(FrameOf(window));
      UntouchedKeepsContents(old(table));
      FrameWithout(window);
      ChangedInPlace(id);
    }

    /** Brings an ordinary window into sight, to the top and into focus. */
    method Restore(id: int) returns (done: bool)
      requires Valid()
      modifies this`strayed
      modifies this`focused, this`table, this`told, this`damage, this`damaged, this`routed, this`discarded
      modifies this`stackSlots, this`stackCount
      ensures Valid() && DamageKept()
      ensures !done ==> table == old(table) && focused == old(focused)
      ensures done <==> Live(old(table), id) && old(table)[id].decorated
      ensures SameButRings(if done then old(table)[id := old(table)[id].(minimised := false)] else old(table),
                           table)
      ensures done ==>
                var shown := old(table)[id := old(table)[id].(minimised := false)];
                table == RootsNoticed(Passed(shown, old(focused), id), Windows)
      ensures done ==> focused == id && Stack() == Raised(table, old(Stack()), id)
      ensures !done ==> focused == old(focused) && Stack() == old(Stack())
      ensures Steady()
      ensures strayed <==> old(strayed) && !done
    {
      hide Core, FrameOf, WindowFits, Quiet, RootsNoticed, FocusSound, PointerSound, Queued, Raised, Passed, Steady;
      if !(0 <= id < |table|) || !table[id].inUse || !table[id].decorated {
        RingsSame(table);
        SteadyBy(table);
        return false;
      }
      BringBack(id);
      SteadyBy(old(table)[id := old(table)[id].(minimised := false)]);
      return true;
    }

    /** Shows a window, raises it and gives it the focus. */
    method BringBack(id: int)
      requires Valid() && Live(table, id) && table[id].decorated
      modifies this`strayed
      modifies this`focused, this`table, this`told, this`damage, this`damaged, this`routed, this`discarded
      modifies this`stackSlots, this`stackCount
      ensures Valid() && DamageKept()
      ensures SameButRings(old(table)[id := old(table)[id].(minimised := false)], table)
      ensures var shown := old(table)[id := old(table)[id].(minimised := false)];
              table == RootsNoticed(Passed(shown, old(focused), id), Windows)
      ensures focused == id && Stack() == Raised(table, old(Stack()), id)
      ensures !strayed
    {
      hide Core, FrameOf, WindowFits, Quiet, RootsNoticed, FocusSound, PointerSound, Queued, Raised, Passed;
      CoreParts(id);
      ghost var stack := Stack();
      ShowAgain(id);
      ghost var shown := table;
      Raise(id);
      Announce(id);
      RingsDoNotMatter(shown, table, [], told, 0, 0, 0, id, grabbed, dragged);
      FocusOnFocusable(shown, id);
      WithIgnoresRings(shown, table, stack, id);
    }

    /** Shows a window again if it was hidden. */
    method ShowAgain(id: int)
      requires Valid() && Live(table, id) && table[id].decorated
      modifies this`table, this`damage, this`damaged
      ensures Core() && DamageKept()
      ensures table == old(table)[id := old(table)[id].(minimised := false)]
      ensures PointerSound(table, grabbed, dragged) && Focusable(table[id])
    {
      hide Core, FrameOf;
      CoreParts(id);
      if table[id].minimised {
        Unhide(id);
      }
    }

    // ------------------------------------------------------------------- destruction

    /** One window taken out of the stack and of the table, where it stood being damaged. */
    twostate lemma Released(id: int)
      requires old(Core()) && Undrawn(old(table)) && ContentsKept(old(table))
      requires unchanged(this`narrow, this`told) && Live(old(table), id)
      requires ReleasedAt(old(table), table, id)
      requires 0 <= stackCount <= |stackSlots| == |old(stackSlots)|
      requires Stack() == Without(old(Stack()), id)
      requires focused == if old(focused) == id then WINDOW_NONE else old(focused)
      requires DamageSound() && DamageKept() && FrameDamaged(old(table)[id])
      ensures Core()
    {
      hide WindowFits, ContentSound, Quiet, Apart, Shown, Contributed, FrameOf, Without, StackSound;
      ReleaseKeeps(old(table), table, id, screen, old(Stack()), told, old(focused),
                   screen.width, screen.height, look.depth);
      Extents(old(table)[id], screen.width, screen.height, look.depth);
      forall x, y | !narrow && screen.InBounds(x, y) && !Contains(Damage(), x, y)
        ensures screen.Pixel(x, y) == Shown(look, table, ContentsAt(table, x, y), Stack(), focused, x, y)
      {
        ShownReleased(look, old(table), ContentsAt(old(table), x, y), table, ContentsAt(table, x, y),
                      old(Stack()), old(focused), id, x, y);
      }
    }

    /** Marks where a window stood, and takes it out of the stack, of its bindings and of the table. */
    method Leave(id: int)
      requires ScreenSound() && DamageSound() && StackHeld() && 0 <= id < |table|
      modifies this`table, this`damage, this`damaged, this`stackSlots, this`stackCount
      modifies this`focused, this`grabbed, this`dragged
      ensures table == WithoutWindow(old(table), id)
      ensures 0 <= stackCount <= |stackSlots| == |old(stackSlots)| && Stack() == Without(old(Stack()), id)
      ensures DamageSound() && DamageKept() && FrameDamaged(old(table)[id])
      ensures grabbed == if old(grabbed) == id then WINDOW_NONE else old(grabbed)
      ensures dragged == if old(dragged) == id then WINDOW_NONE else old(dragged)
      ensures focused == if old(focused) == id then WINDOW_NONE else old(focused)
    {
      hide FrameOf, Without, Intersect, Enclose, StackSound;
      var window := table[id];
      DamageAdd(FrameOf(window));
      StackRemove(id);
      Unbind(id);
      table := table[id := window.(inUse := false, surface := null, ring := Emptied(window.ring))];
      focused := if focused == id then WINDOW_NONE else focused;
    }

    /** Takes a window out of the stack and the table; the focus, where it held it, is nobody's. */
    method Release(id: int)
      requires Valid() && Live(table, id)
      modifies this`table, this`damage, this`damaged, this`stackSlots, this`stackCount
      modifies this`focused, this`grabbed, this`dragged
      ensures Core() && DamageKept()
      ensures table == WithoutWindow(old(table), id)
      ensures Stack() == Without(old(Stack()), id)
      ensures PointerSound(table, grabbed, dragged)
      ensures grabbed == if old(grabbed) == id then WINDOW_NONE else old(grabbed)
      ensures dragged == if old(dragged) == id then WINDOW_NONE else old(dragged)
      ensures focused == if old(focused) == id then WINDOW_NONE else old(focused)
      ensures !strayed && old(focused) != id ==> FocusSound(table, focused)
    {
      hide Core, FrameOf, WindowFits, FocusSound, PointerSound, ToldSound, Without, ReleasedAt;
      hide HasContent, ClipReset, Intersect, Enclose, Shown, ContentsAt, Quiet, StackSound;
      CoreParts(id);
      Leave(id);
      UntouchedKeepsContents(old(table));
      ReleasedIs(old(table), table, id, old(focused), old(grabbed), old(dragged));
      Released(id);
    }

    /** Looks for a window to have the focus nobody has. */
    method FindFocus()
      requires Core() && focused == WINDOW_NONE
      modifies this`focused, this`table, this`told, this`damage, this`damaged, this`routed, this`discarded
      ensures Core() && SameButRings(old(table), table) && DamageKept()
      ensures FocusSound(table, focused) && focused == TopFocusable(old(table), Stack())
      ensures table == Passed(old(table), WINDOW_NONE, focused)
    {
      hide Core, FocusSound, Queued, Sent, RootsNoticed;
      CoreParts(WINDOW_NONE);
      if stackCount != 0 {
        GiveUpFocus(WINDOW_NONE);
      } else {
        NobodyThere(table, Stack());
        RingsSame(table);
      }
    }

    /** The queues hear of the change, and a focus given up finds another window. */
    method AfterDestroying(held: bool, layer: Layer)
      requires Core() && (held ==> focused == WINDOW_NONE)
      modifies this`focused, this`table, this`told, this`damage, this`damaged, this`routed, this`discarded
      ensures Core() && SameButRings(old(table), table) && DamageKept()
      ensures held ==> FocusSound(table, focused)
      ensures focused == if held then TopFocusable(old(table), Stack()) else old(focused)
      ensures var passed := Passed(old(table), old(focused), focused);
              table == if layer.Normal? then RootsNoticed(passed, Windows) else passed
    {
      hide Core, FocusSound, Queued, RootsNoticed, Sent;
      if held {
        FindFocus();
      } else {
        RingsSame(table);
      }
      ghost var middle := table;
      if layer.Normal? {
        TellRoots(Windows);
      } else {
        RingsSame(table);
      }
      RingsChain(old(table), middle, table);
      RingsDoNotMatter(middle, table, [], told, 0, 0, 0, focused, grabbed, dragged);
    }

    /** Takes an existing window away, its focus passing on and the roots hearing of it. */
    method Depart(id: int)
      requires Valid() && Live(table, id)
      modifies this`focused, this`table, this`told, this`damage, this`damaged, this`routed, this`discarded
      modifies this`grabbed, this`dragged, this`stackSlots, this`stackCount
      ensures Valid() && DamageKept()
      ensures SameButRings(WithoutWindow(old(table), id), table)
      ensures Stack() == Without(old(Stack()), id)
      ensures old(focused) != id ==> focused == old(focused)
      ensures var released := WithoutWindow(old(table), id);
              var passed := Passed(released, if old(focused) == id then WINDOW_NONE else old(focused), focused);
              && (old(focused) == id ==> focused == TopFocusable(released, Stack()))
              && table == if old(table)[id].layer.Normal? then RootsNoticed(passed, Windows) else passed
      ensures grabbed == if old(grabbed) == id then WINDOW_NONE else old(grabbed)
      ensures dragged == if old(dragged) == id then WINDOW_NONE else old(dragged)
    {
      hide Core, FrameOf, WindowFits, Quiet, RootsNoticed, FocusSound, Queued, Without, Passed;
      var layer, held := table[id].layer, focused == id;
      Release(id);
      ghost var released := table;
      AfterDestroying(held, layer);
      RingsDoNotMatter(released, table, [], told, 0, 0, 0, focused, grabbed, dragged);
    }

    /** Destroys a window, passing the focus, if it held it, to the topmost that may. */
    method Destroy(id: int)
      requires Valid()
      modifies this`focused, this`table, this`told, this`damage, this`damaged, this`routed, this`discarded
      modifies this`grabbed, this`dragged, this`stackSlots, this`stackCount
      ensures Valid() && DamageKept()
      ensures SameButRings(if Live(old(table), id) then WithoutWindow(old(table), id) else old(table), table)
      ensures Stack() == if Live(old(table), id) then Without(old(Stack()), id) else old(Stack())
      ensures old(focused) != id ==> focused == old(focused)
      ensures Live(old(table), id) ==>
                var released := WithoutWindow(old(table), id);
                var passed := Passed(released, if old(focused) == id then WINDOW_NONE else old(focused), focused);
                && (old(focused) == id ==> focused == TopFocusable(released, Stack()))
                && table == if old(table)[id].layer.Normal? then RootsNoticed(passed, Windows) else passed
      ensures grabbed == if old(grabbed) == id then WINDOW_NONE else old(grabbed)
      ensures dragged == if old(dragged) == id then WINDOW_NONE else old(dragged)
      ensures Steady()
    {
      hide Valid, RootsNoticed, Queued, Without, Passed, Steady, TopFocusable;
      BoundIsLive();
      if !(0 <= id < |table|) || !table[id].inUse {
        RingsSame(table);
        SteadyBy(table);
        return;
      }
      Depart(id);
      ghost var released := WithoutWindow(old(table), id);
      HiddenIsHidden(released, table, id);
      SteadyBy(released);
    }

    // ------------------------------------------------------------------------ making

    /** The table and the stack's slots may have grown, and nothing else changed. */
    twostate lemma Grown(n: nat)
      requires old(Core()) && Undrawn(old(table)) && ContentsKept(old(table))
      requires unchanged(this`stackCount, this`narrow, this`focused, this`damage, this`damaged)
      requires table == old(table) + Blanks(n) && told == old(told) + Silence(n)
      requires 0 <= stackCount <= |stackSlots| && Stack() == old(Stack())
      ensures Core()
    {
      hide WindowFits, ContentSound, Quiet, Apart, Shown, Contributed, StackSound;
      GrownKeeps(old(table), n, screen, Stack(), told[..|old(table)|], focused, grabbed, dragged,
                 screen.width, screen.height, look.depth);
      assert told[..|old(table)|] == old(told);
      forall x, y | !narrow && screen.InBounds(x, y) && !Contains(Damage(), x, y)
        ensures screen.Pixel(x, y) == Shown(look, table, ContentsAt(table, x, y), Stack(), focused, x, y)
      {
        ShownGrown(look, old(table), ContentsAt(old(table), x, y), n, ContentsAt(table, x, y), Stack(), focused, x, y);
      }
    }

    /** Takes another chunk of slots from the heap, which may refuse. */
    method GrowTable() returns (grown: bool)
      requires Core()
      modifies this`table, this`told
      ensures Core() && table == if grown then old(table) + Blanks(CHUNK) else old(table)
    {
      hide Core;
      CoreParts(WINDOW_NONE);
      grown := *;
      if grown {
        table, told := table + Blanks(CHUNK), told + Silence(CHUNK);
        UntouchedKeepsContents(old(table));
        Grown(CHUNK);
      }
    }

    /** Makes room in the stack for every slot of the table, or reports that the heap refused. */
    method GrowStack() returns (grown: bool)
      requires Core()
      modifies this`stackSlots
      ensures Core() && stackCount <= |stackSlots| && Stack() == old(Stack())
      ensures grown <==> |table| <= |stackSlots|
    {
      hide Core;
      CoreParts(WINDOW_NONE);
      grown := true;
      while grown && |stackSlots| < |table|
        invariant 0 <= stackCount <= |stackSlots| && Stack() == old(Stack())
        invariant !grown ==> |stackSlots| < |table|
        decreases grown, |table| - |stackSlots|
      {
        grown := *;
        if grown {
          stackSlots := stackSlots + seq(CHUNK, i => 0);
        }
      }
      assert table == table + Blanks(0) && told == told + Silence(0);
      UntouchedKeepsContents(old(table));
      Grown(0);
    }

    /** The lowest free slot of the table, which grows where there is none. */
    method FreeSlot() returns (id: int)
      requires Core()
      modifies this`table, this`told
      ensures Core() && (table == old(table) || table == old(table) + Blanks(CHUNK))
      ensures id == WINDOW_NONE || (0 <= id < |table| && !table[id].inUse)
      ensures forall i | 0 <= i < if id == WINDOW_NONE then |table| else id :: table[i].inUse
    {
      hide Core;
      id := 0;
      while id < |table|
        invariant 0 <= id <= |table| && forall i | 0 <= i < id :: table[i].inUse
      {
        if !table[id].inUse {
          return;
        }
        id := id + 1;
      }
      var grown := GrowTable();
      if !grown {
        id := WINDOW_NONE;
      }
    }

    /** A content in the colour of paper, where the heap supplies it. */
    method NewContent(width: int, height: int) returns (surface: Surface?)
      requires MINIMUM_EXTENT <= width <= MAXIMUM_EXTENT && MINIMUM_EXTENT <= height <= MAXIMUM_EXTENT
      requires 1 <= look.depth <= 4
      ensures surface != null ==>
                && fresh(surface) && fresh(surface.memory) && surface.Valid()
                && surface.clip == ClipReset(Bounds(width, height))
                && surface.width == width && surface.height == height && surface.depth == look.depth
                && forall x, y | surface.InBounds(x, y) :: surface.Pixel(x, y) == Truncate(look.paper, look.depth)
    {
      hide Truncate, Spelled, Lane;
      var granted: bool := *;
      if !granted {
        return null;
      }
      var memory := new Byte[height, width * look.depth];
      surface := Surface.Describe(memory, width, height, width * look.depth, look.depth, true);
      if surface != null {
        surface.Clear(look.paper);
      }
    }

    /** One window made in a free slot and put in the stack, where it stands being damaged. */
    twostate lemma Made(id: int)
      requires old(Core()) && Undrawn(old(table)) && ContentsKept(old(table))
      requires PlacedAt(old(table), table, id) && !old(table)[id].inUse
      requires ContentSound(table[id], screen)
      requires WindowFits(table[id], screen.width, screen.height, look.depth)
      requires |old(told)| == |old(table)| && told == old(told)[id := Untold] && unchanged(this`focused)
      requires 0 <= stackCount <= |stackSlots| && Stack() == With(table, old(Stack()), id)
      requires DamageSound() && DamageKept() && FrameDamaged(table[id])
      requires !narrow ==> !old(narrow) && Wide(table[id])
      ensures Core()
    {
      hide WindowFits, ContentSound, Quiet, Apart, Shown, Contributed, FrameOf, With, StackSound, Wide;
      PlacedKeeps(old(table), table, id, screen, screen.width, screen.height, look.depth);
      MadeKeeps(old(table), table, id, old(Stack()), old(told), focused, grabbed, dragged);
      Extents(table[id], screen.width, screen.height, look.depth);
      assert !narrow ==> WideEnough(table);
      forall x, y | !narrow && screen.InBounds(x, y) && !Contains(Damage(), x, y)
        ensures screen.Pixel(x, y) == Shown(look, table, ContentsAt(table, x, y), Stack(), focused, x, y)
      {
        WideIsRoomy(table[id]);
        ShownMade(look, old(table), ContentsAt(old(table), x, y), table, ContentsAt(table, x, y),
                  old(Stack()), focused, id, x, y);
      }
    }

    /** The window a creation makes in a slot, its content given. */
    function Opened(slot: Window, x: int, y: int, width: int, height: int, title: string, layer: Layer,
                    surface: Surface): Window {
      slot.(inUse := true, layer := layer, decorated := layer.Normal?, minimised := false, full := false,
            width := width, height := height,
            x := if layer.Normal? then ConfineX(screen.width, width, x) else x,
            y := if layer.Normal? then ConfineY(screen.height, y) else y,
            title := Cut(title), owner := 0, surface := surface,
            ring := slot.ring.(head := 0, count := 0, dropped := 0))
    }

    lemma OpenedIsPlaced(id: int, x: int, y: int, width: int, height: int, title: string, layer: Layer,
                         surface: Surface)
      requires 0 <= id < |table| && !table[id].inUse
      requires MINIMUM_EXTENT <= width <= MAXIMUM_EXTENT && MINIMUM_EXTENT <= height <= MAXIMUM_EXTENT
      requires surface.Valid() && surface.clip == ClipReset(Bounds(width, height))
      requires surface.width == width && surface.height == height && surface.depth == look.depth
      requires surface != screen && surface.memory != screen.memory
      requires forall i | 0 <= i < |table| && table[i].inUse ::
                 table[i].surface != null && table[i].surface != surface && table[i].surface.memory != surface.memory
      ensures var window := Opened(table[id], x, y, width, height, title, layer, surface);
              && PlacedAt(table, table[id := window], id) && ContentSound(window, screen)
              && WindowFits(window, screen.width, screen.height, look.depth)
              && (Focusable(window) <==> layer.Normal?)
              && (Wide(window) <==> (layer.Normal? ==> width >= WIDTH_FOR_BAND))
    {
      ConfinedIsReachable(screen.width, screen.height, width, x, y);
      assert Waiting(Opened(table[id], x, y, width, height, title, layer, surface).ring) == [];
    }

    /** There is room in the stack for a window that does not stand in it. */
    lemma RoomInStack(id: int)
      requires Core() && 0 <= id < |table| <= |stackSlots| && !table[id].inUse
      ensures stackCount < |stackSlots|
      ensures forall k | 0 <= k < stackCount :: 0 <= stackSlots[k] < |table|
    {
      hide ScreenSound, TableSound, ContentsSound, QueuesQuiet, PaintSound, ToldSound;
      assert id !in Stack();
      assert forall k | 0 <= k < stackCount :: Stack()[k] == stackSlots[k] && Stack()[k] in Stack();
      assert Distinct(Stack() + [id]);
      DistinctFits(Stack() + [id], |table|);
    }

    /** What a content made anew shares with those that stood: nothing. */
    twostate lemma FreshIsApart(new surface: Surface)
      requires old(Core()) && fresh(surface) && fresh(surface.memory)
      ensures surface != screen && surface.memory != screen.memory
      ensures forall i | 0 <= i < |old(table)| && old(table)[i].inUse ::
                && old(table)[i].surface != null
                && old(table)[i].surface != surface && old(table)[i].surface.memory != surface.memory
    {
      hide ScreenSound, TableSound, Apart, QueuesQuiet, PaintSound, ToldSound, StackHeld;
      assert forall i | 0 <= i < |old(table)| && old(table)[i].inUse :: old(ContentSound(table[i], screen));
    }

    /** Puts a window into the table and the stack, and marks where it stands. */
    method Enter(id: int, window: Window)
      requires ScreenSound() && DamageSound() && 0 <= id < |table| == |told| && 0 <= stackCount < |stackSlots|
      requires forall k | 0 <= k < stackCount :: 0 <= stackSlots[k] < |table|
      modifies this`table, this`told, this`stackSlots, this`stackCount, this`damage, this`damaged, this`narrow
      ensures table == old(table)[id := window] && told == old(told)[id := Untold]
      ensures 0 <= stackCount <= |stackSlots| && Stack() == With(table, old(Stack()), id)
      ensures DamageSound() && DamageKept() && FrameDamaged(window)
      ensures narrow <==> old(narrow) || !Wide(window)
    {
      hide FrameOf, With, Intersect, Enclose, Wide;
      table := table[id := window];
      told := told[id := Untold];
      StackInsert(id);
      DamageAdd(FrameOf(window));
      narrow := narrow || !Wide(window);
    }

    /** Puts a window into a free slot and into the stack. */
    method Install(id: int, window: Window)
      requires Valid() && 0 <= id < |table| <= |stackSlots| && !table[id].inUse
      requires PlacedAt(table, table[id := window], id)
      requires ContentSound(window, screen) && WindowFits(window, screen.width, screen.height, look.depth)
      modifies this`table, this`told, this`stackSlots, this`stackCount, this`damage, this`damaged, this`narrow
      ensures Core() && DamageKept() && PointerSound(table, grabbed, dragged)
      ensures !strayed && !Focusable(window) ==> FocusSound(table, focused)
      ensures table == old(table)[id := window] && Stack() == With(table, old(Stack()), id)
      ensures narrow <==> old(narrow) || !Wide(window)
    {
      hide Core, FrameOf, WindowFits, FocusSound, PointerSound, ToldSound, With, PlacedAt, ContentSound;
      hide HasContent, ClipReset, Intersect, Enclose, Shown, ContentsAt, Quiet, StackSound, Wide;
      CoreParts(id);
      RoomInStack(id);
      Enter(id, window);
      UntouchedKeepsContents(old(table));
      Made(id);
      MadeKeeps(old(table), table, id, old(Stack()), old(told), focused, grabbed, dragged);
    }

    /** Gives a free slot a window, unless the heap refuses its content. */
    method Furnish(id: int, x: int, y: int, width: int, height: int, title: string, layer: Layer)
      returns (made: bool)
      requires Valid() && 0 <= id < |table| <= |stackSlots| && !table[id].inUse
      requires MINIMUM_EXTENT <= width <= MAXIMUM_EXTENT && MINIMUM_EXTENT <= height <= MAXIMUM_EXTENT
      modifies this`table, this`told, this`stackSlots, this`stackCount, this`damage, this`damaged, this`narrow
      ensures Core() && DamageKept() && PointerSound(table, grabbed, dragged)
      ensures !made ==> table == old(table) && Stack() == old(Stack()) && narrow == old(narrow)
      ensures !strayed && !(made && layer.Normal?) ==> FocusSound(table, focused)
      ensures made ==>
                && |table| == |old(table)| && table[id].inUse && (Focusable(table[id]) <==> layer.Normal?)
                && table[id].surface != null && fresh(table[id].surface) && fresh(table[id].surface.memory)
                && PlainPaper(table[id])
                && table == old(table)[id := Opened(old(table)[id], x, y, width, height, title, layer,
                                                    table[id].surface)]
                && Stack() == With(table, old(Stack()), id)
                && (narrow <==> old(narrow) || (layer.Normal? && width < WIDTH_FOR_BAND))
    {
      hide Core, FrameOf, WindowFits, FocusSound, PointerSound, With, PlacedAt, Wide, Shown, Truncate, ContentSound;
      CoreParts(id);
      var surface := NewContent(width, height);
      UntouchedKeepsContents(old(table));
      SameCore();
      if surface == null {
        return false;
      }
      FreshIsApart(surface);
      OpenedIsPlaced(id, x, y, width, height, title, layer, surface);
      var copy := CopyTitle(title);
      SameCore();
      Install(id, Opened(table[id], x, y, width, height, title, layer, surface));
      assert table[id].surface == surface;
      return true;
    }

    /** A window's content is all of the colour of paper. */
    ghost predicate PlainPaper(w: Window)
      reads if w.surface != null then {w.surface.memory} else {}
    {
      && w.surface != null && w.surface.Shaped()
      && forall x, y | w.surface.InBounds(x, y) :: w.surface.Pixel(x, y) == Truncate(look.paper, look.depth)
    }

    /** A window of this extent can be asked for. */
    predicate Permitted(width: int, height: int, title: Option<string>) {
      && title.Some?
      && MINIMUM_EXTENT <= width <= MAXIMUM_EXTENT && MINIMUM_EXTENT <= height <= MAXIMUM_EXTENT
    }

    /** Makes a window, if it is a possible one and the heap agrees, in the lowest free slot. */
    method Create(x: int, y: int, width: int, height: int, title: Option<string>, layer: Layer)
      returns (id: int)
      requires Valid()
      modifies this`strayed
      modifies this`focused, this`table, this`told, this`damage, this`damaged, this`routed, this`discarded
      modifies this`stackSlots, this`stackCount, this`narrow
      ensures Valid() && DamageKept()
      ensures !Permitted(width, height, title) ==> id == WINDOW_NONE && table == old(table)
      ensures id == WINDOW_NONE ==>
                && (table == old(table) || table == old(table) + Blanks(CHUNK))
                && Stack() == old(Stack()) && focused == old(focused) && narrow == old(narrow)
      ensures id != WINDOW_NONE ==>
                && (|table| == |old(table)| || |table| == |old(table)| + CHUNK)
                && (var grown := old(table) + Blanks(|table| - |old(table)|);
                    && 0 <= id < |table| && !grown[id].inUse
                    && (forall i | 0 <= i < id :: grown[i].inUse)
                    && table[id].surface != null && fresh(table[id].surface) && fresh(table[id].surface.memory)
                    && PlainPaper(table[id])
                    && (var placed := grown[id := Opened(grown[id], x, y, width, height, title.value, layer,
                                                         table[id].surface)];
                        && SameButRings(placed, table)
                        && table == if layer.Normal? then RootsNoticed(Passed(placed, old(focused), id), Windows)
                                    else placed))
                && Stack() == With(table, old(Stack()), id)
                && focused == (if layer.Normal? then id else old(focused))
                && (narrow <==> old(narrow) || (layer.Normal? && width < WIDTH_FOR_BAND))
      ensures Steady()
      ensures strayed <==> old(strayed) && !(id != WINDOW_NONE && layer.Normal?)
    {
      hide Core, FrameOf, WindowFits, Quiet, FocusSound, PointerSound, Queued, With, Opened, PlainPaper;
      hide Passed, RootsNoticed, PointedOnlyAt;
      if !Permitted(width, height, title) {
        RingsSame(table);
        SteadyBy(table);
        return WINDOW_NONE;
      }
      id := FindRoom();
      RingsSame(table);
      if id == WINDOW_NONE {
        SteadyBy(table);
        return;
      }
      assert table == old(table) + Blanks(|table| - |old(table)|);
      ghost var grown := table;
      var made := Open(id, x, y, width, height, title.value, layer);
      if !made {
        RingsSame(table);
        SteadyBy(table);
        return WINDOW_NONE;
      }
      GrownFrom(old(table), grown, table);
    }

    lemma OpenedIsQuiet(slot: Window, x: int, y: int, width: int, height: int, title: string, layer: Layer,
                        surface: Surface)
      ensures Opened(slot, x, y, width, height, title, layer, surface).surface == surface
      ensures Waiting(Opened(slot, x, y, width, height, title, layer, surface).ring) == []
    {
    }

    /** A window just made is given the focus where it is an ordinary one, and the roots hear of it. */
    method Welcome(id: int, layer: Layer)
      requires Core() && Live(table, id) && PointerSound(table, grabbed, dragged)
      requires Focusable(table[id]) <==> layer.Normal?
      requires !strayed && !layer.Normal? ==> FocusSound(table, focused)
      modifies this`strayed
      modifies this`focused, this`table, this`told, this`damage, this`damaged, this`routed, this`discarded
      ensures Valid() && DamageKept() && SameButRings(old(table), table)
      ensures table == if layer.Normal? then RootsNoticed(Passed(old(table), old(focused), id), Windows) else old(table)
      ensures focused == if layer.Normal? then id else old(focused)
      ensures strayed <==> old(strayed) && !layer.Normal?
    {
      hide Core, FocusSound, PointerSound, Queued, Passed, RootsNoticed;
      ghost var placed := table;
      if layer.Normal? {
        Announce(id);
        FocusOnFocusable(placed, id);
        RingsDoNotMatter(placed, table, [], told, 0, 0, 0, focused, grabbed, dragged);
      } else {
        RingsSame(table);
      }
    }

    /** Makes a window in a free slot; an ordinary one takes the focus. */
    method Open(id: int, x: int, y: int, width: int, height: int, title: string, layer: Layer)
      returns (made: bool)
      requires Valid() && 0 <= id < |table| <= |stackSlots| && !table[id].inUse
      requires MINIMUM_EXTENT <= width <= MAXIMUM_EXTENT && MINIMUM_EXTENT <= height <= MAXIMUM_EXTENT
      modifies this`strayed
      modifies this`focused, this`table, this`told, this`damage, this`damaged, this`routed, this`discarded
      modifies this`stackSlots, this`stackCount, this`narrow
      ensures Valid() && DamageKept()
      ensures !made ==> table == old(table) && Stack() == old(Stack()) && narrow == old(narrow) &&
                        focused == old(focused)
      ensures made ==>
                && |table| == |old(table)|
                && table[id].surface != null && fresh(table[id].surface) && fresh(table[id].surface.memory)
                && PlainPaper(table[id])
                && SameButRings(old(table)[id := Opened(old(table)[id], x, y, width, height, title, layer,
                                                        table[id].surface)], table)
                && (var placed := old(table)[id := Opened(old(table)[id], x, y, width, height, title, layer,
                                                          table[id].surface)];
                    table == if layer.Normal? then RootsNoticed(Passed(placed, old(focused), id), Windows) else placed)
                && Stack() == With(table, old(Stack()), id)
                && focused == (if layer.Normal? then id else old(focused))
                && (narrow <==> old(narrow) || (layer.Normal? && width < WIDTH_FOR_BAND))
      ensures Steady()
      ensures strayed <==> old(strayed) && !(made && layer.Normal?)
    {
      hide Core, FocusSound, PointerSound, Queued, With, Opened, PlainPaper;
      hide Focusable, Passed, RootsNoticed, Steady, KeptOrEmptied, Waiting, FrameOf, WindowFits;
      CoreParts(WINDOW_NONE);
      ghost var stack := Stack();
      made := Furnish(id, x, y, width, height, title, layer);
      if !made {
        SteadyStill();
        return;
      }
      ghost var placed := table;
      Welcome(id, layer);
      Settled(placed, table, id, stack);
      OpenedIsQuiet(old(table)[id], x, y, width, height, title, layer, placed[id].surface);
      OneSlotNew(old(table), id, placed[id]);
      SteadyBy(placed);
    }

    /** What queues alone changed leaves of a window and of its place. */
    lemma Settled(placed: seq<Window>, settled: seq<Window>, id: int, stack: seq<int>)
      requires SameButRings(placed, settled) && 0 <= id < |placed|
      ensures settled[id].surface == placed[id].surface
      ensures PlainPaper(placed[id]) ==> PlainPaper(settled[id])
      ensures With(settled, stack, id) == With(placed, stack, id)
    {
      hide With, PlainPaper;
      WithIgnoresRings(placed, settled, stack, id);
      assert Queued(placed[id], settled[id]);
      assert settled[id] == placed[id].(ring := settled[id].ring);
      RingIsNotPaper(placed[id], settled[id].ring);
    }

    lemma RingIsNotPaper(w: Window, r: Ring)
      ensures PlainPaper(w.(ring := r)) == PlainPaper(w)
    {
    }

    /** Gives a window just made, or just shown again, the focus, and tells the roots. */
    method Announce(id: int)
      requires Core() && Live(table, id)
      modifies this`strayed
      modifies this`focused, this`table, this`told, this`damage, this`damaged, this`routed, this`discarded
      ensures Core() && SameButRings(old(table), table) && DamageKept() && focused == id
      ensures table == RootsNoticed(Passed(old(table), old(focused), id), Windows)
      ensures !strayed
    {
      hide Core, Quiet, Queued, RootsNoticed, Passed;
      strayed := false;
      UntouchedKeepsContents(old(table));
      SameCore();
      TransferFocus(id);
      ghost var middle := table;
      TellRoots(Windows);
      RingsChain(old(table), middle, table);
    }

    /** A free slot, with room in the stack for its window. */
    method FindRoom() returns (id: int)
      requires Valid()
      modifies this`table, this`told, this`stackSlots
      ensures Valid() && Stack() == old(Stack())
      ensures table == old(table) || table == old(table) + Blanks(CHUNK)
      ensures id != WINDOW_NONE ==>
                && 0 <= id < |table| <= |stackSlots| && !table[id].inUse
                && forall i | 0 <= i < id :: table[i].inUse
    {
      hide Core, FocusSound, PointerSound, Blanks;
      CoreParts(WINDOW_NONE);
      GrownKeeps(table, CHUNK, screen, [], told, focused, grabbed, dragged, 0, 0, 0);
      id := FreeSlot();
      var room := GrowStack();
      if !room {
        id := WINDOW_NONE;
      }
    }

    // -------------------------------------------------------------------- full screen

    /** Every panel in sight that stands against the top edge ends by this row, and one ends there
        where it is not the first. */
    ghost predicate IsTopEdge(windows: seq<Window>, top: int) {
      && top >= 0
      && (forall i | 0 <= i < |windows| && AtTheTop(windows[i]) :: Foot(windows[i]) <= top)
      && (top == 0 || exists i :: 0 <= i < |windows| && AtTheTop(windows[i]) && Foot(windows[i]) == top)
    }

    /** Every panel in sight that stands against the bottom edge begins at this row or below it, and
        one begins there where it is not the last. */
    ghost predicate IsBottomEdge(windows: seq<Window>, bottom: int) {
      && bottom <= screen.height
      && (forall i | 0 <= i < |windows| && AtTheBottom(windows[i]) :: bottom <= windows[i].y)
      && (bottom == screen.height ||
          exists i :: 0 <= i < |windows| && AtTheBottom(windows[i]) && windows[i].y == bottom)
    }

    predicate IsBar(w: Window) { w.inUse && w.layer.Panel? && !w.minimised }

    function Foot(w: Window): int { w.y + w.height }

    predicate AtTheTop(w: Window) { IsBar(w) && w.y <= 0 }

    predicate AtTheBottom(w: Window) { IsBar(w) && Foot(w) >= screen.height }

    /** The rows between the panels, or all where there are none. */
    ghost predicate IsWorkArea(windows: seq<Window>, area: Rectangle) {
      exists top, bottom :: IsTopEdge(windows, top) && IsBottomEdge(windows, bottom) &&
        area == if top >= bottom || top >= screen.height || bottom <= 0
                then Bounds(screen.width, screen.height)
                else Rectangle(0, top, screen.width, bottom - top)
    }

    /** Finds the rows a full window is given. */
    method WorkArea() returns (area: Rectangle)
      requires ScreenSound()
      ensures IsWorkArea(table, area)
    {
      var top, bottom := 0, screen.height;
      var id := 0;
      while id < |table|
        invariant 0 <= id <= |table|
        invariant IsTopEdge(table[..id], top) && IsBottomEdge(table[..id], bottom)
      {
        var window := table[id];
        assert table[..id + 1] == table[..id] + [window];
        assert forall i | 0 <= i < id :: table[..id + 1][i] == table[..id][i];
        assert table[..id + 1][id] == window;
        if window.inUse && window.layer.Panel? && !window.minimised {
          if window.y <= 0 && window.y + window.height > top {
            top := window.y + window.height;
          }
          if window.y + window.height >= screen.height && window.y < bottom {
            bottom := window.y;
          }
        }
        id := id + 1;
      }
      assert table[..id] == table;
      area := Bounds(screen.width, screen.height);
      if top >= bottom || top >= screen.height || bottom <= 0 {
        return;
      }
      area := area.(y := top, height := bottom - top);
    }

    /** The new content shows what the old one did where they meet, and paper elsewhere. */
    ghost predicate Carried(from: Surface?, to: Surface?)
      reads if from != null then {from.memory} else {}
      reads if to != null then {to.memory} else {}
    {
      && from != null && to != null && from.Shaped() && to.Shaped()
      && forall u, v | to.InBounds(u, v) ::
           to.Pixel(u, v) == if from.InBounds(u, v) then from.Pixel(u, v) else Truncate(look.paper, look.depth)
    }

    /** A content of another extent, with as much of the old one's pixels as fit. */
    method CopyContent(window: Window, width: int, height: int) returns (surface: Surface?)
      requires 1 <= look.depth <= 4 && HasContent(window, look.depth)
      requires MINIMUM_EXTENT <= width <= MAXIMUM_EXTENT && MINIMUM_EXTENT <= height <= MAXIMUM_EXTENT
      ensures surface != null ==>
                && fresh(surface) && fresh(surface.memory) && surface.Valid()
                && surface.clip == ClipReset(Bounds(width, height))
                && surface.width == width && surface.height == height && surface.depth == look.depth
                && Carried(window.surface, surface)
    {
      hide Truncate, Spelled, Lane;
      surface := NewContent(width, height);
      if surface != null {
        var done := surface.Blit(0, 0, window.surface,
                                 Rectangle(0, 0, Min(width, window.width), Min(height, window.height)));
      }
    }

    /** One window given another content, where it stood and where it stands being damaged. */
    twostate lemma Replaced(id: int)
      requires old(Core()) && Undrawn(old(table)) && ContentsKept(old(table))
      requires PlacedAt(old(table), table, id) && old(table)[id].inUse
      requires table[id].layer == old(table)[id].layer
      requires ContentSound(table[id], screen)
      requires WindowFits(table[id], screen.width, screen.height, look.depth)
      requires unchanged(this`stackSlots, this`stackCount, this`focused, this`told)
      requires DamageSound() && DamageKept() && FrameDamaged(old(table)[id]) && FrameDamaged(table[id])
      requires !narrow ==> !old(narrow) && Wide(table[id])
      ensures Core()
    {
      hide WindowFits, ContentSound, Quiet, Apart, Shown, Contributed, FrameOf, StackSound, Wide, ToldSound;
      PlacedKeeps(old(table), table, id, screen, screen.width, screen.height, look.depth);
      ReplacedKeeps(old(table), table, id, Stack(), told, focused);
      Extents(old(table)[id], screen.width, screen.height, look.depth);
      Extents(table[id], screen.width, screen.height, look.depth);
      forall x, y | !narrow && screen.InBounds(x, y) && !Contains(Damage(), x, y)
        ensures screen.Pixel(x, y) == Shown(look, table, ContentsAt(table, x, y), Stack(), focused, x, y)
      {
        WideIsRoomy(old(table)[id]);
        WideIsRoomy(table[id]);
        RepaintChanged(look, old(table), ContentsAt(old(table), x, y), table, ContentsAt(table, x, y),
                       Stack(), focused, id, x, y);
      }
    }

    /** A window given another place, extent and content. */
    function Resized(w: Window, x: int, y: int, width: int, height: int, surface: Surface?): Window {
      w.(x := x, y := y, width := width, height := height, surface := surface)
    }

    lemma ResizedIsPlaced(id: int, x: int, y: int, width: int, height: int, surface: Surface)
      requires Live(table, id) && table[id].decorated && QueuesQuiet(table)
      requires WindowFits(table[id], screen.width, screen.height, look.depth)
      requires Confined(screen.width, screen.height, width, x, y)
      requires MINIMUM_EXTENT <= width <= MAXIMUM_EXTENT && MINIMUM_EXTENT <= height <= MAXIMUM_EXTENT
      requires surface.Valid() && surface.clip == ClipReset(Bounds(width, height))
      requires surface.width == width && surface.height == height && surface.depth == look.depth
      requires surface != screen && surface.memory != screen.memory
      requires forall i | 0 <= i < |table| && table[i].inUse ::
                 table[i].surface != null && table[i].surface != surface && table[i].surface.memory != surface.memory
      ensures var window := Resized(table[id], x, y, width, height, surface);
              && PlacedAt(table, table[id := window], id) && ContentSound(window, screen)
              && WindowFits(window, screen.width, screen.height, look.depth)
    {
    }

    /** Puts a window with another content in a window's place. */
    method Exchange(id: int, window: Window)
      requires Valid() && Live(table, id) && PlacedAt(table, table[id := window], id)
      requires ContentSound(window, screen) && WindowFits(window, screen.width, screen.height, look.depth)
      requires window.inUse && window.layer == table[id].layer && window.decorated == table[id].decorated
      requires window.minimised == table[id].minimised && window.full == table[id].full
      modifies this`table, this`damage, this`damaged, this`narrow
      ensures Valid() && DamageKept() && FrameDamaged(old(table)[id]) && FrameDamaged(window)
      ensures table == old(table)[id := window] && (narrow <==> old(narrow) || !Wide(window))
    {
      hide Core, FrameOf, WindowFits, FocusSound, PointerSound, ToldSound, PlacedAt, ContentSound;
      hide HasContent, ClipReset, Shown, ContentsAt, Quiet, StackSound, Wide, FrameDamaged;
      CoreParts(id);
      PlaceDoesNotMatter(table, table[id := window], id, focused, grabbed, dragged);
      Substitute(id, window);
      narrow := narrow || !Wide(window);
      UntouchedKeepsContents(old(table));
      Replaced(id);
    }

    /** Sends a window word of its new extent. */
    method TellResize(id: int, width: int, height: int)
      requires Valid()
      modifies this`table, this`routed, this`discarded
      ensures Valid() && SameButRings(old(table), table)
      ensures table == Sent(old(table), id, ResizeEvent(width, height))
    {
      hide Core, Quiet, Sent, FocusSound, PointerSound;
      CoreParts(id);
      var event := Event(Resize, width, height, {}, {}, NoKey);
      SentKeeps(table, id, event);
      Enqueue(id, event);
      UntouchedKeepsContents(old(table));
      OnlyQueued();
      RingsDoNotMatter(old(table), table, [], told, 0, 0, 0, focused, grabbed, dragged);
    }

    /** Resizes a window in place; where the heap refuses the pixels, all is left as it was. */
    method Recontent(id: int, x: int, y: int, width: int, height: int) returns (done: bool)
      requires Valid() && Live(table, id) && table[id].decorated
      requires MINIMUM_EXTENT <= width <= MAXIMUM_EXTENT && MINIMUM_EXTENT <= height <= MAXIMUM_EXTENT
      requires Confined(screen.width, screen.height, width, x, y)
      modifies this`table, this`damage, this`damaged, this`narrow
      ensures Valid() && DamageKept()
      ensures !done ==> table == old(table) && narrow == old(narrow)
      ensures done ==>
                && Live(table, id) && FrameDamaged(old(table)[id]) && FrameDamaged(table[id])
                && Carried(old(table)[id].surface, table[id].surface)
                && table == old(table)[id := Resized(old(table)[id], x, y, width, height, table[id].surface)]
                && fresh(table[id].surface) && fresh(table[id].surface.memory)
                && (narrow <==> old(narrow) || width < WIDTH_FOR_BAND)
    {
      hide Core, FrameOf, FocusSound, PointerSound, PlacedAt, Shown, Truncate, ContentSound;
      CoreParts(id);
      var surface := CopyContent(table[id], width, height);
      UntouchedKeepsContents(old(table));
      SameCore();
      if surface == null {
        return false;
      }
      FreshIsApart(surface);
      ResizedIsPlaced(id, x, y, width, height, surface);
      Exchange(id, Resized(table[id], x, y, width, height, surface));
      assert table[id].surface == surface;
      return true;
    }

    /** Resizes a window in place, if that can be done, and sends it word. */
    method ResizeContent(id: int, x: int, y: int, width: int, height: int) returns (done: bool)
      requires Valid() && Live(table, id) && table[id].decorated
      requires MINIMUM_EXTENT <= width && MINIMUM_EXTENT <= height ==>
                 Confined(screen.width, screen.height, width, x, y)
      modifies this`table, this`damage, this`damaged, this`narrow, this`routed, this`discarded
      ensures Valid() && DamageKept()
      ensures !done ==> table == old(table) && narrow == old(narrow)
      ensures done ==>
                && MINIMUM_EXTENT <= width <= MAXIMUM_EXTENT && MINIMUM_EXTENT <= height <= MAXIMUM_EXTENT
                && Live(table, id) && FrameDamaged(old(table)[id]) && FrameDamaged(table[id])
                && Carried(old(table)[id].surface, table[id].surface)
                && SameButRings(old(table)[id := Resized(old(table)[id], x, y, width, height, table[id].surface)],
                                table)
                && table == Sent(old(table)[id := Resized(old(table)[id], x, y, width, height, table[id].surface)], id,
                                 ResizeEvent(width, height))
                && fresh(table[id].surface) && fresh(table[id].surface.memory)
                && (narrow <==> old(narrow) || width < WIDTH_FOR_BAND)
    {
      hide Core, FocusSound, PointerSound, Carried, Resized, Queued, FrameOf, Confined, Sent;
      if width < MINIMUM_EXTENT || height < MINIMUM_EXTENT || width > MAXIMUM_EXTENT || height > MAXIMUM_EXTENT {
        return false;
      }
      done := Recontent(id, x, y, width, height);
      if done {
        ghost var replaced := table;
        TellResize(id, width, height);
        BandsAlike(replaced, table);
        SurfacesAlike(replaced, table, id);
      }
    }

    /** What making a window full, or not, leaves of the bindings before a drag of it is ended. */
    ghost predicate Bound(id: int)
      reads this`table, this`grabbed, this`dragged, this`focused, this`strayed
    {
      && PointerSound(table, grabbed, if dragged == id then WINDOW_NONE else dragged)
      && (!strayed ==> FocusSound(table, focused))
    }

    lemma FullKeeps(id: int, window: Window)
      requires Valid() && Live(table, id) && table[id].decorated
      requires MINIMUM_EXTENT <= window.restoreWidth <= MAXIMUM_EXTENT
      requires MINIMUM_EXTENT <= window.restoreHeight <= MAXIMUM_EXTENT
      requires Confined(screen.width, screen.height, window.restoreWidth, window.restoreX, window.restoreY)
      requires !narrow ==> window.restoreWidth >= WIDTH_FOR_BAND
      requires window == table[id].(full := window.full, restoreX := window.restoreX, restoreY := window.restoreY,
                                    restoreWidth := window.restoreWidth, restoreHeight := window.restoreHeight)
      ensures ChangedAt(table, table[id := window], id) && FrameOf(window) == FrameOf(table[id])
      ensures WindowFits(window, screen.width, screen.height, look.depth)
      ensures !narrow ==> Wide(window)
      ensures PointerSound(table[id := window], grabbed, if dragged == id then WINDOW_NONE else dragged)
      ensures !strayed ==> FocusSound(table[id := window], focused)
    {
      hide StackHeld, PaintSound, ContentsSound, ToldSound, QueuesQuiet, Confined;
      CoreParts(id);
    }

    /** Marks a window full or not, its frame being damaged already. */
    method MarkFull(id: int, window: Window)
      requires Valid() && Live(table, id) && table[id].decorated && FrameDamaged(table[id])
      requires MINIMUM_EXTENT <= window.restoreWidth <= MAXIMUM_EXTENT
      requires MINIMUM_EXTENT <= window.restoreHeight <= MAXIMUM_EXTENT
      requires Confined(screen.width, screen.height, window.restoreWidth, window.restoreX, window.restoreY)
      requires !narrow ==> window.restoreWidth >= WIDTH_FOR_BAND
      requires window == table[id].(full := window.full, restoreX := window.restoreX, restoreY := window.restoreY,
                                    restoreWidth := window.restoreWidth, restoreHeight := window.restoreHeight)
      modifies this`table
      ensures Core() && Bound(id) && table == old(table)[id := window]
    {
      hide Core, FrameOf, WindowFits, FocusSound, PointerSound, ChangedAt, Wide, Confined;
      CoreParts(id);
      FullKeeps(id, window);
      table := table[id := window];
      UntouchedKeepsContents(old(table));
      ChangedInPlace(id);
    }

    /** Ends a drag of a window. */
    method Undrag(id: int)
      requires Core() && Bound(id)
      modifies this`dragged
      ensures Valid() && dragged == if old(dragged) == id then WINDOW_NONE else old(dragged)
    {
      hide Core, PointerSound, FocusSound;
      if dragged == id {
        dragged := WINDOW_NONE;
      }
      UntouchedKeepsContents(old(table));
      SameCore();
    }

    /** Less than the whole screen, the work area meets no panel in sight that stands at the top or the bottom edge. */
    lemma WorkAreaClearsPanels(area: Rectangle, i: int)
      requires ScreenSound() && IsWorkArea(table, area) && area != Bounds(screen.width, screen.height)
      requires Live(table, i) && table[i].layer.Panel? && !table[i].minimised
      requires table[i].y <= 0 || table[i].y + table[i].height >= screen.height
      ensures table[i].y + table[i].height <= area.y || area.y + area.height <= table[i].y
    {
      assert AtTheTop(table[i]) || AtTheBottom(table[i]);
    }

    lemma WorkAreaConfines(area: Rectangle)
      requires ScreenSound() && IsWorkArea(table, area)
      ensures area.x == 0 && area.width == screen.width && 0 <= area.y && area.y + area.height <= screen.height
      ensures area.height - TITLE_HEIGHT - 2 * BORDER >= MINIMUM_EXTENT && screen.width >= MINIMUM_EXTENT ==>
                Confined(screen.width, screen.height, area.width - 2 * BORDER, area.x, area.y)
    {
    }

    /** The window fills the work area, and what it was before is kept. */
    ghost predicate Fills(w: Window, before: Window, windows: seq<Window>) {
      && w.full && FrameOf(w).x == 0 && FrameOf(w).width == screen.width && IsWorkArea(windows, FrameOf(w))
      && w.restoreX == before.x && w.restoreY == before.y
      && w.restoreWidth == before.width && w.restoreHeight == before.height
    }

    /** The window stands where it did before it was made full. */
    ghost predicate PutBack(w: Window, before: Window) {
      && !w.full && w.x == before.restoreX && w.y == before.restoreY
      && w.width == before.restoreWidth && w.height == before.restoreHeight
    }

    /** What a change of a window's size may change of it. */
    function Reshaped(w: Window, now: Window): Window {
      w.(x := now.x, y := now.y, width := now.width, height := now.height, surface := now.surface, full := now.full,
         restoreX := now.restoreX, restoreY := now.restoreY,
         restoreWidth := now.restoreWidth, restoreHeight := now.restoreHeight)
    }

    lemma FillsIsFull(w: Window, before: Window, windows: seq<Window>)
      ensures Fills(w, before, windows) ==> w.full
    {
      hide IsWorkArea;
    }

    lemma ReshapedIs(w: Window, now: Window)
      ensures Reshaped(w, now).surface == now.surface && Reshaped(w, now).ring == w.ring
    {
    }

    lemma ValidIsBound(id: int)
      requires Valid()
      ensures Bound(id)
    {
    }

    /** A window resized, hearing of it, and then marked. */
    lemma ReshapedAfter(before: seq<Window>, resized: seq<Window>, id: int, x: int, y: int, width: int, height: int,
                        surface: Surface?, full: bool, restoreX: int, restoreY: int, restoreWidth: int,
                        restoreHeight: int)
      requires 0 <= id < |before|
      requires SameButRings(before[id := Resized(before[id], x, y, width, height, surface)], resized)
      requires resized == Sent(before[id := Resized(before[id], x, y, width, height, surface)], id,
                               ResizeEvent(width, height))
      requires before[id].inUse
      ensures |resized| == |before|
      ensures var marked := resized[id].(full := full, restoreX := restoreX, restoreY := restoreY,
                                         restoreWidth := restoreWidth, restoreHeight := restoreHeight);
              && resized[id] == Resized(before[id], x, y, width, height, surface).(ring := resized[id].ring)
              && resized[id := marked] ==
                 Sent(before[id := Reshaped(before[id], marked)], id, ResizeEvent(width, height))
              && SameButRings(before[id := Reshaped(before[id], marked)], resized[id := marked])
    {
      hide Waiting;
      var middle := before[id := Resized(before[id], x, y, width, height, surface)];
      assert forall i | 0 <= i < |before| :: Queued(middle[i], resized[i]);
      assert forall i | 0 <= i < |before| && i != id :: middle[i] == before[i];
    }

    /** Resizes a window to the work area, in place. */
    method StretchOut(id: int) returns (done: bool, area: Rectangle)
      requires Valid() && Live(table, id) && table[id].decorated
      modifies this`table, this`damage, this`damaged, this`narrow, this`routed, this`discarded
      ensures Valid() && DamageKept() && IsWorkArea(old(table), area)
      ensures area.x == 0 && area.width == screen.width
      ensures !done ==> table == old(table) && narrow == old(narrow)
      ensures done ==>
                var width, height := area.width - 2 * BORDER, area.height - TITLE_HEIGHT - 2 * BORDER;
                && Live(table, id) && FrameDamaged(table[id]) && Carried(old(table)[id].surface, table[id].surface)
                && SameButRings(old(table)[id := Resized(old(table)[id], area.x, area.y, width, height,
                                                         table[id].surface)], table)
                && table == Sent(old(table)[id := Resized(old(table)[id], area.x, area.y, width, height,
                                                          table[id].surface)], id, ResizeEvent(width, height))
                && fresh(table[id].surface) && fresh(table[id].surface.memory)
                && (narrow <==> old(narrow) || width < WIDTH_FOR_BAND)
    {
      hide Valid, Carried, Queued, Confined, FrameDamaged, Sent, Resized, IsWorkArea;
      ScreenHolds();
      area := WorkArea();
      UntouchedKeepsContents(old(table));
      Undisturbed();
      WorkAreaConfines(area);
      done := ResizeContent(id, area.x, area.y, area.width - 2 * BORDER,
                            area.height - TITLE_HEIGHT - 2 * BORDER);
    }

    lemma ScreenHolds()
      requires Valid()
      ensures ScreenSound()
    {
    }

    method MakeFull(id: int) returns (done: bool)
      requires Valid() && Live(table, id) && table[id].decorated && !table[id].full
      modifies this`table, this`damage, this`damaged, this`narrow, this`routed, this`discarded
      ensures Core() && Bound(id) && DamageKept()
      ensures !done ==> Valid() && table == old(table) && narrow == old(narrow)
      ensures done ==>
                && Live(table, id) && Carried(old(table)[id].surface, table[id].surface)
                && SameButRings(old(table)[id := Reshaped(old(table)[id], table[id])], table)
                && table == Sent(old(table)[id := Reshaped(old(table)[id], table[id])], id,
                                 ResizeEvent(table[id].width, table[id].height))
                && fresh(table[id].surface) && fresh(table[id].surface.memory)
                && Fills(table[id], old(table)[id], old(table))
                && (narrow <==> old(narrow) || screen.width < WIDTH_FOR_BAND + 2 * BORDER)
    {
      hide Core, PointerSound, FocusSound, Carried, Queued, WindowFits, Confined, FrameDamaged, Sent, IsWorkArea;
      FitsParts(id);
      ValidIsBound(id);
      var window := table[id];
      var area;
      done, area := StretchOut(id);
      if !done {
        ValidIsBound(id);
        return;
      }
      ReshapedAfter(old(table), table, id, area.x, area.y, area.width - 2 * BORDER,
                    area.height - TITLE_HEIGHT - 2 * BORDER, table[id].surface, true,
                    window.x, window.y, window.width, window.height);
      MarkFull(id, table[id].(restoreX := window.x, restoreY := window.y, restoreWidth := window.width,
                              restoreHeight := window.height, full := true));
    }

    lemma FitsParts(id: int)
      requires Core() && Live(table, id)
      ensures MINIMUM_EXTENT <= table[id].width <= MAXIMUM_EXTENT
      ensures MINIMUM_EXTENT <= table[id].height <= MAXIMUM_EXTENT
      ensures table[id].decorated ==>
                Confined(screen.width, screen.height, table[id].width, table[id].x, table[id].y)
      ensures table[id].full ==>
                && MINIMUM_EXTENT <= table[id].restoreWidth <= MAXIMUM_EXTENT
                && MINIMUM_EXTENT <= table[id].restoreHeight <= MAXIMUM_EXTENT
                && Confined(screen.width, screen.height, table[id].restoreWidth, table[id].restoreX, table[id].restoreY)
      ensures !narrow && table[id].decorated ==>
                table[id].width >= WIDTH_FOR_BAND && (table[id].full ==> table[id].restoreWidth >= WIDTH_FOR_BAND)
    {
      hide ScreenSound, ContentsSound, QueuesQuiet, StackHeld, ToldSound, Confined;
    }

    lemma BoundIsValid(id: int)
      requires Core() && Bound(id) && dragged != id
      ensures Valid()
    {
    }

    lemma FullIsNotDragged(id: int)
      requires Valid() && Live(table, id) && table[id].full
      ensures dragged != id
    {
    }

    /** Puts a full window back where it was. */
    method LeaveFull(id: int) returns (done: bool)
      requires Valid() && Live(table, id) && table[id].decorated && table[id].full
      modifies this`table, this`damage, this`damaged, this`narrow, this`routed, this`discarded
      ensures Valid() && DamageKept()
      ensures !done ==> table == old(table)
      ensures narrow == old(narrow)
      ensures done ==>
                && Live(table, id) && Carried(old(table)[id].surface, table[id].surface)
                && SameButRings(old(table)[id := Reshaped(old(table)[id], table[id])], table)
                && table == Sent(old(table)[id := Reshaped(old(table)[id], table[id])], id,
                                 ResizeEvent(table[id].width, table[id].height))
                && fresh(table[id].surface) && fresh(table[id].surface.memory)
                && PutBack(table[id], old(table)[id])
    {
      hide Core, PointerSound, FocusSound, Carried, Queued, WindowFits, Confined, FrameDamaged, Sent;
      CoreParts(id);
      FitsParts(id);
      FullIsNotDragged(id);
      var window := table[id];
      done := ResizeContent(id, window.restoreX, window.restoreY, window.restoreWidth, window.restoreHeight);
      if !done {
        return;
      }
      ReshapedAfter(old(table), table, id, window.restoreX, window.restoreY, window.restoreWidth,
                    window.restoreHeight, table[id].surface, false, window.restoreX, window.restoreY,
                    window.restoreWidth, window.restoreHeight);
      MarkFull(id, table[id].(full := false));
      BoundIsValid(id);
      MovesNowhere(id);
      Move(id, table[id].x, table[id].y);
    }

    lemma MovesNowhere(id: int)
      requires Live(table, id) && Confined(screen.width, screen.height, table[id].width, table[id].x, table[id].y)
      ensures table[id := table[id].(x := ConfineX(screen.width, table[id].width, table[id].x),
                                     y := ConfineY(screen.height, table[id].y))] == table
    {
    }

    /** Gives a window its other shape, a drag of it still in force. */
    method Reshape(id: int, full: bool) returns (done: bool)
      requires Valid() && Live(table, id) && table[id].decorated && table[id].full != full
      modifies this`table, this`damage, this`damaged, this`narrow, this`routed, this`discarded
      ensures Core() && Bound(id) && DamageKept() && (!full ==> dragged != id)
      ensures !done ==> Valid() && table == old(table) && narrow == old(narrow)
      ensures done ==>
                && Live(table, id) && Carried(old(table)[id].surface, table[id].surface)
                && SameButRings(old(table)[id := Reshaped(old(table)[id], table[id])], table)
                && table == Sent(old(table)[id := Reshaped(old(table)[id], table[id])], id,
                                 ResizeEvent(table[id].width, table[id].height))
                && fresh(table[id].surface) && fresh(table[id].surface.memory)
                && (if full then Fills(table[id], old(table)[id], old(table)) else PutBack(table[id], old(table)[id]))
                && (narrow <==> old(narrow) || (full && screen.width < WIDTH_FOR_BAND + 2 * BORDER))
    {
      hide Core, PointerSound, FocusSound, Carried, Queued, Bound, PutBack, Fills, Reshaped, Sent;
      if full {
        done := MakeFull(id);
      } else {
        FullIsNotDragged(id);
        done := LeaveFull(id);
        ValidIsBound(id);
      }
    }

    /** Makes a window full, or not. Full, its frame is the work area; not, it is where it was. */
    method SetFull(id: int, full: bool) returns (done: bool)
      requires Valid()
      modifies this`table, this`damage, this`damaged, this`narrow, this`routed, this`discarded, this`dragged
      ensures Valid() && DamageKept()
      ensures done ==> Live(old(table), id) && old(table)[id].decorated
      ensures Live(old(table), id) && old(table)[id].decorated && old(table)[id].full == full ==> done
      ensures !done || old(table)[id].full == full ==>
                table == old(table) && narrow == old(narrow) && dragged == old(dragged)
      ensures done && old(table)[id].full != full ==>
                && Live(table, id) && Carried(old(table)[id].surface, table[id].surface)
                && SameButRings(old(table)[id := Reshaped(old(table)[id], table[id])], table)
                && table == RootsNoticed(Sent(old(table)[id := Reshaped(old(table)[id], table[id])], id,
                                              ResizeEvent(table[id].width, table[id].height)), Windows)
                && fresh(table[id].surface) && fresh(table[id].surface.memory)
                && (if full then Fills(table[id], old(table)[id], old(table)) else PutBack(table[id], old(table)[id]))
                && dragged == (if old(dragged) == id then WINDOW_NONE else old(dragged))
                && (narrow <==> old(narrow) || (full && screen.width < WIDTH_FOR_BAND + 2 * BORDER))
      ensures Steady()
    {
      hide Core, PointerSound, FocusSound, Carried, Queued, Bound, PutBack, Fills, Reshaped, Sent, RootsNoticed;
      hide Steady;
      RingsSame(table);
      if !(0 <= id < |table|) || !table[id].inUse || !table[id].decorated {
        SteadyBy(table);
        return false;
      }
      if full == table[id].full {
        SteadyBy(table);
        return true;
      }
      done := Reshape(id, full);
      if !done {
        SteadyBy(table);
        return;
      }
      ghost var reshaped := table;
      UndragAndTell(id);
      StaysReshaped(old(table), reshaped, table, id);
      RingsChain(old(table)[id := Reshaped(old(table)[id], table[id])], reshaped, table);
      FillsIsFull(table[id], old(table)[id], old(table));
      ReshapedIs(old(table)[id], table[id]);
      SteadyBy(old(table)[id := Reshaped(old(table)[id], table[id])]);
    }

    /** Ends a drag of a window that became full or ceased to be, and tells the roots. */
    method UndragAndTell(id: int)
      requires Core() && Bound(id)
      modifies this`dragged, this`table, this`routed, this`discarded
      ensures Valid() && SameButRings(old(table), table)
      ensures dragged == if old(dragged) == id then WINDOW_NONE else old(dragged)
      ensures table == RootsNoticed(old(table), Windows)
    {
      hide Core, PointerSound, FocusSound, Quiet, RootsNoticed, Queued;
      Undrag(id);
      TellRoots(Windows);
      RingsDoNotMatter(old(table), table, [], told, 0, 0, 0, focused, grabbed, dragged);
    }

    lemma StaysReshaped(before: seq<Window>, reshaped: seq<Window>, settled: seq<Window>, id: int)
      requires 0 <= id < |before| == |reshaped| && SameButRings(reshaped, settled)
      ensures settled[id].surface == reshaped[id].surface
      ensures Reshaped(before[id], settled[id]) == Reshaped(before[id], reshaped[id])
      ensures Fills(settled[id], before[id], before) <==> Fills(reshaped[id], before[id], before)
      ensures PutBack(settled[id], before[id]) <==> PutBack(reshaped[id], before[id])
      ensures Live(reshaped, id) ==> Live(settled, id)
      ensures settled[id].width == reshaped[id].width && settled[id].height == reshaped[id].height
    {
      hide IsWorkArea;
      assert Queued(reshaped[id], settled[id]);
      assert settled[id] == reshaped[id].(ring := settled[id].ring);
      assert FrameOf(settled[id]) == FrameOf(reshaped[id]);
    }

    method Wander(id: int, moves: seq<(int, int)>)
      requires Valid() && Live(table, id)
      modifies this`table, this`damage, this`damaged
      ensures Valid() && |table| == |old(table)|
      ensures table[id] == old(table)[id].(x := table[id].x, y := table[id].y)
    {
      hide Core, PointerSound, FocusSound;
      var moved := 0;
      while moved < |moves|
        invariant Valid() && |table| == |old(table)| && 0 <= moved <= |moves|
        invariant table[id] == old(table)[id].(x := table[id].x, y := table[id].y)
      {
        Move(id, moves[moved].0, moves[moved].1);
        moved := moved + 1;
      }
    }

    /** The last content shows what the first did where the one between them had it, paper elsewhere. */
    ghost predicate CarriedThrough(from: Surface?, width: int, height: int, to: Surface?)
      reads if from != null then {from.memory} else {}
      reads if to != null then {to.memory} else {}
    {
      && from != null && to != null && from.Shaped() && to.Shaped()
      && from.width == to.width && from.height == to.height
      && forall u, v | to.InBounds(u, v) ::
           to.Pixel(u, v) ==
           if u < width && v < height then from.Pixel(u, v) else Truncate(look.paper, look.depth)
    }

    lemma CarriedTwice(from: Surface?, between: Surface?, to: Surface?)
      requires Carried(from, between) && Carried(between, to)
      requires from.width == to.width && from.height == to.height
      ensures CarriedThrough(from, between.width, between.height, to)
    {
      hide Truncate, Spelled;
    }

    /** A window made full, moved about, and made not full again stands exactly where it did; its
        content shows what it did wherever it fitted the full one, and paper elsewhere. */
    method FullAndBack(id: int, moves: seq<(int, int)>) returns (done: bool, ghost filled: Window)
      requires Valid() && Live(table, id) && table[id].decorated && !table[id].full
      modifies this`table, this`damage, this`damaged, this`narrow, this`routed, this`discarded, this`dragged
      ensures Valid() && |table| == |old(table)|
      ensures done ==>
                && !table[id].full
                && table[id].x == old(table)[id].x && table[id].y == old(table)[id].y
                && table[id].width == old(table)[id].width && table[id].height == old(table)[id].height
                && Fills(filled, old(table)[id], old(table))
                && CarriedThrough(old(table)[id].surface, filled.width, filled.height, table[id].surface)
    {
      hide Core, PointerSound, FocusSound, WindowFits, Confined, FrameDamaged, Carried, CarriedThrough, Truncate;
      hide IsWorkArea, Queued;
      ContentIsHad(id);
      ghost var first := table[id];
      done := SetFull(id, true);
      filled := table[id];
      if !done {
        return;
      }
      ContentIsHad(id);
      Wander(id, moves);
      done := SetFull(id, false);
      if done {
        ContentIsHad(id);
        CarriedTwice(first.surface, filled.surface, table[id].surface);
      }
    }

    lemma ContentIsHad(id: int)
      requires Core() && Live(table, id)
      ensures HasContent(table[id], look.depth)
    {
      hide ScreenSound, ContentsSound, QueuesQuiet, StackHeld, ToldSound, PaintSound;
    }

    // ------------------------------------------------------- owners, session, reading

    /** One window's queue or owner changed, which shows nowhere. */
    twostate lemma Unseen(id: int)
      requires old(Core()) && Undrawn(old(table)) && ContentsKept(old(table))
      requires unchanged(this`stackSlots, this`stackCount, this`narrow, this`focused, this`told)
      requires unchanged(this`damage, this`damaged)
      requires ChangedAt(old(table), table, id) && LooksAlike(old(table)[id], table[id])
      ensures Core()
    {
      hide WindowFits, ContentSound, Quiet, Apart, Shown, Contributed, FrameOf, StackSound;
      LooksAlikeFits(old(table)[id], table[id], screen.width, screen.height, look.depth);
      ChangeKeeps(old(table), table, id, screen, Stack(), told, focused, screen.width, screen.height, look.depth);
      forall x, y | !narrow && screen.InBounds(x, y) && !Contains(Damage(), x, y)
        ensures screen.Pixel(x, y) == Shown(look, table, ContentsAt(table, x, y), Stack(), focused, x, y)
      {
        ContentsLookAlike(old(table), table, id, x, y);
        RepaintBooks(look, old(table), ContentsAt(old(table), x, y), table, ContentsAt(table, x, y),
                     Stack(), focused, id, x, y);
      }
    }

    /** Puts a window of the same look in a window's place. */
    method Rebook(id: int, window: Window)
      requires Valid() && Live(table, id) && LooksAlike(table[id], window)
      requires window.ring == table[id].ring || Quiet(window.ring)
      modifies this`table
      ensures Valid() && table == old(table)[id := window]
    {
      hide Core, FocusSound, PointerSound, Quiet;
      CoreParts(id);
      PlaceDoesNotMatter(table, table[id := window], id, focused, grabbed, dragged);
      table := table[id := window];
      UntouchedKeepsContents(old(table));
      Unseen(id);
    }

    method SetOwner(id: int, owner: nat)
      requires Valid()
      modifies this`table
      ensures Valid()
      ensures table == if Live(old(table), id) then old(table)[id := old(table)[id].(owner := owner)] else old(table)
      ensures Steady()
    {
      hide Core, FocusSound, PointerSound, Steady;
      if 0 <= id < |table| && table[id].inUse {
        Rebook(id, table[id].(owner := owner));
      }
      RingsSame(table);
      SteadyBy(table);
    }

    method SetSession(owner: nat)
      requires Valid()
      modifies this`session
      ensures Valid() && session == owner
    {
      hide Core, FocusSound, PointerSound;
      session := owner;
      UntouchedKeepsContents(old(table));
      SameCore();
    }

    /** Takes the oldest event of a window's queue. */
    method ReadEvent(id: int) returns (event: Option<Event>)
      requires Valid()
      modifies this`table
      ensures Valid()
      ensures event.Some? <==> Live(old(table), id) && Waiting(old(table)[id].ring) != []
      ensures event.None? ==> table == old(table)
      ensures event.Some? ==>
                && event.value == Waiting(old(table)[id].ring)[0]
                && |table| == |old(table)| && Waiting(table[id].ring) == Waiting(old(table)[id].ring)[1..]
                && table == old(table)[id := old(table)[id].(ring := table[id].ring)]
      ensures Steady()
    {
      hide Core, FocusSound, PointerSound, Quiet, Waiting, PointedOnlyAt;
      if !(0 <= id < |table|) || !table[id].inUse || table[id].ring.count == 0 {
        StillRouted(table, WINDOW_NONE);
        RoutedIsPointed(table, table, WINDOW_NONE);
        return None;
      }
      var ring: Ring := table[id].ring;
      CoreParts(id);
      TakenIsOldest(ring);
      TakingKeepsQuiet(ring);
      event := Some(ring.slots[ring.head]);
      Rebook(id, table[id].(ring := ring.(head := (ring.head + 1) % 32, count := ring.count - 1)));
      TakingPointsNobody(old(table), table, id);
    }

    /** The roots' notice of a notification, to those without one. */
    method AnnounceNotification()
      requires Valid()
      modifies this`table, this`routed, this`discarded
      ensures Valid() && table == RootsNoticed(old(table), Notify) && SameButRings(old(table), table)
      ensures Steady()
    {
      hide Core, FocusSound, PointerSound, RootsNoticed, Queued, Steady;
      TellRoots(Notify);
      RingsDoNotMatter(old(table), table, [], told, 0, 0, 0, focused, grabbed, dragged);
      SteadyBy(old(table));
    }

    /** Sends a key to the window that holds the focus, or discards it where none does. */
    method HandleKey(key: KeyEvent)
      requires Valid()
      modifies this`table, this`routed, this`discarded
      ensures Valid() && SameButRings(old(table), table)
      ensures table == Sent(old(table), focused, Event(Key, 0, 0, {}, {}, key))
      ensures Steady()
    {
      hide Core, FocusSound, PointerSound, Quiet, Sent, Queued, Steady;
      CoreParts(focused);
      var event := Event(Key, 0, 0, {}, {}, key);
      SentKeeps(table, focused, event);
      Enqueue(focused, event);
      UntouchedKeepsContents(old(table));
      OnlyQueued();
      RingsDoNotMatter(old(table), table, [], told, 0, 0, 0, focused, grabbed, dragged);
      SteadyBy(old(table));
    }

    /** A slot no window stands in is told nothing of a window destroyed. */
    lemma UnusedUntold(released: seq<Window>, settled: seq<Window>, previous: int, id: int)
      requires settled == Passed(released, previous, id) ||
               settled == RootsNoticed(Passed(released, previous, id), Windows)
      ensures |settled| == |released|
      ensures forall i | 0 <= i < |released| && !released[i].inUse :: settled[i] == released[i]
    {
      hide Offer;
    }

    /** What a manager comes to once some of its windows are gone: they are out of the table, the stack and
        the bindings, and the focus, where one of them held it, is the topmost's that may. */
    ghost predicate Rid(start: seq<Window>, stack: seq<int>, first: int, grab: int, drag: int, gone: set<int>)
      reads this`table, this`stackSlots, this`stackCount, this`focused, this`grabbed, this`dragged
    {
      && 0 <= stackCount <= |stackSlots| && OnlyGone(start, table, gone) && Stack() == WithoutAll(stack, gone)
      && focused == (if first in gone then TopFocusable(table, Stack()) else first)
      && grabbed == (if grab in gone then WINDOW_NONE else grab)
      && dragged == (if drag in gone then WINDOW_NONE else drag)
    }

    /** Destroys one more of several windows. */
    method DestroyNext(ghost start: seq<Window>, ghost stack: seq<int>, ghost first: int, ghost grab: int,
                       ghost drag: int, ghost gone: set<int>, index: int)
      requires Valid() && Live(table, index) && Distinct(stack) && index != WINDOW_NONE
      requires Rid(start, stack, first, grab, drag, gone)
      modifies this`focused, this`table, this`told, this`damage, this`damaged, this`routed, this`discarded
      modifies this`grabbed, this`dragged, this`stackSlots, this`stackCount
      ensures Valid() && DamageKept() && Rid(start, stack, first, grab, drag, gone + {index})
    {
      hide Valid, Queued, Passed, RootsNoticed, Without, TopFocusable, LeftBy, Steady;
      StackIsDistinct();
      ghost var before, standing, holder := table, Stack(), focused;
      WithoutOneMore(stack, gone, index);
      Destroy(index);
      StackIsDistinct();
      ghost var released := WithoutWindow(before, index);
      UnusedUntold(released, table, if holder == index then WINDOW_NONE else holder, focused);
      OneMoreGone(start, before, table, gone, index);
      TopIgnoresRings(released, table, Stack());
      if holder != index && first in gone {
        TopSurvives(before, standing, index, table);
      }
    }

    lemma StackIsDistinct()
      requires Valid()
      ensures 0 <= stackCount <= |stackSlots| && Distinct(Stack())
    {
    }

    lemma RidOfNobody()
      requires Valid()
      ensures Rid(table, Stack(), focused, grabbed, dragged, {})
    {
      hide TopFocusable, LeftBy, StackSound;
      NobodyGone(table);
      NothingIsWithout(Stack());
    }

    lemma SlotOf(start: seq<Window>, stack: seq<int>, first: int, grab: int, drag: int, gone: set<int>, index: int)
      requires Rid(start, stack, first, grab, drag, gone) && 0 <= index < |start|
      ensures |table| == |start|
      ensures table[index].owner == start[index].owner && table[index].layer == start[index].layer
      ensures table[index].inUse <==> start[index].inUse && index !in gone
    {
      SlotLeft(start, table, gone, index);
    }

    lemma SizeOf(start: seq<Window>, stack: seq<int>, first: int, grab: int, drag: int, gone: set<int>)
      requires Rid(start, stack, first, grab, drag, gone)
      ensures |table| == |start|
    {
    }

    twostate lemma RidIsSteady(gone: set<int>)
      requires 0 <= old(stackCount) <= |old(stackSlots)|
      requires Rid(old(table), old(Stack()), old(focused), old(grabbed), old(dragged), gone)
      ensures Steady()
    {
      hide PointedOnlyAt, LeftBy, TopFocusable, WithoutAll;
      GonePointNobody(old(table), table, gone);
      if 0 <= old(grabbed) < |table| {
        SlotLeft(old(table), table, gone, old(grabbed));
      }
      if 0 <= old(dragged) < |table| {
        SlotLeft(old(table), table, gone, old(dragged));
      }
    }

    /** Destroys every window of an owner. */
    method DestroyOwnedBy(owner: nat) returns (destroyed: nat)
      requires Valid()
      modifies this`focused, this`table, this`told, this`damage, this`damaged, this`routed, this`discarded
      modifies this`grabbed, this`dragged, this`stackSlots, this`stackCount
      ensures Valid() && DamageKept() && Steady()
      ensures destroyed == |Owned(old(table), owner, |old(table)|)|
      ensures Rid(old(table), old(Stack()), old(focused), old(grabbed), old(dragged),
                  Owned(old(table), owner, |old(table)|))
    {
      hide Valid, Rid, Steady;
      StackIsDistinct();
      RidOfNobody();
      ghost var start, stack, first, grab, drag := table, Stack(), focused, grabbed, dragged;
      ghost var gone: set<int> := {};
      destroyed := 0;
      var index := 0;
      while index < |table|
        invariant Valid() && DamageKept() && 0 <= index <= |table| == |start|
        invariant gone == Owned(start, owner, index) && destroyed == |gone|
        invariant Rid(start, stack, first, grab, drag, gone)
      {
        SlotOf(start, stack, first, grab, drag, gone, index);
        OneMoreOwned(start, owner, index);
        if table[index].inUse && table[index].owner == owner {
          DestroyNext(start, stack, first, grab, drag, gone, index);
          SlotOf(start, stack, first, grab, drag, gone + {index}, index);
          gone := gone + {index};
          destroyed := destroyed + 1;
        }
        index := index + 1;
      }
      RidIsSteady(gone);
    }

    // ------------------------------------------------------------------------ routing

    /** The window a person sees at a point, or none. */
    method WindowAt(x: int, y: int) returns (id: int)
      requires StackHeld()
      ensures id == HitAt(table, Stack(), x, y)
    {
      var position := stackCount;
      assert Stack()[..position] == Stack();
      while position != 0
        invariant 0 <= position <= stackCount
        invariant HitAt(table, Stack(), x, y) == HitAt(table, Stack()[..position], x, y)
      {
        id := stackSlots[position - 1];
        assert Stack()[position - 1] == id && id in Stack();
        assert Stack()[..position][..position - 1] == Stack()[..position - 1];
        if !table[id].minimised && Contains(FrameOf(table[id]), x, y) {
          return;
        }
        position := position - 1;
      }
      id := WINDOW_NONE;
    }

    /** In every state no root stands above an ordinary window or a panel, and no ordinary window above a panel.
        So where a panel in sight holds a point a panel is hit there, and a root only where nothing else does;
        and what shows at a point is a panel's where any panel paints there, and a root's where roots alone do. */
    lemma LayersStandInOrder(x: int, y: int)
      requires Valid()
      ensures LayersInOrder(table, Stack())
      ensures ByLayer(table, AllHeld(table, x, y), HitAt(table, Stack(), x, y))
      ensures ByLayer(table, AllPainting(look, table, ContentsAt(table, x, y), focused, x, y),
                      ShownBy(look, table, ContentsAt(table, x, y), Stack(), focused, x, y))
    {
      hide ScreenSound, TableSound, ContentsSound, QueuesQuiet, ToldSound, DamageSound, PaintSound;
      hide FocusSound, PointerSound, VisibleAt, FrameOf, LayersInOrder, ByLayer, TopmostOf;
      SoundIsInOrder(table, Stack());
      HitIsTopmost(table, Stack(), x, y);
      TopmostIsByLayer(table, Stack(), AllHeld(table, x, y), HitAt(table, Stack(), x, y));
      VisibleIsLive(look, table, ContentsAt(table, x, y), focused, x, y);
      PaintIsTopmost(look, table, ContentsAt(table, x, y), Stack(), focused, x, y);
      TopmostIsByLayer(table, Stack(), AllPainting(look, table, ContentsAt(table, x, y), focused, x, y),
                       ShownBy(look, table, ContentsAt(table, x, y), Stack(), focused, x, y));
    }

    /** The window hit at a point of the screen is the one whose paint a repaint shows there, and none
        where it shows the ground. */
    lemma HitIsWhatShows(x: int, y: int)
      requires Valid() && RoomyEnough(table)
      ensures var id := HitAt(table, Stack(), x, y);
              && id == ShownBy(look, table, ContentsAt(table, x, y), Stack(), focused, x, y)
              && (id == WINDOW_NONE || Live(table, id))
              && (if id == WINDOW_NONE then Some(Truncate(look.ground, look.depth))
                  else PaintOf(look, table[id], id == focused, ContentAt(table[id], x, y), x, y)) ==
                 Some(Shown(look, table, ContentsAt(table, x, y), Stack(), focused, x, y))
    {
      hide FrameOf, PaintOf, ContentsSound, QueuesQuiet, ToldSound, FocusSound, PointerSound, Truncate;
      var contents := ContentsAt(table, x, y);
      forall id | id in Stack()
        ensures Live(table, id) && table[id].width >= MINIMUM_EXTENT && table[id].height >= MINIMUM_EXTENT
      {
        Extents(table[id], screen.width, screen.height, look.depth);
      }
      HitIsShown(look, table, contents, Stack(), focused, x, y);
      assert forall k | 0 <= k < stackCount :: Stack()[k] in Stack();
      ShownIsTheTopmost(look, table, contents, Stack(), focused, x, y);
    }

    /** Puts a report of the pointer in a window's queue. */
    method SendPointer(id: int, kind: Kind, x: int, y: int, button: Buttons, buttons: Buttons)
      requires Valid() && Live(table, id) && Pointing(kind)
      modifies this`table, this`routed, this`discarded
      ensures Valid() && table == Sent(old(table), id, PointerEvent(old(table)[id], kind, x, y, button, buttons))
    {
      hide Core, FocusSound, PointerSound, Quiet;
      CoreParts(id);
      var event := PointerEvent(table[id], kind, x, y, button, buttons);
      SentKeeps(table, id, event);
      PlaceDoesNotMatter(table, Sent(table, id, event), id, focused, grabbed, dragged);
      EnqueuePointer(id, kind, x, y, button, buttons);
      UntouchedKeepsContents(old(table));
      Unseen(id);
    }

    /** Puts a report of the pointer in a window's queue, if there is one to make. */
    method Report(worthwhile: bool, id: int, kind: Kind, x: int, y: int, button: Buttons, buttons: Buttons)
      requires Valid() && Live(table, id) && Pointing(kind)
      modifies this`table, this`routed, this`discarded
      ensures Valid() && Live(table, id) && ContentOf(table[id]) == ContentOf(old(table)[id])
      ensures table == SentAll(old(table), id,
                               if worthwhile then [PointerEvent(old(table)[id], kind, x, y, button, buttons)] else [])
    {
      hide Core, FocusSound, PointerSound, Sent, ContentOf;
      if worthwhile {
        SentKeepsPlace(table, id, PointerEvent(table[id], kind, x, y, button, buttons));
        SendPointer(id, kind, x, y, button, buttons);
      }
    }

    /** Ends the binding of the pointer where the last button is released. */
    method LetGo(buttons: Buttons)
      requires Valid()
      modifies this`grabbed, this`dragged
      ensures Valid()
      ensures grabbed == if buttons == {} then WINDOW_NONE else old(grabbed)
      ensures dragged == if buttons == {} then WINDOW_NONE else old(dragged)
    {
      hide Core, FocusSound;
      if buttons == {} {
        grabbed, dragged := WINDOW_NONE, WINDOW_NONE;
      }
      UntouchedKeepsContents(old(table));
      SameCore();
    }

    /** Reports a movement to the window that has the pointer, in up to three events. */
    method HandleBound(m: Movement)
      requires Valid() && grabbed != WINDOW_NONE
      modifies this`table, this`routed, this`discarded, this`grabbed, this`dragged
      ensures Valid() && dragged == WINDOW_NONE
      ensures Live(old(table), old(grabbed)) &&
              table == SentAll(old(table), old(grabbed), Reported(old(table)[old(grabbed)], m))
      ensures grabbed == if m.buttons == {} then WINDOW_NONE else old(grabbed)
    {
      hide Core, FocusSound, SentAll, ContentOf;
      var bound := grabbed;
      ghost var start, window := table, table[bound];
      var pressed, released := m.changed * m.buttons, m.changed - m.buttons;
      ghost var moves := if m.deltaX != 0 || m.deltaY != 0
                         then [PointerEvent(window, PointerMove, m.x, m.y, {}, m.buttons)] else [];
      ghost var presses := if pressed != {}
                           then [PointerEvent(window, ButtonPress, m.x, m.y, LowestButton(pressed), m.buttons)] else [];
      ghost var releases := if released != {}
                            then [PointerEvent(window, ButtonRelease, m.x, m.y, LowestButton(released), m.buttons)]
                            else [];
      Report(m.deltaX != 0 || m.deltaY != 0, bound, PointerMove, m.x, m.y, {}, m.buttons);
      Report(pressed != {}, bound, ButtonPress, m.x, m.y, LowestButton(pressed), m.buttons);
      Report(released != {}, bound, ButtonRelease, m.x, m.y, LowestButton(released), m.buttons);
      SentAllJoins(start, bound, moves, presses);
      SentAllJoins(start, bound, moves + presses, releases);
      assert Reported(window, m) == moves + presses + releases;
      LetGo(m.buttons);
    }

    /** A drag takes the movement itself: the window follows the pointer, and nobody is told. */
    method HandleDrag(m: Movement)
      requires Valid() && dragged != WINDOW_NONE
      modifies this`table, this`damage, this`damaged, this`grabbed, this`dragged
      ensures Valid() && DamageKept() && grabbed == WINDOW_NONE && Live(old(table), old(dragged))
      ensures RoutedOnlyTo(old(table), table, WINDOW_NONE) && OwnOrNew()
      ensures dragged == if m.buttons == {} then WINDOW_NONE else old(dragged)
      ensures var w := old(table)[old(dragged)];
              table == old(table)[old(dragged) :=
                         w.(x := ConfineX(screen.width, w.width, m.x - dragOffsetX),
                            y := ConfineY(screen.height, m.y - dragOffsetY))]
      ensures SameHands(old(table), table)
    {
      hide Core, FocusSound, PointedOnlyAt, Heard;
      Move(dragged, m.x - dragOffsetX, m.y - dragOffsetY);
      MovedRoutes(old(table), table, dragged);
      LetGo(m.buttons);
    }

    /** A window pressed upon is raised in its layer, and an ordinary one takes the focus. */
    method Favour(id: int)
      requires Valid() && Live(table, id) && !table[id].minimised
      modifies this`strayed
      modifies this`focused, this`table, this`told, this`damage, this`damaged, this`routed, this`discarded
      modifies this`stackSlots, this`stackCount
      ensures Valid() && DamageKept() && SameButRings(old(table), table)
      ensures Stack() == if old(table)[id].layer.Root? then old(Stack()) else Raised(old(table), old(Stack()), id)
      ensures focused == if old(table)[id].layer.Normal? then id else old(focused)
      ensures table == Passed(old(table), old(focused), focused)
      ensures strayed <==> old(strayed) && !old(table)[id].layer.Normal?
    {
      hide Core, FocusSound, PointerSound, Queued, Raised, Quiet, Sent, RootsNoticed;
      if !table[id].layer.Root? {
        Raise(id);
      }
      FavourFocus(id);
    }

    method FavourFocus(id: int)
      requires Valid() && Live(table, id) && !table[id].minimised
      modifies this`strayed
      modifies this`focused, this`table, this`told, this`damage, this`damaged, this`routed, this`discarded
      ensures Valid() && DamageKept() && SameButRings(old(table), table)
      ensures focused == if old(table)[id].layer.Normal? then id else old(focused)
      ensures table == Passed(old(table), old(focused), focused)
      ensures strayed <==> old(strayed) && !old(table)[id].layer.Normal?
    {
      hide Core, FocusSound, PointerSound, Queued, Quiet, Sent, RootsNoticed;
      if table[id].layer.Normal? {
        FocusOnFocusable(table, id);
        strayed := false;
        UntouchedKeepsContents(old(table));
        SameCore();
        TransferFocus(id);
        RingsDoNotMatter(old(table), table, [], told, 0, 0, 0, focused, grabbed, dragged);
      } else {
        RingsSame(table);
      }
    }

    /** Tells a window to close. */
    method AskToClose(id: int)
      requires Valid()
      modifies this`table, this`routed, this`discarded
      ensures Valid() && SameButRings(old(table), table)
      ensures table == Sent(old(table), id, KindEvent(Close))
    {
      hide Core, FocusSound, PointerSound, Quiet, Sent, Queued;
      CoreParts(id);
      EnqueueKind(id, Close);
      UntouchedKeepsContents(old(table));
      OnlyQueued();
      RingsDoNotMatter(old(table), table, [], told, 0, 0, 0, focused, grabbed, dragged);
    }

    /** Binds the pointer to a window, or begins a drag of one. */
    method Bind(id: int, drag: bool, offsetX: int, offsetY: int)
      requires Valid() && grabbed == WINDOW_NONE && dragged == WINDOW_NONE
      requires Live(table, id) && !table[id].minimised && (drag ==> table[id].decorated && !table[id].full)
      modifies this`grabbed, this`dragged, this`dragOffsetX, this`dragOffsetY
      ensures Valid()
      ensures if drag then dragged == id && grabbed == WINDOW_NONE && dragOffsetX == offsetX && dragOffsetY == offsetY
              else grabbed == id && dragged == WINDOW_NONE
    {
      hide Core, FocusSound;
      if drag {
        dragged, dragOffsetX, dragOffsetY := id, offsetX, offsetY;
      } else {
        grabbed := id;
      }
      UntouchedKeepsContents(old(table));
      SameCore();
    }

    /** What a press upon a window does, by what of it the press lands upon. */
    method PressOn(id: int, x: int, y: int, button: Buttons, buttons: Buttons)
      requires Valid() && grabbed == WINDOW_NONE && dragged == WINDOW_NONE
      requires Live(table, id) && !table[id].minimised
      modifies this`focused, this`table, this`told, this`damage, this`damaged, this`routed, this`discarded
      modifies this`grabbed, this`dragged, this`dragOffsetX, this`dragOffsetY, this`narrow
      ensures Valid() && DamageKept() && RoutedOnlyTo(old(table), table, grabbed)
      ensures Landed(old(table), old(focused), id, x, y, button, buttons)
      ensures OwnOrNew() && (narrow ==> old(narrow) || screen.width < WIDTH_FOR_BAND + 2 * BORDER)
    {
      hide Core, FocusSound, Sent, Queued, Quiet, Refilled, PutAway, ContentOf;
      hide ControlReachOf, CloseReachOf, TitleBandOf, FrameOf, Heard;
      var window := table[id];
      StillRouted(table, WINDOW_NONE);
      if Contains(CloseReachOf(window), x, y) {
        AskToClose(id);
        NoticesRoute(old(table), old(table), table, WINDOW_NONE);
        SurfacesKept(old(table), table);
        return;
      }
      if Contains(ControlReachOf(window, FullControl), x, y) {
        PressFull(id);
        return;
      }
      if Contains(ControlReachOf(window, MinimiseControl), x, y) {
        PressMinimise(id);
        return;
      }
      if Contains(TitleBandOf(window), x, y) {
        PressBand(id, x, y);
        return;
      }
      PressInside(id, x, y, button, buttons);
    }

    /** A press upon a window's content binds the pointer to it, and is reported to it. */
    method PressInside(id: int, x: int, y: int, button: Buttons, buttons: Buttons)
      requires Valid() && grabbed == WINDOW_NONE && dragged == WINDOW_NONE
      requires Live(table, id) && !table[id].minimised
      modifies this`grabbed, this`dragged, this`dragOffsetX, this`dragOffsetY, this`table, this`routed, this`discarded
      ensures Valid() && grabbed == id && dragged == WINDOW_NONE
      ensures table == Sent(old(table), id, PointerEvent(old(table)[id], ButtonPress, x, y, button, buttons))
      ensures RoutedOnlyTo(old(table), table, id) && OwnOrNew()
    {
      hide Core, FocusSound, Sent, ContentOf, Heard;
      SentQueues(table, id, PointerEvent(table[id], ButtonPress, x, y, button, buttons));
      SentDrawsNothing(table, id, PointerEvent(table[id], ButtonPress, x, y, button, buttons));
      Bind(id, false, 0, 0);
      SendPointer(id, ButtonPress, x, y, button, buttons);
    }

    /** What giving a window its other shape leaves of a table: the window full or put back, its content
        carried over, its owner and then the roots told. */
    ghost predicate Refilled(before: seq<Window>, id: int)
      requires 0 <= id < |before|
      reads this`table, ContentMemory(id)
      reads if before[id].surface != null then {before[id].surface.memory} else {}
    {
      && Live(table, id) && Carried(before[id].surface, table[id].surface)
      && table == RootsNoticed(Sent(before[id := Reshaped(before[id], table[id])], id,
                                    ResizeEvent(table[id].width, table[id].height)), Windows)
      && if before[id].full then PutBack(table[id], before[id]) else Fills(table[id], before[id], before)
    }

    /** What putting a window out of sight leaves of a table and of the focus. */
    ghost predicate PutAway(before: seq<Window>, holder: int, id: int)
      requires 0 <= id < |before|
      reads this`table, this`focused, this`stackSlots, this`stackCount
    {
      var hidden := before[id := before[id].(minimised := true)];
      && 0 <= stackCount <= |stackSlots|
      && focused == (if holder == id then TopFocusable(hidden, Stack()) else holder)
      && table == RootsNoticed(Passed(hidden, holder, focused), Windows)
    }

    method PressFull(id: int)
      requires Valid() && Live(table, id)
      modifies this`table, this`damage, this`damaged, this`narrow, this`routed, this`discarded, this`dragged
      ensures Valid() && DamageKept() && RoutedOnlyTo(old(table), table, WINDOW_NONE) && OwnOrNew()
      ensures table == old(table) || Refilled(old(table), id)
      ensures narrow ==> old(narrow) || screen.width < WIDTH_FOR_BAND + 2 * BORDER
      ensures old(dragged) == WINDOW_NONE ==> dragged == WINDOW_NONE
    {
      hide Core, FocusSound, PointerSound, Queued, Heard, Carried, FrameOf, Fills, PutBack, PointedOnlyAt, RootsNoticed;
      StillRouted(table, WINDOW_NONE);
      var done := SetFull(id, !table[id].full);
      if done {
        NoticesRoute(old(table), old(table)[id := Reshaped(old(table)[id], table[id])], table, WINDOW_NONE);
      }
    }

    method PressMinimise(id: int)
      requires Valid() && Live(table, id) && !table[id].minimised
      modifies this`focused, this`table, this`told, this`damage, this`damaged, this`routed, this`discarded
      modifies this`grabbed, this`dragged
      ensures Valid() && DamageKept() && RoutedOnlyTo(old(table), table, WINDOW_NONE) && OwnOrNew()
      ensures if old(table)[id].decorated then PutAway(old(table), old(focused), id) else focused == old(focused)
      ensures old(grabbed) == WINDOW_NONE ==> grabbed == WINDOW_NONE
      ensures old(dragged) == WINDOW_NONE ==> dragged == WINDOW_NONE
    {
      hide Core, FocusSound, PointerSound, Heard, Queued, PointedOnlyAt, TopFocusable, Passed, RootsNoticed;
      CoreParts(id);
      var done := Minimise(id);
      ghost var hidden := if done then old(table)[id := old(table)[id].(minimised := true)] else old(table);
      NoticesRoute(old(table), hidden, table, WINDOW_NONE);
    }

    method PressBand(id: int, x: int, y: int)
      requires Valid() && grabbed == WINDOW_NONE && dragged == WINDOW_NONE
      requires Live(table, id) && !table[id].minimised && Contains(TitleBandOf(table[id]), x, y)
      modifies this`grabbed, this`dragged, this`dragOffsetX, this`dragOffsetY
      ensures Valid() && grabbed == WINDOW_NONE
      ensures dragged == if table[id].full then WINDOW_NONE else id
      ensures dragged == id ==> dragOffsetX == x - table[id].x && dragOffsetY == y - table[id].y
    {
      hide Core, FocusSound, PointerSound;
      if !table[id].full {
        Bind(id, true, x - table[id].x, y - table[id].y);
      }
    }

    /** What a press upon a window of a table comes to, by the spot, the focus having been its holder's. */
    ghost predicate Landed(before: seq<Window>, holder: int, id: int, x: int, y: int, button: Buttons,
                           buttons: Buttons)
      requires 0 <= id < |before|
      reads this`table, this`grabbed, this`dragged, this`dragOffsetX, this`dragOffsetY, this`focused
      reads this`stackSlots, this`stackCount, ContentMemory(id)
      reads if before[id].surface != null then {before[id].surface.memory} else {}
    {
      var w := before[id];
      var spot := SpotOf(w, x, y);
      && grabbed == (if spot.Inside? then id else WINDOW_NONE)
      && dragged == (if spot.OnBand? && !w.full then id else WINDOW_NONE)
      && (dragged == id ==> dragOffsetX == x - w.x && dragOffsetY == y - w.y)
      && (if spot.OnMinimise? && w.decorated then PutAway(before, holder, id) else focused == holder)
      && (spot.OnClose? ==> table == Sent(before, id, KindEvent(Close)))
      && (spot.OnFull? && table != before ==> Refilled(before, id))
      && (spot.OnBand? ==> table == before)
      && (spot.Inside? ==> table == Sent(before, id, PointerEvent(w, ButtonPress, x, y, button, buttons)))
    }

    /** The window is given the focus where it is an ordinary one, and the press lands upon it. */
    ghost predicate Pressed(before: seq<Window>, previous: int, favoured: seq<Window>, id: int, x: int, y: int,
                            button: Buttons, buttons: Buttons)
      requires 0 <= id < |before|
      reads this`table, this`grabbed, this`dragged, this`dragOffsetX, this`dragOffsetY, this`focused
      reads this`stackSlots, this`stackCount, ContentMemory(id)
      reads if 0 <= id < |favoured| && favoured[id].surface != null then {favoured[id].surface.memory} else {}
    {
      var holder := if before[id].layer.Normal? then id else previous;
      && SameButRings(before, favoured) && favoured == Passed(before, previous, holder)
      && Landed(favoured, holder, id, x, y, button, buttons)
    }

    method PressUpon(id: int, x: int, y: int, button: Buttons, buttons: Buttons)
      returns (ghost favoured: seq<Window>)
      requires Valid() && grabbed == WINDOW_NONE && dragged == WINDOW_NONE
      requires Live(table, id) && !table[id].minimised
      modifies this`strayed
      modifies this`focused, this`table, this`told, this`damage, this`damaged, this`routed, this`discarded
      modifies this`grabbed, this`dragged, this`dragOffsetX, this`dragOffsetY, this`narrow
      modifies this`stackSlots, this`stackCount
      ensures Valid() && RoutedOnlyTo(old(table), table, grabbed) && DamageKept()
      ensures Pressed(old(table), old(focused), favoured, id, x, y, button, buttons)
      ensures OwnOrNew() && (narrow ==> old(narrow) || screen.width < WIDTH_FOR_BAND + 2 * BORDER)
      ensures Stack() == if old(table)[id].layer.Root? then old(Stack()) else Raised(old(table), old(Stack()), id)
      ensures strayed ==> old(strayed)
    {
      hide Valid, Raised, Heard, Waiting, Queued, Landed, Passed;
      Favour(id);
      favoured := table;
      SurfacesKept(old(table), favoured);
      HiddenIsHidden(old(table), table, id);
      NoticesRoute(old(table), old(table), favoured, WINDOW_NONE);
      PressOn(id, x, y, button, buttons);
      RoutedWider(old(table), favoured, grabbed);
      RoutedChain(old(table), favoured, table, grabbed);
    }

    /** The first press of a button, by the window and the spot that it hits. */
    method BeginPress(x: int, y: int, button: Buttons, buttons: Buttons)
      returns (ghost favoured: seq<Window>)
      requires Valid() && grabbed == WINDOW_NONE && dragged == WINDOW_NONE
      modifies this`strayed
      modifies this`focused, this`table, this`told, this`damage, this`damaged, this`routed, this`discarded
      modifies this`grabbed, this`dragged, this`dragOffsetX, this`dragOffsetY, this`narrow
      modifies this`stackSlots, this`stackCount
      ensures Valid() && RoutedOnlyTo(old(table), table, grabbed) && DamageKept()
      ensures OwnOrNew() && (narrow ==> old(narrow) || screen.width < WIDTH_FOR_BAND + 2 * BORDER)
      ensures var id := HitAt(old(table), old(Stack()), x, y);
              if id == WINDOW_NONE then
                && table == old(table) && Stack() == old(Stack()) && focused == old(focused)
                && grabbed == WINDOW_NONE && dragged == WINDOW_NONE
              else
                && Live(old(table), id)
                && Pressed(old(table), old(focused), favoured, id, x, y, button, buttons)
                && Stack() == if old(table)[id].layer.Root? then old(Stack())
                              else Raised(old(table), old(Stack()), id)
      ensures strayed ==> old(strayed)
    {
      hide Core, FocusSound, PointerSound, Raised, HitAt, Heard, Waiting, Pressed;
      CoreParts(WINDOW_NONE);
      StillRouted(table, WINDOW_NONE);
      var id := WindowAt(x, y);
      UntouchedKeepsContents(old(table));
      SameCore();
      favoured := table;
      if id == WINDOW_NONE {
        return;
      }
      HitIsInSight(table, Stack(), x, y);
      favoured := PressUpon(id, x, y, button, buttons);
    }

    method NotePointer(m: Movement)
      requires Valid()
      modifies this`pointerX, this`pointerY
      ensures Valid() && pointerX == m.x && pointerY == m.y
    {
      hide Core, FocusSound, PointerSound;
      pointerX, pointerY := m.x, m.y;
      UntouchedKeepsContents(old(table));
      SameCore();
    }

    /** A movement with nothing bound and no press: the window under the pointer, if there is one, is
        told of it. */
    method HandleHover(m: Movement)
      requires Valid()
      modifies this`table, this`routed, this`discarded
      ensures Valid()
      ensures var id := HitAt(old(table), old(Stack()), m.x, m.y);
              if m.changed - m.buttons != {} || id == WINDOW_NONE || (m.deltaX == 0 && m.deltaY == 0)
              then table == old(table)
              else && Live(old(table), id)
                   && table == Sent(old(table), id, PointerEvent(old(table)[id], PointerMove, m.x, m.y, {}, m.buttons))
    {
      hide Core, FocusSound, PointerSound, HitAt, ContentOf, Sent;
      if m.changed - m.buttons != {} || (m.deltaX == 0 && m.deltaY == 0) {
        return;
      }
      CoreParts(WINDOW_NONE);
      var under := WindowAt(m.x, m.y);
      UntouchedKeepsContents(old(table));
      SameCore();
      if under != WINDOW_NONE {
        HitIsInSight(table, Stack(), m.x, m.y);
        SendPointer(under, PointerMove, m.x, m.y, {}, m.buttons);
      }
    }

    /** Routes one movement of the mouse. While a window is bound every report of the pointer is its own;
        while one is dragged there are none; otherwise they go to the window hit. */
    method HandleMouse(m: Movement) returns (ghost favoured: seq<Window>)
      requires Valid()
      modifies this`strayed
      modifies this`focused, this`table, this`told, this`damage, this`damaged, this`routed, this`discarded
      modifies this`grabbed, this`dragged, this`dragOffsetX, this`dragOffsetY, this`narrow
      modifies this`stackSlots, this`stackCount, this`pointerX, this`pointerY
      ensures Valid() && pointerX == m.x && pointerY == m.y
      ensures old(dragged) != WINDOW_NONE ==>
                && Live(old(table), old(dragged)) && grabbed == WINDOW_NONE
                && dragged == (if m.buttons == {} then WINDOW_NONE else old(dragged))
                && (var w := old(table)[old(dragged)];
                    table == old(table)[old(dragged) :=
                               w.(x := ConfineX(screen.width, w.width, m.x - old(dragOffsetX)),
                                  y := ConfineY(screen.height, m.y - old(dragOffsetY)))])
      ensures old(grabbed) != WINDOW_NONE ==>
                && Live(old(table), old(grabbed)) && dragged == WINDOW_NONE
                && grabbed == (if m.buttons == {} then WINDOW_NONE else old(grabbed))
                && table == SentAll(old(table), old(grabbed), Reported(old(table)[old(grabbed)], m))
      ensures var id := HitAt(old(table), old(Stack()), m.x, m.y);
              old(grabbed) == WINDOW_NONE && old(dragged) == WINDOW_NONE ==>
                if m.changed * m.buttons != {} && id != WINDOW_NONE then
                  && Live(old(table), id)
                  && Pressed(old(table), old(focused), favoured, id, m.x, m.y,
                             LowestButton(m.changed * m.buttons), m.buttons)
                  && Stack() == if old(table)[id].layer.Root? then old(Stack())
                                else Raised(old(table), old(Stack()), id)
                else
                  && grabbed == WINDOW_NONE && dragged == WINDOW_NONE
                  && focused == old(focused) && Stack() == old(Stack())
                  && RoutedOnlyTo(old(table), table, id)
                  && if id == WINDOW_NONE || m.changed - m.buttons != {} || (m.deltaX == 0 && m.deltaY == 0)
                     then table == old(table)
                     else && Live(old(table), id)
                          && table == Sent(old(table), id,
                                           PointerEvent(old(table)[id], PointerMove, m.x, m.y, {}, m.buttons))
      ensures old(grabbed) != WINDOW_NONE || old(dragged) != WINDOW_NONE ==>
                focused == old(focused) && Stack() == old(Stack())
      ensures old(grabbed) == WINDOW_NONE && (old(dragged) != WINDOW_NONE || m.changed * m.buttons != {}) ==>
                RoutedOnlyTo(old(table), table, grabbed)
      ensures old(grabbed) != WINDOW_NONE ==> RoutedOnlyTo(old(table), table, old(grabbed))
      ensures DamageKept() && OwnOrNew()
      ensures narrow ==> old(narrow) || screen.width < WIDTH_FOR_BAND + 2 * BORDER
      ensures SameHands(old(table), table)
      ensures strayed ==> old(strayed)
    {
      hide Core, FocusSound, HitAt, ContentOf, Sent, SentAll, Heard, Waiting, Pressed, Raised, Reported;
      hide ConfineX, ConfineY, RoutedOnlyTo, SameHands, Valid;
      favoured := table;
      BoundIsLive();
      NotePointer(m);
      if dragged != WINDOW_NONE {
        HandleDrag(m);
        return;
      }
      if grabbed != WINDOW_NONE {
        ReportBound(m);
        return;
      }
      favoured := HandleFree(m);
    }

    /** Reports a movement to the window that has the pointer, and to no other. */
    method ReportBound(m: Movement)
      requires Valid() && grabbed != WINDOW_NONE
      modifies this`table, this`routed, this`discarded, this`grabbed, this`dragged
      ensures Valid() && dragged == WINDOW_NONE && Live(old(table), old(grabbed))
      ensures table == SentAll(old(table), old(grabbed), Reported(old(table)[old(grabbed)], m))
      ensures grabbed == if m.buttons == {} then WINDOW_NONE else old(grabbed)
      ensures RoutedOnlyTo(old(table), table, old(grabbed)) && OwnOrNew()
      ensures SameHands(old(table), table)
    {
      hide Valid, SentAll, ContentOf, Heard, Reported;
      BoundIsLive();
      SentAllRoutes(table, grabbed, Reported(table[grabbed], m));
      SentAllOnly(table, grabbed, Reported(table[grabbed], m));
      HandleBound(m);
    }

    lemma BoundIsLive()
      requires Valid()
      ensures grabbed == WINDOW_NONE || dragged == WINDOW_NONE
      ensures grabbed != WINDOW_NONE ==> Live(table, grabbed) && !table[grabbed].minimised
      ensures dragged != WINDOW_NONE ==> Live(table, dragged) && !table[dragged].minimised
    {
    }

    /** Routes a movement while no window is bound or dragged. */
    method HandleFree(m: Movement) returns (ghost favoured: seq<Window>)
      requires Valid() && grabbed == WINDOW_NONE && dragged == WINDOW_NONE
      modifies this`strayed
      modifies this`focused, this`table, this`told, this`damage, this`damaged, this`routed, this`discarded
      modifies this`grabbed, this`dragged, this`dragOffsetX, this`dragOffsetY, this`narrow
      modifies this`stackSlots, this`stackCount
      ensures Valid() && DamageKept() && OwnOrNew()
      ensures narrow ==> old(narrow) || screen.width < WIDTH_FOR_BAND + 2 * BORDER
      ensures var id := HitAt(old(table), old(Stack()), m.x, m.y);
              if m.changed * m.buttons != {} && id != WINDOW_NONE then
                && Live(old(table), id)
                && Pressed(old(table), old(focused), favoured, id, m.x, m.y,
                           LowestButton(m.changed * m.buttons), m.buttons)
                && Stack() == if old(table)[id].layer.Root? then old(Stack())
                              else Raised(old(table), old(Stack()), id)
              else
                && grabbed == WINDOW_NONE && dragged == WINDOW_NONE
                && focused == old(focused) && Stack() == old(Stack())
                && RoutedOnlyTo(old(table), table, id)
                && if id == WINDOW_NONE || m.changed - m.buttons != {} || (m.deltaX == 0 && m.deltaY == 0)
                   then table == old(table)
                   else && Live(old(table), id)
                        && table == Sent(old(table), id,
                                         PointerEvent(old(table)[id], PointerMove, m.x, m.y, {}, m.buttons))
      ensures m.changed * m.buttons != {} ==> RoutedOnlyTo(old(table), table, grabbed)
      ensures strayed ==> old(strayed)
      ensures SameHands(old(table), table)
    {
      hide Core, FocusSound, PointerSound, HitAt, ContentOf, Sent, Heard, Waiting, Pressed, Raised;
      favoured := table;
      if m.changed * m.buttons != {} {
        favoured := BeginPress(m.x, m.y, LowestButton(m.changed * m.buttons), m.buttons);
        return;
      }
      CoreParts(WINDOW_NONE);
      ghost var id := HitAt(table, Stack(), m.x, m.y);
      StillRouted(table, id);
      HandleHover(m);
      if table != old(table) {
        SentQueues(old(table), id, PointerEvent(old(table)[id], PointerMove, m.x, m.y, {}, m.buttons));
        SentDrawsNothing(old(table), id, PointerEvent(old(table)[id], PointerMove, m.x, m.y, {}, m.buttons));
      }
    }

    lemma MovedRoutes(before: seq<Window>, after: seq<Window>, id: int)
      requires 0 <= id < |before|
      requires SameHands(before, after) && after[id].ring == before[id].ring
      requires forall i | 0 <= i < |before| && i != id :: after[i] == before[i]
      ensures RoutedOnlyTo(before, after, WINDOW_NONE)
    {
    }

    /** From a press that bound a window until no button is held, every movement's reports go to that
        window and to no other, and it stays bound. */
    method HoldButton(movements: seq<Movement>)
      requires Valid() && grabbed != WINDOW_NONE
      requires forall k | 0 <= k < |movements| :: movements[k].buttons != {}
      modifies this`strayed
      modifies this`focused, this`table, this`told, this`damage, this`damaged, this`routed, this`discarded
      modifies this`grabbed, this`dragged, this`dragOffsetX, this`dragOffsetY, this`narrow
      modifies this`stackSlots, this`stackCount, this`pointerX, this`pointerY
      ensures Valid() && grabbed == old(grabbed) && |table| == |old(table)| && Live(old(table), old(grabbed))
      ensures forall i | 0 <= i < |table| && i != grabbed :: table[i] == old(table)[i]
      ensures table[grabbed] == old(table)[grabbed].(ring := table[grabbed].ring)
      ensures RoutedOnlyTo(old(table), table, grabbed)
    {
      hide Core, FocusSound, HitAt, ContentOf, Sent, SentAll, Heard, Waiting, Reported, Pressed;
      StillRouted(table, grabbed);
      var next := 0;
      while next < |movements|
        invariant Valid() && grabbed == old(grabbed) && 0 <= next <= |movements| && |table| == |old(table)|
        invariant forall i | 0 <= i < |table| && i != grabbed :: table[i] == old(table)[i]
        invariant table[grabbed] == old(table)[grabbed].(ring := table[grabbed].ring)
        invariant RoutedOnlyTo(old(table), table, grabbed)
      {
        ghost var before := table;
        ghost var events := Reported(table[grabbed], movements[next]);
        ghost var favoured := HandleMouse(movements[next]);
        SentAllOnly(before, grabbed, events);
        RoutedChain(old(table), before, table, grabbed);
        next := next + 1;
      }
    }

    // ----------------------------------------------------------------- content writes

    /** A part of a window's content, where it lies upon the screen, is damaged. */
    ghost predicate PartDamaged(w: Window, area: Rectangle)
      reads this`damage, this`damaged
    {
      var content := ContentOf(w);
      forall x, y | screen.InBounds(x, y) && Contains(content, x, y) && Contains(area, x - content.x, y - content.y) ::
        Contains(Damage(), x, y)
    }

    /** More is damaged, and nothing else has changed. */
    twostate lemma MoreDamaged()
      requires old(Core()) && Undrawn(old(table)) && ContentsKept(old(table))
      requires unchanged(this`table, this`stackSlots, this`stackCount, this`narrow, this`focused, this`told)
      requires DamageSound() && DamageKept()
      ensures Core()
    {
      hide WindowFits, ContentSound, Quiet, Apart, Shown, StackSound, ToldSound, Wide;
    }

    /** Where part of a window's content lies upon the screen. */
    function PartUpon(w: Window, region: Rectangle): Rectangle {
      var content := ContentOf(w);
      Intersect(Rectangle(content.x + region.x, content.y + region.y, region.width, region.height), content)
    }

    lemma PartIsUponContent(w: Window, region: Rectangle, x: int, y: int)
      ensures Contains(PartUpon(w, region), x, y) <==>
              Contains(ContentOf(w), x, y) && Contains(region, x - ContentOf(w).x, y - ContentOf(w).y)
    {
      var content := ContentOf(w);
      IntersectMeets(Rectangle(content.x + region.x, content.y + region.y, region.width, region.height), content, x, y);
    }

    /** Damages part of a window's content. */
    method MarkPart(id: int, region: Rectangle)
      requires ScreenSound() && DamageSound() && 0 <= id < |table|
      modifies this`damage, this`damaged
      ensures DamageSound() && DamageKept() && PartDamaged(table[id], region)
      ensures Damage() == Marked(old(Damage()), PartUpon(table[id], region))
    {
      hide Marked;
      var content := ContentOf(table[id]);
      var uponScreen := Rectangle(content.x + region.x, content.y + region.y, region.width, region.height);
      forall x, y | Contains(content, x, y) && Contains(region, x - content.x, y - content.y)
        ensures Contains(Intersect(uponScreen, content), x, y)
      {
        PartIsUponContent(table[id], region, x, y);
      }
      hide Intersect;
      DamageAdd(Intersect(uponScreen, content));
    }

    /** Marks part of a window's content as changed. */
    method Invalidate(id: int, region: Rectangle)
      requires Valid()
      modifies this`damage, this`damaged
      ensures Valid() && DamageKept()
      ensures Live(table, id) ==> PartDamaged(table[id], region)
      ensures Damage() == if Live(table, id)
                          then Marked(old(Damage()), PartUpon(table[id], region)) else old(Damage())
    {
      hide Core, FocusSound, PointerSound, PartDamaged, PartUpon, Marked;
      if !(0 <= id < |table|) || !table[id].inUse {
        return;
      }
      CoreParts(id);
      MarkPart(id, region);
      UntouchedKeepsContents(old(table));
      MoreDamaged();
    }

    /** No surface was drawn upon but the content of one window. */
    twostate predicate UndrawnBut(windows: seq<Window>, memory: array2<Byte>)
      reads screen, screen.memory, SurfacesOf(windows), Memories(windows)
    {
      && unchanged(screen) && unchanged(screen.memory)
      && forall i | 0 <= i < |windows| && windows[i].surface != null ::
           && unchanged(windows[i].surface)
           && (windows[i].surface.memory != memory ==> unchanged(windows[i].surface.memory))
    }

    /** The window's content is as it was outside an area. */
    twostate predicate KeptOutside(surface: Surface, area: Rectangle)
      reads surface.memory
    {
      forall u, v | surface.Shaped() && surface.InBounds(u, v) && !Contains(area, u, v) ::
        surface.Pixel(u, v) == old(surface.Pixel(u, v))
    }

    predicate InPart(w: Window, area: Rectangle, x: int, y: int) {
      Contains(ContentOf(w), x, y) && Contains(area, x - ContentOf(w).x, y - ContentOf(w).y)
    }

    /** Every existing window's content is as it was, but one's in part. */
    twostate predicate ContentsKeptBut(windows: seq<Window>, id: int, area: Rectangle)
      reads Memories(windows)
    {
      forall i, x, y {:trigger ContentAt(windows[i], x, y)} |
        Live(windows, i) && !(i == id && InPart(windows[id], area, x, y)) ::
        ContentAt(windows[i], x, y) == old(ContentAt(windows[i], x, y))
    }

    twostate lemma RedrawnKeepsOthers(part: Part)
      requires ContentsSound(table, screen) && Live(table, part.id) && unchanged(this`table)
      requires HasContent(table[part.id], look.depth) && table[part.id].width > 0 && table[part.id].height > 0
      requires UndrawnBut(table, table[part.id].surface.memory) && KeptOutside(table[part.id].surface, part.area)
      ensures ContentsKeptBut(table, part.id, part.area)
    {
      ghost var windows := table;
      forall i, x, y {:trigger ContentAt(windows[i], x, y)} |
        Live(windows, i) && !(i == part.id && InPart(windows[part.id], part.area, x, y))
        ensures ContentAt(windows[i], x, y) == old(ContentAt(windows[i], x, y))
      {
        if i != part.id {
          assert ContentSound(windows[i], screen);
          assert if i < part.id then Apart(windows[i], windows[part.id]) else Apart(windows[part.id], windows[i]);
        }
      }
    }

    /** Part of one window's content drawn again, that part being damaged. */
    twostate lemma Redrawn(part: Part)
      requires old(Core()) && Live(table, part.id) && table[part.id].surface != null
      requires unchanged(this`table, this`stackSlots, this`stackCount, this`narrow, this`focused, this`told)
      requires UndrawnBut(table, table[part.id].surface.memory) && ContentsKeptBut(table, part.id, part.area)
      requires DamageSound() && DamageKept() && PartDamaged(table[part.id], part.area)
      ensures Core()
    {
      hide Distinct, Ordered, ToldSound, Wide, Contributed, Shown, ContentOf, Quiet, ContentAt, WindowFits, Apart;
      assert ContentsSound(table, screen);
      forall x, y | !narrow && screen.InBounds(x, y) && !Contains(Damage(), x, y)
        ensures screen.Pixel(x, y) == Shown(look, table, ContentsAt(table, x, y), Stack(), focused, x, y)
      {
        ghost var contents, contents' := old(ContentsAt(table, x, y)), ContentsAt(table, x, y);
        assert !InPart(table[part.id], part.area, x, y);
        forall i | i in Stack() ensures Pick(contents', i) == Pick(contents, i) {
        }
        RepaintContents(look, table, contents, contents', Stack(), focused, x, y);
      }
    }

    /** The memory of a window's content. */
    ghost function ContentMemory(id: int): set<object>
      reads this`table
    {
      if 0 <= id < |table| && table[id].surface != null then {table[id].surface.memory} else {}
    }

    /** A surface shows a paint in an area, and elsewhere what it did. */
    twostate predicate PaintedIn(surface: Surface, area: Rectangle, paint: (int, int) -> Option<Colour>)
      requires surface.Shaped()
      reads surface.memory
    {
      forall u, v | surface.InBounds(u, v) ::
        surface.Pixel(u, v) ==
        if Contains(area, u, v) then Over(paint(u, v), look.depth, old(surface.Pixel(u, v)))
        else old(surface.Pixel(u, v))
    }

    lemma ContentParts(id: int)
      requires Core() && Live(table, id)
      ensures HasContent(table[id], look.depth) && ContentSound(table[id], screen) && ContentsSound(table, screen)
      ensures table[id].width > 0 && table[id].height > 0
    {
      hide ScreenSound, QueuesQuiet, StackHeld, ToldSound, PaintSound, Apart;
      assert ContentSound(table[id], screen);
    }

    /** Draws upon part of a window's content, and marks that part. Every drawing of a client's is one. */
    method DrawInto(id: int, area: Rectangle, paint: (int, int) -> Option<Colour>)
      requires Valid() && Live(table, id)
      modifies this`damage, this`damaged, ContentMemory(id)
      ensures Valid() && DamageKept()
      ensures HasContent(table[id], look.depth) && PaintedIn(table[id].surface, area, paint)
    {
      hide Core, FocusSound, PointerSound, PartDamaged, Truncate, Apart, ContentAt, ContentOf;
      CoreParts(id);
      ContentParts(id);
      var surface := table[id].surface;
      PaintArea(surface, area, paint);
      MarkPart(id, area);
      RedrawnKeepsOthers(Part(id, area));
      Redrawn(Part(id, area));
    }

    /** A client's pixel as the screen has it. */
    function Encoded(value: Colour): Colour {
      if encode.None? then value else encode.value(Lane(value, 2), Lane(value, 1), Lane(value, 0))
    }

    /** A client's pixel is its red, green and blue in the order of their names, red the highest. */
    lemma EncodedByChannel(red: Byte, green: Byte, blue: Byte)
      ensures encode.Some? ==> Encoded(red * 0x1_0000 + green * 0x100 + blue) == encode.value(red, green, blue)
      ensures encode.None? ==>
                Encoded(red * 0x1_0000 + green * 0x100 + blue) == red * 0x1_0000 + green * 0x100 + blue
    {
      hide Lane;
      LanesAreDigits(blue, green, red, 0);
    }

    /** The pixels, taken row by row, as a paint of the area. */
    function PaintGiven(area: Rectangle, pixels: seq<Colour>): (int, int) -> Option<Colour> {
      (u, v) =>
        var at := AddressOf(v - area.y, u - area.x, area.width);
        if 0 <= at < |pixels| then Some(Encoded(pixels[at])) else None
    }

    /** The area lies upon the content, with something in it. */
    predicate UponContent(w: Window, area: Rectangle) {
      && 0 < area.width && 0 < area.height
      && 0 <= area.x && area.x + area.width <= w.width && 0 <= area.y && area.y + area.height <= w.height
    }

    /** Writes a client's pixels into a window's content: all of them, or none where the area does not
        lie upon it. */
    method WritePixels(id: int, area: Rectangle, pixels: Option<seq<Colour>>) returns (done: bool)
      requires Valid()
      requires pixels.Some? && Live(table, id) && UponContent(table[id], area) ==>
                 |pixels.value| == area.width * area.height
      modifies this`damage, this`damaged, ContentMemory(id)
      ensures Valid() && DamageKept()
      ensures done <==> Live(table, id) && pixels.Some? && UponContent(table[id], area)
      ensures done ==>
                && HasContent(table[id], look.depth)
                && forall u, v | table[id].surface.InBounds(u, v) ::
                     table[id].surface.Pixel(u, v) ==
                     if Contains(area, u, v)
                     then Truncate(GivenAt(area, pixels.value, u, v), look.depth)
                     else old(table[id].surface.Pixel(u, v))
      ensures !done ==> unchanged(this) && unchanged(ContentMemory(id))
    {
      hide Core, FocusSound, PointerSound, Truncate, Lane;
      if !(0 <= id < |table|) || !table[id].inUse || pixels.None? || area.width <= 0 || area.height <= 0 ||
         area.x < 0 || area.y < 0 || area.x > table[id].width - area.width ||
         area.y > table[id].height - area.height {
        return false;
      }
      forall u, v | Contains(area, u, v)
        ensures PaintGiven(area, pixels.value)(u, v) == Some(GivenAt(area, pixels.value, u, v))
      {
        InGiven(area, u, v);
      }
      DrawInto(id, area, PaintGiven(area, pixels.value));
      return true;
    }

    lemma InGiven(area: Rectangle, u: int, v: int)
      requires Contains(area, u, v)
      ensures 0 <= AddressOf(v - area.y, u - area.x, area.width) < area.width * area.height
    {
      AddressesDistinct(v - area.y, u - area.x, v - area.y, u - area.x, area.width, area.height);
    }

    /** The pixel given for a point of an area. */
    function GivenAt(area: Rectangle, pixels: seq<Colour>, u: int, v: int): Colour
      requires Contains(area, u, v) && |pixels| == area.width * area.height
    {
      InGiven(area, u, v);
      Encoded(pixels[AddressOf(v - area.y, u - area.x, area.width)])
    }

    /** The pixels are given from the first row to the last, and each row from the left. */
    lemma GivenRowByRow(area: Rectangle, pixels: seq<Colour>, row: nat, column: nat)
      requires row < area.height && column < area.width && |pixels| == area.width * area.height
      ensures 0 <= row * area.width + column < |pixels|
      ensures GivenAt(area, pixels, area.x + column, area.y + row) == Encoded(pixels[row * area.width + column])
    {
      InGiven(area, area.x + column, area.y + row);
    }

    // -------------------------------------------------------------------- composition

    /** The screen is ready to be drawn upon within a region. */
    ghost predicate Ready(region: Rectangle)
      reads screen
    {
      && screen.Valid() && screen.depth == look.depth && |screen.clip.saved| == 1
      && screen.clip.saved[0] == Bounds(screen.width, screen.height)
      && forall x, y :: Contains(screen.clip.region, x, y) <==> Contains(region, x, y)
    }

    lemma FitsStandsSoundly(w: Window)
      requires screen.Shaped() && WindowFits(w, screen.width, screen.height, look.depth)
      ensures StandsSoundly(w, screen)
    {
    }

    /** Draws a window whose frame touches the region: what it paints there stands, and nothing else has
        changed. */
    method DrawWindow(id: int, region: Rectangle)
      requires Ready(region) && Live(table, id)
      requires WindowFits(table[id], screen.width, screen.height, look.depth)
      requires table[id].surface.memory != screen.memory
      modifies screen`clip, screen.memory
      ensures Ready(region)
      ensures forall u, v | screen.InBounds(u, v) && !Contains(region, u, v) ::
                screen.Pixel(u, v) == old(screen.Pixel(u, v))
      ensures forall u, v | screen.InBounds(u, v) && Contains(region, u, v) ::
                screen.Pixel(u, v) ==
                var paint := VisibleAt(look, table[id], id == focused, ContentAt(table[id], u, v), u, v);
                if Touches(table[id], region) && paint.Some? then paint.value else old(screen.Pixel(u, v))
    {
      hide PaintOf, ContentAt, Confined;
      var window := table[id];
      FitsStandsSoundly(window);
      hide WindowFits;
      Extents(window, screen.width, screen.height, look.depth);
      if !window.minimised && !IsEmpty(Intersect(FrameOf(window), region)) {
        DrawFrame(screen, look, window, id == focused);
      }
    }

    twostate predicate PixelsKept(region: Rectangle)
      reads screen.memory
    {
      forall u, v | screen.Shaped() && screen.InBounds(u, v) && !Contains(region, u, v) ::
        screen.Pixel(u, v) == old(screen.Pixel(u, v))
    }

    /** In the region the screen shows what painting the lowest of the stack does, without those whose frames
        do not touch it. */
    twostate predicate ShowsLowest(region: Rectangle, position: int)
      requires screen.Shaped() && 0 <= position <= stackCount <= |stackSlots|
      reads this`table, this`stackSlots, this`stackCount, this`focused, screen.memory
    {
      forall u, v | screen.InBounds(u, v) && Contains(region, u, v) ::
        screen.Pixel(u, v) == Shown(look, table, old(ContentsAt(table, u, v)),
                                    Touching(table, Stack()[..position], region), focused, u, v)
    }

    lemma OneMore(contents: seq<Colour>, region: Rectangle, position: int, u: int, v: int)
      requires 0 <= position < stackCount <= |stackSlots|
      requires 0 <= stackSlots[position] < |table|
      ensures Shown(look, table, contents, Touching(table, Stack()[..position + 1], region), focused, u, v) ==
              var paint := Contributed(look, table, contents, focused, stackSlots[position], u, v);
              if Touches(table[stackSlots[position]], region) && paint.Some? then paint.value
              else Shown(look, table, contents, Touching(table, Stack()[..position], region), focused, u, v)
    {
      hide Contributed, Touches;
      var drawn := Touching(table, Stack()[..position], region);
      assert Stack()[..position + 1][..position] == Stack()[..position];
      assert (drawn + [stackSlots[position]])[..|drawn|] == drawn && drawn + [] == drawn;
    }

    lemma GroundShows(region: Rectangle)
      requires 0 <= stackCount <= |stackSlots|
      ensures forall contents, u, v ::
                Shown(look, table, contents, Touching(table, Stack()[..0], region), focused, u, v) ==
                Truncate(look.ground, look.depth)
    {
    }

    /** Draws the ground and every window over it, from the bottom up. */
    method DrawStack(region: Rectangle)
      requires ScreenSound() && StackHeld() && Within(region, Bounds(screen.width, screen.height))
      requires TableSound(table, screen.width, screen.height, look.depth) && ContentsSound(table, screen)
      modifies screen`clip, screen.memory
      ensures ScreenSound() && PixelsKept(region) && ShowsLowest(region, stackCount)
    {
      hide VisibleAt, Touches, Touching, Truncate, ContentAt, Shown, WindowFits, Apart, Ordered, Distinct;
      var pushed := screen.PushClip(region);
      screen.Clear(look.ground);
      var position := 0;
      GroundShows(region);
      while position < stackCount
        invariant 0 <= position <= stackCount && Ready(region)
        invariant forall u, v | screen.InBounds(u, v) && !Contains(region, u, v) ::
                    screen.Pixel(u, v) == old(screen.Pixel(u, v))
        invariant ShowsLowest(region, position)
      {
        var id := stackSlots[position];
        assert Stack()[position] == id && id in Stack();
        assert ContentSound(table[id], screen);
        DrawWindow(id, region);
        forall u, v | screen.InBounds(u, v) && Contains(region, u, v)
          ensures screen.Pixel(u, v) == Shown(look, table, old(ContentsAt(table, u, v)),
                                              Touching(table, Stack()[..position + 1], region), focused, u, v)
        {
          OneMore(old(ContentsAt(table, u, v)), region, position, u, v);
          assert ContentAt(table[id], u, v) == old(ContentAt(table[id], u, v));
        }
        position := position + 1;
      }
      var popped := screen.PopClip();
    }

    /** The whole screen shows what a repaint of everything would show. */
    ghost predicate ShowsAll()
      requires screen.Shaped() && 0 <= stackCount <= |stackSlots|
      reads this`table, this`stackSlots, this`stackCount, this`focused, screen.memory, Memories(table)
    {
      forall x, y | screen.InBounds(x, y) ::
        screen.Pixel(x, y) == Shown(look, table, ContentsAt(table, x, y), Stack(), focused, x, y)
    }

    /** In a region the screen shows what painting the windows whose frames touch it does. */
    ghost predicate ShowsTouching(region: Rectangle)
      requires screen.Shaped() && 0 <= stackCount <= |stackSlots|
      reads this`table, this`stackSlots, this`stackCount, this`focused, screen.memory, Memories(table)
    {
      forall x, y | screen.InBounds(x, y) && Contains(region, x, y) ::
        screen.Pixel(x, y) ==
        Shown(look, table, ContentsAt(table, x, y), Touching(table, Stack(), region), focused, x, y)
    }

    /** No content of an existing window was drawn upon. */
    twostate predicate ContentsUndrawn(windows: seq<Window>)
      reads SurfacesOf(windows), Memories(windows)
    {
      forall i | Live(windows, i) && windows[i].surface != null ::
        unchanged(windows[i].surface) && unchanged(windows[i].surface.memory)
    }

    /** The screen was drawn upon within the damage alone, and shows everything there. */
    twostate lemma Composed()
      requires old(Core()) && ContentsUndrawn(old(table)) && ScreenSound()
      requires unchanged(this`table, this`stackSlots, this`stackCount, this`focused, this`told, this`narrow)
      requires !damaged && old(damaged)
      requires ShowsLowest(old(damage), stackCount) && PixelsKept(old(damage))
      ensures Core() && ShowsTouching(old(damage)) && (!narrow ==> ShowsAll())
    {
      hide Contributed, Shown, Touching, Wide, ContentAt, Truncate, WindowFits, Apart, Ordered, Distinct, ToldSound;
      hide Quiet;
      assert Stack()[..stackCount] == Stack();
      forall i | Live(table, i) ensures ContentSound(table[i], screen) {
        assert old(ContentSound(table[i], screen));
      }
      forall x, y, stack: seq<int> | screen.InBounds(x, y) && forall id | id in stack :: id in Stack()
        ensures Shown(look, table, ContentsAt(table, x, y), stack, focused, x, y) ==
                Shown(look, table, old(ContentsAt(table, x, y)), stack, focused, x, y)
      {
        ghost var contents, contents' := old(ContentsAt(table, x, y)), ContentsAt(table, x, y);
        forall i | i in stack ensures Pick(contents', i) == Pick(contents, i) {
        }
        RepaintContents(look, table, contents, contents', stack, focused, x, y);
      }
      TouchingWithin(table, Stack(), old(damage));
      forall x, y | !narrow && screen.InBounds(x, y)
        ensures screen.Pixel(x, y) == Shown(look, table, ContentsAt(table, x, y), Stack(), focused, x, y)
      {
        if Contains(old(damage), x, y) {
          ShownTouchingHere(old(damage), x, y);
        }
      }
    }

    /** In a region painting the windows that touch it is painting them all, none being narrow. */
    lemma ShownTouchingHere(region: Rectangle, x: int, y: int)
      requires TableSound(table, screen.width, screen.height, look.depth) && StackHeld()
      requires WideEnough(table) && Contains(region, x, y)
      ensures Shown(look, table, ContentsAt(table, x, y), Touching(table, Stack(), region), focused, x, y) ==
              Shown(look, table, ContentsAt(table, x, y), Stack(), focused, x, y)
    {
      hide Shown, Touching;
      assert forall i | 0 <= i < |table| :: Wide(table[i]) ==> Roomy(table[i]);
      ShownTouching(look, table, ContentsAt(table, x, y), Stack(), focused, region, x, y);
    }

    /** Repaints what is damaged. The screen outside it is left alone, and shows afterwards, where every
        window is wide enough for its close glyph, what a repaint of everything would show. */
    method Compose() returns (composed: Rectangle)
      requires Valid()
      modifies this`damaged, this`compositions, screen`clip, screen.memory
      ensures Valid() && composed == old(Damage()) && Damage() == Nowhere
      ensures PixelsKept(composed) && ShowsTouching(composed)
      ensures !narrow ==> ShowsAll()
      ensures compositions == old(compositions) + if old(damaged) then 1 else 0
    {
      hide Core, FocusSound, PointerSound, Contributed, Shown, WindowFits, Apart, Quiet;
      if !damaged {
        NothingDamaged();
        return Nowhere;
      }
      composed := damage;
      ComposeParts();
      DrawStack(composed);
      damaged := false;
      compositions := compositions + 1;
      Composed();
    }

    lemma NothingDamaged()
      requires Core() && !damaged
      ensures ScreenSound() && 0 <= stackCount <= |stackSlots|
      ensures !narrow ==> ShowsAll()
    {
    }

    lemma ComposeParts()
      requires Core()
      ensures ScreenSound() && StackHeld() && DamageSound()
      ensures TableSound(table, screen.width, screen.height, look.depth) && ContentsSound(table, screen)
      ensures forall i | Live(table, i) :: ContentSound(table[i], screen)
    {
    }

    /** What is drawn elsewhere disturbs nothing here. */
    twostate lemma Undisturbed()
      requires old(Valid()) && unchanged(this) && Undrawn(old(table)) && ContentsKept(old(table))
      ensures Valid() && (old(ShowsAll()) ==> ShowsAll())
    {
      hide WindowFits, ContentSound, Quiet, Apart, Shown, StackSound, ToldSound, Wide, FocusSound, PointerSound;
    }

    /** In every state each ordinary window's title band is within reach on the screen exactly where the
        screen has room for a band. */
    lemma BandsStayReachable(id: int)
      requires Valid() && Live(table, id) && table[id].layer.Normal?
      ensures Reachable(screen.width, screen.height, table[id].width, table[id].x, table[id].y) <==>
              HoldsBands(screen.width, screen.height, table[id].width)
    {
      hide ScreenSound, ContentsSound, QueuesQuiet, StackHeld, ToldSound, PaintSound, FocusSound, PointerSound;
      hide Reachable, HoldsBands;
      var window := table[id];
      assert WindowFits(window, screen.width, screen.height, look.depth);
      ConfinedIsReachable(screen.width, screen.height, window.width, window.x, window.y);
    }
  }
}
