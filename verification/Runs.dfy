/** Whole runs of the window manager: any calls upon it, in any order. */
module Runs {
  import opened Options
  import opened Rectangles
  import opened Surfaces
  import opened Events
  import opened Windows
  import opened Stacking
  import opened Desk
  import opened WindowManagers

  /** A call upon the manager. */
  datatype Request =
    | Making(x: int, y: int, width: int, height: int, title: Option<string>, layer: Layer)
    | Destroying(id: int) | DestroyingAll(owner: nat)
    | Owning(id: int, owner: nat) | Seating(owner: nat)
    | Raising(id: int) | Focusing(id: int) | Moving(id: int, x: int, y: int)
    | Filling(id: int, full: bool) | Minimising(id: int) | Restoring(id: int)
    | Invalidating(id: int, area: Rectangle)
    | Writing(id: int, area: Rectangle, pixels: Option<seq<Colour>>)
    | Drawing(id: int, area: Rectangle, paint: (int, int) -> Option<Colour>)
    | Reading(id: int) | Announcing | Keying(key: KeyEvent) | Mousing(movement: Movement) | Composing

  /** The call asks for an ordinary window too narrow for its close glyph. */
  predicate AsksNarrow(request: Request) {
    request.Making? && request.layer.Normal? && request.width < WIDTH_FOR_BAND
  }

  /** The screen is too narrow for a full window to hold its close glyph. */
  predicate Cramped(screen: Surface) { screen.width < WIDTH_FOR_BAND + 2 * BORDER }

  /** What a call but a movement of the mouse leaves, and who owns what; only a window asked for too narrow, or
      made full on a cramped screen, is too narrow. */
  twostate predicate Settled(manager: WindowManager, narrow: bool)
    reads manager
  {
    && manager.Steady() && HandedOn(old(manager.table), manager.table)
    && (manager.narrow ==> old(manager.narrow) || narrow)
  }

  /** The calls that leave the table as it is, but for what is drawn upon. */
  predicate LeavesTable(request: Request) {
    request.Seating? || request.Raising? || request.Invalidating? || request.Writing? || request.Drawing?
  }

  lemma ValidIsCore(manager: WindowManager)
    requires manager.Valid()
    ensures manager.Core()
  {
  }

  /** Performs a call that leaves the table as it is. */
  method PerformInPlace(manager: WindowManager, request: Request)
    requires manager.Valid() && LeavesTable(request)
    modifies manager, Memories(manager.table)
    ensures manager.Valid() && manager.table == old(manager.table) && manager.narrow == old(manager.narrow)
    ensures manager.grabbed == old(manager.grabbed) && manager.dragged == old(manager.dragged)
    ensures request.Seating? || manager.session == old(manager.session)
  {
    hide WindowManager.Valid, WindowManager.PaintedIn, Raised, Truncate;
    if request.Seating? {
      manager.SetSession(request.owner);
    } else if request.Raising? {
      ValidIsCore(manager);
      manager.Raise(request.id);
    } else if request.Invalidating? {
      manager.Invalidate(request.id, request.area);
    } else if request.Writing? {
      // A caller's pixels are as many as its area has.
      if request.pixels.None? || |request.pixels.value| == request.area.width * request.area.height {
        var done := manager.WritePixels(request.id, request.area, request.pixels);
      }
    } else {
      if 0 <= request.id < |manager.table| && manager.table[request.id].inUse {
        manager.DrawInto(request.id, request.area, request.paint);
      }
    }
  }

  lemma MadeHandsOn(manager: WindowManager, before: seq<Window>, after: seq<Window>, id: int, made: Window)
    requires |before| <= |after| && 0 <= id < |after| && made.owner == 0
    requires SameButRings((before + Blanks(|after| - |before|))[id := made], after)
    ensures HandedOn(before, after)
  {
    HandedOnBy(before, (before + Blanks(|after| - |before|))[id := made], after);
  }

  lemma OpenedIsTheKernels(manager: WindowManager, slot: Window, r: Request, surface: Surface)
    requires r.Making? && r.title.Some?
    ensures manager.Opened(slot, r.x, r.y, r.width, r.height, r.title.value, r.layer, surface).owner == 0
  {
  }

  method PerformMaking(manager: WindowManager, r: Request) returns (id: int)
    requires manager.Valid() && r.Making?
    modifies manager
    ensures manager.Valid() && Settled(manager, AsksNarrow(r)) && manager.session == old(manager.session)
  {
    hide WindowManager.Valid, WindowManager.Steady, Passed, RootsNoticed, WindowManager.Opened, With;
    hide WindowManager.PlainPaper, SameButRings, HandedOn;
    ghost var before := manager.table;
    id := manager.Create(r.x, r.y, r.width, r.height, r.title, r.layer);
    ghost var after := manager.table;
    if id == WINDOW_NONE {
      GrownHandsOn(before, after);
    } else {
      ghost var grown := before + Blanks(|after| - |before|);
      OpenedIsTheKernels(manager, grown[id], r, after[id].surface);
      MadeHandsOn(manager, before, after, id,
                  manager.Opened(grown[id], r.x, r.y, r.width, r.height, r.title.value, r.layer, after[id].surface));
    }
  }

  lemma GrownHandsOn(before: seq<Window>, after: seq<Window>)
    requires after == before || after == before + Blanks(CHUNK)
    ensures HandedOn(before, after)
  {
  }

  method PerformDestroying(manager: WindowManager, id: int)
    requires manager.Valid()
    modifies manager
    ensures manager.Valid() && Settled(manager, false) && manager.session == old(manager.session)
  {
    hide WindowManager.Valid, WindowManager.Steady, Passed, RootsNoticed, Without, TopFocusable, SameButRings;
    ghost var released := if Live(manager.table, id) then WithoutWindow(manager.table, id) else manager.table;
    manager.Destroy(id);
    HandedOnBy(old(manager.table), released, manager.table);
  }

  method PerformFilling(manager: WindowManager, id: int, full: bool)
    requires manager.Valid()
    modifies manager
    ensures manager.Valid() && Settled(manager, Cramped(manager.screen)) && manager.session == old(manager.session)
  {
    hide WindowManager.Valid, WindowManager.Steady, Passed, RootsNoticed, SameButRings, Sent, WindowManager.Carried;
    ghost var before := manager.table;
    var done := manager.SetFull(id, full);
    if done && before[id].full != full {
      HandedOnBy(before, before[id := manager.Reshaped(before[id], manager.table[id])], manager.table);
    }
  }

  method PerformDestroyingAll(manager: WindowManager, owner: nat)
    requires manager.Valid()
    modifies manager
    ensures manager.Valid() && Settled(manager, false) && manager.session == old(manager.session)
  {
    hide WindowManager.Valid, WindowManager.Steady, TopFocusable, OnlyGone, WithoutAll;
    ghost var before := manager.table;
    StackIsHeld(manager);
    var destroyed := manager.DestroyOwnedBy(owner);
    GoneHandOn(before, manager.table, Owned(before, owner, |before|));
  }

  lemma StackIsHeld(manager: WindowManager)
    requires manager.Valid()
    ensures 0 <= manager.stackCount <= |manager.stackSlots|
  {
    manager.CoreParts(WINDOW_NONE);
  }

  method PerformHiding(manager: WindowManager, id: int, hidden: bool)
    requires manager.Valid()
    modifies manager
    ensures manager.Valid() && Settled(manager, false) && manager.session == old(manager.session)
  {
    hide WindowManager.Valid, WindowManager.Steady, Passed, RootsNoticed, Raised, TopFocusable, SameButRings;
    var done;
    if hidden {
      done := manager.Minimise(id);
    } else {
      done := manager.Restore(id);
    }
    HandedOnBy(old(manager.table), if done then old(manager.table)[id := old(manager.table)[id].(minimised := hidden)]
                                   else old(manager.table), manager.table);
  }

  /** Performs a call that makes windows or destroys them, or changes their shape or whether they are in sight. */
  method PerformOnWindows(manager: WindowManager, request: Request)
    requires manager.Valid()
    requires || request.Making? || request.Destroying? || request.DestroyingAll? || request.Filling?
             || request.Minimising? || request.Restoring?
    modifies manager
    ensures manager.Valid() && manager.session == old(manager.session)
    ensures Settled(manager, AsksNarrow(request) || Cramped(manager.screen))
  {
    hide WindowManager.Valid, WindowManager.Steady, HandedOn, AsksNarrow, Cramped;
    if request.Making? {
      var id := PerformMaking(manager, request);
    } else if request.Destroying? {
      PerformDestroying(manager, request.id);
    } else if request.DestroyingAll? {
      PerformDestroyingAll(manager, request.owner);
    } else if request.Filling? {
      PerformFilling(manager, request.id, request.full);
    } else {
      PerformHiding(manager, request.id, request.Minimising?);
    }
  }

  /** Performs a call that changes where a window stands, who owns it, who holds the focus, or what waits in the
      queues. */
  method PerformOnPlaces(manager: WindowManager, request: Request)
    requires manager.Valid()
    requires || request.Owning? || request.Focusing? || request.Moving?
             || request.Reading? || request.Announcing? || request.Keying?
    modifies manager
    ensures manager.Valid() && manager.Steady() && manager.narrow == old(manager.narrow)
    ensures request.Owning? || HandedOn(old(manager.table), manager.table)
    ensures manager.session == old(manager.session)
  {
    hide WindowManager.Valid, WindowManager.Steady, Passed, RootsNoticed, SameButRings, Sent, Waiting;
    ghost var before := manager.table;
    if request.Owning? {
      manager.SetOwner(request.id, request.owner);
    } else if request.Focusing? {
      manager.Focus(request.id);
      HandedOnBy(before, before, manager.table);
    } else if request.Moving? {
      manager.Move(request.id, request.x, request.y);
    } else if request.Reading? {
      var event := manager.ReadEvent(request.id);
    } else if request.Announcing? {
      manager.AnnounceNotification();
      HandedOnBy(before, before, manager.table);
    } else {
      manager.HandleKey(request.key);
      HandedOnBy(before, before, manager.table);
    }
  }

  /** The movement of the mouse went to the window bound, and nobody else was told of it. */
  ghost predicate ToldOf(before: seq<Window>, after: seq<Window>, bound: int, m: Movement) {
    && Live(before, bound) && after == SentAll(before, bound, Reported(before[bound], m))
    && RoutedOnlyTo(before, after, bound)
  }

  /** Performs any call but a composition. Whatever holds between calls holds on; but for a movement of the
      mouse the bindings stand unless their windows are gone or out of sight, and nobody is told of the pointer;
      and a movement is reported to the window bound alone, which stays bound while a button is held. */
  method Perform(manager: WindowManager, request: Request)
    requires manager.Valid() && !request.Composing?
    modifies manager, Memories(manager.table)
    ensures manager.Valid() && manager.OwnOrNew()
    ensures manager.narrow ==> old(manager.narrow) || AsksNarrow(request) || Cramped(manager.screen)
    ensures request.Owning? || HandedOn(old(manager.table), manager.table)
    ensures request.Seating? || manager.session == old(manager.session)
    ensures !request.Mousing? ==> manager.Steady()
    ensures request.Mousing? && old(manager.grabbed) != WINDOW_NONE ==>
              && ToldOf(old(manager.table), manager.table, old(manager.grabbed), request.movement)
              && manager.grabbed == if request.movement.buttons == {} then WINDOW_NONE else old(manager.grabbed)
  {
    hide WindowManager.Valid, PointedOnlyAt, GrabHeld, DragHeld, WindowManager.Pressed, HitAt, SentAll, Reported;
    hide RoutedOnlyTo, Raised, Sent, ConfineX, ConfineY, SameHands, HandedOn;
    StandsStill(manager);
    if LeavesTable(request) {
      PerformInPlace(manager, request);
    } else if request.Mousing? {
      ghost var favoured := manager.HandleMouse(request.movement);
      SameHandsOn(old(manager.table), manager.table);
    } else if request.Owning? || request.Focusing? || request.Moving? || request.Reading? || request.Announcing? ||
              request.Keying? {
      PerformOnPlaces(manager, request);
    } else {
      PerformOnWindows(manager, request);
    }
  }

  /** What stands still is as any call leaves it. */
  lemma StandsStill(manager: WindowManager)
    ensures PointedOnlyAt(manager.table, manager.table, WINDOW_NONE) && HandedOn(manager.table, manager.table)
    ensures GrabHeld(manager.table, manager.grabbed, manager.grabbed)
    ensures DragHeld(manager.table, manager.dragged, manager.dragged)
  {
    StillRouted(manager.table, WINDOW_NONE);
    RoutedIsPointed(manager.table, manager.table, WINDOW_NONE);
  }

  /** Performs any calls and then composes: the screen shows what a repaint of everything would show, if no
      window too narrow was asked for and the screen is not too narrow for a full one. */
  method Run(manager: WindowManager, requests: seq<Request>)
    requires manager.Valid()
    modifies manager, manager.screen`clip, manager.screen.memory, Memories(manager.table)
    ensures manager.Valid() && manager.OwnOrNew() && manager.Damage() == Nowhere
    ensures !old(manager.narrow) && !Cramped(manager.screen) && (forall r | r in requests :: !AsksNarrow(r)) ==>
              manager.ShowsAll()
  {
    hide WindowManager.Valid, WindowManager.Steady, ToldOf, AsksNarrow, Cramped, WindowManager.ShowsAll;
    hide WindowManager.ShowsTouching;
    var next := 0;
    while next < |requests|
      invariant 0 <= next <= |requests| && manager.Valid() && manager.OwnOrNew()
      invariant manager.narrow ==>
                  old(manager.narrow) || Cramped(manager.screen) || exists r :: r in requests && AsksNarrow(r)
    {
      if requests[next].Composing? {
        var composed := manager.Compose();
      } else {
        Perform(manager, requests[next]);
      }
      next := next + 1;
    }
    var composed := manager.Compose();
  }
}
