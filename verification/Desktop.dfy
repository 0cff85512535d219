/** The whole desktop: the windows, the clients' calls upon them and the display, and any run of the three. */
module Desktops {
  import opened Options
  import opened Rectangles
  import opened Surfaces
  import opened Events
  import opened Windows
  import opened Stacking
  import opened Desk
  import opened WindowManagers
  import opened Runs
  import opened Compositors
  import opened Displays
  import opened Clients

  /** A call of a process's upon its windows. */
  datatype SystemCall =
    | CreateCall(caller: nat, layer: nat, geometry: Option<Rectangle>, title: Option<string>)
    | DestroyCall(caller: nat, window: int)
    | MoveCall(caller: nat, window: int, x: int, y: int)
    | BlitCall(caller: nat, window: int, area: Option<Rectangle>, pixels: Option<seq<Colour>>)
    | ClaimCall(caller: nat)
    | StateCall(caller: nat, window: int, action: Action)
    | ReadCall(caller: nat)
    | NotifyCall(caller: nat, kind: int, flags: int, text: Option<string>)
    | TakeCall(caller: nat, writable: bool)
    | ProcessEnds(process: nat)

  /** What may happen: a call upon the manager, a process's call, the pointer shown or hidden, or a tick. */
  datatype Act =
    | Asked(request: Request) | Called(call: SystemCall) | PointerShown(visible: bool) | Ticked(x: int, y: int)

  /** The act asks for an ordinary window too narrow for its close glyph. */
  predicate IsNarrow(act: Act) {
    match act
    case Asked(request) => AsksNarrow(request)
    case Called(call) =>
      call.CreateCall? && call.layer == LAYER_NORMAL && call.geometry.Some? &&
      call.geometry.value.width < WIDTH_FOR_BAND
    case PointerShown(_) => false
    case Ticked(_, _) => false
  }

  predicate IsMovement(act: Act) { act.Asked? && act.request.Mousing? }

  /** Owners are given and the session seated by the clients' calls alone, and a tick composes. */
  predicate IsProper(act: Act) {
    act.Asked? ==> !act.request.Owning? && !act.request.Seating? && !act.request.Composing?
  }

  /** Calls of a process's upon windows that stand already. */
  method ObeyUpon(calls: ClientCalls, call: SystemCall)
    requires calls.manager.Valid() && calls.Sound()
    requires call.DestroyCall? || call.MoveCall? || call.StateCall? || call.BlitCall?
    modifies calls.manager, Memories(calls.manager.table)
    ensures calls.manager.Valid() && calls.Sound() && calls.manager.Steady()
    ensures calls.manager.narrow ==> old(calls.manager.narrow) || Cramped(calls.manager.screen)
  {
    hide WindowManager.Valid, PointedOnlyAt, GrabHeld, DragHeld, Truncate;
    hide ClientCalls.InSight, ClientCalls.OutOfSight, ClientCalls.Filled, ClientCalls.OnlyLost;
    StandsStill(calls.manager);
    var status;
    if call.DestroyCall? {
      status := calls.Destroy(call.caller, call.window);
    } else if call.MoveCall? {
      status := calls.Move(call.caller, call.window, call.x, call.y);
    } else if call.StateCall? {
      status := calls.State(call.caller, call.window, call.action);
    } else if call.area.None? || call.pixels.None? ||
              |call.pixels.value| == call.area.value.width * call.area.value.height {
      // A caller's pixels are as many as its area has.
      status := calls.Blit(call.caller, call.window, call.area, call.pixels);
    }
  }

  /** Performs a process's call. */
  method Obey(calls: ClientCalls, call: SystemCall)
    requires calls.manager.Valid() && calls.Sound()
    modifies calls.manager, calls, Memories(calls.manager.table)
    ensures calls.manager.Valid() && calls.Sound() && calls.manager.Steady()
    ensures calls.manager.narrow ==>
              old(calls.manager.narrow) || IsNarrow(Called(call)) || Cramped(calls.manager.screen)
  {
    hide WindowManager.Valid, PointedOnlyAt, GrabHeld, DragHeld, ClientCalls.Placed, ClientCalls.OthersStand;
    hide NotesWaiting, WindowManager.Rid, Turn, Waiting;
    StandsStill(calls.manager);
    var status;
    if call.CreateCall? {
      status := calls.Create(call.caller, call.layer, call.geometry, call.title);
    } else if call.ClaimCall? {
      status := calls.ClaimSession(call.caller);
    } else if call.ReadCall? {
      var index, event, owns := calls.ReadAny(call.caller);
    } else if call.NotifyCall? {
      status := calls.Notify(call.caller, call.kind, call.flags, call.text, true);
    } else if call.TakeCall? {
      var note;
      status, note := calls.TakeNotification(call.caller, call.writable);
    } else if call.ProcessEnds? {
      calls.ReleaseProcess(call.process);
    } else {
      ObeyUpon(calls, call);
    }
  }

  class Desktop {
    const manager: WindowManager
    const display: Display
    const calls: ClientCalls

    /** All that holds of the whole between acts. */
    ghost predicate Stands()
      reads manager, manager.screen, manager.screen.memory, SurfacesOf(manager.table), Memories(manager.table)
      reads display, display.compositor, display.compositor.front, display.compositor.front.memory
      reads display.compositor.back.memory, LayerMemories(display.compositor.layers), calls
    {
      && display.manager == manager && calls.manager == manager
      && manager.Valid() && display.compositor.Valid() && display.Joined() && calls.Sound()
    }

    constructor (display: Display, calls: ClientCalls)
      requires display.manager == calls.manager && calls.manager.Valid() && display.compositor.Valid()
      requires display.Joined() && calls.Sound()
      ensures Stands() && this.display == display && this.calls == calls && manager == calls.manager
    {
      hide WindowManager.Valid, Compositor.ValidBut;
      this.display, this.calls, this.manager := display, calls, calls.manager;
      new;
      UntouchedKeepsContents(manager.table);
      manager.Undisturbed();
      assert display.compositor.Valid();
      assert display.Joined();
      assert calls.Sound();
    }

    /** Contents their slots' own or new are drawn apart still. */
    twostate lemma StaysJoined()
      requires old(display.Joined()) && display.manager == manager && manager.OwnOrNew()
      requires unchanged(display) && unchanged(display.compositor)
      ensures display.Joined()
    {
    }

    lemma HandsStay(before: seq<Window>, after: seq<Window>, session: nat)
      requires HandsSound(before, session) && HandedOn(before, after)
      ensures HandsSound(after, session)
    {
    }

    /** A call upon the manager. */
    method Ask(request: Request)
      requires Stands() && IsProper(Asked(request))
      modifies manager, Memories(manager.table)
      ensures Stands() && manager.OwnOrNew()
      ensures manager.narrow ==> old(manager.narrow) || AsksNarrow(request) || Cramped(manager.screen)
      ensures !request.Mousing? ==> manager.Steady()
      ensures request.Mousing? && old(manager.grabbed) != WINDOW_NONE ==>
                && ToldOf(old(manager.table), manager.table, old(manager.grabbed), request.movement)
                && manager.grabbed == if request.movement.buttons == {} then WINDOW_NONE else old(manager.grabbed)
    {
      hide WindowManager.Valid, Compositor.ValidBut, ToldOf, WindowManager.Steady, HandedOn;
      Runs.Perform(manager, request);
      StaysJoined();
      HandsStay(old(manager.table), manager.table, manager.session);
    }

    /** A process's call. */
    method Call(call: SystemCall)
      requires Stands()
      modifies manager, calls, Memories(manager.table)
      ensures Stands() && manager.Steady()
      ensures manager.narrow ==> old(manager.narrow) || IsNarrow(Called(call)) || Cramped(manager.screen)
    {
      hide WindowManager.Valid, Compositor.ValidBut, PointedOnlyAt, GrabHeld, DragHeld, ClientCalls.Sound;
      Obey(calls, call);
      StaysJoined();
    }

    /** The pointer shown, or hidden. */
    method ShowPointer(visible: bool)
      requires Stands()
      modifies display.compositor`layers, display.compositor`damaged
      ensures Stands()
    {
      hide WindowManager.Valid, Compositor.ValidBut, ClientCalls.Sound;
      if display.pointer != LAYER_NONE {
        display.compositor.SetLayerVisible(display.pointer, visible);
      }
      UntouchedKeepsContents(manager.table);
      manager.Undisturbed();
    }

    /** A tick of the display: everything is shown. */
    method Tick(x: int, y: int)
      requires Stands()
      modifies display`pointerX, display`pointerY
      modifies manager`damaged, manager`compositions, manager.screen`clip, manager.screen.memory
      modifies display.compositor`damaged, display.compositor`layers, display.compositor.front.memory
      ensures Stands()
      ensures !manager.narrow && !display.compositor.suspended ==> display.ShowsEverything()
    {
      hide WindowManager.Valid, Compositor.ValidBut, Display.Joined, Display.ShowsEverything;
      display.Tick(x, y);
    }

    /** Whatever happens, all that holds between acts holds on. But for a movement of the mouse the pointer's
        bindings stand unless their windows are gone or out of sight, and nobody is told of the pointer; a
        movement is reported to the window bound alone, which stays bound while a button is held. */
    method Perform(act: Act)
      requires Stands() && IsProper(act)
      modifies manager, manager.screen`clip, manager.screen.memory, Memories(manager.table), calls
      modifies display`pointerX, display`pointerY
      modifies display.compositor`damaged, display.compositor`layers, display.compositor.front.memory
      ensures Stands() && manager.OwnOrNew()
      ensures manager.narrow ==> old(manager.narrow) || IsNarrow(act) || Cramped(manager.screen)
      ensures !IsMovement(act) ==> manager.Steady()
      ensures IsMovement(act) && old(manager.grabbed) != WINDOW_NONE ==>
                && ToldOf(old(manager.table), manager.table, old(manager.grabbed), act.request.movement)
                && manager.grabbed == if act.request.movement.buttons == {} then WINDOW_NONE else old(manager.grabbed)
    {
      hide Stands, ToldOf, PointedOnlyAt, GrabHeld, DragHeld, AsksNarrow, Cramped, HandedOn;
      StandsStill(manager);
      match act
      case Asked(request) =>
        Ask(request);
      case Called(call) =>
        Call(call);
      case PointerShown(visible) =>
        ShowPointer(visible);
      case Ticked(x, y) =>
        Tick(x, y);
    }

    /** Any acts and then a tick: the display shows, at every point, the pointer over what a repaint of the
        ground and of every window shows there, if no window too narrow was asked for, the screen is not too
        narrow for a full one and the compositor is not suspended. */
    method Run(acts: seq<Act>, x: int, y: int)
      requires Stands() && forall a | a in acts :: IsProper(a)
      modifies manager, manager.screen`clip, manager.screen.memory, Memories(manager.table), calls
      modifies display`pointerX, display`pointerY
      modifies display.compositor`damaged, display.compositor`layers, display.compositor.front.memory
      ensures Stands() && manager.OwnOrNew()
      ensures (!old(manager.narrow) && !Cramped(manager.screen) && (forall a | a in acts :: !IsNarrow(a)) &&
               !display.compositor.suspended) ==>
                display.ShowsEverything()
    {
      hide Stands, ToldOf, WindowManager.Steady, IsNarrow, Cramped, IsProper, Display.ShowsEverything;
      var next := 0;
      while next < |acts|
        invariant 0 <= next <= |acts| && Stands() && manager.OwnOrNew()
        invariant manager.narrow ==>
                    old(manager.narrow) || Cramped(manager.screen) || exists a :: a in acts && IsNarrow(a)
      {
        Perform(acts[next]);
        next := next + 1;
      }
      Tick(x, y);
    }

    /** What an act leaves while a window is bound: nobody else has gained a report of the pointer, and what the
        bound window has gained of them is what the mouse did. */
    ghost predicate BoundStep(before: seq<Window>, after: seq<Window>, act: Act, bound: int) {
      && PointedOnlyAt(before, after, bound)
      && if IsMovement(act) then ToldOf(before, after, bound, act.request.movement)
         else PointedOnlyAt(before, after, WINDOW_NONE)
    }

    /** From the press that bound a window until no button is held, whatever else happens: the window stays bound
        and every report of the pointer is its own, until it is destroyed or minimised. */
    method HoldThrough(acts: seq<Act>) returns (held: nat, ghost tables: seq<seq<Window>>)
      requires Stands() && manager.grabbed != WINDOW_NONE
      requires forall a | a in acts :: IsProper(a) && (IsMovement(a) ==> a.request.movement.buttons != {})
      modifies manager, manager.screen`clip, manager.screen.memory, Memories(manager.table), calls
      modifies display`pointerX, display`pointerY
      modifies display.compositor`damaged, display.compositor`layers, display.compositor.front.memory
      ensures Stands() && manager.OwnOrNew() && held <= |acts| && |tables| == held + 1
      ensures tables[0] == old(manager.table) && tables[held] == manager.table
      ensures forall k | 0 <= k < held :: BoundStep(tables[k], tables[k + 1], acts[k], old(manager.grabbed))
      ensures PointedOnlyAt(old(manager.table), manager.table, old(manager.grabbed))
      ensures if manager.grabbed == old(manager.grabbed) then held == |acts|
              else manager.grabbed == WINDOW_NONE &&
                   !(Live(manager.table, old(manager.grabbed)) && !manager.table[old(manager.grabbed)].minimised)
    {
      hide Stands, ToldOf, PointedOnlyAt, IsNarrow, Cramped, RoutedOnlyTo, IsProper;
      ghost var bound := manager.grabbed;
      held, tables := 0, [manager.table];
      StandsStill(manager);
      PointedWider(manager.table, manager.table, bound);
      while held < |acts| && manager.grabbed != WINDOW_NONE
        invariant held <= |acts| && |tables| == held + 1 && Stands() && manager.OwnOrNew()
        invariant tables[0] == old(manager.table) && tables[held] == manager.table
        invariant forall k | 0 <= k < held :: BoundStep(tables[k], tables[k + 1], acts[k], bound)
        invariant PointedOnlyAt(old(manager.table), manager.table, bound)
        invariant GrabHeld(manager.table, bound, manager.grabbed)
      {
        ghost var before := manager.table;
        Perform(acts[held]);
        StepsBind(before, manager.table, acts[held], bound);
        PointedChain(old(manager.table), before, manager.table, bound);
        tables := tables + [manager.table];
        held := held + 1;
      }
    }

    lemma StepsBind(before: seq<Window>, after: seq<Window>, act: Act, bound: int)
      requires if IsMovement(act) then ToldOf(before, after, bound, act.request.movement)
               else PointedOnlyAt(before, after, WINDOW_NONE)
      ensures BoundStep(before, after, act, bound)
    {
      hide PointedOnlyAt, RoutedOnlyTo;
      if IsMovement(act) {
        RoutedIsPointed(before, after, bound);
      } else {
        PointedWider(before, after, bound);
      }
    }
  }

  /** The surfaces of a display: its front, and the back buffer drawn upon. */
  ghost predicate Pair(front: Surface, back: Surface)
    reads front, back
  {
    && front.Valid() && back.Valid() && front != back && front.memory != back.memory
    && front.clip == ClipReset(Bounds(front.width, front.height))
    && back.clip == ClipReset(Bounds(back.width, back.height))
    && front.width == back.width && front.height == back.height && front.depth == back.depth
  }

  /** The pointer's image, if there is one, is of neither surface. */
  ghost predicate IsImage(image: Surface?, mask: Option<seq<Byte>>, front: Surface, back: Surface) {
    image != null ==>
      && image.Shaped() && image.memory != front.memory && image.memory != back.memory
      && (mask.Some? ==> |mask.value| == image.width * image.height)
  }

  /** A compositor with the pointer's layer, if there is an image of the pointer. */
  method AssembleCompositor(front: Surface, back: Surface, codec: Codec, image: Surface?, mask: Option<seq<Byte>>,
                         x: int, y: int) returns (compositor: Compositor, pointer: int)
    requires Pair(front, back) && IsImage(image, mask, front, back)
    modifies back.memory
    ensures fresh(compositor) && compositor.Valid() && !compositor.suspended
    ensures compositor.front == front && compositor.back == back
    ensures |compositor.layers| == 4 && back.memory !in LayerMemories(compositor.layers)
    ensures pointer == LAYER_NONE ||
            (0 <= pointer < 4 && compositor.layers[pointer].occupied &&
             compositor.layers[pointer].x == x - HOT_X && compositor.layers[pointer].y == y - HOT_Y)
  {
    hide Compositor.ValidBut, Surface.Valid;
    compositor := new Compositor(front, back, codec);
    pointer := compositor.AddLayer(image, mask, x - HOT_X, y - HOT_Y);
  }

  /** A display with no window yet, the pointer's layer standing where there is an image of it. */
  method AssembleDisplay(front: Surface, back: Surface, codec: Codec, look: Look,
                      encode: Option<(Byte, Byte, Byte) -> Colour>, image: Surface?, mask: Option<seq<Byte>>,
                      x: int, y: int) returns (display: Display)
    requires Pair(front, back) && back.depth == look.depth && IsImage(image, mask, front, back)
    modifies back.memory
    ensures fresh(display) && fresh(display.manager) && fresh(display.compositor)
    ensures display.manager.Valid() && display.compositor.Valid() && display.Joined()
    ensures display.manager.screen == back && display.manager.look == look && display.compositor.front == front
    ensures !display.compositor.suspended && !display.manager.narrow && display.manager.grabbed == WINDOW_NONE
    ensures display.manager.session == 0
    ensures forall i | 0 <= i < |display.manager.table| :: display.manager.table[i] == BlankSlot()
  {
    hide WindowManager.Valid, Compositor.ValidBut, Surface.Valid;
    var compositor, pointer := AssembleCompositor(front, back, codec, image, mask, x, y);
    label Composited:
    var manager := new WindowManager(back, look, encode);
    label Managed:
    display := new Display(manager, compositor, pointer, x, y);
    compositor.Stale@Composited(Nowhere);
    UntouchedKeepsContents@Managed(manager.table);
    manager.Undisturbed@Managed();
  }

  /** A desktop upon a display, with no window and no session. */
  method Assemble(front: Surface, back: Surface, codec: Codec, look: Look, encode: Option<(Byte, Byte, Byte) -> Colour>,
               image: Surface?, mask: Option<seq<Byte>>, x: int, y: int) returns (desktop: Desktop)
    requires Pair(front, back) && back.depth == look.depth && IsImage(image, mask, front, back)
    modifies back.memory
    ensures fresh(desktop) && desktop.Stands()
    ensures desktop.manager.screen == back && desktop.manager.look == look
    ensures desktop.display.compositor.front == front && !desktop.display.compositor.suspended
    ensures !desktop.manager.narrow && desktop.manager.grabbed == WINDOW_NONE && desktop.manager.session == 0
  {
    hide WindowManager.Valid, Compositor.ValidBut, Surface.Valid;
    var display := AssembleDisplay(front, back, codec, look, encode, image, mask, x, y);
    label Displayed:
    var calls := new ClientCalls(display.manager);
    display.compositor.Stale@Displayed(Nowhere);
    UntouchedKeepsContents@Displayed(display.manager.table);
    display.manager.Undisturbed@Displayed();
    desktop := new Desktop(display, calls);
  }
}
