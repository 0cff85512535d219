/** The clients' calls upon the window manager: what a process may ask of its own windows, what the
    session alone may, and what becomes of both when a process ends. */
module Clients {
  import opened Options
  import opened Rectangles
  import opened Surfaces
  import opened Lines
  import opened Events
  import opened Windows
  import opened Stacking
  import opened Desk
  import opened WindowManagers

  datatype Status =
    | Done(value: int) | NotSupported | Invalid | NotPermitted | BadAddress | NoMemory | BadHandle

  const LAYER_NORMAL := 1
  const LAYER_PANEL := 2

  function LayerNumbered(layer: int): Layer {
    if layer == 0 then Root else if layer == 1 then Normal else Panel
  }

  datatype Action = ToMinimise | ToRestore | ToFull | ToNotFull | Unknown

  datatype Note = Note(kind: int, flags: int, sender: nat, text: string)

  /** The notes waiting, the oldest first, of a ring of eight. */
  datatype NoteRingData = NoteRing(slots: seq<Note>, head: nat, count: nat)

  predicate NoteRingSound(r: NoteRingData) { |r.slots| == 8 && r.head < 8 && r.count <= 8 }

  type NoteRing = r: NoteRingData | NoteRingSound(r) witness EmptyNotes()

  function EmptyNotes(): (r: NoteRingData)
    ensures NoteRingSound(r)
  {
    NoteRing(seq(8, i => Note(0, 0, 0, "")), 0, 0)
  }

  function NotesWaiting(r: NoteRing): (q: seq<Note>)
    ensures |q| == r.count
  {
    seq(r.count, i requires 0 <= i < r.count => r.slots[(r.head + i) % 8])
  }

  /** The oldest is dropped where the ring is full, and the newest put at its end. */
  method PostNote(r: NoteRing, note: Note) returns (r': NoteRing)
    ensures NotesWaiting(r') == (if r.count == 8 then NotesWaiting(r)[1..] else NotesWaiting(r)) + [note]
  {
    var head, count: nat := r.head, r.count;
    if count == 8 {
      head, count := (head + 1) % 8, count - 1;
    }
    r' := NoteRing(r.slots[(head + count) % 8 := note], head, count + 1);
    forall i | 0 <= i < count + 1
      ensures NotesWaiting(r')[i] ==
              ((if r.count == 8 then NotesWaiting(r)[1..] else NotesWaiting(r)) + [note])[i]
    {
      NextPlace(r.head, i);
      PlacesInRing(head, count, i);
    }
  }

  method TakeNote(r: NoteRing) returns (r': NoteRing, note: Note)
    requires r.count > 0
    ensures note == NotesWaiting(r)[0] && NotesWaiting(r') == NotesWaiting(r)[1..]
  {
    note := r.slots[r.head];
    r' := NoteRing(r.slots, (r.head + 1) % 8, r.count - 1);
    forall i | 0 <= i < r.count - 1 ensures NotesWaiting(r')[i] == NotesWaiting(r)[i + 1] {
      NextPlace(r.head, i);
    }
  }

  lemma NextPlace(head: int, i: int)
    requires 0 <= head < 8 && 0 <= i <= 8
    ensures ((head + 1) % 8 + i) % 8 == (head + i + 1) % 8
  {
  }

  /** The places of a ring's entries are distinct from the place of the next. */
  lemma PlacesInRing(head: int, count: int, i: int)
    requires 0 <= head < 8 && 0 <= i <= count < 8
    ensures (head + i) % 8 == (head + count) % 8 ==> i == count
  {
  }

  /** The last so many of a sequence. */
  function LastOf(posted: seq<Note>, most: nat): seq<Note> {
    if |posted| <= most then posted else posted[|posted| - most..]
  }

  /** A queue that drops its oldest at eight holds the last eight posted. */
  lemma DroppingTheOldest(posted: seq<Note>, note: Note)
    ensures LastOf(posted + [note], 8) ==
            (if |LastOf(posted, 8)| == 8 then LastOf(posted, 8)[1..] else LastOf(posted, 8)) + [note]
  {
  }

  // --------------------------------------------------------------------- ownership

  /** A process's root or panel is the session's holder's; windows of owner zero are the kernel's own. */
  ghost predicate HandsSound(table: seq<Window>, session: nat) {
    forall i | 0 <= i < |table| && table[i].inUse ::
      table[i].owner != 0 && !table[i].layer.Normal? ==> table[i].owner == session
  }

  lemma SameHandsSound(table: seq<Window>, table': seq<Window>, session: nat)
    requires SameHands(table, table') && HandsSound(table, session)
    ensures HandsSound(table', session)
  {
  }

  /** The window has something waiting and is the caller's. */
  ghost predicate Awaits(table: seq<Window>, caller: nat, i: int) {
    0 <= i < |table| && table[i].inUse && table[i].owner == caller && table[i].ring.count > 0
  }

  // ------------------------------------------------------------------ serving in turn

  /** How far after a place another comes, going round. */
  function Turn(last: int, i: int, slots: int): int
    requires 0 < slots
  {
    (i - last - 1) % slots
  }

  /** The place so many after another, going round. */
  function PlaceAfter(last: int, step: int, slots: int): (i: int)
    requires 0 < slots
    ensures 0 <= i < slots
  {
    (last + step) % slots
  }

  lemma TurnInRange(last: int, i: int, slots: int)
    requires 0 < slots
    ensures 0 <= Turn(last, i, slots) < slots
  {
  }

  lemma TurnIs(last: int, i: int, slots: int, step: int)
    requires 0 < slots && 1 <= step <= slots && i == PlaceAfter(last, step, slots)
    ensures Turn(last, i, slots) == step - 1
  {
    var q := (last + step) / slots;
    assert i - last - 1 == (step - 1) + (-q) * slots;
    QuotientRemainder(i - last - 1, -q, step - 1, slots);
  }

  lemma TurnIsInjective(last: int, i: int, j: int, slots: int)
    requires 0 < slots && 0 <= i < slots && 0 <= j < slots && Turn(last, i, slots) == Turn(last, j, slots)
    ensures i == j
  {
    var qi, qj := (i - last - 1) / slots, (j - last - 1) / slots;
    assert i - j == (qi - qj) * slots by {
      assert (qi - qj) * slots == qi * slots - qj * slots;
    }
    ProductAtLeast(qi - qj, slots);
  }

  /** A window passed over is nearer its turn once another has been served. */
  lemma TurnComesNearer(last: int, served: int, waiting: int, slots: int)
    requires 0 < slots && 0 <= served < slots && 0 <= waiting < slots
    requires Turn(last, served, slots) < Turn(last, waiting, slots)
    ensures Turn(served, waiting, slots) == Turn(last, waiting, slots) - Turn(last, served, slots) - 1
  {
    var a, b := Turn(last, served, slots), Turn(last, waiting, slots);
    var qa, qb := (served - last - 1) / slots, (waiting - last - 1) / slots;
    assert waiting - served - 1 == (qb - qa) * slots + (b - a - 1) by {
      assert served - last - 1 == qa * slots + a && waiting - last - 1 == qb * slots + b;
      assert (qb - qa) * slots == qb * slots - qa * slots;
    }
    QuotientRemainder(waiting - served - 1, qb - qa, b - a - 1, slots);
  }

  class ClientCalls {
    const manager: WindowManager
    /** The slot served last by a request naming no window. */
    var lastServed: int
    var notes: NoteRing
    ghost var posted: seq<Note>
    ghost var takenUpTo: nat

    ghost predicate Sound()
      reads this, manager`table, manager`session
    {
      && HandsSound(manager.table, manager.session)
      && 0 <= lastServed
      && takenUpTo <= |posted| && NotesWaiting(notes) == LastOf(posted[takenUpTo..], 8)
    }

    constructor (manager: WindowManager)
      requires HandsSound(manager.table, manager.session)
      ensures Sound() && this.manager == manager && posted == []
    {
      this.manager := manager;
      lastServed, notes, posted, takenUpTo := 0, EmptyNotes(), [], 0;
    }

    /** The window a call names, as its caller's, or none where it is not. */
    function OwnedBy(caller: nat, window: int): int
      reads manager`table
    {
      if 0 <= window < |manager.table| && manager.table[window].inUse && caller != 0 &&
         manager.table[window].owner == caller then window else WINDOW_NONE
    }

    /** Why a window asked for is refused before it is asked of the manager, in the order of the tests; or
        done with where it is not. */
    function Refusal(caller: nat, layer: nat, geometry: Option<Rectangle>, title: Option<string>, session: nat)
      : Status
    {
      if caller == 0 then NotSupported
      else if layer > LAYER_PANEL then Invalid
      else if layer != LAYER_NORMAL && caller != session then NotPermitted
      else if geometry.None? || title.None? || |title.value| > TITLE_CAPACITY then BadAddress
      else if geometry.value.width < MINIMUM_EXTENT || geometry.value.height < MINIMUM_EXTENT ||
              geometry.value.width > MAXIMUM_EXTENT || geometry.value.height > MAXIMUM_EXTENT then Invalid
      else Done(0)
    }

    /** A window is refused exactly where one of these fails, and a layer that is the session's alone for want of
        the session before anything of the window itself is looked at. */
    lemma RefusedUnless(caller: nat, layer: nat, geometry: Option<Rectangle>, title: Option<string>, session: nat)
      ensures Refusal(caller, layer, geometry, title, session) == Done(0) <==>
              && caller != 0 && (layer == 1 || (layer in {0, 2} && caller == session))
              && geometry.Some? && 16 <= geometry.value.width <= 4096 && 16 <= geometry.value.height <= 4096
              && title.Some? && |title.value| <= 31
      ensures caller != 0 && layer in {0, 2} && caller != session ==>
                Refusal(caller, layer, geometry, title, session) == NotPermitted
    {
    }

    /** The window stands where it was asked to, an ordinary one confined. */
    predicate Placed(w: Window, place: Rectangle, title: string, layer: Layer) {
      && w.layer == layer && w.title == title && w.width == place.width && w.height == place.height
      && w.x == (if layer.Normal? then ConfineX(manager.screen.width, place.width, place.x) else place.x)
      && w.y == (if layer.Normal? then ConfineY(manager.screen.height, place.y) else place.y)
      && !w.minimised && !w.full
    }

    /** The slots of a table stand as they did, but the one of a window made. */
    ghost predicate OthersStand(before: seq<Window>, after: seq<Window>, made: Status) {
      && |before| <= |after|
      && forall i | 0 <= i < |before| && made != Done(i) ::
           after[i].inUse == before[i].inUse && after[i].owner == before[i].owner
    }

    /** Makes a window for a process. A root or a panel is the session's alone. */
    method Create(caller: nat, layer: nat, geometry: Option<Rectangle>, title: Option<string>) returns (status: Status)
      requires manager.Valid() && Sound()
      modifies manager
      ensures manager.Valid() && Sound()
      ensures status == Refusal(caller, layer, geometry, title, old(manager.session)) ||
              (Refusal(caller, layer, geometry, title, old(manager.session)) == Done(0) &&
               (status == NoMemory || status.Done?))
      ensures status.Done? && geometry.Some? && title.Some? ==>
                && Live(manager.table, status.value) && manager.table[status.value].owner == caller
                && Placed(manager.table[status.value], geometry.value, title.value, LayerNumbered(layer))
                && (LayerNumbered(layer).Root? <==> layer == 0) && (LayerNumbered(layer).Panel? <==> layer == 2)
                && (status.value < |old(manager.table)| ==> !old(manager.table)[status.value].inUse)
      ensures OthersStand(old(manager.table), manager.table, status)
      ensures manager.Steady() && manager.session == old(manager.session)
      ensures manager.grabbed == old(manager.grabbed) && manager.dragged == old(manager.dragged)
      ensures manager.narrow ==>
                || old(manager.narrow)
                || (layer == LAYER_NORMAL && geometry.Some? && geometry.value.width < WIDTH_FOR_BAND)
    {
      hide WindowManager.Valid, Placed, PointedOnlyAt;
      StillRouted(manager.table, WINDOW_NONE);
      RoutedIsPointed(manager.table, manager.table, WINDOW_NONE);
      if caller == 0 {
        return NotSupported;
      }
      if layer > LAYER_PANEL {
        return Invalid;
      }
      if layer != LAYER_NORMAL && caller != manager.session {
        return NotPermitted;
      }
      if geometry.None? || title.None? || |title.value| > TITLE_CAPACITY {
        return BadAddress;
      }
      if geometry.value.width < MINIMUM_EXTENT || geometry.value.height < MINIMUM_EXTENT ||
         geometry.value.width > MAXIMUM_EXTENT || geometry.value.height > MAXIMUM_EXTENT {
        return Invalid;
      }
      status := Make(caller, LayerNumbered(layer), geometry.value, title.value);
    }

    /** Makes a window and gives it to its owner, unless the heap refuses. */
    method Make(caller: nat, layer: Layer, place: Rectangle, title: string) returns (status: Status)
      requires manager.Valid() && Sound() && caller != 0 && |title| <= TITLE_CAPACITY
      requires MINIMUM_EXTENT <= place.width <= MAXIMUM_EXTENT && MINIMUM_EXTENT <= place.height <= MAXIMUM_EXTENT
      requires !layer.Normal? ==> caller == manager.session
      modifies manager
      ensures manager.Valid() && Sound() && (status == NoMemory || status.Done?)
      ensures status.Done? ==>
                && Live(manager.table, status.value) && manager.table[status.value].owner == caller
                && Placed(manager.table[status.value], place, title, layer)
                && (status.value < |old(manager.table)| ==> !old(manager.table)[status.value].inUse)
      ensures OthersStand(old(manager.table), manager.table, status)
      ensures manager.Steady() && manager.session == old(manager.session)
      ensures manager.grabbed == old(manager.grabbed) && manager.dragged == old(manager.dragged)
      ensures manager.narrow ==> old(manager.narrow) || (layer.Normal? && place.width < WIDTH_FOR_BAND)
    {
      hide WindowManager.Valid, WindowManager.Opened, Blanks, Queued, With, Passed, RootsNoticed, Placed;
      hide PointedOnlyAt;
      ghost var before := manager.table;
      var window := manager.Create(place.x, place.y, place.width, place.height, Some(title), layer);
      if window == WINDOW_NONE {
        GrownHands(before, manager.table, manager.session);
        return NoMemory;
      }
      ghost var made := manager.table;
      OpenedHands(before, made, window, place, title, layer, caller);
      manager.SetOwner(window, caller);
      PointedChain(before, made, manager.table, WINDOW_NONE);
      return Done(window);
    }

    lemma GrownHands(before: seq<Window>, after: seq<Window>, session: nat)
      requires HandsSound(before, session) && (after == before || after == before + Blanks(CHUNK))
      ensures HandsSound(after, session)
    {
    }

    lemma OpenedHands(before: seq<Window>, after: seq<Window>, id: int, place: Rectangle, title: string,
                      layer: Layer, caller: nat)
      requires |after| == |before| || |after| == |before| + CHUNK
      requires 0 <= id < |after| && after[id].surface != null
      requires var grown := before + Blanks(|after| - |before|);
               SameButRings(grown[id := manager.Opened(grown[id], place.x, place.y, place.width, place.height, title,
                                                       layer, after[id].surface)], after)
      ensures after[id].inUse && after[id].layer == layer
      ensures |title| <= TITLE_CAPACITY ==> Placed(after[id].(owner := caller), place, title, layer)
      ensures forall i | 0 <= i < |before| && i != id ::
                && after[i].inUse == before[i].inUse && after[i].owner == before[i].owner
                && after[i].layer == before[i].layer
      ensures forall session | HandsSound(before, session) && caller != 0 && (!layer.Normal? ==> caller == session) ::
                HandsSound(after[id := after[id].(owner := caller)], session)
    {
      var grown := before + Blanks(|after| - |before|);
      QueuedIs(grown[id := manager.Opened(grown[id], place.x, place.y, place.width, place.height, title, layer,
                                          after[id].surface)][id], after[id]);
      OwnersAlike(grown[id := manager.Opened(grown[id], place.x, place.y, place.width, place.height, title, layer,
                                             after[id].surface)], after);
    }

    /** A table left as it is tells nobody of the pointer. */
    lemma StillPointed(table: seq<Window>)
      ensures PointedOnlyAt(table, table, WINDOW_NONE)
    {
      StillRouted(table, WINDOW_NONE);
      RoutedIsPointed(table, table, WINDOW_NONE);
    }

    /** Only the caller's windows may go, and none may come or change hands. */
    ghost predicate OnlyLost(before: seq<Window>, after: seq<Window>, lost: int) {
      && |after| == |before|
      && forall i | 0 <= i < |before| ::
           && after[i].inUse == (before[i].inUse && i != lost)
           && after[i].owner == before[i].owner && after[i].layer == before[i].layer
    }

    method Destroy(caller: nat, window: int) returns (status: Status)
      requires manager.Valid() && Sound()
      modifies manager
      ensures manager.Valid() && Sound()
      ensures var mine := Live(old(manager.table), window) && caller != 0 && old(manager.table)[window].owner == caller;
              && status == (if mine then Done(0) else BadHandle)
              && OnlyLost(old(manager.table), manager.table, if mine then window else WINDOW_NONE)
              && manager.grabbed == (if mine && old(manager.grabbed) == window then WINDOW_NONE
                                     else old(manager.grabbed))
              && manager.dragged == (if mine && old(manager.dragged) == window then WINDOW_NONE
                                     else old(manager.dragged))
      ensures manager.Steady() && manager.session == old(manager.session) && manager.narrow == old(manager.narrow)
    {
      hide WindowManager.Valid, Queued, PointedOnlyAt;
      var owned := OwnedBy(caller, window);
      if owned == WINDOW_NONE {
        StillPointed(manager.table);
        return BadHandle;
      }
      ghost var before := manager.table;
      manager.Destroy(owned);
      OwnersAlike(WithoutWindow(before, owned), manager.table);
      return Done(0);
    }

    method Move(caller: nat, window: int, x: int, y: int) returns (status: Status)
      requires manager.Valid() && Sound()
      modifies manager
      ensures manager.Valid() && Sound() && SameHands(old(manager.table), manager.table)
      ensures var mine := Live(old(manager.table), window) && caller != 0 && old(manager.table)[window].owner == caller;
              status == if !mine then BadHandle
                        else if !CoordinateIsSound(x) || !CoordinateIsSound(y) then Invalid else Done(0)
      ensures manager.table ==
              if status.Done?
              then old(manager.table)[window := old(manager.table)[window].(
                     x := ConfineX(manager.screen.width, old(manager.table)[window].width, x),
                     y := ConfineY(manager.screen.height, y))]
              else old(manager.table)
      ensures manager.Steady() && manager.session == old(manager.session) && manager.narrow == old(manager.narrow)
      ensures manager.grabbed == old(manager.grabbed) && manager.dragged == old(manager.dragged)
    {
      hide WindowManager.Valid, PointedOnlyAt;
      StillPointed(manager.table);
      var owned := OwnedBy(caller, window);
      if owned == WINDOW_NONE {
        return BadHandle;
      }
      if x < -COORDINATE_LIMIT || x > COORDINATE_LIMIT || y < -COORDINATE_LIMIT || y > COORDINATE_LIMIT {
        return Invalid;
      }
      manager.Move(owned, x, y);
      return Done(0);
    }

    /** Copies a client's pixels into its window: every pixel of the area, or none of any. */
    method Blit(caller: nat, window: int, area: Option<Rectangle>, pixels: Option<seq<Colour>>) returns (status: Status)
      requires manager.Valid() && Sound()
      requires area.Some? && pixels.Some? && area.value.width > 0 && area.value.height > 0 ==>
                 |pixels.value| == area.value.width * area.value.height
      modifies manager, manager.ContentMemory(window)
      ensures manager.Valid() && Sound() && manager.table == old(manager.table)
      ensures status.Done? <==>
                && Live(manager.table, window) && caller != 0 && manager.table[window].owner == caller
                && area.Some? && pixels.Some? && manager.UponContent(manager.table[window], area.value)
      ensures status.Done? ==>
                && HasContent(manager.table[window], manager.look.depth)
                && forall u, v | manager.table[window].surface.InBounds(u, v) ::
                     manager.table[window].surface.Pixel(u, v) ==
                     if Contains(area.value, u, v)
                     then Truncate(manager.GivenAt(area.value, pixels.value, u, v), manager.look.depth)
                     else old(manager.table[window].surface.Pixel(u, v))
      ensures !status.Done? ==> unchanged(manager.ContentMemory(window))
      ensures manager.Steady() && manager.session == old(manager.session) && manager.narrow == old(manager.narrow)
      ensures manager.grabbed == old(manager.grabbed) && manager.dragged == old(manager.dragged)
    {
      hide WindowManager.Valid, Truncate, Spelled, Lane, WindowManager.GivenAt, PointedOnlyAt;
      StillPointed(manager.table);
      var owned := OwnedBy(caller, window);
      if owned == WINDOW_NONE {
        return BadHandle;
      }
      if area.None? {
        return BadAddress;
      }
      var content := ContentOf(manager.table[owned]);
      var wanted := area.value;
      if wanted.width <= 0 || wanted.height <= 0 || wanted.x < 0 || wanted.y < 0 ||
         wanted.x > content.width - wanted.width || wanted.y > content.height - wanted.height {
        return Invalid;
      }
      if pixels.None? {
        return BadAddress;
      }
      var done := manager.WritePixels(owned, wanted, pixels);
      return if done then Done(0) else Invalid;
    }

    /** A process asks to be the session; another's claim stands in its way. */
    method ClaimSession(caller: nat) returns (status: Status)
      requires manager.Valid() && Sound()
      modifies manager
      ensures manager.Valid() && Sound() && manager.table == old(manager.table)
      ensures status == if caller == 0 then NotSupported
                        else if old(manager.session) == 0 || old(manager.session) == caller then Done(0)
                        else NotPermitted
      ensures manager.session == if status.Done? then caller else old(manager.session)
      ensures manager.Steady() && manager.narrow == old(manager.narrow)
      ensures manager.grabbed == old(manager.grabbed) && manager.dragged == old(manager.dragged)
    {
      hide WindowManager.Valid, PointedOnlyAt;
      StillPointed(manager.table);
      if caller == 0 {
        return NotSupported;
      }
      if manager.session == caller {
        return Done(0);
      }
      if manager.session != 0 {
        return NotPermitted;
      }
      manager.SetSession(caller);
      return Done(0);
    }

    /** Minimises, restores, makes full or not an ordinary window of the caller's, or any where the caller
        holds the session. */
    method State(caller: nat, window: int, action: Action) returns (status: Status)
      requires manager.Valid() && Sound()
      modifies manager
      ensures manager.Valid() && Sound() && SameHands(old(manager.table), manager.table)
      ensures caller == 0 ==> status == NotSupported
      ensures caller != 0 && !(Live(old(manager.table), window) &&
                               (old(manager.table)[window].owner == caller || manager.session == caller)) ==>
                status == BadHandle
      ensures status != BadHandle && status != NotSupported ==>
                && Live(old(manager.table), window)
                && (!old(manager.table)[window].layer.Normal? || action == Unknown ==> status == Invalid)
      ensures status == NoMemory ==> action == ToFull || action == ToNotFull
      ensures !status.Done? ==>
                && manager.table == old(manager.table) && manager.focused == old(manager.focused)
                && manager.grabbed == old(manager.grabbed) && manager.dragged == old(manager.dragged)
      ensures status.Done? ==>
                && Live(old(manager.table), window) && old(manager.table)[window].layer.Normal?
                && (action == ToMinimise ==> OutOfSight(old(manager.table), old(manager.focused), window))
                && (action == ToRestore ==> InSight(old(manager.table), old(manager.focused), window))
                && (action == ToFull ==> Filled(old(manager.table), window, true))
                && (action == ToNotFull ==> Filled(old(manager.table), window, false))
                && manager.grabbed == (if action == ToMinimise && old(manager.grabbed) == window then WINDOW_NONE
                                       else old(manager.grabbed))
                && manager.dragged == (if Undrags(old(manager.table)[window], action) && old(manager.dragged) == window
                                       then WINDOW_NONE else old(manager.dragged))
      ensures manager.Steady() && manager.session == old(manager.session)
      ensures manager.narrow ==>
                old(manager.narrow) || (action == ToFull && manager.screen.width < WIDTH_FOR_BAND + 2 * BORDER)
    {
      hide WindowManager.Valid, PointedOnlyAt, OutOfSight, InSight, Filled;
      StillPointed(manager.table);
      if caller == 0 {
        return NotSupported;
      }
      if !(0 <= window < |manager.table|) || !manager.table[window].inUse ||
         (manager.table[window].owner != caller && manager.session != caller) {
        return BadHandle;
      }
      if !manager.table[window].layer.Normal? {
        return Invalid;
      }
      var done;
      match action {
        case ToMinimise =>
          done := Hide(window);
        case ToRestore =>
          done := Show(window);
        case ToFull =>
          done := Fill(window, true);
          if !done {
            return NoMemory;
          }
        case ToNotFull =>
          done := Fill(window, false);
          if !done {
            return NoMemory;
          }
        case Unknown =>
          return Invalid;
      }
      if !done {
        return Invalid;
      }
      return Done(0);
    }

    /** The window is out of sight, having been put there with all that entails if it was not. */
    ghost predicate OutOfSight(before: seq<Window>, holder: int, window: int)
      requires 0 <= window < |before|
      reads manager`table, manager`focused, manager`stackSlots, manager`stackCount
    {
      && Live(manager.table, window) && manager.table[window].minimised
      && if before[window].minimised then manager.table == before && manager.focused == holder
         else manager.PutAway(before, holder, window)
    }

    /** The window is in sight and holds the focus, the two concerned and the roots told. */
    ghost predicate InSight(before: seq<Window>, holder: int, window: int)
      requires 0 <= window < |before|
      reads manager`table, manager`focused
    {
      var shown := before[window := before[window].(minimised := false)];
      && Live(manager.table, window) && !manager.table[window].minimised && manager.focused == window
      && manager.table == RootsNoticed(Passed(shown, holder, window), Kind.Windows)
    }

    /** The window is full, or not, having been given that shape if it did not have it. */
    ghost predicate Filled(before: seq<Window>, window: int, full: bool)
      requires 0 <= window < |before|
      reads manager`table, manager.ContentMemory(window)
      reads if before[window].surface != null then {before[window].surface.memory} else {}
    {
      && Live(manager.table, window) && manager.table[window].full == full
      && if before[window].full == full then manager.table == before else manager.Refilled(before, window)
    }

    /** The action ends a drag of the window. */
    predicate Undrags(w: Window, action: Action) {
      action == ToMinimise || (action == ToFull && !w.full) || (action == ToNotFull && w.full)
    }

    method Hide(window: int) returns (done: bool)
      requires manager.Valid() && Sound() && Live(manager.table, window)
      modifies manager
      ensures manager.Valid() && Sound() && SameHands(old(manager.table), manager.table)
      ensures manager.session == old(manager.session) && manager.narrow == old(manager.narrow) && manager.Steady()
      ensures done ==>
                && OutOfSight(old(manager.table), old(manager.focused), window)
                && manager.grabbed == (if old(manager.grabbed) == window then WINDOW_NONE else old(manager.grabbed))
                && manager.dragged == (if old(manager.dragged) == window then WINDOW_NONE else old(manager.dragged))
      ensures !done ==>
                && manager.table == old(manager.table) && manager.focused == old(manager.focused)
                && manager.grabbed == old(manager.grabbed) && manager.dragged == old(manager.dragged)
    {
      hide WindowManager.Valid, Queued, PointedOnlyAt, TopFocusable, Passed, RootsNoticed;
      ghost var before := manager.table;
      StackStands(window);
      done := manager.Minimise(window);
      StackStands(window);
      ghost var hidden := if done then before[window := before[window].(minimised := true)] else before;
      OwnersAlike(hidden, manager.table);
      HiddenIsHidden(hidden, manager.table, window);
    }

    method Show(window: int) returns (done: bool)
      requires manager.Valid() && Sound() && Live(manager.table, window)
      modifies manager
      ensures manager.Valid() && Sound() && SameHands(old(manager.table), manager.table)
      ensures manager.session == old(manager.session) && manager.narrow == old(manager.narrow) && manager.Steady()
      ensures done ==> InSight(old(manager.table), old(manager.focused), window)
      ensures !done ==> manager.table == old(manager.table) && manager.focused == old(manager.focused)
      ensures manager.grabbed == old(manager.grabbed) && manager.dragged == old(manager.dragged)
    {
      hide WindowManager.Valid, Queued, Raised, PointedOnlyAt, Passed, RootsNoticed;
      ghost var before := manager.table;
      done := manager.Restore(window);
      ghost var shown := if done then before[window := before[window].(minimised := false)] else before;
      OwnersAlike(shown, manager.table);
      HiddenIsHidden(shown, manager.table, window);
    }

    method Fill(window: int, full: bool) returns (done: bool)
      requires manager.Valid() && Sound() && Live(manager.table, window)
      modifies manager
      ensures manager.Valid() && Sound() && SameHands(old(manager.table), manager.table)
      ensures manager.session == old(manager.session) && manager.Steady() && manager.focused == old(manager.focused)
      ensures done ==> Filled(old(manager.table), window, full)
      ensures !done ==> manager.table == old(manager.table)
      ensures manager.grabbed == old(manager.grabbed)
      ensures manager.dragged == if done && old(manager.table)[window].full != full && old(manager.dragged) == window
                                 then WINDOW_NONE else old(manager.dragged)
      ensures manager.narrow ==>
                old(manager.narrow) || (full && manager.screen.width < WIDTH_FOR_BAND + 2 * BORDER)
    {
      hide WindowManager.Valid, Queued, WindowManager.Carried, PointedOnlyAt, RootsNoticed;
      ghost var before := manager.table;
      done := manager.SetFull(window, full);
      if done && before[window].full != full {
        OwnersAlike(before[window := manager.Reshaped(before[window], manager.table[window])], manager.table);
      }
    }

    lemma StackStands(window: int)
      requires manager.Valid()
      ensures 0 <= manager.stackCount <= |manager.stackSlots|
    {
      manager.CoreParts(window);
    }

    /** A process ended: its claim upon the session and all its windows go with it. */
    method ReleaseProcess(process: nat)
      requires manager.Valid() && Sound()
      modifies manager
      ensures manager.Valid() && Sound() && |manager.table| == |old(manager.table)|
      ensures process != 0 ==>
                && manager.session != process
                && forall i | 0 <= i < |manager.table| && manager.table[i].inUse :: manager.table[i].owner != process
      ensures forall i | 0 <= i < |manager.table| :: manager.table[i].inUse ==
                (old(manager.table)[i].inUse && (process == 0 || old(manager.table)[i].owner != process))
      ensures manager.session == if process != 0 && old(manager.session) == process then 0 else old(manager.session)
      ensures manager.Steady() && manager.narrow == old(manager.narrow)
      ensures process != 0 && 0 <= old(manager.stackCount) <= |old(manager.stackSlots)| ==>
                manager.Rid(old(manager.table), old(manager.Stack()), old(manager.focused), old(manager.grabbed),
                            old(manager.dragged), Owned(old(manager.table), process, |old(manager.table)|))
    {
      hide WindowManager.Valid, WindowManager.Rid, PointedOnlyAt, GrabHeld, DragHeld;
      StackStands(WINDOW_NONE);
      if process == 0 {
        NothingSteady();
        return;
      }
      ghost var before := manager.table;
      if manager.session == process {
        manager.SetSession(0);
      }
      ghost var stack, first, grab, drag := manager.Stack(), manager.focused, manager.grabbed, manager.dragged;
      var destroyed := manager.DestroyOwnedBy(process);
      ghost var gone := Owned(before, process, |before|);
      forall i | 0 <= i < |before|
        ensures |manager.table| == |before|
        ensures manager.table[i].inUse <==> before[i].inUse && before[i].owner != process
        ensures manager.table[i].owner == before[i].owner && manager.table[i].layer == before[i].layer
      {
        manager.SlotOf(before, stack, first, grab, drag, gone, i);
      }
      manager.SizeOf(before, stack, first, grab, drag, gone);
    }

    twostate lemma NothingSteady()
      requires unchanged(manager)
      ensures manager.Steady()
    {
      StillPointed(manager.table);
    }

    /** Whether a window of the process's has an event waiting: an "any" request would be answered. */
    method HasEvent(caller: nat) returns (has: bool)
      ensures has <==> caller != 0 && exists i :: Awaits(manager.table, caller, i)
    {
      has := false;
      if caller == 0 {
        return;
      }
      var index := 0;
      while index < |manager.table|
        invariant 0 <= index <= |manager.table|
        invariant forall i | 0 <= i < index :: !Awaits(manager.table, caller, i)
      {
        if manager.table[index].inUse && manager.table[index].owner == caller && manager.table[index].ring.count > 0 {
          assert Awaits(manager.table, caller, index);
          return true;
        }
        index := index + 1;
      }
    }

    /** Whether the process owns a window at all. */
    method OwnsAny(caller: nat) returns (owns: bool)
      ensures owns <==> caller != 0 && exists i :: Live(manager.table, i) && manager.table[i].owner == caller
    {
      owns := false;
      if caller == 0 {
        return;
      }
      var index := 0;
      while index < |manager.table|
        invariant 0 <= index <= |manager.table|
        invariant forall i | 0 <= i < index :: !(Live(manager.table, i) && manager.table[i].owner == caller)
      {
        if manager.table[index].inUse && manager.table[index].owner == caller {
          assert Live(manager.table, index);
          return true;
        }
        index := index + 1;
      }
    }

    /** Finds the caller's window whose turn comes soonest among those with something waiting. */
    method NextServed(caller: nat) returns (index: int, ownsAny: bool)
      requires 0 <= lastServed
      ensures index == WINDOW_NONE <==> forall i :: !Awaits(manager.table, caller, i)
      ensures index != WINDOW_NONE ==> Awaits(manager.table, caller, index) && ownsAny
      ensures index != WINDOW_NONE ==>
                forall i | Awaits(manager.table, caller, i) ::
                  Turn(lastServed, index, |manager.table|) <= Turn(lastServed, i, |manager.table|)
      ensures index == WINDOW_NONE ==>
                (ownsAny <==> exists i :: Live(manager.table, i) && manager.table[i].owner == caller)
    {
      hide Turn, PlaceAfter;
      var slots := |manager.table|;
      forall i | 0 <= i < slots ensures 0 <= Turn(lastServed, i, slots) < slots {
        TurnInRange(lastServed, i, slots);
      }
      ownsAny := false;
      var step := 1;
      while step <= slots
        invariant 1 <= step <= slots + 1
        invariant forall i | Awaits(manager.table, caller, i) :: Turn(lastServed, i, slots) >= step - 1
        invariant ownsAny ==> exists i :: Live(manager.table, i) && manager.table[i].owner == caller
        invariant !ownsAny ==> forall i | Live(manager.table, i) && manager.table[i].owner == caller ::
                    Turn(lastServed, i, slots) >= step - 1
      {
        index := PlaceAfter(lastServed, step, slots);
        TurnIs(lastServed, index, slots, step);
        forall i | 0 <= i < slots && Turn(lastServed, i, slots) == step - 1 ensures i == index {
          TurnIsInjective(lastServed, i, index, slots);
        }
        if manager.table[index].inUse && manager.table[index].owner == caller {
          assert Live(manager.table, index);
          ownsAny := true;
          if manager.table[index].ring.count > 0 {
            assert Awaits(manager.table, caller, index);
            return;
          }
        }
        step := step + 1;
      }
      index := WINDOW_NONE;
    }

    /** Once a window has been served, every other with something waiting is nearer its turn. */
    lemma OthersComeNearer(table: seq<Window>, caller: nat, last: int, served: int)
      requires Awaits(table, caller, served)
      requires forall i | Awaits(table, caller, i) :: Turn(last, served, |table|) <= Turn(last, i, |table|)
      ensures forall i | Awaits(table, caller, i) && i != served :: Turn(served, i, |table|) < Turn(last, i, |table|)
    {
      hide Turn;
      forall i | Awaits(table, caller, i) && i != served
        ensures Turn(served, i, |table|) < Turn(last, i, |table|)
      {
        if Turn(last, served, |table|) == Turn(last, i, |table|) {
          TurnIsInjective(last, served, i, |table|);
        }
        TurnInRange(last, served, |table|);
        TurnComesNearer(last, served, i, |table|);
      }
    }

    /** Takes the oldest event of a window with something waiting. */
    method Serve(caller: nat, index: int) returns (event: Event)
      requires manager.Valid() && Sound() && Awaits(manager.table, caller, index)
      modifies manager, this`lastServed
      ensures manager.Valid() && Sound() && SameHands(old(manager.table), manager.table)
      ensures event == Waiting(old(manager.table)[index].ring)[0] && lastServed == index
      ensures |manager.table| == |old(manager.table)|
      ensures Waiting(manager.table[index].ring) == Waiting(old(manager.table)[index].ring)[1..]
      ensures manager.table ==
              old(manager.table)[index := old(manager.table)[index].(ring := manager.table[index].ring)]
      ensures manager.Steady() && manager.session == old(manager.session) && manager.narrow == old(manager.narrow)
      ensures manager.grabbed == old(manager.grabbed) && manager.dragged == old(manager.dragged)
    {
      hide WindowManager.Valid, PointedOnlyAt, GrabHeld, DragHeld;
      ghost var before := manager.table;
      var taken := manager.ReadEvent(index);
      event := taken.value;
      label Taken:
      lastServed := index;
      UntouchedKeepsContents@Taken(manager.table);
      manager.Undisturbed@Taken();
      SameHandsSound(before, manager.table, manager.session);
    }

    /** Reads the oldest event of a window of the caller's, the windows being served in turn. */
    method ReadAny(caller: nat) returns (index: int, event: Option<Event>, ownsAny: bool)
      requires manager.Valid() && Sound()
      modifies manager, this`lastServed
      ensures manager.Valid() && Sound() && SameHands(old(manager.table), manager.table)
      ensures event.Some? <==> exists i :: Awaits(old(manager.table), caller, i)
      ensures event.None? ==> index == WINDOW_NONE && manager.table == old(manager.table)
      ensures event.None? ==>
                (ownsAny <==> exists i :: Live(manager.table, i) && manager.table[i].owner == caller)
      ensures event.Some? ==>
                && Awaits(old(manager.table), caller, index)
                && event.value == Waiting(old(manager.table)[index].ring)[0]
                && lastServed == index
                && Waiting(manager.table[index].ring) == Waiting(old(manager.table)[index].ring)[1..]
                && manager.table ==
                   old(manager.table)[index := old(manager.table)[index].(ring := manager.table[index].ring)]
      ensures event.Some? ==>
                forall i | Awaits(old(manager.table), caller, i) && i != index ::
                  Turn(lastServed, i, |manager.table|) < Turn(old(lastServed), i, |manager.table|)
      ensures manager.Steady() && manager.session == old(manager.session) && manager.narrow == old(manager.narrow)
      ensures manager.grabbed == old(manager.grabbed) && manager.dragged == old(manager.dragged)
    {
      hide WindowManager.Valid, PointedOnlyAt, GrabHeld, DragHeld, Waiting, Turn;
      ghost var before, last := manager.table, lastServed;
      index, ownsAny := NextServed(caller);
      UntouchedKeepsContents(manager.table);
      manager.Undisturbed();
      if index == WINDOW_NONE {
        NothingSteady();
        return index, None, ownsAny;
      }
      var taken := Serve(caller, index);
      event := Some(taken);
      OthersComeNearer(before, caller, last, index);
    }

    /** Reading in turn until a window is served: one with something waiting is served within as many reads
        as the table has slots, whatever waits elsewhere. */
    method ReadUntilServed(caller: nat, window: int) returns (rounds: nat, event: Event)
      requires manager.Valid() && Sound() && Awaits(manager.table, caller, window)
      modifies manager, this`lastServed
      ensures manager.Valid() && Sound() && SameHands(old(manager.table), manager.table)
      ensures 1 <= rounds <= |manager.table| && lastServed == window
      ensures event == Waiting(old(manager.table)[window].ring)[0]
    {
      hide WindowManager.Valid, Waiting, Turn;
      rounds := 0;
      TurnInRange(lastServed, window, |manager.table|);
      while true
        invariant manager.Valid() && Sound() && SameHands(old(manager.table), manager.table)
        invariant Awaits(manager.table, caller, window) && manager.table[window] == old(manager.table)[window]
        invariant 0 <= Turn(lastServed, window, |manager.table|)
        invariant rounds + Turn(lastServed, window, |manager.table|) < |manager.table|
        decreases Turn(lastServed, window, |manager.table|)
      {
        ghost var before := manager.table;
        var index, taken, ownsAny := ReadAny(caller);
        rounds := rounds + 1;
        if index == window {
          event := taken.value;
          return;
        }
        TurnInRange(lastServed, window, |manager.table|);
      }
    }

    /** Posts a notification, whoever the sender; the oldest gives way when eight wait. */
    method Notify(caller: nat, kind: int, flags: int, text: Option<string>, readable: bool) returns (status: Status)
      requires manager.Valid() && Sound()
      requires text.Some? ==> readable
      modifies manager, this`notes, this`posted
      ensures manager.Valid() && Sound() && SameHands(old(manager.table), manager.table)
      ensures status == if kind < 1 || kind > 4 || (flags != 0 && flags != 1) then Invalid
                        else if text.None? then if readable then Invalid else BadAddress
                        else Done(0)
      ensures posted == old(posted) + if status.Done? then [Note(kind, flags, caller, text.value)] else []
      ensures status.Done? ==>
                manager.table == RootsNoticed(old(manager.table), Kind.Notify)
      ensures manager.Steady() && manager.session == old(manager.session) && manager.narrow == old(manager.narrow)
      ensures manager.grabbed == old(manager.grabbed) && manager.dragged == old(manager.dragged)
    {
      hide WindowManager.Valid, NotesWaiting, LastOf, RootsNoticed, Queued, PointedOnlyAt;
      StillPointed(manager.table);
      if kind < 1 || kind > 4 || (flags != 0 && flags != 1) {
        return Invalid;
      }
      if text.None? {
        return if readable then Invalid else BadAddress;
      }
      ghost var before := manager.table;
      var note := Note(kind, flags, caller, text.value);
      notes := PostNote(notes, note);
      assert posted[takenUpTo..] + [note] == (posted + [note])[takenUpTo..];
      DroppingTheOldest(posted[takenUpTo..], note);
      posted := posted + [note];
      UntouchedKeepsContents(manager.table);
      manager.Undisturbed();
      manager.AnnounceNotification();
      OwnersAlike(before, manager.table);
      return Done(0);
    }

    /** Takes the oldest notification waiting, for the session alone. */
    method TakeNotification(caller: nat, writable: bool) returns (status: Status, note: Option<Note>)
      requires manager.Valid() && Sound()
      modifies this`notes, this`takenUpTo
      ensures manager.Valid() && Sound()
      ensures status == if caller == 0 || caller != manager.session then NotPermitted
                        else if !writable then BadAddress
                        else if NotesWaiting(old(notes)) == [] then Done(0) else Done(1)
      ensures note == if status == Done(1) then Some(NotesWaiting(old(notes))[0]) else None
      ensures NotesWaiting(notes) ==
              if status == Done(1) then NotesWaiting(old(notes))[1..] else NotesWaiting(old(notes))
    {
      hide WindowManager.Valid, NotesWaiting;
      if caller == 0 || caller != manager.session {
        return NotPermitted, None;
      }
      if !writable {
        return BadAddress, None;
      }
      if notes.count == 0 {
        return Done(0), None;
      }
      ghost var waiting := posted[takenUpTo..];
      ghost var first := if |waiting| <= 8 then 0 else |waiting| - 8;
      var rest, oldest := TakeNote(notes);
      notes := rest;
      takenUpTo := takenUpTo + first + 1;
      assert posted[takenUpTo..] == LastOf(waiting, 8)[1..];
      UntouchedKeepsContents(manager.table);
      manager.Undisturbed();
      return Done(1), Some(oldest);
    }
  }
}
