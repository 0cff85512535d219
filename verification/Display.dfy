/** One tick of the display: what the window manager repaints into the back buffer is carried to the
    display with the pointer over it. */
module Displays {
  import opened Options
  import opened Rectangles
  import opened Surfaces
  import opened Windows
  import opened Stacking
  import opened Desk
  import opened WindowManagers
  import opened Compositors

  const HOT_X := 1
  const HOT_Y := 1

  class Display {
    const manager: WindowManager
    const compositor: Compositor
    /** The pointer's layer, or none where there is no pointer. */
    const pointer: int
    var pointerX: int
    var pointerY: int

    /** The pointer's layer stands with its hot spot at a point. */
    ghost predicate PointsAt(x: int, y: int)
      reads compositor`layers
    {
      && 0 <= pointer < |compositor.layers| == 4 && compositor.layers[pointer].occupied
      && compositor.layers[pointer].x == x - HOT_X && compositor.layers[pointer].y == y - HOT_Y
    }

    /** A window's content is drawn apart from the display, from the back buffer and from every layer. */
    ghost predicate DrawnApart(content: Surface?)
      reads compositor`layers
    {
      content != null ==>
        && content != compositor.front && content.memory != compositor.front.memory
        && content != compositor.back && content.memory != compositor.back.memory
        && content.memory !in LayerMemories(compositor.layers)
    }

    /** The manager draws upon the compositor's back buffer, and neither draws upon what is the other's. */
    ghost predicate Joined()
      reads this, manager`table, compositor`layers
    {
      && manager.screen == compositor.back
      && compositor.front.memory != compositor.back.memory && compositor.front != compositor.back
      && compositor.back.memory !in LayerMemories(compositor.layers)
      && (forall i | 0 <= i < |manager.table| :: DrawnApart(manager.table[i].surface))
      && (pointer != LAYER_NONE ==> PointsAt(pointerX, pointerY))
    }

    constructor (manager: WindowManager, compositor: Compositor, pointer: int, x: int, y: int)
      ensures this.manager == manager && this.compositor == compositor && this.pointer == pointer
      ensures pointerX == x && pointerY == y
    {
      this.manager, this.compositor, this.pointer := manager, compositor, pointer;
      pointerX, pointerY := x, y;
    }

    /** The whole display shows, at every point, the pointer's and any other layer over what a repaint
        of the ground and of every window shows there. */
    ghost predicate ShowsEverything()
      requires manager.screen == compositor.back && compositor.back.Shaped() && |compositor.layers| == 4
      requires compositor.front.Shaped()
      requires compositor.front.width == compositor.back.width && compositor.front.height == compositor.back.height
      requires 0 <= manager.stackCount <= |manager.stackSlots|
      reads manager, compositor, compositor.front.memory, LayerMemories(compositor.layers), Memories(manager.table)
    {
      forall x, y | compositor.front.InBounds(x, y) ::
        compositor.front.Pixel(x, y) ==
        Composite(compositor.codec, compositor.front.depth, compositor.layers, Samples(compositor.layers, x, y),
                  Shown(manager.look, manager.table, ContentsAt(manager.table, x, y), manager.Stack(),
                        manager.focused, x, y), x, y)
    }

    /** Moves the pointer's layer to the mouse. */
    method FollowMouse(x: int, y: int)
      requires compositor.Valid() && PointsAt(pointerX, pointerY)
      modifies this`pointerX, this`pointerY, compositor`layers, compositor`damaged
      ensures compositor.Valid() && LayerMemories(compositor.layers) == old(LayerMemories(compositor.layers))
      ensures pointerX == x && pointerY == y && PointsAt(x, y)
      ensures forall i | 0 <= i < 4 && i != pointer :: compositor.layers[i] == old(compositor.layers)[i]
    {
      hide Composite, Coverage;
      if x == pointerX && y == pointerY {
        return;
      }
      pointerX, pointerY := x, y;
      compositor.MoveLayer(pointer, x - HOT_X, y - HOT_Y);
    }

    /** What the manager repainted is carried to the compositor as changed. */
    method Repaint()
      requires manager.Valid() && compositor.Valid() && Joined()
      modifies manager`damaged, manager`compositions, manager.screen`clip, manager.screen.memory
      modifies compositor`damaged
      ensures manager.Valid() && compositor.Valid() && Joined()
      ensures !manager.narrow ==> manager.ShowsAll()
      ensures manager.Damage() == Nowhere
    {
      hide WindowManager.Valid, WindowManager.ShowsAll, Compositor.FreshBut, Compositor.LayersSound;
      var composed := manager.Compose();
      compositor.Stale(composed);
      label Composed:
      if !IsEmpty(composed) {
        compositor.Invalidate(composed);
      } else {
        compositor.NothingIn(composed);
      }
      UntouchedKeepsContents@Composed(manager.table);
      manager.Undisturbed@Composed();
    }

    /** One tick of the display: repaint, follow the mouse, present. */
    method Tick(mouseX: int, mouseY: int)
      requires manager.Valid() && compositor.Valid() && Joined()
      modifies this`pointerX, this`pointerY
      modifies manager`damaged, manager`compositions, manager.screen`clip, manager.screen.memory
      modifies compositor`damaged, compositor`layers, compositor.front.memory
      ensures manager.Valid() && compositor.Valid() && Joined()
      ensures !manager.narrow && !compositor.suspended ==> ShowsEverything()
      ensures pointer != LAYER_NONE ==> PointsAt(mouseX, mouseY)
      ensures forall i | 0 <= i < 4 && i != pointer :: compositor.layers[i] == old(compositor.layers)[i]
    {
      hide WindowManager.Valid, WindowManager.ShowsAll, Compositor.FreshBut, Compositor.LayersSound;
      hide Compositor.DamageSound, Compositor.ShowsAll;
      Repaint();
      label Repainted:
      if pointer != LAYER_NONE {
        FollowMouse(mouseX, mouseY);
      }
      compositor.Present();
      UntouchedKeepsContents@Repainted(manager.table);
      manager.Undisturbed@Repainted();
      if !manager.narrow && !compositor.suspended {
        Everything();
      }
    }

    /** The display shows the composition, and the back buffer the repaint: together, everything. */
    lemma Everything()
      requires manager.Valid() && compositor.Valid() && Joined()
      requires manager.ShowsAll() && compositor.ShowsAll()
      ensures ShowsEverything()
    {
      hide Composite, Samples, Shown, Compositor.FreshBut, WindowManager.PaintSound;
    }
  }
}
