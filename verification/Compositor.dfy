/** The compositor: a back buffer, layers over it, and the part of either that has yet to reach the
    display. The front is a cache of a composition, stale within the damage alone. */
module Compositors {
  import opened Options
  import opened Rectangles
  import opened Surfaces

  const LAYER_NONE := -1

  /** How the display's pixels hold three channels. */
  datatype Codec = Codec(encode: (Byte, Byte, Byte) -> Colour,
                         red: Colour -> Byte, green: Colour -> Byte, blue: Colour -> Byte)

  /** A surface, where it stands, its coverage — whole where there is none — and whether it is shown. */
  datatype Layer = Layer(surface: Surface?, mask: Option<seq<Byte>>, x: int, y: int, visible: bool, occupied: bool)

  const FreeLayer := Layer(null, None, 0, 0, false, false)

  function LayerBounds(layer: Layer): Rectangle {
    if layer.surface == null then Nowhere
    else Rectangle(layer.x, layer.y, layer.surface.width, layer.surface.height)
  }

  /** A layer's coverage of a point of the screen, a layer not shown covering nothing. */
  function Coverage(layer: Layer, x: int, y: int): Byte {
    if !layer.occupied || !layer.visible || !Contains(LayerBounds(layer), x, y) then 0
    else MaskAt(layer, x - layer.x, y - layer.y)
  }

  function MaskAt(layer: Layer, column: int, row: int): Byte
    requires layer.surface != null
  {
    if layer.mask.None? then 255
    else
      var at := AddressOf(row, column, layer.surface.width);
      if 0 <= at < |layer.mask.value| then layer.mask.value[at] else 0
  }

  /** A channel blended by a coverage, rounded to the nearest. */
  function Blend(source: Byte, under: Byte, coverage: Byte): (b: Byte)
    ensures -255 <= 2 * (255 * b - (source * coverage + under * (255 - coverage))) <= 255
    ensures coverage == 0 ==> b == under
    ensures coverage == 255 ==> b == source
  {
    BlendInRange(source, under, coverage);
    (source * coverage + under * (255 - coverage) + 127) / 255
  }

  lemma BlendInRange(source: int, under: int, coverage: int)
    requires 0 <= source <= 255 && 0 <= under <= 255 && 0 <= coverage <= 255
    ensures 0 <= source * coverage + under * (255 - coverage) <= 65025
  {
    ProductBetween(source, coverage, 255);
    ProductBetween(under, 255 - coverage, 255);
  }

  lemma ProductBetween(a: int, b: int, most: int)
    requires 0 <= a <= most && 0 <= b
    ensures 0 <= a * b <= most * b
  {
    assert (most - a) * b == most * b - a * b;
  }

  /** A colour over another at a coverage. */
  function Blended(codec: Codec, colour: Colour, beneath: Colour, coverage: Byte): Colour {
    if coverage == 255 then colour
    else codec.encode(Blend(codec.red(colour), codec.red(beneath), coverage),
                      Blend(codec.green(colour), codec.green(beneath), coverage),
                      Blend(codec.blue(colour), codec.blue(beneath), coverage))
  }

  /** Each channel read back decodes as it was encoded. */
  ghost predicate Decodes(codec: Codec) {
    forall r, g, b ::
      var colour := codec.encode(r, g, b);
      codec.red(colour) == r && codec.green(colour) == g && codec.blue(colour) == b
  }

  /** The value is the nearest to the mean of two, the first weighing the coverage and the second the rest. */
  predicate NearestMean(value: Byte, source: Byte, under: Byte, coverage: Byte) {
    -255 <= 2 * (255 * value - (source * coverage + under * (255 - coverage))) <= 255
  }

  /** Each channel of a blend is the nearest to the mean of the same channel of the two colours, and whole
      coverage gives the covering colour itself. */
  lemma BlendedByChannel(codec: Codec, colour: Colour, beneath: Colour, coverage: Byte)
    requires Decodes(codec)
    ensures var blended := Blended(codec, colour, beneath, coverage);
            && NearestMean(codec.red(blended), codec.red(colour), codec.red(beneath), coverage)
            && NearestMean(codec.green(blended), codec.green(colour), codec.green(beneath), coverage)
            && NearestMean(codec.blue(blended), codec.blue(colour), codec.blue(beneath), coverage)
            && (coverage == 255 ==> blended == colour)
  {
    hide Blend;
  }

  ghost predicate LayerSound(layer: Layer) {
    && (layer.occupied <==> layer.surface != null)
    && (layer.visible ==> layer.occupied)
    && (layer.surface != null ==> layer.surface.Shaped())
    && (layer.surface != null && layer.mask.Some? ==>
          |layer.mask.value| == layer.surface.width * layer.surface.height)
  }

  /** A mask's rows follow each other; where there is none everything is covered. */
  lemma MaskRowByRow(layer: Layer, column: int, row: int)
    requires LayerSound(layer) && layer.surface != null && layer.surface.InBounds(column, row)
    ensures layer.mask.None? ==> MaskAt(layer, column, row) == 255
    ensures layer.mask.Some? ==>
              var at := row * layer.surface.width + column;
              0 <= at < |layer.mask.value| && MaskAt(layer, column, row) == layer.mask.value[at]
  {
    AddressesDistinct(row, column, row, column, layer.surface.width, layer.surface.height);
  }

  /** A layer covers nothing unless it is shown and the point is its surface's, and then as much as its mask
      says there. */
  lemma CoverageTells(layer: Layer, x: int, y: int)
    requires LayerSound(layer)
    ensures var column, row := x - layer.x, y - layer.y;
            if layer.visible && 0 <= column < layer.surface.width && 0 <= row < layer.surface.height then
              if layer.mask.None? then Coverage(layer, x, y) == 255
              else var at := row * layer.surface.width + column;
                0 <= at < |layer.mask.value| && Coverage(layer, x, y) == layer.mask.value[at]
            else Coverage(layer, x, y) == 0
  {
    hide MaskAt;
    if layer.visible && layer.surface.InBounds(x - layer.x, y - layer.y) {
      MaskRowByRow(layer, x - layer.x, y - layer.y);
    }
  }

  ghost function LayerMemory(layer: Layer): set<array2<Byte>> {
    if layer.surface != null then {layer.surface.memory} else {}
  }

  /** The pixel of a layer at a point of the screen. */
  ghost function Sample(layer: Layer, x: int, y: int): Colour
    reads LayerMemory(layer)
  {
    if layer.surface != null && layer.surface.Shaped() && layer.surface.InBounds(x - layer.x, y - layer.y)
    then layer.surface.Pixel(x - layer.x, y - layer.y) else 0
  }

  /** A layer's surface stands with its first pixel at the layer's place. */
  lemma SampleFromItsCorner(layer: Layer, u: int, v: int)
    requires LayerSound(layer) && layer.surface != null && layer.surface.InBounds(u, v)
    ensures Sample(layer, layer.x + u, layer.y + v) == layer.surface.Pixel(u, v)
  {
  }

  /** The samples of the four layers at a point. */
  ghost function Samples(layers: seq<Layer>, x: int, y: int): seq<Colour>
    requires |layers| == 4
    reads LayerMemories(layers)
  {
    [Sample(layers[0], x, y), Sample(layers[1], x, y), Sample(layers[2], x, y), Sample(layers[3], x, y)]
  }

  ghost function LayerMemories(layers: seq<Layer>): set<array2<Byte>> {
    if |layers| != 4 then {}
    else LayerMemory(layers[0]) + LayerMemory(layers[1]) + LayerMemory(layers[2]) + LayerMemory(layers[3])
  }

  /** No layer was drawn upon. */
  twostate predicate LayersUndrawn(layers: seq<Layer>)
    reads LayerMemories(layers)
  {
    forall memory | memory in LayerMemories(layers) :: unchanged(memory)
  }

  /** What the display shows at a point: the layer of the highest place that covers it, over the back
      buffer and not over the layers beneath. */
  ghost function Composite(codec: Codec, depth: int, layers: seq<Layer>, samples: seq<Colour>, beneath: Colour,
                           x: int, y: int): Colour
    requires |samples| == |layers|
  {
    if layers == [] then beneath
    else
      var top := |layers| - 1;
      var coverage := Coverage(layers[top], x, y);
      if coverage != 0 then Truncate(Blended(codec, samples[top], beneath, coverage), depth)
      else Composite(codec, depth, layers[..top], samples[..top], beneath, x, y)
  }

  /** The place of the layer that shows at a point, or none where the back buffer does. */
  function TopLayer(layers: seq<Layer>, x: int, y: int): (top: int)
    ensures top != LAYER_NONE ==> 0 <= top < |layers| && Coverage(layers[top], x, y) != 0
    ensures forall i | top < i < |layers| :: Coverage(layers[i], x, y) == 0
  {
    if layers == [] then LAYER_NONE
    else if Coverage(layers[|layers| - 1], x, y) != 0 then |layers| - 1
    else TopLayer(layers[..|layers| - 1], x, y)
  }

  /** The composition is the topmost covering layer's blend with the back buffer, or the back buffer. */
  lemma {:induction false} CompositeIsTheTopmost(codec: Codec, depth: int, layers: seq<Layer>,
                                                 samples: seq<Colour>, beneath: Colour, x: int, y: int)
    requires |samples| == |layers|
    ensures Composite(codec, depth, layers, samples, beneath, x, y) ==
            var top := TopLayer(layers, x, y);
            if top == LAYER_NONE then beneath
            else Truncate(Blended(codec, samples[top], beneath, Coverage(layers[top], x, y)), depth)
  {
    hide Coverage, Blended, Truncate;
    if layers != [] {
      var top := |layers| - 1;
      CompositeIsTheTopmost(codec, depth, layers[..top], samples[..top], beneath, x, y);
    }
  }

  /** Layers that differ in one place, which covers the point neither before nor after, compose alike. */
  lemma CompositeElsewhere(codec: Codec, depth: int, layers: seq<Layer>, samples: seq<Colour>,
                           layers': seq<Layer>, samples': seq<Colour>, place: int, beneath: Colour, x: int, y: int)
    requires |samples| == |layers| == |layers'| == |samples'| && 0 <= place < |layers|
    requires forall i | 0 <= i < |layers| && i != place :: layers'[i] == layers[i] && samples'[i] == samples[i]
    requires Coverage(layers[place], x, y) == 0 && Coverage(layers'[place], x, y) == 0
    ensures Composite(codec, depth, layers', samples', beneath, x, y) ==
            Composite(codec, depth, layers, samples, beneath, x, y)
  {
    hide Coverage, Blended, Truncate;
    CompositeIsTheTopmost(codec, depth, layers, samples, beneath, x, y);
    CompositeIsTheTopmost(codec, depth, layers', samples', beneath, x, y);
    assert TopLayer(layers', x, y) == TopLayer(layers, x, y);
  }

  /** The lowest free place, which a layer added takes. */
  function FreePlace(layers: seq<Layer>): (place: int)
    ensures place == LAYER_NONE <==> forall i | 0 <= i < |layers| :: layers[i].occupied
    ensures place != LAYER_NONE ==> 0 <= place < |layers| && !layers[place].occupied
    ensures forall i | 0 <= i < place :: layers[i].occupied
  {
    FreeFrom(layers, 0)
  }

  function FreeFrom(layers: seq<Layer>, start: nat): (place: int)
    requires start <= |layers|
    ensures place == LAYER_NONE <==> forall i | start <= i < |layers| :: layers[i].occupied
    ensures place != LAYER_NONE ==> start <= place < |layers| && !layers[place].occupied
    ensures forall i | start <= i < place :: layers[i].occupied
    decreases |layers| - start
  {
    if start == |layers| then LAYER_NONE
    else if !layers[start].occupied then start
    else FreeFrom(layers, start + 1)
  }

  /** The layers after each has been moved, and shown or hidden, at will. */
  function Rearranged(layers: seq<Layer>, moves: seq<(int, int, bool)>): seq<Layer>
    requires |moves| == |layers|
  {
    seq(|layers|, i requires 0 <= i < |layers| =>
      layers[i].(x := moves[i].0, y := moves[i].1, visible := moves[i].2))
  }

  /** The layer covers something, wherever it may stand. */
  ghost predicate CanCover(layer: Layer) {
    layer.occupied && layer.surface != null && exists c, r :: CoversAt(layer, c, r)
  }

  predicate CoversAt(layer: Layer, c: int, r: int)
    requires layer.surface != null
  {
    0 <= c < layer.surface.width && 0 <= r < layer.surface.height && MaskAt(layer, c, r) != 0
  }

  /** The layer of a place, where it covers a point once the layers are rearranged, shows there. */
  predicate OnTopAt(layers: seq<Layer>, moves: seq<(int, int, bool)>, place: int, x: int, y: int)
    requires 0 <= place < |layers|
  {
    |moves| == |layers| && Coverage(Rearranged(layers, moves)[place], x, y) != 0 ==>
      TopLayer(Rearranged(layers, moves), x, y) == place
  }

  ghost predicate AlwaysOnTop(layers: seq<Layer>, place: int)
    requires 0 <= place < |layers|
  {
    forall moves, x, y :: OnTopAt(layers, moves, place, x, y)
  }

  /** A layer added takes the lowest free place. It is the topmost, however it and the others are moved
      and shown from then on, exactly when no layer above that place covers anything. */
  lemma AddedIsTopmost(layers: seq<Layer>, added: Layer)
    requires FreePlace(layers) != LAYER_NONE && CanCover(added)
    ensures var place := FreePlace(layers);
            AlwaysOnTop(layers[place := added], place) <==>
            forall i | place < i < |layers| :: !CanCover(layers[i])
  {
    var place := FreePlace(layers);
    var after := layers[place := added];
    if i :| place < i < |layers| && CanCover(layers[i]) {
      var c, r :| CoversAt(added, c, r);
      var c', r' :| CoversAt(layers[i], c', r');
      var moves := seq(|layers|, k => if k == place then (-c, -r, true) else if k == i then (-c', -r', true)
                                      else (0, 0, false));
      CoveredWhenMoved(added, moves[place], c, r);
      CoveredWhenMoved(layers[i], moves[i], c', r');
      assert Rearranged(after, moves)[place] == added.(x := -c, y := -r, visible := true);
      assert Rearranged(after, moves)[i] == layers[i].(x := -c', y := -r', visible := true);
      assert !OnTopAt(after, moves, place, 0, 0);
    } else {
      forall moves, x, y ensures OnTopAt(after, moves, place, x, y) {
        forall i | |moves| == |layers| && place < i < |layers|
          ensures Coverage(Rearranged(after, moves)[i], x, y) == 0
        {
          CoversWhereItCan(layers[i], moves[i], x, y);
        }
      }
    }
  }

  lemma CoveredWhenMoved(layer: Layer, move: (int, int, bool), c: int, r: int)
    requires layer.occupied && layer.surface != null && CoversAt(layer, c, r) && move == (-c, -r, true)
    ensures Coverage(layer.(x := move.0, y := move.1, visible := move.2), 0, 0) != 0
  {
    assert MaskAt(layer.(x := move.0, y := move.1, visible := move.2), c, r) == MaskAt(layer, c, r);
  }

  lemma CoversWhereItCan(layer: Layer, move: (int, int, bool), x: int, y: int)
    requires !CanCover(layer)
    ensures Coverage(layer.(x := move.0, y := move.1, visible := move.2), x, y) == 0
  {
    var moved := layer.(x := move.0, y := move.1, visible := move.2);
    if Coverage(moved, x, y) != 0 {
      assert MaskAt(moved, x - move.0, y - move.1) == MaskAt(layer, x - move.0, y - move.1);
      assert CoversAt(layer, x - move.0, y - move.1);
    }
  }

  class Compositor {
    const back: Surface
    const front: Surface
    const codec: Codec
    var layers: seq<Layer>
    var damaged: Rectangle
    var suspended: bool

    // ----------------------------------------------------------------- what holds

    ghost predicate Paired()
      reads front
    {
      && back.Shaped() && front.Valid()
      && front.clip == ClipReset(Bounds(front.width, front.height))
      && front.width == back.width && front.height == back.height && front.depth == back.depth
      && front.memory != back.memory
    }

    ghost predicate LayersSound()
      reads this`layers
    {
      && |layers| == 4
      && forall i | 0 <= i < |layers| ::
           LayerSound(layers[i]) && (layers[i].surface != null ==> layers[i].surface.memory != front.memory)
    }

    ghost predicate DamageSound()
      reads this`damaged
    {
      Within(damaged, Bounds(back.width, back.height))
    }

    /** What the display should show at a point, the layers being given. */
    ghost function WantedOf(layers: seq<Layer>, x: int, y: int): Colour
      requires back.Shaped() && back.InBounds(x, y) && |layers| == 4
      reads back.memory, LayerMemories(layers)
    {
      Composite(codec, front.depth, layers, Samples(layers, x, y), back.Pixel(x, y), x, y)
    }

    /** Outside the damage, and but for a region, the display shows the composition. */
    ghost predicate FreshBut(region: Rectangle)
      requires Paired() && LayersSound()
      reads this`layers, this`damaged, front, front.memory, back.memory, LayerMemories(layers)
    {
      forall x, y | front.InBounds(x, y) && !Contains(damaged, x, y) && !Contains(region, x, y) ::
        front.Pixel(x, y) == WantedOf(layers, x, y)
    }

    ghost predicate ValidBut(region: Rectangle)
      reads this`layers, this`damaged, front, front.memory, back.memory, LayerMemories(layers)
    {
      Paired() && LayersSound() && DamageSound() && FreshBut(region)
    }

    ghost predicate Valid()
      reads this`layers, this`damaged, front, front.memory, back.memory, LayerMemories(layers)
    {
      ValidBut(Nowhere)
    }

    /** The whole display shows the composition. */
    ghost predicate ShowsAll()
      reads this`layers, front, front.memory, back.memory, LayerMemories(layers)
    {
      Paired() && LayersSound() && forall x, y | front.InBounds(x, y) :: front.Pixel(x, y) == WantedOf(layers, x, y)
    }

    /** Takes the display: the back buffer is cleared, and the whole of it is to be presented. */
    constructor (front: Surface, back: Surface, codec: Codec)
      requires front.Valid() && back.Valid() && front.memory != back.memory
      requires front.clip == ClipReset(Bounds(front.width, front.height))
      requires back.clip == ClipReset(Bounds(back.width, back.height))
      requires front.width == back.width && front.height == back.height && front.depth == back.depth
      modifies back.memory
      ensures Valid() && this.front == front && this.back == back && this.codec == codec
      ensures layers == [FreeLayer, FreeLayer, FreeLayer, FreeLayer] && !suspended
      ensures damaged == Bounds(back.width, back.height)
      ensures forall x, y | back.InBounds(x, y) :: back.Pixel(x, y) == Truncate(0, back.depth)
    {
      this.front, this.back, this.codec := front, back, codec;
      layers := [FreeLayer, FreeLayer, FreeLayer, FreeLayer];
      damaged := Bounds(back.width, back.height);
      suspended := false;
      new;
      back.Clear(0);
    }

    // --------------------------------------------------------------------- damage

    /** Adds a region to the damage. */
    method Invalidate(region: Rectangle)
      requires ValidBut(region)
      modifies this`damaged
      ensures Valid()
      ensures var bounded := Intersect(region, Bounds(back.width, back.height));
              damaged == if IsEmpty(bounded) then old(damaged) else Enclose(old(damaged), bounded)
      ensures forall x, y | back.InBounds(x, y) && (Contains(old(damaged), x, y) || Contains(region, x, y)) ::
                Contains(damaged, x, y)
    {
      hide Composite;
      var bounded := Intersect(region, Bounds(back.width, back.height));
      forall x, y ensures Contains(bounded, x, y) <==> Contains(region, x, y) && back.InBounds(x, y) {
        IntersectMeets(region, Bounds(back.width, back.height), x, y);
      }
      hide Intersect;
      EncloseIsLeast(damaged, bounded, Bounds(back.width, back.height));
      if IsEmpty(bounded) {
        return;
      }
      damaged := Enclose(damaged, bounded);
    }

    /** The back buffer is as it was outside a region. */
    twostate predicate BackKept(region: Rectangle)
      reads back.memory
    {
      forall x, y | back.Shaped() && back.InBounds(x, y) && !Contains(region, x, y) ::
        back.Pixel(x, y) == old(back.Pixel(x, y))
    }

    /** Where the back buffer was drawn upon, and there alone, the display may be stale. */
    twostate lemma Stale(region: Rectangle)
      requires old(Valid()) && BackKept(region) && LayersUndrawn(old(layers))
      requires unchanged(this) && unchanged(front) && unchanged(front.memory)
      ensures ValidBut(region)
    {
      hide Composite, Coverage;
      forall x, y | back.InBounds(x, y) ensures Samples(layers, x, y) == old(Samples(layers, x, y)) {
      }
    }

    lemma NothingIn(region: Rectangle)
      requires ValidBut(region) && IsEmpty(region)
      ensures Valid()
    {
    }

    method InvalidateAll()
      requires Paired() && LayersSound()
      modifies this`damaged
      ensures Valid() && damaged == Bounds(back.width, back.height)
    {
      damaged := Bounds(back.width, back.height);
    }

    // --------------------------------------------------------------------- layers

    /** Where only one of two lists of layers that differ in one place covers no point, they compose alike. */
    lemma WantedElsewhere(layers: seq<Layer>, layers': seq<Layer>, place: int, x: int, y: int)
      requires back.Shaped() && back.InBounds(x, y) && 0 <= place < |layers| == |layers'| == 4
      requires forall i | 0 <= i < |layers| && i != place :: layers'[i] == layers[i]
      requires Coverage(layers[place], x, y) == 0 && Coverage(layers'[place], x, y) == 0
      ensures WantedOf(layers', x, y) == WantedOf(layers, x, y)
    {
      hide Coverage, Composite, Sample;
      CompositeElsewhere(codec, front.depth, layers, Samples(layers, x, y), layers', Samples(layers', x, y), place,
                         back.Pixel(x, y), x, y);
    }

    /** Puts a layer in a place; what either covers is damaged, or is in the region about to be. */
    method Put(place: int, layer: Layer, ghost region: Rectangle)
      requires ValidBut(region) && 0 <= place < 4 && LayerSound(layer)
      requires layer.surface != null ==> layer.surface.memory != front.memory
      requires Awaited(layers[place], region) && Awaited(layer, region)
      modifies this`layers
      ensures ValidBut(region) && layers == old(layers)[place := layer]
    {
      hide Composite, Coverage;
      ghost var layers' := layers[place := layer];
      forall x, y | front.InBounds(x, y) && !Contains(damaged, x, y) && !Contains(region, x, y)
        ensures WantedOf(layers', x, y) == WantedOf(layers, x, y)
      {
        WantedElsewhere(layers, layers', place, x, y);
      }
      layers := layers[place := layer];
    }

    /** All that a layer covers is damaged or in a region. */
    ghost predicate Awaited(layer: Layer, region: Rectangle)
      reads this`damaged
    {
      forall x, y | front.InBounds(x, y) && Coverage(layer, x, y) != 0 ::
        Contains(damaged, x, y) || Contains(region, x, y)
    }

    /** Adds a layer, not shown yet, in the lowest free place. */
    method AddLayer(surface: Surface?, mask: Option<seq<Byte>>, x: int, y: int) returns (place: int)
      requires Valid()
      requires surface != null ==> surface.Shaped() && surface.memory != front.memory
      requires surface != null && mask.Some? ==> |mask.value| == surface.width * surface.height
      modifies this`layers
      ensures Valid()
      ensures place == if surface == null then LAYER_NONE else FreePlace(old(layers))
      ensures layers == if place == LAYER_NONE then old(layers)
                        else old(layers)[place := Layer(surface, mask, x, y, false, true)]
    {
      place := LAYER_NONE;
      if surface == null {
        return;
      }
      var index := 0;
      while index < 4 && layers[index].occupied
        invariant 0 <= index <= 4 && forall i | 0 <= i < index :: layers[i].occupied
      {
        index := index + 1;
      }
      if index < 4 {
        place := index;
        Put(place, Layer(surface, mask, x, y, false, true), Nowhere);
      }
    }

    /** Withdraws a layer; what it covered is to be carried out again. */
    method RemoveLayer(place: int)
      requires Valid()
      modifies this`layers, this`damaged
      ensures Valid()
      ensures layers == if 0 <= place < 4 && old(layers)[place].occupied then old(layers)[place := FreeLayer]
                        else old(layers)
    {
      hide FreshBut;
      if !(0 <= place < 4) || !layers[place].occupied {
        return;
      }
      MarkLayer(layers[place]);
      Put(place, FreeLayer, Nowhere);
    }

    /** Marks where a layer stands, if it is shown. */
    method MarkLayer(layer: Layer)
      requires Valid()
      modifies this`damaged
      ensures Valid() && Awaited(layer, Nowhere)
      ensures forall x, y | back.InBounds(x, y) && Contains(old(damaged), x, y) :: Contains(damaged, x, y)
    {
      hide FreshBut, LayersSound, Enclose, Intersect;
      if layer.visible {
        Widens(LayerBounds(layer));
        Invalidate(LayerBounds(layer));
      }
    }

    lemma Widens(region: Rectangle)
      requires Valid()
      ensures ValidBut(region)
    {
    }

    /** Gives a layer another place, and damages the two. */
    method MoveLayer(place: int, x: int, y: int)
      requires Valid()
      modifies this`layers, this`damaged
      ensures Valid()
      ensures layers == if 0 <= place < 4 && old(layers)[place].occupied
                        then old(layers)[place := old(layers)[place].(x := x, y := y)] else old(layers)
    {
      hide FreshBut;
      if !(0 <= place < 4) || !layers[place].occupied {
        return;
      }
      var layer := layers[place];
      var moved := layer.(x := x, y := y);
      if moved == layer {
        assert layers[place := moved] == layers;
        return;
      }
      MarkLayer(layer);
      var region := if layer.visible then LayerBounds(moved) else Nowhere;
      Widens(region);
      Put(place, moved, region);
      Invalidate(region);
    }

    /** Shows a layer, or hides it, marking where it stands. */
    method SetLayerVisible(place: int, visible: bool)
      requires Valid()
      modifies this`layers, this`damaged
      ensures Valid()
      ensures layers == if 0 <= place < 4 && old(layers)[place].occupied
                        then old(layers)[place := old(layers)[place].(visible := visible)] else old(layers)
    {
      hide FreshBut;
      if !(0 <= place < 4) || !layers[place].occupied || layers[place].visible == visible {
        assert 0 <= place < 4 && layers[place].occupied ==>
            layers[place := layers[place].(visible := visible)] == layers;
        return;
      }
      var region := LayerBounds(layers[place]);
      Widens(region);
      Put(place, layers[place].(visible := visible), region);
      Invalidate(region);
    }

    method Suspend()
      requires Valid()
      modifies this`suspended
      ensures Valid() && suspended
    {
      suspended := true;
    }

    // ----------------------------------------------------------------- presenting

    /** Brings part of one row from the back buffer to the front. */
    method CopySpan(row: int, left: int, count: int)
      requires Paired() && 0 <= row < front.height && 0 <= left && 0 < count && left + count <= front.width
      modifies front.memory
      ensures forall x, y | front.InBounds(x, y) ::
                front.Pixel(x, y) == if y == row && left <= x < left + count then back.Pixel(x, y)
                                     else old(front.Pixel(x, y))
      ensures front.PaddingKept()
    {
      front.CopyPixels(Rectangle(left, row, count, 1), back, left, row);
    }

    /** Composes one layer into the display, over what the back buffer holds. */
    method ComposeLayer(layer: Layer, region: Rectangle)
      requires Paired() && LayerSound(layer) && layer.occupied && layer.visible
      requires layer.surface.memory != front.memory
      requires Within(region, Bounds(front.width, front.height))
      modifies front.memory
      ensures forall x, y | front.InBounds(x, y) ::
                front.Pixel(x, y) ==
                if Contains(region, x, y) && Coverage(layer, x, y) != 0
                then Truncate(Blended(codec, old(Sample(layer, x, y)), old(back.Pixel(x, y)), Coverage(layer, x, y)),
                              front.depth)
                else old(front.Pixel(x, y))
      ensures front.PaddingKept()
    {
      hide Truncate, Blended, Spelled, Lane;
      var overlap := Intersect(LayerBounds(layer), region);
      forall x, y ensures Contains(overlap, x, y) <==> Contains(LayerBounds(layer), x, y) && Contains(region, x, y) {
        IntersectMeets(LayerBounds(layer), region, x, y);
      }
      hide Intersect;
      var y := overlap.y;
      while y < overlap.y + overlap.height
        invariant overlap.y <= y
        invariant forall u, v | front.InBounds(u, v) ::
                    front.Pixel(u, v) ==
                    if Contains(overlap, u, v) && Coverage(layer, u, v) != 0 && v < y
                    then Truncate(Blended(codec, Sample(layer, u, v), back.Pixel(u, v), Coverage(layer, u, v)),
                                  front.depth)
                    else old(front.Pixel(u, v))
        invariant front.PaddingKept()
      {
        ComposeRow(layer, overlap, y);
        y := y + 1;
      }
    }

    method ComposeRow(layer: Layer, overlap: Rectangle, y: int)
      requires Paired() && LayerSound(layer) && layer.occupied && layer.visible
      requires layer.surface.memory != front.memory
      requires Within(overlap, Bounds(front.width, front.height)) && Within(overlap, LayerBounds(layer))
      modifies front.memory
      ensures forall u, v | front.InBounds(u, v) ::
                front.Pixel(u, v) ==
                if Contains(overlap, u, v) && Coverage(layer, u, v) != 0 && v == y
                then Truncate(Blended(codec, Sample(layer, u, v), back.Pixel(u, v), Coverage(layer, u, v)), front.depth)
                else old(front.Pixel(u, v))
      ensures front.PaddingKept()
    {
      hide Truncate, Blended, Spelled, Lane;
      var x := overlap.x;
      while x < overlap.x + overlap.width
        invariant overlap.x <= x
        invariant forall u, v | front.InBounds(u, v) ::
                    front.Pixel(u, v) ==
                    if Contains(overlap, u, v) && Coverage(layer, u, v) != 0 && v == y && u < x
                    then Truncate(Blended(codec, Sample(layer, u, v), back.Pixel(u, v), Coverage(layer, u, v)),
                                  front.depth)
                    else old(front.Pixel(u, v))
        invariant front.PaddingKept()
      {
        if Contains(overlap, x, y) {
          var coverage := MaskAt(layer, x - layer.x, y - layer.y);
          if coverage != 0 {
            var colour := layer.surface.PixelAt(x - layer.x, y - layer.y);
            var beneath := back.PixelAt(x, y);
            front.PutPixel(x, y, Blended(codec, colour, beneath, coverage));
          }
        }
        x := x + 1;
      }
    }

    /** What the display shows at a point with the lowest layers alone composed. */
    ghost function WantedSoFar(places: int, x: int, y: int): Colour
      requires back.Shaped() && back.InBounds(x, y) && |layers| == 4 && 0 <= places <= 4
      reads this`layers, back.memory, LayerMemories(layers)
    {
      Composite(codec, front.depth, layers[..places], Samples(layers, x, y)[..places], back.Pixel(x, y), x, y)
    }

    lemma OneMoreLayer(place: int, x: int, y: int)
      requires back.Shaped() && back.InBounds(x, y) && |layers| == 4 && 0 <= place < 4
      ensures WantedSoFar(place + 1, x, y) ==
              if Coverage(layers[place], x, y) != 0
              then Truncate(Blended(codec, Sample(layers[place], x, y), back.Pixel(x, y),
                                    Coverage(layers[place], x, y)), front.depth)
              else WantedSoFar(place, x, y)
    {
      hide Coverage, Blended, Truncate, Sample;
      var samples := Samples(layers, x, y);
      assert layers[..place + 1][..place] == layers[..place];
      assert samples[..place + 1][..place] == samples[..place];
      assert samples[place] == Sample(layers[place], x, y);
    }

    lemma AllOfThem(x: int, y: int)
      requires back.Shaped() && back.InBounds(x, y) && |layers| == 4
      ensures WantedSoFar(4, x, y) == WantedOf(layers, x, y)
      ensures WantedSoFar(0, x, y) == back.Pixel(x, y)
    {
      hide Coverage, Blended, Truncate, Sample;
      assert layers[..4] == layers && Samples(layers, x, y)[..4] == Samples(layers, x, y);
    }

    /** In the region the display shows the back buffer with so many layers over it, and elsewhere what
        it did. */
    twostate predicate ShowsSoFar(region: Rectangle, places: int)
      requires Paired() && LayersSound() && 0 <= places <= 4
      reads this`layers, front, front.memory, back.memory, LayerMemories(layers)
    {
      forall x, y | front.InBounds(x, y) ::
        front.Pixel(x, y) == if Contains(region, x, y) then WantedSoFar(places, x, y) else old(front.Pixel(x, y))
    }

    /** Brings a region from the back buffer to the front, a row at a time. */
    method CopyRegion(region: Rectangle)
      requires Paired() && LayersSound() && !IsEmpty(region) && Within(region, Bounds(front.width, front.height))
      modifies front.memory
      ensures ShowsSoFar(region, 0) && front.PaddingKept()
    {
      hide Composite, Coverage, Sample;
      WithinByCorners(region, Bounds(front.width, front.height));
      var y := region.y;
      while y < region.y + region.height
        invariant region.y <= y <= region.y + region.height
        invariant forall u, v | front.InBounds(u, v) ::
                    front.Pixel(u, v) == if Contains(region, u, v) && v < y then back.Pixel(u, v)
                                         else old(front.Pixel(u, v))
        invariant front.PaddingKept()
      {
        CopySpan(y, region.x, region.width);
        y := y + 1;
      }
      forall u, v | front.InBounds(u, v) ensures WantedSoFar(0, u, v) == back.Pixel(u, v) {
        AllOfThem(u, v);
      }
    }

    /** Composes one place over a region where those below it have been. */
    method ComposePlace(place: int, region: Rectangle)
      requires Paired() && LayersSound() && 0 <= place < 4 && Within(region, Bounds(front.width, front.height))
      modifies front.memory
      ensures forall x, y | front.InBounds(x, y) ::
                && (!Contains(region, x, y) ==> front.Pixel(x, y) == old(front.Pixel(x, y)))
                && (Contains(region, x, y) && old(front.Pixel(x, y)) == WantedSoFar(place, x, y) ==>
                      front.Pixel(x, y) == WantedSoFar(place + 1, x, y))
      ensures front.PaddingKept()
    {
      hide Composite, Sample, Blended, Truncate, WantedSoFar, MaskAt, LayerBounds;
      FrontIsApart();
      forall x, y | front.InBounds(x, y)
        ensures WantedSoFar(place + 1, x, y) ==
                if Coverage(layers[place], x, y) != 0
                then Truncate(Blended(codec, Sample(layers[place], x, y), back.Pixel(x, y),
                                      Coverage(layers[place], x, y)), front.depth)
                else WantedSoFar(place, x, y)
      {
        OneMoreLayer(place, x, y);
      }
      if layers[place].occupied && layers[place].visible {
        ComposeLayer(layers[place], region);
      }
    }

    /** Carries what is damaged to the display, the layers composed over the back buffer; afterwards the
        whole display shows the composition. Suspended, it does nothing. */
    method Present()
      requires Valid()
      modifies this`damaged, front.memory
      ensures Valid() && front.PaddingKept()
      ensures suspended ==> damaged == old(damaged)
      ensures !suspended ==> ShowsAll() && IsEmpty(damaged)
      ensures forall x, y | front.InBounds(x, y) && (suspended || !Contains(old(damaged), x, y)) ::
                front.Pixel(x, y) == old(front.Pixel(x, y))
    {
      hide Composite, WantedSoFar, WantedOf, Coverage;
      FrontIsApart();
      if suspended {
        return;
      }
      var region := Intersect(damaged, Bounds(back.width, back.height));
      forall x, y ensures Contains(region, x, y) <==> Contains(damaged, x, y) && back.InBounds(x, y) {
        IntersectMeets(damaged, Bounds(back.width, back.height), x, y);
      }
      hide Intersect;
      if IsEmpty(region) {
        NothingLeft(damaged.(width := 0, height := 0));
        return;
      }
      PresentRegion(region);
      NothingLeft(Nowhere);
    }

    /** Nothing is damaged any more, the display showing everything. */
    method NothingLeft(nothing: Rectangle)
      requires ShowsAll() && IsEmpty(nothing)
      modifies this`damaged
      ensures Valid() && ShowsAll() && damaged == nothing
    {
      hide Composite;
      damaged := nothing;
    }

    /** No layer's memory is the display's. */
    lemma FrontIsApart()
      requires LayersSound()
      ensures front.memory !in LayerMemories(layers)
    {
    }

    method PresentRegion(region: Rectangle)
      requires Paired() && LayersSound() && !IsEmpty(region) && Within(region, Bounds(front.width, front.height))
      modifies front.memory
      ensures front.PaddingKept()
      ensures forall x, y | front.InBounds(x, y) ::
                front.Pixel(x, y) == if Contains(region, x, y) then WantedOf(layers, x, y)
                                     else old(front.Pixel(x, y))
    {
      hide Composite, Sample, WantedSoFar, WantedOf;
      FrontIsApart();
      CopyRegion(region);
      var place := 0;
      while place < 4
        invariant 0 <= place <= 4 && ShowsSoFar(region, place) && front.PaddingKept()
      {
        ComposePlace(place, region);
        place := place + 1;
      }
      forall x, y | front.InBounds(x, y) ensures WantedSoFar(4, x, y) == WantedOf(layers, x, y) {
        AllOfThem(x, y);
      }
    }
  }

  /** Two layers added, the first withdrawn, and a third added: the third, added last, is composed beneath
      the second. */
  method AddedLastYetBeneath(compositor: Compositor, surface: Surface) returns (second: int, last: int)
    requires compositor.Valid() && surface.Shaped() && surface.memory != compositor.front.memory
    requires compositor.layers == [FreeLayer, FreeLayer, FreeLayer, FreeLayer]
    modifies compositor
    ensures compositor.Valid() && 0 <= last < second < |compositor.layers|
    ensures Coverage(compositor.layers[last], 0, 0) != 0 && TopLayer(compositor.layers, 0, 0) == second
  {
    hide Compositor.ValidBut, TopLayer;
    var shown := Layer(surface, None, 0, 0, true, true);
    var first := compositor.AddLayer(surface, None, 0, 0);
    assert first == 0;
    PlaceIs(compositor.layers, 1);
    second := compositor.AddLayer(surface, None, 0, 0);
    assert second == 1;
    compositor.RemoveLayer(first);
    PlaceIs(compositor.layers, 0);
    last := compositor.AddLayer(surface, None, 0, 0);
    assert last == 0;
    compositor.SetLayerVisible(second, true);
    compositor.SetLayerVisible(last, true);
    assert compositor.layers == [shown, shown, FreeLayer, FreeLayer];
    TopIsHighest(compositor.layers, 1, 0, 0);
  }

  lemma PlaceIs(layers: seq<Layer>, place: int)
    requires 0 <= place < |layers| && !layers[place].occupied && forall i | 0 <= i < place :: layers[i].occupied
    ensures FreePlace(layers) == place
  {
  }

  lemma TopIsHighest(layers: seq<Layer>, place: int, x: int, y: int)
    requires 0 <= place < |layers| && Coverage(layers[place], x, y) != 0
    requires forall i | place < i < |layers| :: Coverage(layers[i], x, y) == 0
    ensures TopLayer(layers, x, y) == place
  {
    hide Coverage;
  }
}
