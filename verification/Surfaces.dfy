/** Drawing upon a surface: a rectangle of pixels in memory, with padding at the end of its rows. */
module Surfaces {
  import opened Rectangles
  import opened Lines
  import opened Discs

  const COORDINATE_LIMIT := 32767

  type Byte = b: int | 0 <= b < 0x100

  /** An opaque pixel value of 32 bits, of which a surface keeps as many low bytes as its pixels
      have. Shifts and masks by whole bytes are written as quotients and remainders. */
  type Colour = c: int | 0 <= c < 0x1_0000_0000

  predicate CoordinateIsSound(value: int) { -COORDINATE_LIMIT <= value <= COORDINATE_LIMIT }

  // ------------------------------------------------------- a pixel and its bytes

  /** Byte k of a colour, the lowest first. */
  function Lane(colour: Colour, k: int): Byte
    requires 0 <= k < 4
  {
    if k == 0 then colour % 0x100
    else if k == 1 then colour / 0x100 % 0x100
    else if k == 2 then colour / 0x100 / 0x100 % 0x100
    else colour / 0x100 / 0x100 / 0x100
  }

  /** The colour the first `depth` of four bytes spell, the lowest first. */
  function Spelled(a: Byte, b: Byte, c: Byte, d: Byte, depth: int): Colour {
    a + 0x100 * (if depth <= 1 then 0
                 else b + 0x100 * (if depth <= 2 then 0
                                   else c + 0x100 * (if depth <= 3 then 0 else d)))
  }

  /** What remains of a colour in a pixel of so many bytes. */
  function Truncate(colour: Colour, depth: int): Colour {
    Spelled(Lane(colour, 0), Lane(colour, 1), Lane(colour, 2), Lane(colour, 3), depth)
  }

  lemma QuotientRemainder(c: int, q: int, r: int, m: int)
    requires 0 < m && c == q * m + r && 0 <= r < m
    ensures c % m == r
  {
    assert (c / m - q) * m == r - c % m;
    ProductAtLeast(c / m - q, m);
  }

  /** A pixel keeps the colour's remainder by its number of values: all of it in four bytes. */
  lemma TruncateIsRemainder(colour: Colour)
    ensures Truncate(colour, 1) == colour % 0x100
    ensures Truncate(colour, 2) == colour % 0x1_0000
    ensures Truncate(colour, 3) == colour % 0x100_0000
    ensures Truncate(colour, 4) == colour
  {
    QuotientRemainder(colour, colour / 0x100 / 0x100, Truncate(colour, 2), 0x1_0000);
    QuotientRemainder(colour, colour / 0x100 / 0x100 / 0x100, Truncate(colour, 3), 0x100_0000);
  }

  /** The bytes of a colour are its digits to the base 256, the lowest first. */
  lemma LanesAreDigits(a: Byte, b: Byte, c: Byte, d: Byte)
    ensures var colour := a + 0x100 * b + 0x1_0000 * c + 0x100_0000 * d;
            Lane(colour, 0) == a && Lane(colour, 1) == b && Lane(colour, 2) == c && Lane(colour, 3) == d
  {
    var colour := a + 0x100 * b + 0x1_0000 * c + 0x100_0000 * d;
    assert colour / 0x100 == b + 0x100 * c + 0x1_0000 * d;
    assert colour / 0x100 / 0x100 == c + 0x100 * d;
  }

  // -------------------------------------------------------------- one pixel's place

  lemma PlacesApart(x: int, u: int, depth: int)
    requires 1 <= depth && x < u
    ensures x * depth + depth <= u * depth
  {
    assert (u - x - 1) * depth >= 0;
  }

  /** A row's bytes are its pixels' and then padding. */
  lemma PlaceInRow(x: int, width: int, depth: int)
    requires 1 <= depth && 0 <= x < width
    ensures 0 <= x * depth && x * depth + depth <= width * depth
  {
    PlacesApart(x, width, depth);
  }

  lemma SpanInRow(x: int, count: int, width: int, depth: int)
    requires 1 <= depth && 0 <= x && 0 <= count && x + count <= width
    ensures 0 <= x * depth && x * depth + count * depth == (x + count) * depth <= width * depth
    ensures 0 <= count * depth
  {
    if x + count < width {
      PlacesApart(x + count, width, depth);
    }
  }

  /** Where the bytes of pixel u lie against those of `count` pixels from x, and where in a copy of
      these from `from` on. */
  lemma PlaceInSpan(u: int, x: int, count: int, from: int, depth: int)
    requires 1 <= depth && 0 <= count
    ensures u < x ==> u * depth + depth <= x * depth
    ensures u >= x + count ==> u * depth >= x * depth + count * depth
    ensures x <= u < x + count ==>
              && x * depth <= u * depth && u * depth + depth <= x * depth + count * depth
              && u * depth - x * depth + from * depth == (u - x + from) * depth
  {
    assert (u - x) * depth == u * depth - x * depth;
    assert (u - x + from) * depth == (u - x) * depth + from * depth;
    assert (u - x - count) * depth == (u - x) * depth - count * depth;
    if u < x {
      PlacesApart(u, x, depth);
    } else if u >= x + count {
      assert (u - x - count) * depth >= 0;
    } else {
      PlacesApart(u, x + count, depth);
      assert (x + count) * depth == x * depth + count * depth;
    }
  }

  lemma WholeWords(count: int, depth: int)
    requires depth == 4
    ensures count * depth % 4 == 0
  {
  }

  /** The byte at an offset of a row, by its distance from the surface's first byte: distinct rows
      and offsets are distinct distances, so a pair stands for an address. */
  function AddressOf(row: int, offset: int, pitch: int): int { row * pitch + offset }

  lemma AddressesDistinct(row: int, offset: int, row': int, offset': int, pitch: int, height: int)
    requires 0 <= row < height && 0 <= row' < height
    requires 0 <= offset < pitch && 0 <= offset' < pitch
    ensures AddressOf(row, offset, pitch) == AddressOf(row', offset', pitch) <==>
            row == row' && offset == offset'
    ensures 0 <= AddressOf(row, offset, pitch) < height * pitch
  {
    ProductAtLeast(row - row', pitch);
    assert (row - row') * pitch == row * pitch - row' * pitch;
    PlaceInRow(row, height, pitch);
  }

  /** The pixel of a shape in a colour, or what stood there. */
  function Painted(inside: bool, colour: Colour, depth: int, below: Colour): Colour {
    if inside then Truncate(colour, depth) else below
  }

  lemma StepsAddUp(start: int, i: int, step: int)
    ensures start + (i + 1) * step == start + i * step + step
  {
  }

  /** The colour a pattern gives the pixel in this row and column of it. */
  function Shade(pattern: seq<Byte>, row: int, column: int, ink: Colour, paper: Colour): Colour {
    if 0 <= row < |pattern| && 0 <= column < 8 && Lit(pattern[row], column) then ink else paper
  }

  lemma ShadeIs(pattern: seq<Byte>, row: int, column: int, ink: Colour, paper: Colour)
    requires 0 <= row < |pattern| && 0 <= column < 8
    ensures Shade(pattern, row, column, ink, paper) == if Lit(pattern[row], column) then ink else paper
  {
  }

  /** Whether the pattern lights this column: the most significant bit is the leftmost. */
  predicate Lit(bits: Byte, column: int)
    requires 0 <= column < 8
  {
    bits / [0x80, 0x40, 0x20, 0x10, 8, 4, 2, 1][column] % 2 == 1
  }

  /** The number that so many columns from the left spell. */
  function Leftmost(bits: Byte, columns: int): nat
    requires 0 <= columns <= 8
  {
    bits / [0x100, 0x80, 0x40, 0x20, 0x10, 8, 4, 2, 1][columns]
  }

  /** What a column adds to the number spelt. */
  function Digit(bits: Byte, column: int): nat
    requires 0 <= column < 8
  {
    if Lit(bits, column) then 1 else 0
  }

  /** One column more doubles the number and adds the column's digit. */
  lemma LeftmostAndOne(bits: Byte, column: int)
    requires 0 <= column < 8
    ensures Leftmost(bits, column + 1) == 2 * Leftmost(bits, column) + Digit(bits, column)
    ensures Leftmost(bits, 0) == 0 && Leftmost(bits, 8) == bits
  {
    var worth := [0x80, 0x40, 0x20, 0x10, 8, 4, 2, 1][column];
    assert [0x100, 0x80, 0x40, 0x20, 0x10, 8, 4, 2, 1][column + 1] == worth;
    assert [0x100, 0x80, 0x40, 0x20, 0x10, 8, 4, 2, 1][column] == 2 * worth;
    Halved(bits, worth);
  }

  lemma Halved(n: int, divisor: int)
    requires 0 < divisor
    ensures n / divisor / 2 == n / (2 * divisor)
  {
    var half, odd, rest := n / divisor / 2, n / divisor % 2, n % divisor;
    assert n == half * (2 * divisor) + (odd * divisor + rest);
    QuotientRemainder(n, half, odd * divisor + rest, 2 * divisor);
  }

  /** The columns lit spell the pattern's byte, the leftmost being worth the most. */
  lemma LitSpells(bits: Byte)
    ensures bits == 0x80 * Digit(bits, 0) + 0x40 * Digit(bits, 1) + 0x20 * Digit(bits, 2) + 0x10 * Digit(bits, 3)
                    + 8 * Digit(bits, 4) + 4 * Digit(bits, 5) + 2 * Digit(bits, 6) + Digit(bits, 7)
  {
    hide Digit, Leftmost;
    LeftmostAndOne(bits, 0);
    LeftmostAndOne(bits, 1);
    LeftmostAndOne(bits, 2);
    LeftmostAndOne(bits, 3);
    LeftmostAndOne(bits, 4);
    LeftmostAndOne(bits, 5);
    LeftmostAndOne(bits, 6);
    LeftmostAndOne(bits, 7);
  }

  /** The one-pixel outline of a rectangle. */
  predicate OnOutline(r: Rectangle, x: int, y: int) {
    && Contains(r, x, y)
    && (x == r.x || x == r.x + r.width - 1 || y == r.y || y == r.y + r.height - 1)
  }

  /** The outline is what of a rectangle has a point beside it that is not the rectangle's. */
  lemma OutlineIsTheEdge(r: Rectangle, x: int, y: int)
    ensures OnOutline(r, x, y) <==>
            Contains(r, x, y) && !(Contains(r, x - 1, y) && Contains(r, x + 1, y) &&
                                   Contains(r, x, y - 1) && Contains(r, x, y + 1))
  {
  }

  // ------------------------------------------------------------------- the surface

  class Surface {
    /** The memory described, by row and by offset within the row. */
    const memory: array2<Byte>
    const width: int
    const height: int
    const pitch: int
    const depth: int
    const wholeWords: bool
    var clip: Clip

    /** The description itself, which never changes. */
    ghost predicate Shaped() {
      && 1 <= width <= COORDINATE_LIMIT && 1 <= height <= COORDINATE_LIMIT
      && 1 <= depth <= 4 && width * depth <= pitch
      && memory.Length0 == height && memory.Length1 == pitch
      && (wholeWords ==> depth == 4)
    }

    ghost predicate Valid()
      reads this
    {
      Shaped() && ClipSound(clip, Bounds(width, height))
    }

    predicate InBounds(x: int, y: int) { 0 <= x < width && 0 <= y < height }

    /** The pixel as the surface's bytes spell it. */
    ghost function Pixel(x: int, y: int): Colour
      requires Shaped() && InBounds(x, y)
      reads memory
    {
      PlaceInRow(x, width, depth);
      var at := x * depth;
      Spelled(memory[y, at],
              if depth > 1 then memory[y, at + 1] else 0,
              if depth > 2 then memory[y, at + 2] else 0,
              if depth > 3 then memory[y, at + 3] else 0,
              depth)
    }

    /** No byte past the end of a row's pixels has changed. */
    twostate predicate PaddingKept()
      requires Shaped()
      reads memory
    {
      forall row, offset | 0 <= row < height && width * depth <= offset < pitch ::
        memory[row, offset] == old(memory[row, offset])
    }

    twostate predicate OthersKept(x: int, y: int)
      requires Shaped()
      reads memory
    {
      forall u, v | InBounds(u, v) && !(u == x && v == y) :: Pixel(u, v) == old(Pixel(u, v))
    }

    constructor (memory: array2<Byte>, width: int, height: int, pitch: int, depth: int, aligned: bool)
      requires 1 <= width <= COORDINATE_LIMIT && 1 <= height <= COORDINATE_LIMIT
      requires 1 <= depth <= 4 && width * depth <= pitch
      requires memory.Length0 == height && memory.Length1 == pitch
      ensures Valid() && this.memory == memory
      ensures this.width == width && this.height == height && this.depth == depth
      ensures clip == ClipReset(Bounds(width, height))
    {
      this.memory, this.width, this.height, this.pitch := memory, width, height, pitch;
      this.depth := depth;
      this.wholeWords := depth == 4 && aligned && pitch % 4 == 0;
      this.clip := ClipReset(Bounds(width, height));
    }

    /** Describes memory as a surface, or refuses where the description is impossible. */
    static method Describe(memory: array2?<Byte>, width: nat, height: nat, pitch: nat, depth: nat,
                           aligned: bool) returns (surface: Surface?)
      requires depth <= 4
      requires memory != null ==> memory.Length0 == height && memory.Length1 == pitch
      ensures surface == null <==>
              memory == null || width == 0 || height == 0 || depth == 0 ||
              width > COORDINATE_LIMIT || height > COORDINATE_LIMIT || pitch < width * depth
      ensures surface != null ==> fresh(surface) && surface.Valid() && surface.memory == memory
      ensures surface != null ==> surface.width == width && surface.height == height
      ensures surface != null ==> surface.depth == depth &&
                                  surface.clip == ClipReset(Bounds(width, height))
    {
      if memory == null || width == 0 || height == 0 || depth == 0 {
        return null;
      }
      if width > COORDINATE_LIMIT || height > COORDINATE_LIMIT {
        return null;
      }
      if pitch < width * depth {
        return null;
      }
      surface := new Surface(memory, width, height, pitch, depth, aligned);
    }

    // ------------------------------------------------------------------ the clip

    method SetClip(region: Rectangle)
      requires Valid()
      modifies this`clip
      ensures Valid() && clip == ClipSet(old(clip), Bounds(width, height), region)
    {
      clip := clip.(region := Intersect(region, Bounds(width, height)));
    }

    method ResetClip()
      requires Valid()
      modifies this`clip
      ensures Valid() && clip == ClipReset(Bounds(width, height))
    {
      clip := Clip(Bounds(width, height), []);
    }

    method PushClip(region: Rectangle) returns (pushed: bool)
      requires Valid()
      modifies this`clip
      ensures Valid() && clip == ClipPush(old(clip), region)
      ensures pushed <==> |old(clip.saved)| < CLIP_DEPTH
    {
      if |clip.saved| >= CLIP_DEPTH {
        return false;
      }
      clip := Clip(Intersect(clip.region, region), clip.saved + [clip.region]);
      return true;
    }

    method PopClip() returns (popped: bool)
      requires Valid()
      modifies this`clip
      ensures Valid() && clip == ClipPop(old(clip))
      ensures popped <==> old(clip.saved) != []
    {
      if clip.saved == [] {
        return false;
      }
      var last := |clip.saved| - 1;
      clip := Clip(clip.saved[last], clip.saved[..last]);
      return true;
    }

    // --------------------------------------------------------------------- pixels

    /** Writes a pixel's bytes, as one word where the surface permits it. */
    method StoreBytes(row: int, at: int, colour: Colour)
      requires Valid() && 0 <= row < height && 0 <= at && at + depth <= pitch
      modifies memory
      ensures forall k | 0 <= k < depth :: memory[row, at + k] == Lane(colour, k)
      ensures forall v, offset | 0 <= v < height && 0 <= offset < pitch &&
                !(v == row && at <= offset < at + depth) ::
                memory[v, offset] == old(memory[v, offset])
    {
      if wholeWords {
        memory[row, at], memory[row, at + 1], memory[row, at + 2], memory[row, at + 3] :=
          Lane(colour, 0), Lane(colour, 1), Lane(colour, 2), Lane(colour, 3);
        return;
      }
      for index := 0 to depth
        invariant forall k | 0 <= k < index :: memory[row, at + k] == Lane(colour, k)
        invariant forall v, offset | 0 <= v < height && 0 <= offset < pitch &&
                    !(v == row && at <= offset < at + depth) ::
                    memory[v, offset] == old(memory[v, offset])
      {
        memory[row, at + index] := Lane(colour, index);
      }
    }

    /** Writes one pixel and nothing else. */
    method StorePixel(x: int, y: int, colour: Colour)
      requires Valid() && InBounds(x, y)
      modifies memory
      ensures Pixel(x, y) == Truncate(colour, depth)
      ensures OthersKept(x, y) && PaddingKept()
    {
      hide Lane;
      PlaceInRow(x, width, depth);
      var at := x * depth;
      StoreBytes(y, at, colour);
      assert memory[y, at + 0] == Lane(colour, 0);
      forall u, v | InBounds(u, v) && !(u == x && v == y)
        ensures Pixel(u, v) == old(Pixel(u, v))
      {
        PlaceInRow(u, width, depth);
        if u < x {
          PlacesApart(u, x, depth);
        } else if x < u {
          PlacesApart(x, u, depth);
        }
      }
    }

    /** Byte k of a pixel's colour stands k places on from the first of its bytes, and the pixels of a row one
        after another. */
    lemma PixelBytes(x: int, y: int, k: int)
      requires Shaped() && InBounds(x, y) && 0 <= k < depth
      ensures 0 <= x * depth + k < pitch && memory[y, x * depth + k] == Lane(Pixel(x, y), k)
    {
      hide Lane;
      PlaceInRow(x, width, depth);
      var at := x * depth;
      LanesAreDigits(memory[y, at], if depth > 1 then memory[y, at + 1] else 0,
                     if depth > 2 then memory[y, at + 2] else 0, if depth > 3 then memory[y, at + 3] else 0);
    }

    /** The pixel, read a byte at a time; zero outside the surface. */
    method PixelAt(x: int, y: int) returns (colour: Colour)
      requires Shaped()
      ensures colour == if InBounds(x, y) then Pixel(x, y) else 0
    {
      if !Contains(Bounds(width, height), x, y) {
        return 0;
      }
      PlaceInRow(x, width, depth);
      var at := x * depth;
      colour := 0;
      var scale := 1;
      for index := 0 to depth
        invariant scale == [1, 0x100, 0x1_0000, 0x100_0000, 0x1_0000_0000][index]
        invariant colour < scale
        invariant colour == if index == 0 then 0 else
                    Spelled(memory[y, at],
                            if index > 1 then memory[y, at + 1] else 0,
                            if index > 2 then memory[y, at + 2] else 0,
                            if index > 3 then memory[y, at + 3] else 0, index)
      {
        assert index == 0 || index == 1 || index == 2 || index == 3;
        colour := colour + memory[y, at + index] * scale;
        scale := scale * 0x100;
      }
    }

    method PutPixel(x: int, y: int, colour: Colour)
      requires Valid()
      modifies memory
      ensures forall u, v | InBounds(u, v) ::
                Pixel(u, v) == Painted(u == x && v == y && Contains(clip.region, x, y),
                                       colour, depth, old(Pixel(u, v)))
      ensures PaddingKept()
    {
      if !Contains(clip.region, x, y) {
        return;
      }
      assert Contains(Bounds(width, height), x, y);
      StorePixel(x, y, colour);
    }

    // ---------------------------------------------------------------- rectangles

    method FillRectangle(rectangle: Rectangle, colour: Colour)
      requires Valid()
      modifies memory
      ensures forall x, y | InBounds(x, y) ::
                Pixel(x, y) == Painted(Contains(clip.region, x, y) && Contains(rectangle, x, y),
                                       colour, depth, old(Pixel(x, y)))
      ensures PaddingKept()
    {
      hide Truncate, Spelled, Lane;
      var area := Intersect(rectangle, clip.region);
      if IsEmpty(area) {
        return;
      }
      for row := 0 to area.height
        invariant forall x, y | InBounds(x, y) ::
                    Pixel(x, y) == Painted(Contains(area, x, y) && y < area.y + row,
                                           colour, depth, old(Pixel(x, y)))
        invariant PaddingKept()
      {
        for column := 0 to area.width
          invariant forall x, y | InBounds(x, y) ::
                      Pixel(x, y) == Painted(Contains(area, x, y) &&
                                             (y < area.y + row || (y == area.y + row && x < area.x + column)),
                                             colour, depth, old(Pixel(x, y)))
          invariant PaddingKept()
        {
          assert Contains(area, area.x + column, area.y + row);
          assert Contains(Bounds(width, height), area.x + column, area.y + row);
          StorePixel(area.x + column, area.y + row, colour);
        }
      }
    }

    method Clear(colour: Colour)
      requires Valid()
      modifies memory
      ensures forall x, y | InBounds(x, y) ::
                Pixel(x, y) == Painted(Contains(clip.region, x, y), colour, depth, old(Pixel(x, y)))
      ensures PaddingKept()
    {
      FillRectangle(clip.region, colour);
    }

    predicate PatternIsSound(x: int, y: int, rows: int) {
      && CoordinateIsSound(x) && CoordinateIsSound(y)
      && CoordinateIsSound(x + 8) && CoordinateIsSound(y + rows)
    }

    /** Draws eight columns by `rows` rows of bits, each in the ink or in the paper. */
    method PatternBlock(x: int, y: int, pattern: seq<Byte>, rows: int, ink: Colour, paper: Colour)
      requires Valid() && rows <= |pattern|
      modifies memory
      ensures forall u, v | InBounds(u, v) ::
                Pixel(u, v) ==
                if PatternIsSound(x, y, rows) && Contains(clip.region, u, v) &&
                   Contains(Rectangle(x, y, 8, rows), u, v)
                then Truncate(Shade(pattern, v - y, u - x, ink, paper), depth)
                else old(Pixel(u, v))
      ensures PaddingKept()
    {
      hide Truncate, Spelled, Lane, Lit, Shade;
      if rows <= 0 {
        return;
      }
      if !PatternIsSound(x, y, rows) {
        return;
      }
      var area := Intersect(Rectangle(x, y, 8, rows), clip.region);
      if IsEmpty(area) {
        return;
      }
      for row := 0 to area.height
        invariant forall u, v | InBounds(u, v) ::
                    Pixel(u, v) == if Contains(area, u, v) && v < area.y + row
                                   then Truncate(Shade(pattern, v - y, u - x, ink, paper), depth)
                                   else old(Pixel(u, v))
        invariant PaddingKept()
      {
        PatternRow(area, x, y, pattern, row, ink, paper);
      }
    }

    /** One row of the part of a pattern that lies within the clip. */
    method PatternRow(area: Rectangle, x: int, y: int, pattern: seq<Byte>, row: int, ink: Colour, paper: Colour)
      requires Valid() && Within(area, Bounds(width, height)) && 0 <= row < area.height
      requires x <= area.x && 0 < area.width && area.x + area.width <= x + 8
      requires y <= area.y && area.y + area.height <= y + |pattern|
      modifies memory
      ensures forall u, v | InBounds(u, v) ::
                Pixel(u, v) == if Contains(area, u, v) && v == area.y + row
                               then Truncate(Shade(pattern, v - y, u - x, ink, paper), depth)
                               else old(Pixel(u, v))
      ensures PaddingKept()
    {
      hide Truncate, Spelled, Lane, Lit, Shade;
      var firstBit := area.x - x;
      var bits := pattern[area.y - y + row];
      for column := 0 to area.width
        invariant forall u, v | InBounds(u, v) ::
                    Pixel(u, v) == if Contains(area, u, v) && v == area.y + row && u < area.x + column
                                   then Truncate(Shade(pattern, v - y, u - x, ink, paper), depth)
                                   else old(Pixel(u, v))
        invariant PaddingKept()
      {
        assert Contains(area, area.x + column, area.y + row);
        assert Contains(Bounds(width, height), area.x + column, area.y + row);
        ShadeIs(pattern, area.y - y + row, firstBit + column, ink, paper);
        StorePixel(area.x + column, area.y + row, if Lit(bits, firstBit + column) then ink else paper);
      }
    }

    /** Draws the outline as four fills, the upright edges short of the corners. */
    method DrawRectangle(rectangle: Rectangle, colour: Colour)
      requires Valid()
      modifies memory
      ensures forall x, y | InBounds(x, y) ::
                Pixel(x, y) == Painted(Contains(clip.region, x, y) && OnOutline(rectangle, x, y),
                                       colour, depth, old(Pixel(x, y)))
      ensures PaddingKept()
    {
      hide Truncate, Spelled, Lane;
      if IsEmpty(rectangle) {
        return;
      }
      var edge := Rectangle(rectangle.x, rectangle.y, rectangle.width, 1);
      FillRectangle(edge, colour);
      if rectangle.height == 1 {
        return;
      }
      edge := edge.(y := rectangle.y + rectangle.height - 1);
      FillRectangle(edge, colour);
      edge := Rectangle(rectangle.x, rectangle.y + 1, 1, rectangle.height - 2);
      if edge.height > 0 {
        FillRectangle(edge, colour);
        if rectangle.width > 1 {
          edge := edge.(x := rectangle.x + rectangle.width - 1);
          FillRectangle(edge, colour);
        }
      }
    }

    // ---------------------------------------------------------------- disc and line

    /** The four spans of one point of the arc. */
    method FillSpans(centreX: int, centreY: int, x: int, y: int, colour: Colour)
      requires Valid() && x >= y >= 0
      modifies memory
      ensures forall u, v | InBounds(u, v) ::
                Pixel(u, v) == Painted(Contains(clip.region, u, v) &&
                                       Spanned(x, y, u - centreX, v - centreY),
                                       colour, depth, old(Pixel(u, v)))
      ensures PaddingKept()
    {
      hide Truncate, Spelled, Lane;
      FillRectangle(Rectangle(centreX - x, centreY + y, 2 * x + 1, 1), colour);
      FillRectangle(Rectangle(centreX - x, centreY - y, 2 * x + 1, 1), colour);
      FillRectangle(Rectangle(centreX - y, centreY + x, 2 * y + 1, 1), colour);
      FillRectangle(Rectangle(centreX - y, centreY - x, 2 * y + 1, 1), colour);
    }

    method FillCircle(centreX: int, centreY: int, radius: int, colour: Colour)
      requires Valid()
      modifies memory
      ensures forall x, y | InBounds(x, y) ::
                Pixel(x, y) == Painted(Contains(clip.region, x, y) &&
                                       InDisc(radius, x - centreX, y - centreY),
                                       colour, depth, old(Pixel(x, y)))
      ensures PaddingKept()
    {
      hide Truncate, Spelled, Lane, InDisc, Abs;
      if radius < 0 {
        NoDisc(radius);
        return;
      }
      forall u, v | InBounds(u, v)
        ensures Remaining(radius, 0, 1 - radius, u - centreX, v - centreY) <==>
                InDisc(radius, u - centreX, v - centreY)
      {
        WalkCoversTheDisc(radius, u - centreX, v - centreY);
      }
      var x, y, error := radius, 0, 1 - radius;
      while x >= y
        invariant y >= 0
        invariant forall u, v | InBounds(u, v) ::
                    Remaining(x, y, error, u - centreX, v - centreY) ==>
                      && InDisc(radius, u - centreX, v - centreY)
                      && (Pixel(u, v) == old(Pixel(u, v)) ||
                          (Contains(clip.region, u, v) && Pixel(u, v) == Truncate(colour, depth)))
        invariant forall u, v | InBounds(u, v) ::
                    !Remaining(x, y, error, u - centreX, v - centreY) ==>
                      Pixel(u, v) == Painted(Contains(clip.region, u, v) &&
                                             InDisc(radius, u - centreX, v - centreY),
                                             colour, depth, old(Pixel(u, v)))
        invariant PaddingKept()
        decreases x - y
      {
        FillSpans(centreX, centreY, x, y, colour);
        y := y + 1;
        if error < 0 {
          error := error + 2 * y + 1;
        } else {
          x := x - 1;
          error := error + 2 * (y - x) + 1;
        }
      }
    }

    /** Draws a line, testing the clip at each pixel so that clipping never moves the line. It takes
        as many steps as the longer axis is long. */
    method DrawLine(x0: int, y0: int, x1: int, y1: int, colour: Colour) returns (ghost steps: nat)
      requires Valid()
      modifies memory
      ensures forall u, v | InBounds(u, v) ::
                Pixel(u, v) == Painted(CoordinateIsSound(x0) && CoordinateIsSound(y0) &&
                                       CoordinateIsSound(x1) && CoordinateIsSound(y1) &&
                                       Contains(clip.region, u, v) && OnLine(x0, y0, x1, y1, u, v),
                                       colour, depth, old(Pixel(u, v)))
      ensures PaddingKept()
      ensures steps == if CoordinateIsSound(x0) && CoordinateIsSound(y0) && CoordinateIsSound(x1) &&
                          CoordinateIsSound(y1) && !IsEmpty(clip.region)
                       then Max(Distance(x0, x1), Distance(y0, y1)) else 0
    {
      hide Truncate, Spelled, Lane;
      steps := 0;
      if !CoordinateIsSound(x0) || !CoordinateIsSound(y0) ||
         !CoordinateIsSound(x1) || !CoordinateIsSound(y1) {
        return;
      }
      if IsEmpty(clip.region) {
        return;
      }
      var x, y := x0, y0;
      var deltaX: int, deltaY: int := Distance(x0, x1), Distance(y0, y1);
      var stepX, stepY := Direction(x0, x1), Direction(y0, y1);
      var error := deltaX - deltaY;
      ghost var i, j := 0, 0;
      TrackingBegins(deltaX, deltaY);
      AlongInRange(x0, y0, x1, y1);
      hide OnLine, Along, Tracking;
      while true
        invariant Tracking(deltaX, deltaY, i, j, error)
        invariant x == x0 + i * stepX && y == y0 + j * stepY
        invariant steps == Major(deltaX, deltaY, i, j) <= Max(deltaX, deltaY)
        invariant forall u, v | InBounds(u, v) ::
                    Pixel(u, v) == Painted(Contains(clip.region, u, v) && OnLine(x0, y0, x1, y1, u, v) &&
                                           Along(x0, y0, x1, y1, u, v) < steps,
                                           colour, depth, old(Pixel(u, v)))
        invariant PaddingKept()
        decreases Max(deltaX, deltaY) - steps
      {
        TrackingIsHere(x0, y0, x1, y1, i, j, error, x, y);
        PutPixel(x, y, colour);
        if x == x1 && y == y1 {
          break;
        }
        StepsAddUp(x0, i, stepX);
        StepsAddUp(y0, j, stepY);
        x, y, error, i, j := Step(deltaX, deltaY, stepX, stepY, x, y, error, i, j);
        steps := steps + 1;
      }
    }

    // ------------------------------------------------------------------------ blit

    /** Copies a span of bytes along a row, a word at a time or a byte at a time, and from its right
        where it must. The two ways agree: either gives the target what the source held before. */
    method CopySpan(row: int, at: int, source: array2<Byte>, sourceRow: int, sourceAt: int,
                    span: int, words: bool, backwards: bool)
      requires 0 <= row < memory.Length0 && 0 <= at && at + span <= memory.Length1
      requires 0 <= sourceRow < source.Length0 && 0 <= sourceAt && sourceAt + span <= source.Length1
      requires 0 <= span && (words ==> span % 4 == 0)
      requires source == memory && row == sourceRow ==> if backwards then sourceAt < at else at <= sourceAt
      modifies memory
      ensures forall o | at <= o < at + span ::
                memory[row, o] == old(source[sourceRow, o - at + sourceAt])
      ensures forall v, o | 0 <= v < memory.Length0 && 0 <= o < memory.Length1 &&
                !(v == row && at <= o < at + span) :: memory[v, o] == old(memory[v, o])
    {
      var size := if words then 4 else 1;
      var count := if words then span / 4 else span;
      assert count * size == span;
      if backwards {
        var index := count;
        while index > 0
          invariant 0 <= index <= count
          invariant forall o | at + index * size <= o < at + span ::
                      memory[row, o] == old(source[sourceRow, o - at + sourceAt])
          invariant forall v, o | 0 <= v < memory.Length0 && 0 <= o < memory.Length1 &&
                      !(v == row && at + index * size <= o < at + span) ::
                      memory[v, o] == old(memory[v, o])
        {
          CopyUnit(row, at + (index - 1) * size, source, sourceRow, sourceAt + (index - 1) * size, size);
          index := index - 1;
        }
      } else {
        var index := 0;
        while index < count
          invariant 0 <= index <= count
          invariant forall o | at <= o < at + index * size ::
                      memory[row, o] == old(source[sourceRow, o - at + sourceAt])
          invariant forall v, o | 0 <= v < memory.Length0 && 0 <= o < memory.Length1 &&
                      !(v == row && at <= o < at + index * size) ::
                      memory[v, o] == old(memory[v, o])
        {
          CopyUnit(row, at + index * size, source, sourceRow, sourceAt + index * size, size);
          index := index + 1;
        }
      }
    }

    /** One byte, or the four bytes of one word read before any is written. */
    method CopyUnit(row: int, at: int, source: array2<Byte>, sourceRow: int, sourceAt: int, size: int)
      requires size == 1 || size == 4
      requires 0 <= row < memory.Length0 && 0 <= at && at + size <= memory.Length1
      requires 0 <= sourceRow < source.Length0 && 0 <= sourceAt && sourceAt + size <= source.Length1
      modifies memory
      ensures forall o | at <= o < at + size ::
                memory[row, o] == old(source[sourceRow, o - at + sourceAt])
      ensures forall v, o | 0 <= v < memory.Length0 && 0 <= o < memory.Length1 &&
                !(v == row && at <= o < at + size) :: memory[v, o] == old(memory[v, o])
    {
      if size == 1 {
        memory[row, at] := source[sourceRow, sourceAt];
      } else {
        memory[row, at], memory[row, at + 1], memory[row, at + 2], memory[row, at + 3] :=
          source[sourceRow, sourceAt], source[sourceRow, sourceAt + 1],
          source[sourceRow, sourceAt + 2], source[sourceRow, sourceAt + 3];
      }
    }

    /** The rectangle, with something in it, lies upon the surface. */
    predicate Upon(r: Rectangle) {
      && 0 < r.width && 0 < r.height
      && 0 <= r.x && r.x + r.width <= width && 0 <= r.y && r.y + r.height <= height
    }

    /** Copies `count` rows of a span of bytes, from the bottom where they lie below their source. */
    method CopyRows(y: int, at: int, source: Surface, fromY: int, sourceAt: int, span: int, count: int,
                    words: bool)
      requires Valid() && source.Shaped()
      requires 0 <= span && 0 <= count && (words ==> span % 4 == 0)
      requires 0 <= y && y + count <= height && 0 <= at && at + span <= pitch
      requires 0 <= fromY && fromY + count <= source.height
      requires 0 <= sourceAt && sourceAt + span <= source.pitch
      modifies memory
      ensures forall v, o | 0 <= v < height && 0 <= o < pitch ::
                memory[v, o] == if y <= v < y + count && at <= o < at + span
                                then old(source.memory[v - y + fromY, o - at + sourceAt])
                                else old(memory[v, o])
    {
      var backwardsRows := memory == source.memory && y > fromY;
      var backwardsColumns := memory == source.memory && y == fromY && at > sourceAt;
      for row := 0 to count
        invariant forall v, o | 0 <= v < height && 0 <= o < pitch ::
                    memory[v, o] ==
                    if y <= v < y + count && at <= o < at + span &&
                       (if backwardsRows then v >= y + count - row else v < y + row)
                    then old(source.memory[v - y + fromY, o - at + sourceAt])
                    else old(memory[v, o])
      {
        var taken := if backwardsRows then count - 1 - row else row;
        CopySpan(y + taken, at, source.memory, fromY + taken, sourceAt, span, words, backwardsColumns);
      }
    }

    /** What the bytes copied come to in pixels. */
    method CopyPixels(placed: Rectangle, source: Surface, fromX: int, fromY: int)
      requires Valid() && source.Shaped() && depth == source.depth
      requires Upon(placed) && source.Upon(placed.(x := fromX, y := fromY))
      modifies memory
      ensures forall u, v | InBounds(u, v) ::
                Pixel(u, v) == if Contains(placed, u, v)
                               then old(source.Pixel(u - placed.x + fromX, v - placed.y + fromY))
                               else old(Pixel(u, v))
      ensures PaddingKept()
    {
      hide Spelled;
      SpanInRow(placed.x, placed.width, width, depth);
      SpanInRow(fromX, placed.width, source.width, depth);
      if wholeWords {
        WholeWords(placed.width, depth);
      }
      CopyRows(placed.y, placed.x * depth, source, fromY, fromX * depth, placed.width * depth,
               placed.height, wholeWords && source.wholeWords);
      forall u, v | InBounds(u, v)
        ensures Pixel(u, v) == if Contains(placed, u, v)
                               then old(source.Pixel(u - placed.x + fromX, v - placed.y + fromY))
                               else old(Pixel(u, v))
      {
        PlaceInRow(u, width, depth);
        PlaceInSpan(u, placed.x, placed.width, fromX, depth);
      }
    }

    /** What of the area can be read from a source of this extent. */
    function Taken(source: Surface, area: Rectangle): Rectangle {
      Intersect(area, Bounds(source.width, source.height))
    }

    /** Whether a blit to (x, y) is carried out rather than refused. */
    predicate BlitAccepted(x: int, y: int, source: Surface?, area: Rectangle) {
      && source != null && depth == source.depth
      && CoordinateIsSound(x) && CoordinateIsSound(y)
      && (IsEmpty(Taken(source, area)) ||
          (CoordinateIsSound(x + Taken(source, area).x - area.x) &&
           CoordinateIsSound(y + Taken(source, area).y - area.y)))
    }

    /** The pixel (u, v) is one the blit brings, from (u - x + area.x, v - y + area.y) of the source. */
    predicate Brought(x: int, y: int, source: Surface, area: Rectangle, u: int, v: int)
      reads this
    {
      && Contains(clip.region, u, v)
      && Contains(area, u - x + area.x, v - y + area.y)
      && source.InBounds(u - x + area.x, v - y + area.y)
    }

    /** Copies an area of a surface, or of this one onto itself, with its top left to (x, y): every
        pixel the clip leaves takes the value its source held before, whatever overlaps. */
    method Blit(x: int, y: int, source: Surface?, area: Rectangle) returns (done: bool)
      requires Valid() && (source != null ==> source.Shaped())
      modifies memory
      ensures done <==> BlitAccepted(x, y, source, area)
      ensures done ==>
                forall u, v | InBounds(u, v) ::
                  Pixel(u, v) == if Brought(x, y, source, area, u, v)
                                 then old(source.Pixel(u - x + area.x, v - y + area.y))
                                 else old(Pixel(u, v))
      ensures !done ==> forall u, v | InBounds(u, v) :: Pixel(u, v) == old(Pixel(u, v))
      ensures PaddingKept()
    {
      hide Spelled;
      if source == null {
        return false;
      }
      if depth != source.depth {
        return false;
      }
      if !CoordinateIsSound(x) || !CoordinateIsSound(y) {
        return false;
      }
      var taken := Intersect(area, Bounds(source.width, source.height));
      if IsEmpty(taken) {
        return true;
      }
      var offsetX := x + (taken.x - area.x);
      var offsetY := y + (taken.y - area.y);
      if !CoordinateIsSound(offsetX) || !CoordinateIsSound(offsetY) {
        return false;
      }
      var placed := Intersect(Rectangle(offsetX, offsetY, taken.width, taken.height), clip.region);
      if IsEmpty(placed) {
        forall u, v | InBounds(u, v)
          ensures !Brought(x, y, source, area, u, v)
        {
        }
        return true;
      }
      taken := Rectangle(taken.x + (placed.x - offsetX), taken.y + (placed.y - offsetY),
                         placed.width, placed.height);
      WithinByCorners(placed, Bounds(width, height));
      forall u, v | InBounds(u, v)
        ensures Brought(x, y, source, area, u, v) <==> Contains(placed, u, v)
      {
      }
      CopyPixels(placed, source, taken.x, taken.y);
      return true;
    }
  }
}
