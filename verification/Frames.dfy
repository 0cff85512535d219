/** The drawing of one window upon the screen's surface: the primitives called add up to its paint. */
module Frames {
  import opened Options
  import opened Rectangles
  import opened Lines
  import opened Surfaces
  import opened Windows

  /** A paint over what stood there. */
  function Over(paint: Option<Colour>, depth: int, below: Colour): Colour {
    if paint.Some? then Truncate(paint.value, depth) else below
  }

  /** Paints an area point by point, within the clip, wherever the paint has a colour. */
  method PaintArea(surface: Surface, area: Rectangle, paint: (int, int) -> Option<Colour>)
    requires surface.Valid()
    modifies surface.memory
    ensures forall u, v | surface.InBounds(u, v) ::
              surface.Pixel(u, v) ==
              if Contains(area, u, v) && Contains(surface.clip.region, u, v)
              then Over(paint(u, v), surface.depth, old(surface.Pixel(u, v)))
              else old(surface.Pixel(u, v))
    ensures surface.PaddingKept()
  {
    hide Truncate, Spelled, Lane;
    for row := 0 to Max(area.height, 0)
      invariant forall u, v | surface.InBounds(u, v) ::
                  surface.Pixel(u, v) ==
                  if Contains(area, u, v) && Contains(surface.clip.region, u, v) && v < area.y + row
                  then Over(paint(u, v), surface.depth, old(surface.Pixel(u, v)))
                  else old(surface.Pixel(u, v))
      invariant surface.PaddingKept()
    {
      for column := 0 to Max(area.width, 0)
        invariant forall u, v | surface.InBounds(u, v) ::
                    surface.Pixel(u, v) ==
                    if Contains(area, u, v) && Contains(surface.clip.region, u, v) &&
                       (v < area.y + row || (v == area.y + row && u < area.x + column))
                    then Over(paint(u, v), surface.depth, old(surface.Pixel(u, v)))
                    else old(surface.Pixel(u, v))
        invariant surface.PaddingKept()
      {
        var x, y := area.x + column, area.y + row;
        var shade := paint(x, y);
        if shade.Some? {
          surface.PutPixel(x, y, shade.value);
        }
      }
    }
  }

  /** Draws a title with the face from a pen, within the clip. */
  method DrawText(screen: Surface, face: TitleFace, title: string, ink: Colour, paper: Colour,
                  penX: int, penY: int)
    requires screen.Valid()
    modifies screen.memory
    ensures forall u, v | screen.InBounds(u, v) ::
              screen.Pixel(u, v) ==
              if Contains(screen.clip.region, u, v)
              then Over(face(title, ink, paper, u - penX, v - penY), screen.depth, old(screen.Pixel(u, v)))
              else old(screen.Pixel(u, v))
    ensures screen.PaddingKept()
  {
    hide Truncate, Spelled, Lane;
    PaintArea(screen, screen.clip.region, (u, v) => face(title, ink, paper, u - penX, v - penY));
  }

  method DrawTitle(screen: Surface, look: Look, w: Window, focused: bool)
    requires screen.Valid() && |screen.clip.saved| < CLIP_DEPTH
    modifies screen`clip, screen.memory
    ensures screen.Valid() && screen.clip == old(screen.clip)
    ensures forall u, v | screen.InBounds(u, v) ::
              screen.Pixel(u, v) ==
              if Contains(screen.clip.region, u, v)
              then Over(TitlePaint(look, w, focused, u, v), screen.depth, old(screen.Pixel(u, v)))
              else old(screen.Pixel(u, v))
    ensures screen.PaddingKept()
  {
    hide Truncate, Spelled, Lane;
    var band := TitleBandOf(w);
    var pushed := screen.PushClip(TitleClipOf(w));
    if !pushed {
      return;
    }
    DrawText(screen, look.face, w.title, Ink(look, focused), BandColour(look, focused),
             band.x + TITLE_INSET, band.y + 4);
    var popped := screen.PopClip();
  }

  method DrawClose(screen: Surface, reach: Rectangle, ink: Colour)
    requires screen.Valid()
    modifies screen.memory
    ensures forall u, v | screen.InBounds(u, v) ::
              screen.Pixel(u, v) ==
              Painted(Contains(screen.clip.region, u, v) &&
                      OnCross(reach.x + CLOSE_REACH, reach.y + CLOSE_REACH, u, v),
                      ink, screen.depth, old(screen.Pixel(u, v)))
    ensures screen.PaddingKept()
  {
    hide Truncate, Spelled, Lane, OnLine;
    var x, y := reach.x + CLOSE_REACH, reach.y + CLOSE_REACH;
    var half := GLYPH_HALF;
    ghost var steps := screen.DrawLine(x - half, y - half, x + half, y + half, ink);
    steps := screen.DrawLine(x - half + 1, y - half, x + half, y + half - 1, ink);
    steps := screen.DrawLine(x + half, y - half, x - half, y + half, ink);
    steps := screen.DrawLine(x + half - 1, y - half, x - half, y + half - 1, ink);
  }

  method DrawSquares(screen: Surface, look: Look, full: bool, focused: bool, left: int, top: int)
    requires screen.Valid()
    modifies screen.memory
    ensures forall u, v | screen.InBounds(u, v) ::
              screen.Pixel(u, v) ==
              if Contains(screen.clip.region, u, v)
              then Over(SquaresPaint(look, full, focused, left, top, u, v), screen.depth,
                        old(screen.Pixel(u, v)))
              else old(screen.Pixel(u, v))
    ensures screen.PaddingKept()
  {
    hide Truncate, Spelled, Lane;
    var ink, paper := Ink(look, focused), BandColour(look, focused);
    var side := 2 * GLYPH_HALF + 1;
    if full {
      screen.DrawRectangle(Rectangle(left + 3, top, side - 3, side - 3), ink);
      screen.FillRectangle(Rectangle(left, top + 3, side - 3, side - 3), paper);
      screen.DrawRectangle(Rectangle(left, top + 3, side - 3, side - 3), ink);
    } else {
      screen.DrawRectangle(Rectangle(left, top, side, side), ink);
      screen.DrawRectangle(Rectangle(left, top + 1, side, 1), ink);
    }
  }

  method DrawControls(screen: Surface, look: Look, w: Window, focused: bool)
    requires screen.Valid() && |screen.clip.saved| < CLIP_DEPTH
    modifies screen`clip, screen.memory
    ensures screen.Valid() && screen.clip == old(screen.clip)
    ensures forall u, v | screen.InBounds(u, v) ::
              screen.Pixel(u, v) ==
              if Contains(screen.clip.region, u, v)
              then Over(ControlsPaint(look, w, focused, u, v), screen.depth, old(screen.Pixel(u, v)))
              else old(screen.Pixel(u, v))
    ensures screen.PaddingKept()
  {
    hide Truncate, Spelled, Lane, SquaresPaint, ControlReachOf, TitleBandOf, Ink, BandColour;
    var full := ControlReachOf(w, FullControl);
    var minimise := ControlReachOf(w, MinimiseControl);
    if IsEmpty(full) {
      return;
    }
    var pushed := screen.PushClip(TitleBandOf(w));
    if !pushed {
      return;
    }
    DrawSquares(screen, look, w.full, focused,
                full.x + CLOSE_REACH - GLYPH_HALF, full.y + CLOSE_REACH - GLYPH_HALF);
    screen.FillRectangle(Rectangle(minimise.x + CLOSE_REACH - GLYPH_HALF,
                                   minimise.y + CLOSE_REACH + GLYPH_HALF - 1, 2 * GLYPH_HALF + 1, 2),
                         Ink(look, focused));
    var popped := screen.PopClip();
  }

  /** The manager's part of a decorated window. */
  method DrawDecoration(screen: Surface, look: Look, w: Window, focused: bool)
    requires screen.Valid() && |screen.clip.saved| < CLIP_DEPTH && w.decorated
    modifies screen`clip, screen.memory
    ensures screen.Valid() && screen.clip == old(screen.clip)
    ensures forall u, v | screen.InBounds(u, v) ::
              screen.Pixel(u, v) ==
              if Contains(screen.clip.region, u, v)
              then Over(FramePaint(look, w, focused, u, v), screen.depth, old(screen.Pixel(u, v)))
              else old(screen.Pixel(u, v))
    ensures screen.PaddingKept()
  {
    hide Truncate, Spelled, Lane, ControlsPaint, TitlePaint, OnCross, OnOutline;
    screen.FillRectangle(TitleBandOf(w), BandColour(look, focused));
    screen.DrawRectangle(FrameOf(w), look.border);
    DrawTitle(screen, look, w, focused);
    DrawClose(screen, CloseReachOf(w), Ink(look, focused));
    DrawControls(screen, look, w, focused);
  }

  /** The window stands where the blit of its content is not refused, or nowhere on the screen. */
  ghost predicate StandsSoundly(w: Window, screen: Surface) {
    forall u, v | screen.InBounds(u, v) && Contains(ContentOf(w), u, v) ::
      CoordinateIsSound(ContentOf(w).x) && CoordinateIsSound(ContentOf(w).y)
  }

  /** Draws one window, within the clip: the frame and then the content. */
  method DrawFrame(screen: Surface, look: Look, w: Window, focused: bool)
    requires screen.Valid() && |screen.clip.saved| < CLIP_DEPTH && screen.depth == look.depth
    requires HasContent(w, look.depth) && w.surface.memory != screen.memory
    requires StandsSoundly(w, screen)
    modifies screen`clip, screen.memory
    ensures screen.Valid() && screen.clip == old(screen.clip)
    ensures forall u, v | screen.InBounds(u, v) ::
              screen.Pixel(u, v) ==
              if Contains(screen.clip.region, u, v) &&
                 PaintOf(look, w, focused, ContentAt(w, u, v), u, v).Some?
              then PaintOf(look, w, focused, ContentAt(w, u, v), u, v).value
              else old(screen.Pixel(u, v))
    ensures screen.PaddingKept()
  {
    hide Truncate, Spelled, Lane, FramePaint;
    var content := ContentOf(w);
    var bounds := Bounds(w.surface.width, w.surface.height);
    NoFrame(look, w, focused);
    if w.decorated {
      DrawDecoration(screen, look, w, focused);
    }
    var done := screen.Blit(content.x, content.y, w.surface, bounds);
  }

  lemma NoFrame(look: Look, w: Window, focused: bool)
    ensures !w.decorated ==> forall x, y :: FramePaint(look, w, focused, x, y) == None
  {
  }
}
