/** The windows: where each stands, and what it shows at each point of the screen. */
module Windows {
  import opened Options
  import opened Rectangles
  import opened Lines
  import opened Surfaces
  import opened Events

  const BORDER := 1
  const TITLE_HEIGHT := 24
  const MINIMUM_EXTENT := 16
  const MAXIMUM_EXTENT := 4096
  const REACHABLE_WIDTH := 48
  const CLOSE_INSET := 14
  const CLOSE_REACH := 12
  const CONTROL_SPACING := 26
  const GLYPH_HALF := 5
  const CONTROLS_MINIMUM_WIDTH := 120
  const TITLE_INSET := 8
  const TITLE_CAPACITY := 31
  const WINDOW_NONE := -1

  datatype Layer = Root | Normal | Panel

  function Rank(layer: Layer): int {
    match layer case Root => 0 case Normal => 1 case Panel => 2
  }

  datatype Control = CloseControl | FullControl | MinimiseControl

  datatype Window = Window(
    inUse: bool,
    x: int, y: int, width: int, height: int,
    title: string,
    owner: nat,
    layer: Layer, decorated: bool,
    minimised: bool, full: bool,
    restoreX: int, restoreY: int, restoreWidth: int, restoreHeight: int,
    surface: Surface?,
    ring: Ring)

  /** A slot of the table no window has been made in. */
  function BlankSlot(): Window {
    Window(false, 0, 0, 0, 0, "", 0, Root, false, false, false, 0, 0, 0, 0, null, EmptyRing())
  }

  // -------------------------------------------------------------------- geometry

  function FrameOf(w: Window): Rectangle {
    if !w.decorated then Rectangle(w.x, w.y, w.width, w.height)
    else Rectangle(w.x, w.y, w.width + 2 * BORDER, w.height + TITLE_HEIGHT + 2 * BORDER)
  }

  function ContentOf(w: Window): Rectangle {
    if !w.decorated then Rectangle(w.x, w.y, w.width, w.height)
    else Rectangle(w.x + BORDER, w.y + BORDER + TITLE_HEIGHT, w.width, w.height)
  }

  function TitleBandOf(w: Window): Rectangle {
    if !w.decorated then Nowhere
    else Rectangle(w.x + BORDER, w.y + BORDER, w.width, TITLE_HEIGHT)
  }

  function Place(control: Control): int {
    match control case CloseControl => 0 case FullControl => 1 case MinimiseControl => 2
  }

  function ControlReachOf(w: Window, control: Control): Rectangle {
    var frame := FrameOf(w);
    if !w.decorated || (!control.CloseControl? && frame.width < CONTROLS_MINIMUM_WIDTH) then Nowhere
    else
      var centreX := frame.x + frame.width - BORDER - CLOSE_INSET - Place(control) * CONTROL_SPACING;
      var centreY := frame.y + BORDER + TITLE_HEIGHT / 2;
      Rectangle(centreX - CLOSE_REACH, centreY - CLOSE_REACH, 2 * CLOSE_REACH + 1, 2 * CLOSE_REACH + 1)
  }

  function CloseReachOf(w: Window): Rectangle { ControlReachOf(w, CloseControl) }

  function ReachWidth(width: int): int { Min(REACHABLE_WIDTH, width + 2 * BORDER) }

  /** A coordinate held between two bounds, the upper one having the last word. */
  function Clamp(value: int, low: int, high: int): int { Min(Max(value, low), high) }

  /** Where a frame of this content width asked to stand at x is made to stand. */
  function ConfineX(screenWidth: int, width: int, x: int): int {
    Clamp(x, ReachWidth(width) - (width + 2 * BORDER), screenWidth - ReachWidth(width))
  }

  function ConfineY(screenHeight: int, y: int): int {
    Clamp(y, 0, screenHeight - (TITLE_HEIGHT + 2 * BORDER))
  }

  predicate Confined(screenWidth: int, screenHeight: int, width: int, x: int, y: int) {
    ConfineX(screenWidth, width, x) == x && ConfineY(screenHeight, y) == y
  }

  /** The whole height of the title band is on the screen and so is the width that a person can
      take hold of. */
  predicate Reachable(screenWidth: int, screenHeight: int, width: int, x: int, y: int) {
    && 0 <= y && y + TITLE_HEIGHT + 2 * BORDER <= screenHeight
    && x + (width + 2 * BORDER) >= ReachWidth(width) && x <= screenWidth - ReachWidth(width)
  }

  /** The screen has room for a band's height, and for what must be reached of a frame from either side. */
  predicate HoldsBands(screenWidth: int, screenHeight: int, width: int) {
    screenHeight >= TITLE_HEIGHT + 2 * BORDER && screenWidth + (width + 2 * BORDER) >= 2 * ReachWidth(width)
  }

  /** Confining twice is confining once, and the reachable frames are the confined ones of a screen with
      room for a band. */
  lemma ConfinedIsReachable(screenWidth: int, screenHeight: int, width: int, x: int, y: int)
    requires MINIMUM_EXTENT <= width
    ensures Confined(screenWidth, screenHeight, width,
                     ConfineX(screenWidth, width, x), ConfineY(screenHeight, y))
    ensures Reachable(screenWidth, screenHeight, width, x, y) <==>
            Confined(screenWidth, screenHeight, width, x, y) && HoldsBands(screenWidth, screenHeight, width)
  {
  }

  function Gap(a: int, b: int): nat { if a < b then b - a else a - b }

  /** The place a frame is made to stand is the reachable one nearest to where it was asked to, along either
      axis, and the only nearest one. */
  lemma ConfinedIsNearest(screenWidth: int, screenHeight: int, width: int, x: int, y: int, x': int, y': int)
    requires MINIMUM_EXTENT <= width && Reachable(screenWidth, screenHeight, width, x', y')
    ensures var confinedX, confinedY := ConfineX(screenWidth, width, x), ConfineY(screenHeight, y);
            && Reachable(screenWidth, screenHeight, width, confinedX, confinedY)
            && (x' == confinedX || Gap(confinedX, x) < Gap(x', x))
            && (y' == confinedY || Gap(confinedY, y) < Gap(y', y))
  {
  }

  /** Where the screen has no room for a band, the bound at its right or at its foot has the last word, wherever
      the frame was asked to stand. */
  lemma ConfinedWithoutRoom(screenWidth: int, screenHeight: int, width: int, x: int, y: int)
    requires MINIMUM_EXTENT <= width
    ensures screenWidth + (width + 2 * BORDER) < 2 * ReachWidth(width) ==>
              ConfineX(screenWidth, width, x) == screenWidth - ReachWidth(width)
    ensures screenHeight < TITLE_HEIGHT + 2 * BORDER ==>
              ConfineY(screenHeight, y) == screenHeight - (TITLE_HEIGHT + 2 * BORDER)
  {
  }

  /** A frame is within reach exactly where its band is on the screen in height and at least 48 columns of it,
      or all it has, are on the screen in width. */
  lemma ReachableShows(screenWidth: int, screenHeight: int, width: int, x: int, y: int)
    requires MINIMUM_EXTENT <= width && screenWidth >= REACHABLE_WIDTH
    ensures Reachable(screenWidth, screenHeight, width, x, y) <==>
            && 0 <= y && y + TITLE_HEIGHT + 2 * BORDER <= screenHeight
            && Min(x + width + 2 * BORDER, screenWidth) - Max(x, 0) >= Min(REACHABLE_WIDTH, width + 2 * BORDER)
  {
  }

  // ---------------------------------------------------------------- what is drawn

  /** The face, as far as the frame needs it: the pixel it gives a title at a place relative to its
      pen, in an ink over a paper, or none where it leaves the paper alone. */
  type TitleFace = (string, Colour, Colour, int, int) -> Option<Colour>

  datatype Look = Look(
    depth: int,
    ground: Colour, paper: Colour, border: Colour,
    titleFocused: Colour, titleUnfocused: Colour,
    textFocused: Colour, textUnfocused: Colour,
    face: TitleFace)

  function BandColour(look: Look, focused: bool): Colour {
    if focused then look.titleFocused else look.titleUnfocused
  }

  function Ink(look: Look, focused: bool): Colour {
    if focused then look.textFocused else look.textUnfocused
  }

  /** The part of the band the title may use: short of the leftmost control. */
  function TitleClipOf(w: Window): Rectangle {
    var band := TitleBandOf(w);
    var leftmost := ControlReachOf(w, MinimiseControl);
    var reach := if IsEmpty(leftmost) then CloseReachOf(w) else leftmost;
    Rectangle(band.x, band.y, reach.x - band.x, band.height)
  }

  function TitlePaint(look: Look, w: Window, focused: bool, x: int, y: int): Option<Colour> {
    var band := TitleBandOf(w);
    if Contains(TitleClipOf(w), x, y)
    then look.face(w.title, Ink(look, focused), BandColour(look, focused),
                   x - (band.x + TITLE_INSET), y - (band.y + 4))
    else None
  }

  predicate OnStroke(x0: int, y0: int, x1: int, y1: int, x: int, y: int) {
    && CoordinateIsSound(x0) && CoordinateIsSound(y0) && CoordinateIsSound(x1) && CoordinateIsSound(y1)
    && OnLine(x0, y0, x1, y1, x, y)
  }

  /** The cross of the close control about its centre: two strokes, each two pixels wide. */
  predicate OnCross(cx: int, cy: int, x: int, y: int) {
    || OnStroke(cx - GLYPH_HALF, cy - GLYPH_HALF, cx + GLYPH_HALF, cy + GLYPH_HALF, x, y)
    || OnStroke(cx - GLYPH_HALF + 1, cy - GLYPH_HALF, cx + GLYPH_HALF, cy + GLYPH_HALF - 1, x, y)
    || OnStroke(cx + GLYPH_HALF, cy - GLYPH_HALF, cx - GLYPH_HALF, cy + GLYPH_HALF, x, y)
    || OnStroke(cx + GLYPH_HALF - 1, cy - GLYPH_HALF, cx - GLYPH_HALF, cy + GLYPH_HALF - 1, x, y)
  }

  predicate CrossAt(w: Window, x: int, y: int) {
    var reach := CloseReachOf(w);
    OnCross(reach.x + CLOSE_REACH, reach.y + CLOSE_REACH, x, y)
  }

  /** The middle control's glyph from its top left corner: a framed square, or for a full window a
      square over part of another. */
  function SquaresPaint(look: Look, full: bool, focused: bool, left: int, top: int, x: int, y: int)
    : Option<Colour>
  {
    if full then
      if OnOutline(Rectangle(left, top + 3, 8, 8), x, y) then Some(Ink(look, focused))
      else if Contains(Rectangle(left, top + 3, 8, 8), x, y) then Some(BandColour(look, focused))
      else if OnOutline(Rectangle(left + 3, top, 8, 8), x, y) then Some(Ink(look, focused))
      else None
    else if OnOutline(Rectangle(left, top, 11, 11), x, y) ||
            OnOutline(Rectangle(left, top + 1, 11, 1), x, y) then Some(Ink(look, focused))
    else None
  }

  /** What the two inner controls paint, of which only the band shows anything. */
  function ControlsPaint(look: Look, w: Window, focused: bool, x: int, y: int): Option<Colour> {
    var full := ControlReachOf(w, FullControl);
    var minimise := ControlReachOf(w, MinimiseControl);
    var bar := Rectangle(minimise.x + CLOSE_REACH - GLYPH_HALF,
                         minimise.y + CLOSE_REACH + GLYPH_HALF - 1, 11, 2);
    if IsEmpty(full) || !Contains(TitleBandOf(w), x, y) then None
    else if Contains(bar, x, y) then Some(Ink(look, focused))
    else SquaresPaint(look, w.full, focused, full.x + CLOSE_REACH - GLYPH_HALF,
                      full.y + CLOSE_REACH - GLYPH_HALF, x, y)
  }

  /** The manager's own part of a window, in the order it is drawn, the last on top. */
  function FramePaint(look: Look, w: Window, focused: bool, x: int, y: int): Option<Colour> {
    if !w.decorated then None
    else if ControlsPaint(look, w, focused, x, y).Some? then ControlsPaint(look, w, focused, x, y)
    else if CrossAt(w, x, y) then Some(Ink(look, focused))
    else if TitlePaint(look, w, focused, x, y).Some? then TitlePaint(look, w, focused, x, y)
    else if OnOutline(FrameOf(w), x, y) then Some(look.border)
    else if Contains(TitleBandOf(w), x, y) then Some(BandColour(look, focused))
    else None
  }

  // ------------------------------------------------------- what stands where in a frame

  /** A decorated frame is its outline, its band and its content, and each of its points is of one of them. */
  lemma FrameParts(w: Window, x: int, y: int)
    requires w.decorated && w.width > 0 && w.height > 0
    ensures Contains(FrameOf(w), x, y) <==>
            OnOutline(FrameOf(w), x, y) || Contains(TitleBandOf(w), x, y) || Contains(ContentOf(w), x, y)
    ensures !(OnOutline(FrameOf(w), x, y) && Contains(TitleBandOf(w), x, y))
    ensures !(OnOutline(FrameOf(w), x, y) && Contains(ContentOf(w), x, y))
    ensures !(Contains(TitleBandOf(w), x, y) && Contains(ContentOf(w), x, y))
    ensures Contains(TitleBandOf(w), x, y) ==> y < ContentOf(w).y
  {
  }

  /** From the right the reaches of the controls are those of closing, of filling the screen and of minimising,
      and no two of them meet. */
  lemma ReachesInOrder(w: Window)
    requires w.decorated && FrameOf(w).width >= CONTROLS_MINIMUM_WIDTH
    ensures var close, full, minimise := CloseReachOf(w), ControlReachOf(w, FullControl),
                                         ControlReachOf(w, MinimiseControl);
            && TitleBandOf(w).x < minimise.x && minimise.x + minimise.width < full.x
            && full.x + full.width < close.x && close.x + close.width < FrameOf(w).x + FrameOf(w).width
            && !IsEmpty(minimise) && !IsEmpty(full) && !IsEmpty(close)
  {
  }

  /** Where a control's glyph is centred. */
  function CentreX(w: Window, control: Control): int { ControlReachOf(w, control).x + CLOSE_REACH }

  function CentreY(w: Window, control: Control): int { ControlReachOf(w, control).y + CLOSE_REACH }

  /** Within the reach of a control the band shows that control's glyph: a bar at the foot for minimising; for
      filling the screen a square with a heavy top, or one square over part of another; and nothing elsewhere. */
  lemma ControlsShowWhereTheyAct(look: Look, w: Window, focused: bool, x: int, y: int)
    requires w.decorated && FrameOf(w).width >= CONTROLS_MINIMUM_WIDTH && Contains(TitleBandOf(w), x, y)
    ensures Contains(ControlReachOf(w, MinimiseControl), x, y) ==>
              var dx, dy := x - CentreX(w, MinimiseControl), y - CentreY(w, MinimiseControl);
              ControlsPaint(look, w, focused, x, y) ==
              if -5 <= dx <= 5 && 4 <= dy <= 5 then Some(Ink(look, focused)) else None
    ensures Contains(ControlReachOf(w, FullControl), x, y) && !w.full ==>
              var dx, dy := x - CentreX(w, FullControl), y - CentreY(w, FullControl);
              ControlsPaint(look, w, focused, x, y) ==
              if -5 <= dx <= 5 && -5 <= dy <= 5 && (dx == -5 || dx == 5 || dy <= -4 || dy == 5)
              then Some(Ink(look, focused)) else None
    ensures Contains(ControlReachOf(w, FullControl), x, y) && w.full ==>
              var dx, dy := x - CentreX(w, FullControl), y - CentreY(w, FullControl);
              ControlsPaint(look, w, focused, x, y) ==
              if -5 <= dx <= 2 && -2 <= dy <= 5
              then Some(if dx == -5 || dx == 2 || dy == -2 || dy == 5 then Ink(look, focused)
                        else BandColour(look, focused))
              else if -2 <= dx <= 5 && -5 <= dy <= 2 && (dx == 5 || dy == -5 || dx == -2 || dy == 2)
              then Some(Ink(look, focused)) else None
    ensures !Contains(ControlReachOf(w, MinimiseControl), x, y) && !Contains(ControlReachOf(w, FullControl), x, y) ==>
              ControlsPaint(look, w, focused, x, y).None?
  {
  }

  /** A window too narrow for them shows neither of the two inner controls. */
  lemma NoControls(look: Look, w: Window, focused: bool, x: int, y: int)
    requires !w.decorated || FrameOf(w).width < CONTROLS_MINIMUM_WIDTH
    ensures ControlsPaint(look, w, focused, x, y).None?
  {
  }

  /** The window's content is a surface of its extent. */
  ghost predicate HasContent(w: Window, depth: int) {
    && w.surface != null && w.surface.Shaped()
    && w.surface.width == w.width && w.surface.height == w.height && w.surface.depth == depth
  }

  /** The pixel of a window's content at a point of the screen. */
  ghost function ContentAt(w: Window, x: int, y: int): Colour
    reads if w.surface != null then {w.surface.memory} else {}
  {
    var content := ContentOf(w);
    if w.surface != null && w.surface.Shaped() && w.surface.InBounds(x - content.x, y - content.y)
    then w.surface.Pixel(x - content.x, y - content.y) else 0
  }

  /** The content stands with its first pixel at the corner of its rectangle. */
  lemma ContentFromItsCorner(w: Window, depth: int, u: int, v: int)
    requires HasContent(w, depth) && 0 <= u < w.width && 0 <= v < w.height
    ensures ContentAt(w, ContentOf(w).x + u, ContentOf(w).y + v) == w.surface.Pixel(u, v)
  {
  }

  /** What a window paints at a point of the screen, or none where it leaves it alone; `content` is
      its content's pixel there. */
  function PaintOf(look: Look, w: Window, focused: bool, content: Colour, x: int, y: int): Option<Colour> {
    if Contains(ContentOf(w), x, y) then Some(content)
    else
      var frame := FramePaint(look, w, focused, x, y);
      if frame.Some? then Some(Truncate(frame.value, look.depth)) else None
  }

  // ------------------------------------------------------ where the painting stays

  /** The narrowest content whose close glyph lies inside the frame, and inside the band. */
  const WIDTH_FOR_FRAME := 18
  const WIDTH_FOR_BAND := 19

  ghost predicate CrossInside(w: Window, r: Rectangle) {
    forall x, y | CrossAt(w, x, y) :: Contains(r, x, y)
  }

  /** Where the cross is drawn at all. */
  predicate CrossIsSound(w: Window) {
    var reach := CloseReachOf(w);
    && CoordinateIsSound(reach.x + CLOSE_REACH - GLYPH_HALF)
    && CoordinateIsSound(reach.x + CLOSE_REACH + GLYPH_HALF)
    && CoordinateIsSound(reach.y + CLOSE_REACH - GLYPH_HALF)
    && CoordinateIsSound(reach.y + CLOSE_REACH + GLYPH_HALF)
  }

  lemma CrossInBox(cx: int, cy: int, x: int, y: int)
    requires OnCross(cx, cy, x, y)
    ensures cx - GLYPH_HALF <= x <= cx + GLYPH_HALF && cy - GLYPH_HALF <= y <= cy + GLYPH_HALF
  {
    hide OnLine;
    if OnStroke(cx - GLYPH_HALF, cy - GLYPH_HALF, cx + GLYPH_HALF, cy + GLYPH_HALF, x, y) {
      OnLineInBox(cx - GLYPH_HALF, cy - GLYPH_HALF, cx + GLYPH_HALF, cy + GLYPH_HALF, x, y);
    } else if OnStroke(cx - GLYPH_HALF + 1, cy - GLYPH_HALF, cx + GLYPH_HALF, cy + GLYPH_HALF - 1, x, y) {
      OnLineInBox(cx - GLYPH_HALF + 1, cy - GLYPH_HALF, cx + GLYPH_HALF, cy + GLYPH_HALF - 1, x, y);
    } else if OnStroke(cx + GLYPH_HALF, cy - GLYPH_HALF, cx - GLYPH_HALF, cy + GLYPH_HALF, x, y) {
      OnLineInBox(cx + GLYPH_HALF, cy - GLYPH_HALF, cx - GLYPH_HALF, cy + GLYPH_HALF, x, y);
    } else {
      OnLineInBox(cx + GLYPH_HALF - 1, cy - GLYPH_HALF, cx - GLYPH_HALF, cy + GLYPH_HALF - 1, x, y);
    }
  }

  /** The cross is drawn within the reach of the close control. */
  lemma CrossIsWithinReach(w: Window, x: int, y: int)
    requires w.decorated && CrossAt(w, x, y)
    ensures Contains(CloseReachOf(w), x, y)
  {
    hide OnCross;
    var reach := CloseReachOf(w);
    CrossInBox(reach.x + CLOSE_REACH, reach.y + CLOSE_REACH, x, y);
  }

  /** What a frame shows, the glyphs of its controls apart: its border on its outline; the title, where the face
      gives it ink or paper, left of every control; and the band's colour elsewhere in the band. */
  lemma FrameShows(look: Look, w: Window, focused: bool, x: int, y: int)
    requires w.decorated && w.width >= WIDTH_FOR_BAND && w.height > 0
    ensures OnOutline(FrameOf(w), x, y) ==> FramePaint(look, w, focused, x, y) == Some(look.border)
    ensures Contains(TitleBandOf(w), x, y) ==>
              var band := if focused then look.titleFocused else look.titleUnfocused;
              var ink := if focused then look.textFocused else look.textUnfocused;
              var title := look.face(w.title, ink, band, x - TitleBandOf(w).x - TITLE_INSET, y - TitleBandOf(w).y - 4);
              && (x < LeftmostReach(w) ==>
                    FramePaint(look, w, focused, x, y) == if title.Some? then title else Some(band))
              && (x >= LeftmostReach(w) && !CrossAt(w, x, y) && ControlsPaint(look, w, focused, x, y).None? ==>
                    FramePaint(look, w, focused, x, y) == Some(band))
              && (CrossAt(w, x, y) ==> FramePaint(look, w, focused, x, y) == Some(ink))
              && Ink(look, focused) == ink
  {
    hide OnCross, SquaresPaint;
    if CrossAt(w, x, y) {
      CrossIsWithinReach(w, x, y);
      var reach := CloseReachOf(w);
      CrossInBox(reach.x + CLOSE_REACH, reach.y + CLOSE_REACH, x, y);
    }
    if Contains(TitleBandOf(w), x, y) {
      if FrameOf(w).width >= CONTROLS_MINIMUM_WIDTH {
        ReachesInOrder(w);
        ControlsShowWhereTheyAct(look, w, focused, x, y);
      } else {
        NoControls(look, w, focused, x, y);
      }
    }
  }

  /** Where the leftmost control a window has begins. */
  function LeftmostReach(w: Window): int {
    if FrameOf(w).width >= CONTROLS_MINIMUM_WIDTH then ControlReachOf(w, MinimiseControl).x else CloseReachOf(w).x
  }

  /** The close glyph stays inside the frame exactly when the content is at least 18 wide, and inside
      the band exactly when it is at least 19 — where a window may be as narrow as 16. */
  lemma CrossInsideWhenWide(w: Window)
    requires w.decorated && w.width >= MINIMUM_EXTENT && w.height >= MINIMUM_EXTENT && CrossIsSound(w)
    ensures CrossInside(w, FrameOf(w)) <==> w.width >= WIDTH_FOR_FRAME
    ensures CrossInside(w, TitleBandOf(w)) <==> w.width >= WIDTH_FOR_BAND
  {
    hide OnCross;
    var reach := CloseReachOf(w);
    var cx, cy := reach.x + CLOSE_REACH, reach.y + CLOSE_REACH;
    forall x, y | CrossAt(w, x, y)
      ensures cx - GLYPH_HALF <= x <= cx + GLYPH_HALF && cy - GLYPH_HALF <= y <= cy + GLYPH_HALF
    {
      CrossInBox(cx, cy, x, y);
    }
    CrossBegins(cx, cy);
    assert CrossAt(w, cx - GLYPH_HALF, cy - GLYPH_HALF);
  }

  lemma CrossBegins(cx: int, cy: int)
    requires CoordinateIsSound(cx - GLYPH_HALF) && CoordinateIsSound(cx + GLYPH_HALF)
    requires CoordinateIsSound(cy - GLYPH_HALF) && CoordinateIsSound(cy + GLYPH_HALF)
    ensures OnCross(cx, cy, cx - GLYPH_HALF, cy - GLYPH_HALF)
  {
  }

  /** A window wide enough paints exactly its frame: every point of it and none besides. */
  lemma PaintsItsFrame(look: Look, w: Window, focused: bool, content: Colour, x: int, y: int)
    requires w.decorated ==> w.width >= WIDTH_FOR_FRAME
    requires w.width >= MINIMUM_EXTENT && w.height >= MINIMUM_EXTENT
    ensures PaintOf(look, w, focused, content, x, y).Some? <==> Contains(FrameOf(w), x, y)
  {
    hide OnCross, Truncate;
    if w.decorated && CrossAt(w, x, y) {
      var reach := CloseReachOf(w);
      CrossInBox(reach.x + CLOSE_REACH, reach.y + CLOSE_REACH, x, y);
    }
  }

  /** A decorated window paints outside its frame exactly when its content is narrower than 18, which a
      creation permits: what is damaged when it moves then leaves pixels of its glyph behind. */
  lemma PaintsOutsideWhenNarrow(look: Look, w: Window, focused: bool, content: Colour)
    requires w.decorated && w.width >= MINIMUM_EXTENT && w.height >= MINIMUM_EXTENT && CrossIsSound(w)
    ensures (exists x, y :: PaintOf(look, w, focused, content, x, y).Some? && !Contains(FrameOf(w), x, y)) <==>
            w.width < WIDTH_FOR_FRAME
  {
    hide OnCross, Truncate, TitlePaint, ControlsPaint;
    CrossInsideWhenWide(w);
    if w.width < WIDTH_FOR_FRAME {
      var x, y :| CrossAt(w, x, y) && !Contains(FrameOf(w), x, y);
      assert PaintOf(look, w, focused, content, x, y).Some?;
    } else {
      forall x, y | PaintOf(look, w, focused, content, x, y).Some? ensures Contains(FrameOf(w), x, y) {
        PaintsItsFrame(look, w, focused, content, x, y);
      }
    }
  }

  /** Whether a window holds the focus shows in its title band and nowhere else. */
  lemma FocusShowsInTheBand(look: Look, w: Window, content: Colour, x: int, y: int)
    requires w.decorated ==> w.width >= WIDTH_FOR_BAND
    requires !Contains(TitleBandOf(w), x, y)
    ensures PaintOf(look, w, true, content, x, y) == PaintOf(look, w, false, content, x, y)
  {
    hide OnCross, Truncate;
    if w.decorated && CrossAt(w, x, y) {
      var reach := CloseReachOf(w);
      CrossInBox(reach.x + CLOSE_REACH, reach.y + CLOSE_REACH, x, y);
    }
  }

  // ------------------------------------------- what too narrow a window shows on the screen

  /** The cross, by its distances from the centre. */
  predicate OnDiagonals(u: int, v: int) {
    || (u == v && -GLYPH_HALF <= v <= GLYPH_HALF)
    || (u == v + 1 && -GLYPH_HALF <= v < GLYPH_HALF)
    || (u == -v && -GLYPH_HALF <= v <= GLYPH_HALF)
    || (u == -v - 1 && -GLYPH_HALF <= v < GLYPH_HALF)
  }

  lemma StrokeRight(x0: int, y0: int, side: int, x: int, y: int)
    requires 0 < side
    ensures OnLine(x0, y0, x0 + side, y0 + side, x, y) <==> 0 <= y - y0 <= side && x - x0 == y - y0
  {
    if OnLine(x0, y0, x0 + side, y0 + side, x, y) {
      NearOnDiagonal(side, x - x0, y - y0);
    }
  }

  lemma StrokeLeft(x0: int, y0: int, side: int, x: int, y: int)
    requires 0 < side
    ensures OnLine(x0, y0, x0 - side, y0 + side, x, y) <==> 0 <= y - y0 <= side && x0 - x == y - y0
  {
    if OnLine(x0, y0, x0 - side, y0 + side, x, y) {
      NearOnDiagonal(side, x0 - x, y - y0);
    }
  }

  lemma CrossIsDiagonals(cx: int, cy: int, x: int, y: int)
    requires CoordinateIsSound(cx - GLYPH_HALF) && CoordinateIsSound(cx + GLYPH_HALF)
    requires CoordinateIsSound(cy - GLYPH_HALF) && CoordinateIsSound(cy + GLYPH_HALF)
    ensures OnCross(cx, cy, x, y) <==> OnDiagonals(x - cx, y - cy)
  {
    hide OnLine;
    StrokeRight(cx - GLYPH_HALF, cy - GLYPH_HALF, 2 * GLYPH_HALF, x, y);
    StrokeRight(cx - GLYPH_HALF + 1, cy - GLYPH_HALF, 2 * GLYPH_HALF - 1, x, y);
    StrokeLeft(cx + GLYPH_HALF, cy - GLYPH_HALF, 2 * GLYPH_HALF, x, y);
    StrokeLeft(cx + GLYPH_HALF - 1, cy - GLYPH_HALF, 2 * GLYPH_HALF - 1, x, y);
  }

  predicate OnScreen(screenWidth: int, screenHeight: int, x: int, y: int) {
    0 <= x < screenWidth && 0 <= y < screenHeight
  }

  /** How tall a screen must be for the lowest tip of the glyph left of the band to be upon it. Every
      screen a band can be read upon is taller. */
  function TipHeight(w: Window): int { 8 + Max(0, WIDTH_FOR_FRAME - w.width - w.x) }

  /** The leftmost column of the glyph that can be on the screen, and its lowest row there. */
  function TipColumn(w: Window): int { Max(0, w.x + w.width - WIDTH_FOR_FRAME) }

  function TipRow(w: Window): int { w.y + Min(w.x + w.width, WIDTH_FOR_FRAME) }

  ghost predicate Confinable(w: Window, screenWidth: int, screenHeight: int) {
    && w.decorated && MINIMUM_EXTENT <= w.width <= MAXIMUM_EXTENT && MINIMUM_EXTENT <= w.height <= MAXIMUM_EXTENT
    && 1 <= screenWidth <= COORDINATE_LIMIT && 1 <= screenHeight <= COORDINATE_LIMIT
    && Confined(screenWidth, screenHeight, w.width, w.x, w.y)
  }

  /** A narrow window's glyph, left of the band, is where its ink is painted. */
  lemma TipIsInk(look: Look, w: Window, focused: bool, content: Colour, screenWidth: int, screenHeight: int)
    requires Confinable(w, screenWidth, screenHeight) && w.width < WIDTH_FOR_BAND && w.x >= 0
    ensures PaintOf(look, w, focused, content, TipColumn(w), TipRow(w)) ==
            Some(Truncate(Ink(look, focused), look.depth))
    ensures !Contains(TitleBandOf(w), TipColumn(w), TipRow(w))
    ensures screenHeight >= TipHeight(w) ==> OnScreen(screenWidth, screenHeight, TipColumn(w), TipRow(w))
  {
    hide OnCross, Truncate;
    var reach := CloseReachOf(w);
    CrossIsDiagonals(reach.x + CLOSE_REACH, reach.y + CLOSE_REACH, TipColumn(w), TipRow(w));
    assert CrossAt(w, TipColumn(w), TipRow(w));
    assert FramePaint(look, w, focused, TipColumn(w), TipRow(w)) == Some(Ink(look, focused));
  }

  lemma TipIsLeft(w: Window)
    requires w.decorated && w.width < WIDTH_FOR_FRAME && w.x > 0
    ensures !Contains(FrameOf(w), TipColumn(w), TipRow(w))
  {
  }

  /** No point of a narrow window's glyph left of the band is lower than the tip. */
  lemma TipIsLowest(w: Window, screenWidth: int, screenHeight: int, x: int, y: int)
    requires Confinable(w, screenWidth, screenHeight) && w.width < WIDTH_FOR_BAND
    requires CrossAt(w, x, y) && !Contains(TitleBandOf(w), x, y) && 0 <= x
    ensures x <= w.x && y <= TipRow(w)
  {
    hide OnCross;
    var reach := CloseReachOf(w);
    CrossIsDiagonals(reach.x + CLOSE_REACH, reach.y + CLOSE_REACH, x, y);
  }

  /** On the screen the focus shows in a window's band alone. */
  ghost predicate FocusKeepsToBand(look: Look, w: Window, content: Colour, screenWidth: int, screenHeight: int) {
    forall x, y | OnScreen(screenWidth, screenHeight, x, y) && !Contains(TitleBandOf(w), x, y) ::
      PaintOf(look, w, true, content, x, y) == PaintOf(look, w, false, content, x, y)
  }

  /** On the screen all a window paints lies in its frame. */
  ghost predicate PaintKeepsToFrame(look: Look, w: Window, focused: bool, content: Colour,
                                    screenWidth: int, screenHeight: int) {
    forall x, y | OnScreen(screenWidth, screenHeight, x, y) && PaintOf(look, w, focused, content, x, y).Some? ::
      Contains(FrameOf(w), x, y)
  }

  /** On the screen the focus shows in the band alone exactly for a content at least 19 wide, unless the
      screen is too small to show where a narrower one's glyph leaves the band. */
  lemma FocusShowsOutsideTheBand(look: Look, w: Window, content: Colour, screenWidth: int, screenHeight: int)
    requires Confinable(w, screenWidth, screenHeight)
    requires Truncate(Ink(look, true), look.depth) != Truncate(Ink(look, false), look.depth)
    ensures FocusKeepsToBand(look, w, content, screenWidth, screenHeight) <==>
            w.width >= WIDTH_FOR_BAND || w.x < 0 || screenHeight < TipHeight(w)
    ensures HoldsBands(screenWidth, screenHeight, w.width) ==>
              (FocusKeepsToBand(look, w, content, screenWidth, screenHeight) <==> w.width >= WIDTH_FOR_BAND)
  {
    hide OnCross, Truncate, PaintOf, CrossAt;
    if w.width < WIDTH_FOR_BAND && w.x >= 0 && screenHeight >= TipHeight(w) {
      TipIsInk(look, w, true, content, screenWidth, screenHeight);
      TipIsInk(look, w, false, content, screenWidth, screenHeight);
    } else {
      forall x, y | OnScreen(screenWidth, screenHeight, x, y) && !Contains(TitleBandOf(w), x, y)
        ensures PaintOf(look, w, true, content, x, y) == PaintOf(look, w, false, content, x, y)
      {
        if w.width >= WIDTH_FOR_BAND {
          FocusShowsInTheBand(look, w, content, x, y);
        } else {
          if CrossAt(w, x, y) {
            TipIsLowest(w, screenWidth, screenHeight, x, y);
          }
          FocusShowsInBandAndGlyph(look, w, content, x, y);
        }
      }
    }
  }

  lemma FocusShowsInBandAndGlyph(look: Look, w: Window, content: Colour, x: int, y: int)
    requires !Contains(TitleBandOf(w), x, y) && !CrossAt(w, x, y)
    ensures PaintOf(look, w, true, content, x, y) == PaintOf(look, w, false, content, x, y)
  {
    hide CrossAt, Truncate;
  }

  /** On the screen all a window paints lies in its frame exactly for a content at least 18 wide, or at
      the screen's left edge, unless the screen is too small to show where a narrower one's glyph leaves it. */
  lemma PaintStaysInTheFrame(look: Look, w: Window, focused: bool, content: Colour,
                             screenWidth: int, screenHeight: int)
    requires Confinable(w, screenWidth, screenHeight)
    ensures PaintKeepsToFrame(look, w, focused, content, screenWidth, screenHeight) <==>
            w.width >= WIDTH_FOR_FRAME || w.x <= 0 || screenHeight < TipHeight(w)
    ensures HoldsBands(screenWidth, screenHeight, w.width) ==>
              (PaintKeepsToFrame(look, w, focused, content, screenWidth, screenHeight) <==>
               w.width >= WIDTH_FOR_FRAME || w.x == 0)
  {
    hide OnCross, Truncate, PaintOf, CrossAt;
    if w.width < WIDTH_FOR_FRAME && w.x > 0 && screenHeight >= TipHeight(w) {
      TipIsInk(look, w, focused, content, screenWidth, screenHeight);
      TipIsLeft(w);
    } else {
      forall x, y | OnScreen(screenWidth, screenHeight, x, y) && PaintOf(look, w, focused, content, x, y).Some?
        ensures Contains(FrameOf(w), x, y)
      {
        if w.width >= WIDTH_FOR_FRAME {
          PaintsItsFrame(look, w, focused, content, x, y);
        } else {
          if CrossAt(w, x, y) {
            if !Contains(TitleBandOf(w), x, y) {
              TipIsLowest(w, screenWidth, screenHeight, x, y);
            }
            GlyphRightOf(w, screenWidth, screenHeight, x, y);
          } else {
            PaintsFrameAndGlyph(look, w, focused, content, x, y);
          }
        }
      }
    }
  }

  lemma GlyphRightOf(w: Window, screenWidth: int, screenHeight: int, x: int, y: int)
    requires Confinable(w, screenWidth, screenHeight) && w.width < WIDTH_FOR_BAND && CrossAt(w, x, y)
    ensures x >= w.x ==> Contains(FrameOf(w), x, y)
  {
    hide OnCross;
    var reach := CloseReachOf(w);
    CrossInBox(reach.x + CLOSE_REACH, reach.y + CLOSE_REACH, x, y);
  }

  lemma PaintsFrameAndGlyph(look: Look, w: Window, focused: bool, content: Colour, x: int, y: int)
    requires PaintOf(look, w, focused, content, x, y).Some? && !CrossAt(w, x, y)
    requires w.width >= MINIMUM_EXTENT && w.height >= MINIMUM_EXTENT
    ensures Contains(FrameOf(w), x, y)
  {
    hide CrossAt, Truncate;
  }
}
