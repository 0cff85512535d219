/** Rectangles, and the clip stack of a surface. */
module Rectangles {

  /** A width or a height of zero or less denotes an empty rectangle. */
  datatype Rectangle = Rectangle(x: int, y: int, width: int, height: int)

  const Nowhere := Rectangle(0, 0, 0, 0)

  predicate IsEmpty(r: Rectangle) { r.width <= 0 || r.height <= 0 }

  function Max(a: int, b: int): int { if a > b then a else b }

  function Min(a: int, b: int): int { if a < b then a else b }

  predicate Contains(r: Rectangle, x: int, y: int) {
    !IsEmpty(r) && r.x <= x < r.x + r.width && r.y <= y < r.y + r.height
  }

  function Intersect(a: Rectangle, b: Rectangle): Rectangle {
    if IsEmpty(a) || IsEmpty(b) then Nowhere
    else
      var left := Max(a.x, b.x);
      var top := Max(a.y, b.y);
      var right := Min(a.x + a.width, b.x + b.width);
      var bottom := Min(a.y + a.height, b.y + b.height);
      if right <= left || bottom <= top then Nowhere
      else Rectangle(left, top, right - left, bottom - top)
  }

  /** The smallest rectangle enclosing both. */
  function Enclose(a: Rectangle, b: Rectangle): Rectangle {
    if IsEmpty(a) then b
    else if IsEmpty(b) then a
    else
      var left := Min(a.x, b.x);
      var top := Min(a.y, b.y);
      var right := Max(a.x + a.width, b.x + b.width);
      var bottom := Max(a.y + a.height, b.y + b.height);
      Rectangle(left, top, right - left, bottom - top)
  }

  function Bounds(width: int, height: int): Rectangle { Rectangle(0, 0, width, height) }

  ghost predicate Within(a: Rectangle, b: Rectangle) {
    forall x, y | Contains(a, x, y) :: Contains(b, x, y)
  }

  /** The intersection encloses exactly the points both enclose, and is never of negative extent. */
  lemma IntersectMeets(a: Rectangle, b: Rectangle, x: int, y: int)
    ensures Contains(Intersect(a, b), x, y) <==> Contains(a, x, y) && Contains(b, x, y)
    ensures Intersect(a, b).width >= 0 && Intersect(a, b).height >= 0
  {
  }

  predicate Int32(n: int) { -0x8000_0000 <= n < 0x8000_0000 }

  predicate Fits32(r: Rectangle) { Int32(r.x) && Int32(r.y) && Int32(r.width) && Int32(r.height) }

  /** The narrowing of the 64-bit edges back to 32 bits loses nothing. */
  lemma IntersectFits32(a: Rectangle, b: Rectangle)
    requires Fits32(a) && Fits32(b)
    ensures Fits32(Intersect(a, b))
  {
  }

  /** The enclosing rectangle holds both, and lies inside any rectangle that does. */
  lemma EncloseIsLeast(a: Rectangle, b: Rectangle, c: Rectangle)
    ensures Within(a, Enclose(a, b)) && Within(b, Enclose(a, b))
    ensures Within(a, c) && Within(b, c) ==> Within(Enclose(a, b), c)
  {
    if Within(a, c) && Within(b, c) {
      if !IsEmpty(a) {
        WithinByCorners(a, c);
      }
      if !IsEmpty(b) {
        WithinByCorners(b, c);
      }
    }
  }

  lemma WithinByCorners(a: Rectangle, c: Rectangle)
    requires Within(a, c) && !IsEmpty(a)
    ensures !IsEmpty(c) && c.x <= a.x && a.x + a.width <= c.x + c.width
    ensures c.y <= a.y && a.y + a.height <= c.y + c.height
  {
    assert Contains(a, a.x, a.y) && Contains(a, a.x + a.width - 1, a.y + a.height - 1);
  }

  // ------------------------------------------------------------- the clip stack

  const CLIP_DEPTH := 4

  /** The clip in force and the clips saved beneath it, the oldest first. */
  datatype Clip = Clip(region: Rectangle, saved: seq<Rectangle>)

  function ClipSet(c: Clip, bounds: Rectangle, region: Rectangle): Clip {
    c.(region := Intersect(region, bounds))
  }

  function ClipReset(bounds: Rectangle): Clip { Clip(bounds, []) }

  function ClipPush(c: Clip, region: Rectangle): Clip {
    if |c.saved| >= CLIP_DEPTH then c
    else Clip(Intersect(c.region, region), c.saved + [c.region])
  }

  function ClipPop(c: Clip): Clip {
    if c.saved == [] then c
    else Clip(c.saved[|c.saved| - 1], c.saved[..|c.saved| - 1])
  }

  /** What each call leaves in force and what it saves: a setting keeps to the surface, a push to what was
      in force before, and a fifth push does nothing. */
  lemma ClipMeets(c: Clip, bounds: Rectangle, region: Rectangle, x: int, y: int)
    ensures Contains(ClipSet(c, bounds, region).region, x, y) <==> Contains(region, x, y) && Contains(bounds, x, y)
    ensures ClipSet(c, bounds, region).saved == c.saved
    ensures |c.saved| < 4 ==>
              && ClipPush(c, region).saved == c.saved + [c.region]
              && (Contains(ClipPush(c, region).region, x, y) <==> Contains(region, x, y) && Contains(c.region, x, y))
    ensures |c.saved| >= 4 ==> ClipPush(c, region) == c
    ensures ClipReset(bounds) == Clip(bounds, [])
  {
    IntersectMeets(region, bounds, x, y);
    IntersectMeets(c.region, region, x, y);
  }

  datatype ClipCall = Set(region: Rectangle) | Reset | Push(region: Rectangle) | Pop

  function ClipAfter(c: Clip, bounds: Rectangle, call: ClipCall): Clip {
    match call
    case Set(region) => ClipSet(c, bounds, region)
    case Reset => ClipReset(bounds)
    case Push(region) => ClipPush(c, region)
    case Pop => ClipPop(c)
  }

  function ClipRun(c: Clip, bounds: Rectangle, calls: seq<ClipCall>): Clip
    decreases |calls|
  {
    if calls == [] then c
    else ClipAfter(ClipRun(c, bounds, calls[..|calls| - 1]), bounds, calls[|calls| - 1])
  }

  /** Nothing in the clip state reaches outside the surface. */
  ghost predicate ClipSound(c: Clip, bounds: Rectangle) {
    && |c.saved| <= CLIP_DEPTH
    && Within(c.region, bounds)
    && forall k | 0 <= k < |c.saved| :: Within(c.saved[k], bounds)
  }

  /** No run of calls widens the clip beyond the surface, nor a pop beyond it later. */
  lemma {:induction false} ClipNeverEscapes(c: Clip, bounds: Rectangle, calls: seq<ClipCall>)
    requires ClipSound(c, bounds)
    ensures ClipSound(ClipRun(c, bounds, calls), bounds)
    decreases |calls|
  {
    if calls != [] {
      ClipNeverEscapes(c, bounds, calls[..|calls| - 1]);
    }
  }

  /** The run never pops, and never resets, below the given depth. */
  ghost predicate StaysAbove(c: Clip, bounds: Rectangle, calls: seq<ClipCall>, depth: nat) {
    && Reset !in calls
    && forall n | 0 <= n <= |calls| :: |ClipRun(c, bounds, calls[..n]).saved| >= depth
  }

  lemma {:induction false} SavedBelowAreKept(c: Clip, bounds: Rectangle, calls: seq<ClipCall>, depth: nat)
    requires StaysAbove(c, bounds, calls, depth)
    ensures |c.saved| >= depth
    ensures |ClipRun(c, bounds, calls).saved| >= depth
    ensures ClipRun(c, bounds, calls).saved[..depth] == c.saved[..depth]
    decreases |calls|
  {
    assert calls[..0] == [];
    assert calls[..|calls|] == calls;
    if calls != [] {
      var init := calls[..|calls| - 1];
      assert forall n | 0 <= n <= |init| :: init[..n] == calls[..n];
      SavedBelowAreKept(c, bounds, init, depth);
    }
  }

  /** A push that succeeded, any calls after it that leave its entry standing, and the matching pop
      restore the clip exactly. */
  lemma BalancedRunRestores(c: Clip, bounds: Rectangle, region: Rectangle, inner: seq<ClipCall>)
    requires |c.saved| < CLIP_DEPTH
    requires StaysAbove(ClipPush(c, region), bounds, inner, |c.saved| + 1)
    requires |ClipRun(ClipPush(c, region), bounds, inner).saved| == |c.saved| + 1
    ensures ClipPop(ClipRun(ClipPush(c, region), bounds, inner)) == c
  {
    var pushed := ClipPush(c, region);
    SavedBelowAreKept(pushed, bounds, inner, |c.saved| + 1);
    var last := ClipRun(pushed, bounds, inner);
    assert last.saved == last.saved[..|c.saved| + 1] == pushed.saved;
  }

  /** The clip that was put in force when the k-th was saved. */
  function Narrowed(c: Clip, k: nat): Rectangle
    requires k < |c.saved|
  {
    if k + 1 < |c.saved| then c.saved[k + 1] else c.region
  }

  /** Every clip lies within the one saved beneath it. */
  ghost predicate Nested(c: Clip) {
    forall k | 0 <= k < |c.saved| :: Within(Narrowed(c, k), c.saved[k])
  }

  /** Pushing and popping alone never widen: a nested region stays within its caller's. */
  lemma {:induction false} PushesOnlyNarrow(c: Clip, bounds: Rectangle, calls: seq<ClipCall>)
    requires Nested(c)
    requires forall k | 0 <= k < |calls| :: calls[k].Push? || calls[k].Pop?
    ensures Nested(ClipRun(c, bounds, calls))
    decreases |calls|
  {
    if calls != [] {
      PushesOnlyNarrow(c, bounds, calls[..|calls| - 1]);
      var m, call := ClipRun(c, bounds, calls[..|calls| - 1]), calls[|calls| - 1];
      var r := ClipAfter(m, bounds, call);
      assert call.Push? || call.Pop?;
      forall k | 0 <= k < |r.saved|
        ensures Within(Narrowed(r, k), r.saved[k])
      {
        if k < |m.saved| {
          assert Within(Narrowed(m, k), m.saved[k]);
        }
      }
    }
  }
}
