/** The stack of windows: its order, and what a whole repaint of it shows. */
module Stacking {
  import opened Options
  import opened Rectangles
  import opened Surfaces
  import opened Windows

  // ------------------------------------------------------------- the order

  function RankOf(table: seq<Window>, id: int): int {
    if 0 <= id < |table| then Rank(table[id].layer) else 0
  }

  ghost predicate Live(table: seq<Window>, id: int) { 0 <= id < |table| && table[id].inUse }

  ghost predicate Distinct(stack: seq<int>) {
    forall i, j | 0 <= i < j < |stack| :: stack[i] != stack[j]
  }

  ghost predicate Ordered(table: seq<Window>, stack: seq<int>) {
    forall i, j | 0 <= i < j < |stack| :: RankOf(table, stack[i]) <= RankOf(table, stack[j])
  }

  /** The stack holds each existing window exactly once, and is ordered by layer. */
  ghost predicate StackSound(table: seq<Window>, stack: seq<int>) {
    && (forall id :: id in stack <==> Live(table, id))
    && Distinct(stack)
    && Ordered(table, stack)
  }

  /** Where a window stands in the stack, or its length where it does not. */
  function IndexOf(stack: seq<int>, id: int): (p: nat)
    ensures p <= |stack|
    ensures p < |stack| ==> stack[p] == id
    ensures forall i | 0 <= i < p :: stack[i] != id
  {
    if stack == [] || stack[0] == id then 0 else IndexOf(stack[1..], id) + 1
  }

  function Without(stack: seq<int>, id: int): seq<int> {
    var p := IndexOf(stack, id);
    if p < |stack| then stack[..p] + stack[p + 1..] else stack
  }

  /** The first place above every window of no higher layer. */
  function TopOfLayer(table: seq<Window>, stack: seq<int>, rank: int): (p: nat)
    ensures p <= |stack|
    ensures p < |stack| ==> RankOf(table, stack[p]) > rank
    ensures forall i | 0 <= i < p :: RankOf(table, stack[i]) <= rank
  {
    if stack == [] || RankOf(table, stack[0]) > rank then 0
    else TopOfLayer(table, stack[1..], rank) + 1
  }

  function With(table: seq<Window>, stack: seq<int>, id: int): seq<int> {
    var p := TopOfLayer(table, stack, RankOf(table, id));
    stack[..p] + [id] + stack[p..]
  }

  lemma WithoutKeeps(table: seq<Window>, stack: seq<int>, id: int)
    requires Distinct(stack) && Ordered(table, stack)
    ensures var s := Without(stack, id);
            && Distinct(s) && Ordered(table, s)
            && (forall j :: j in s <==> j in stack && j != id)
  {
    var p := IndexOf(stack, id);
    var s := Without(stack, id);
    if p < |stack| {
      forall j
        ensures j in s <==> j in stack && j != id
      {
        if j in stack && j != id {
          var k :| 0 <= k < |stack| && stack[k] == j;
          assert j == if k < p then s[k] else s[k - 1];
        }
      }
    }
  }

  lemma InsertedElements(stack: seq<int>, p: nat, id: int)
    requires p <= |stack| && Distinct(stack) && id !in stack
    ensures var s := stack[..p] + [id] + stack[p..];
            Distinct(s) && forall j :: j in s <==> j in stack || j == id
  {
    var s := stack[..p] + [id] + stack[p..];
    forall j
      ensures j in s <==> j in stack || j == id
    {
      if j in stack {
        var k :| 0 <= k < |stack| && stack[k] == j;
        assert j == if k < p then s[k] else s[k + 1];
      }
      assert s[p] == id;
    }
  }

  lemma WithKeeps(table: seq<Window>, stack: seq<int>, id: int)
    requires Distinct(stack) && Ordered(table, stack) && id !in stack
    ensures var s := With(table, stack, id);
            && Distinct(s) && Ordered(table, s)
            && (forall j :: j in s <==> j in stack || j == id)
  {
    hide RankOf;
    var p := TopOfLayer(table, stack, RankOf(table, id));
    var s := With(table, stack, id);
    InsertedElements(stack, p, id);
    forall i, j | 0 <= i < j < |s|
      ensures RankOf(table, s[i]) <= RankOf(table, s[j])
    {
      assert s[i] == if i < p then stack[i] else if i == p then id else stack[i - 1];
      assert s[j] == if j < p then stack[j] else if j == p then id else stack[j - 1];
      if p < |stack| && j > p {
        assert RankOf(table, stack[p]) <= RankOf(table, stack[j - 1]);
      }
    }
  }

  /** A window raised is the topmost of its layer. */
  lemma WithIsOnTop(table: seq<Window>, stack: seq<int>, id: int)
    requires Distinct(stack) && Ordered(table, stack) && id !in stack
    ensures var s := With(table, stack, id);
            var p := TopOfLayer(table, stack, RankOf(table, id));
            && s[p] == id
            && forall i | p < i < |s| :: RankOf(table, s[i]) > RankOf(table, id)
  {
    var p := TopOfLayer(table, stack, RankOf(table, id));
    var s := With(table, stack, id);
    forall i | p < i < |s|
      ensures RankOf(table, s[i]) > RankOf(table, id)
    {
      assert RankOf(table, stack[p]) <= RankOf(table, stack[i - 1]);
    }
  }

  /** The stack after a window is raised to the top of its layer. */
  function Raised(table: seq<Window>, stack: seq<int>, id: int): seq<int> {
    With(table, Without(stack, id), id)
  }

  /** A window with only higher layers above it stands where raising it would put it. */
  lemma RaisedAlready(table: seq<Window>, stack: seq<int>, id: int)
    requires Distinct(stack) && Ordered(table, stack) && id in stack
    requires var p := IndexOf(stack, id);
             p < |stack| && (p + 1 < |stack| ==> RankOf(table, stack[p + 1]) > RankOf(table, id))
    ensures Raised(table, stack, id) == stack
  {
    var p := IndexOf(stack, id);
    hide RankOf, IndexOf, TopOfLayer, Distinct;
    var low, high := stack[..p], stack[p + 1..];
    var rest := low + high;
    assert Without(stack, id) == rest;
    forall i | 0 <= i < p ensures RankOf(table, rest[i]) <= RankOf(table, id) {
      assert rest[i] == stack[i] && id == stack[p];
    }
    assert high != [] ==> rest[p] == stack[p + 1];
    TopIs(table, rest, RankOf(table, id), p);
    assert rest[..p] == low && rest[p..] == high;
    assert stack == low + [id] + high;
  }

  lemma TopIs(table: seq<Window>, stack: seq<int>, rank: int, p: nat)
    requires p <= |stack| && (p < |stack| ==> RankOf(table, stack[p]) > rank)
    requires forall i | 0 <= i < p :: RankOf(table, stack[i]) <= rank
    ensures TopOfLayer(table, stack, rank) == p
  {
  }

  lemma RaisedKeeps(table: seq<Window>, stack: seq<int>, id: int)
    requires StackSound(table, stack) && Live(table, id)
    ensures StackSound(table, Raised(table, stack, id))
    ensures id !in Without(stack, id)
  {
    WithoutKeeps(table, stack, id);
    WithKeeps(table, Without(stack, id), id);
  }

  /** The one stands above the other in the stack. */
  ghost predicate StandsOver(stack: seq<int>, over: int, under: int) {
    exists i, j :: 0 <= i < j < |stack| && stack[i] == under && stack[j] == over
  }

  lemma InsertedKeepsOrder(low: seq<int>, high: seq<int>, id: int, over: int, under: int)
    requires over != id && under != id
    ensures StandsOver(low + [id] + high, over, under) <==> StandsOver(low + high, over, under)
  {
    var s, t, p := low + [id] + high, low + high, |low|;
    if StandsOver(s, over, under) {
      var i, j :| 0 <= i < j < |s| && s[i] == under && s[j] == over;
      assert t[if i < p then i else i - 1] == under && t[if j < p then j else j - 1] == over;
    }
    if StandsOver(t, over, under) {
      var i, j :| 0 <= i < j < |t| && t[i] == under && t[j] == over;
      assert s[if i < p then i else i + 1] == under && s[if j < p then j else j + 1] == over;
    }
  }

  lemma BeforeTheTop(table: seq<Window>, stack: seq<int>, rank: int, k: int)
    requires Ordered(table, stack) && 0 <= k < |stack| && RankOf(table, stack[k]) <= rank
    ensures k < TopOfLayer(table, stack, rank)
  {
  }

  /** A window raised stands over every other of its layer. */
  lemma RaisedIsOverItsLayer(table: seq<Window>, stack: seq<int>, id: int, other: int)
    requires StackSound(table, stack) && Live(table, id) && Live(table, other) && other != id
    requires table[other].layer == table[id].layer
    ensures StandsOver(Raised(table, stack, id), id, other)
  {
    WithoutKeeps(table, stack, id);
    hide Without, StackSound, Distinct;
    var rest := Without(stack, id);
    var p := TopOfLayer(table, rest, RankOf(table, id));
    var k :| 0 <= k < |rest| && rest[k] == other;
    BeforeTheTop(table, rest, RankOf(table, id), k);
    var raised := Raised(table, stack, id);
    assert raised == rest[..p] + [id] + rest[p..];
    assert raised[k] == other && raised[p] == id;
  }

  /** Of two other windows the one stands over the other as it did. */
  lemma RaisedKeepsOrder(table: seq<Window>, stack: seq<int>, id: int, other: int, third: int)
    requires other != id && third != id && id in stack
    ensures StandsOver(Raised(table, stack, id), other, third) <==> StandsOver(stack, other, third)
  {
    hide StandsOver, RankOf;
    var q := IndexOf(stack, id);
    var rest := Without(stack, id);
    assert stack == stack[..q] + [id] + stack[q + 1..];
    InsertedKeepsOrder(stack[..q], stack[q + 1..], id, other, third);
    var p := TopOfLayer(table, rest, RankOf(table, id));
    assert rest == rest[..p] + rest[p..];
    InsertedKeepsOrder(rest[..p], rest[p..], id, other, third);
  }

  lemma RemovedFits(table: seq<Window>, stack: seq<int>, id: int)
    requires StackSound(table, stack) && Live(table, id)
    ensures |Without(stack, id)| == |stack| - 1
  {
    assert id in stack;
  }

  /** A table whose windows stand in the same layers orders a stack alike. */
  ghost predicate SameLayers(table: seq<Window>, other: seq<Window>) {
    |table| == |other| && forall i | 0 <= i < |table| ::
      other[i].inUse == table[i].inUse && other[i].layer == table[i].layer
  }

  lemma StackStaysSound(table: seq<Window>, other: seq<Window>, stack: seq<int>)
    requires StackSound(table, stack) && SameLayers(table, other)
    ensures StackSound(other, stack)
  {
  }

  /** The stack without several windows. */
  function WithoutAll(stack: seq<int>, gone: set<int>): seq<int> {
    if stack == [] then []
    else WithoutAll(stack[..|stack| - 1], gone)
         + if stack[|stack| - 1] in gone then [] else [stack[|stack| - 1]]
  }

  lemma WithoutLast(stack: seq<int>, last: int, id: int)
    ensures id in stack ==> Without(stack + [last], id) == Without(stack, id) + [last]
    ensures id !in stack ==>
              Without(stack, id) == stack && Without(stack + [last], id) == if last == id then stack else stack + [last]
  {
    var p, more := IndexOf(stack, id), stack + [last];
    var q := IndexOf(more, id);
    hide IndexOf;
    assert forall i | 0 <= i < |stack| :: more[i] == stack[i] && stack[i] in stack;
    if id in stack {
      assert more[p] == id && q == p;
      assert more[..p] == stack[..p] && more[p + 1..] == stack[p + 1..] + [last];
    } else if last == id {
      assert more[|stack|] == id;
      assert more[..|stack|] == stack && more[|stack| + 1..] == [];
    }
  }

  lemma {:induction false} WithoutOneMore(stack: seq<int>, gone: set<int>, id: int)
    requires Distinct(stack)
    ensures Without(WithoutAll(stack, gone), id) == WithoutAll(stack, gone + {id})
    ensures forall j :: j in WithoutAll(stack, gone) <==> j in stack && j !in gone
  {
    hide Without;
    if stack == [] {
      NothingWithout(id);
    } else {
      var init, last := stack[..|stack| - 1], stack[|stack| - 1];
      WithoutOneMore(init, gone, id);
      WithoutLast(WithoutAll(init, gone), last, id);
      WithoutLast(WithoutAll(init, gone), last + 1, id);
      assert init + [last] == stack;
      assert WithoutAll(init, gone) + [] == WithoutAll(init, gone);
      assert WithoutAll(init, gone + {id}) + [] == WithoutAll(init, gone + {id});
    }
  }

  lemma {:induction false} NothingIsWithout(stack: seq<int>)
    ensures WithoutAll(stack, {}) == stack
  {
    if stack != [] {
      NothingIsWithout(stack[..|stack| - 1]);
    }
  }

  lemma NothingWithout(id: int)
    ensures Without([], id) == []
  {
  }

  // --------------------------------------------------------- what a repaint shows

  ghost function Memories(table: seq<Window>): set<object> {
    set i | 0 <= i < |table| && table[i].surface != null :: table[i].surface.memory
  }

  /** Every window's content's pixel at a point of the screen. */
  ghost function ContentsAt(table: seq<Window>, x: int, y: int): seq<Colour>
    reads Memories(table)
  {
    seq(|table|, i requires 0 <= i < |table| reads Memories(table) => ContentAt(table[i], x, y))
  }

  function Pick(contents: seq<Colour>, id: int): Colour {
    if 0 <= id < |contents| then contents[id] else 0
  }

  /** What a window contributes at a point, its slot's use and its minimising considered. */
  function VisibleAt(look: Look, w: Window, focused: bool, content: Colour, x: int, y: int): Option<Colour> {
    if w.inUse && !w.minimised then PaintOf(look, w, focused, content, x, y) else None
  }

  /** What the window of a number contributes, or none where there is no such window. */
  function Contributed(look: Look, table: seq<Window>, contents: seq<Colour>, focused: int, id: int,
                       x: int, y: int): Option<Colour> {
    if 0 <= id < |table| then VisibleAt(look, table[id], id == focused, Pick(contents, id), x, y) else None
  }

  /** A wide window in sight contributes the band's colour of its own focus where the band holds neither title
      nor control, its border around, and its content's pixel within. */
  lemma ContributedByPart(look: Look, table: seq<Window>, contents: seq<Colour>, focused: int, id: int,
                          x: int, y: int)
    requires Live(table, id) && !table[id].minimised && table[id].decorated
    requires table[id].width >= WIDTH_FOR_BAND && table[id].height > 0 && |contents| == |table|
    ensures var w, paint := table[id], Contributed(look, table, contents, focused, id, x, y);
            && (Contains(ContentOf(w), x, y) ==> paint == Some(contents[id]))
            && (OnOutline(FrameOf(w), x, y) ==> paint == Some(Truncate(look.border, look.depth)))
            && (Contains(TitleBandOf(w), x, y) && x >= LeftmostReach(w) && !CrossAt(w, x, y) &&
                ControlsPaint(look, w, id == focused, x, y).None? ==>
                  paint == Some(Truncate(if id == focused then look.titleFocused else look.titleUnfocused,
                                         look.depth)))
  {
    hide Truncate, FramePaint, CrossAt, ControlsPaint, TitlePaint;
    FrameShows(look, table[id], id == focused, x, y);
    FrameParts(table[id], x, y);
  }

  /** The window whose paint is on top at a point, painting the whole stack from the bottom up. */
  function ShownBy(look: Look, table: seq<Window>, contents: seq<Colour>, stack: seq<int>, focused: int,
                   x: int, y: int): int {
    if stack == [] then WINDOW_NONE
    else
      var id := stack[|stack| - 1];
      if Contributed(look, table, contents, focused, id, x, y).Some? then id
      else ShownBy(look, table, contents, stack[..|stack| - 1], focused, x, y)
  }

  /** A whole repaint of the ground and the stack, at one point: the painter's order. */
  function Shown(look: Look, table: seq<Window>, contents: seq<Colour>, stack: seq<int>, focused: int,
                 x: int, y: int): Colour {
    if stack == [] then Truncate(look.ground, look.depth)
    else
      var paint := Contributed(look, table, contents, focused, stack[|stack| - 1], x, y);
      if paint.Some? then paint.value
      else Shown(look, table, contents, stack[..|stack| - 1], focused, x, y)
  }

  /** Windows that each contribute alike show alike. */
  lemma {:induction false} ShownAlike(look: Look, stack: seq<int>,
                                      table: seq<Window>, contents: seq<Colour>, focused: int,
                                      table': seq<Window>, contents': seq<Colour>, focused': int,
                                      x: int, y: int)
    requires forall id | id in stack ::
               Contributed(look, table, contents, focused, id, x, y) ==
               Contributed(look, table', contents', focused', id, x, y)
    ensures Shown(look, table, contents, stack, focused, x, y) ==
            Shown(look, table', contents', stack, focused', x, y)
  {
    hide Contributed;
    if stack != [] {
      assert stack[|stack| - 1] in stack;
      ShownAlike(look, stack[..|stack| - 1], table, contents, focused, table', contents', focused', x, y);
    }
  }

  /** A window that contributes nothing at a point may stand anywhere in the stack, or nowhere. */
  lemma {:induction false} ShownWithoutAbsent(look: Look, table: seq<Window>, contents: seq<Colour>,
                                              focused: int, below: seq<int>, id: int, above: seq<int>,
                                              x: int, y: int)
    requires Contributed(look, table, contents, focused, id, x, y).None?
    ensures Shown(look, table, contents, below + [id] + above, focused, x, y) ==
            Shown(look, table, contents, below + above, focused, x, y)
    decreases |above|
  {
    hide Contributed;
    var whole, part := below + [id] + above, below + above;
    if above == [] {
      assert whole[..|whole| - 1] == part;
    } else {
      ShownWithoutAbsent(look, table, contents, focused, below, id, above[..|above| - 1], x, y);
      assert whole[..|whole| - 1] == below + [id] + above[..|above| - 1];
      assert part[..|part| - 1] == below + above[..|above| - 1];
    }
  }

  lemma ShownWithout(look: Look, table: seq<Window>, contents: seq<Colour>, focused: int, stack: seq<int>,
                     id: int, x: int, y: int)
    requires Contributed(look, table, contents, focused, id, x, y).None?
    ensures Shown(look, table, contents, Without(stack, id), focused, x, y) ==
            Shown(look, table, contents, stack, focused, x, y)
  {
    hide Contributed;
    var p := IndexOf(stack, id);
    if p < |stack| {
      ShownWithoutAbsent(look, table, contents, focused, stack[..p], id, stack[p + 1..], x, y);
      assert stack == stack[..p] + [id] + stack[p + 1..];
    }
  }

  lemma ShownWith(look: Look, table: seq<Window>, contents: seq<Colour>, focused: int, stack: seq<int>,
                  id: int, x: int, y: int)
    requires Contributed(look, table, contents, focused, id, x, y).None?
    ensures Shown(look, table, contents, With(table, stack, id), focused, x, y) ==
            Shown(look, table, contents, stack, focused, x, y)
  {
    hide Contributed;
    var p := TopOfLayer(table, stack, RankOf(table, id));
    ShownWithoutAbsent(look, table, contents, focused, stack[..p], id, stack[p..], x, y);
    assert stack == stack[..p] + stack[p..];
  }

  /** Whether a window is drawn at all where a region is repainted. */
  predicate Touches(w: Window, region: Rectangle) { !IsEmpty(Intersect(FrameOf(w), region)) }

  /** Of a stack, the windows whose frames touch a region, in their order. */
  function Touching(table: seq<Window>, stack: seq<int>, region: Rectangle): seq<int> {
    if stack == [] then []
    else
      var id := stack[|stack| - 1];
      Touching(table, stack[..|stack| - 1], region)
      + if 0 <= id < |table| && Touches(table[id], region) then [id] else []
  }

  lemma {:induction false} TouchingWithin(table: seq<Window>, stack: seq<int>, region: Rectangle)
    ensures forall id | id in Touching(table, stack, region) :: id in stack
  {
    if stack != [] {
      TouchingWithin(table, stack[..|stack| - 1], region);
    }
  }

  /** The colour shown is the topmost window's, or the ground's where there is none. */
  lemma {:induction false} ShownIsTheTopmost(look: Look, table: seq<Window>, contents: seq<Colour>,
                                             stack: seq<int>, focused: int, x: int, y: int)
    requires forall k | 0 <= k < |stack| :: stack[k] != WINDOW_NONE
    ensures var id := ShownBy(look, table, contents, stack, focused, x, y);
            && (id != WINDOW_NONE ==>
                  id in stack && Contributed(look, table, contents, focused, id, x, y).Some?)
            && Shown(look, table, contents, stack, focused, x, y) ==
               if id == WINDOW_NONE then Truncate(look.ground, look.depth)
               else Contributed(look, table, contents, focused, id, x, y).value
  {
    if stack != [] {
      ShownIsTheTopmost(look, table, contents, stack[..|stack| - 1], focused, x, y);
    }
  }

  // ---------------------------------------------------------------- the hit test

  /** From the top down, the first window in sight whose frame holds the point. */
  function HitAt(table: seq<Window>, stack: seq<int>, x: int, y: int): int {
    if stack == [] then WINDOW_NONE
    else
      var id := stack[|stack| - 1];
      if 0 <= id < |table| && !table[id].minimised && Contains(FrameOf(table[id]), x, y) then id
      else HitAt(table, stack[..|stack| - 1], x, y)
  }

  lemma {:induction false} HitIsInSight(table: seq<Window>, stack: seq<int>, x: int, y: int)
    requires HitAt(table, stack, x, y) != WINDOW_NONE
    ensures var id := HitAt(table, stack, x, y);
            id in stack && 0 <= id < |table| && !table[id].minimised && Contains(FrameOf(table[id]), x, y)
  {
    var id := stack[|stack| - 1];
    if !(0 <= id < |table| && !table[id].minimised && Contains(FrameOf(table[id]), x, y)) {
      HitIsInSight(table, stack[..|stack| - 1], x, y);
    }
  }

  // ------------------------------------------------------------- which layer is over which

  /** No root stands above an ordinary window or a panel, and no ordinary window above a panel. */
  ghost predicate LayersInOrder(table: seq<Window>, stack: seq<int>) {
    forall i, j | 0 <= i < j < |stack| && Live(table, stack[i]) && Live(table, stack[j]) ::
      && (table[stack[j]].layer.Root? ==> table[stack[i]].layer.Root?)
      && (table[stack[i]].layer.Panel? ==> table[stack[j]].layer.Panel?)
  }

  lemma SoundIsInOrder(table: seq<Window>, stack: seq<int>)
    requires StackSound(table, stack)
    ensures LayersInOrder(table, stack)
  {
    forall i, j | 0 <= i < j < |stack|
      ensures RankOf(table, stack[i]) <= RankOf(table, stack[j])
      ensures Live(table, stack[i]) && Live(table, stack[j])
    {
      assert stack[i] in stack && stack[j] in stack;
    }
  }

  /** The window is in sight and its frame holds the point. */
  ghost predicate HeldBy(table: seq<Window>, id: int, x: int, y: int) {
    Live(table, id) && !table[id].minimised && Contains(FrameOf(table[id]), x, y)
  }

  /** Of the windows marked so, the one is the topmost of the stack, or there is none. */
  ghost predicate TopmostOf(stack: seq<int>, marked: set<int>, id: int) {
    if id == WINDOW_NONE then forall k | 0 <= k < |stack| :: stack[k] !in marked
    else id in marked && exists p :: NoneAbove(stack, marked, p) && stack[p] == id
  }

  ghost predicate NoneAbove(stack: seq<int>, marked: set<int>, p: int) {
    0 <= p < |stack| && forall k | p < k < |stack| :: stack[k] !in marked
  }

  ghost function AllHeld(table: seq<Window>, x: int, y: int): set<int> {
    set id | 0 <= id < |table| && HeldBy(table, id, x, y)
  }

  ghost function AllPainting(look: Look, table: seq<Window>, contents: seq<Colour>, focused: int, x: int, y: int)
    : set<int>
  {
    set id | 0 <= id < |table| && Contributed(look, table, contents, focused, id, x, y).Some?
  }

  lemma VisibleIsLive(look: Look, table: seq<Window>, contents: seq<Colour>, focused: int, x: int, y: int)
    ensures forall i | i in AllPainting(look, table, contents, focused, x, y) ::
              Live(table, i) && !table[i].minimised
  {
    hide PaintOf;
  }

  lemma TopmostBelow(stack: seq<int>, marked: set<int>, id: int)
    requires stack != [] && stack[|stack| - 1] !in marked && TopmostOf(stack[..|stack| - 1], marked, id)
    ensures TopmostOf(stack, marked, id)
  {
    var below := stack[..|stack| - 1];
    if id != WINDOW_NONE {
      var p :| NoneAbove(below, marked, p) && below[p] == id;
      assert forall k | p < k < |below| :: stack[k] == below[k];
      assert NoneAbove(stack, marked, p) && stack[p] == id;
    } else {
      assert forall k | 0 <= k < |below| :: stack[k] == below[k];
    }
  }

  lemma {:induction false} HitIsTopmost(table: seq<Window>, stack: seq<int>, x: int, y: int)
    requires forall id | id in stack :: Live(table, id)
    ensures TopmostOf(stack, AllHeld(table, x, y), HitAt(table, stack, x, y))
  {
    hide FrameOf;
    if stack != [] {
      var id := stack[|stack| - 1];
      assert id in stack;
      assert NoneAbove(stack, AllHeld(table, x, y), |stack| - 1);
      if id !in AllHeld(table, x, y) {
        HitIsTopmost(table, stack[..|stack| - 1], x, y);
        TopmostBelow(stack, AllHeld(table, x, y), HitAt(table, stack, x, y));
      }
    }
  }

  lemma {:induction false} PaintIsTopmost(look: Look, table: seq<Window>, contents: seq<Colour>, stack: seq<int>,
                                          focused: int, x: int, y: int)
    requires forall id | id in stack :: Live(table, id)
    ensures TopmostOf(stack, AllPainting(look, table, contents, focused, x, y),
                      ShownBy(look, table, contents, stack, focused, x, y))
  {
    hide VisibleAt;
    if stack != [] {
      var id := stack[|stack| - 1];
      assert id in stack;
      assert NoneAbove(stack, AllPainting(look, table, contents, focused, x, y), |stack| - 1);
      if Contributed(look, table, contents, focused, id, x, y).None? {
        PaintIsTopmost(look, table, contents, stack[..|stack| - 1], focused, x, y);
        TopmostBelow(stack, AllPainting(look, table, contents, focused, x, y),
                     ShownBy(look, table, contents, stack, focused, x, y));
      }
    }
  }

  /** The topmost is a panel exactly where any of the windows marked is one, and a root exactly where all of
      them are. */
  ghost predicate ByLayer(table: seq<Window>, marked: set<int>, id: int) {
    && (id == WINDOW_NONE <==> marked == {})
    && (id != WINDOW_NONE ==>
          && Live(table, id)
          && (table[id].layer.Panel? <==> exists i :: i in marked && Live(table, i) && table[i].layer.Panel?)
          && (table[id].layer.Root? <==> forall i | i in marked && Live(table, i) :: table[i].layer.Root?))
  }

  lemma TopmostIsByLayer(table: seq<Window>, stack: seq<int>, marked: set<int>, id: int)
    requires StackSound(table, stack) && TopmostOf(stack, marked, id) && forall i | i in marked :: Live(table, i)
    ensures ByLayer(table, marked, id)
  {
    hide Ordered;
    SoundIsInOrder(table, stack);
    forall i | i in marked
      ensures exists k :: 0 <= k < |stack| && stack[k] == i
    {
      assert i in stack;
    }
    if id != WINDOW_NONE {
      var p :| NoneAbove(stack, marked, p) && stack[p] == id;
      forall i | i in marked
        ensures (table[id].layer.Root? ==> table[i].layer.Root?) && (table[i].layer.Panel? ==> table[id].layer.Panel?)
      {
        var k :| 0 <= k < |stack| && stack[k] == i;
        assert k <= p;
      }
    }
  }
}
