/** The event queues: a ring that drops the newest when it is full. */
module Events {

  /** The buttons of a mask, by number. */
  type Buttons = set<int>

  const LEFT := 0
  const RIGHT := 1
  const MIDDLE := 2

  datatype KeyEvent = KeyEvent(scancode: int, character: int, modifiers: int, pressed: bool, extended: bool)

  const NoKey := KeyEvent(0, 0, 0, false, false)

  datatype Kind =
    | Key | PointerMove | ButtonPress | ButtonRelease
    | FocusIn | FocusOut | Close | Resize | Windows | Notify

  datatype Event = Event(kind: Kind, x: int, y: int, button: Buttons, buttons: Buttons, key: KeyEvent)

  function KindEvent(kind: Kind): Event { Event(kind, 0, 0, {}, {}, NoKey) }

  // The capacity, 32, stands as a literal where a remainder is taken by it.
  const CAPACITY := 32

  /** A ring of events, the oldest at `head`. */
  datatype RingData = Ring(slots: seq<Event>, head: nat, count: nat, dropped: nat)

  predicate RingSound(r: RingData) { |r.slots| == 32 && r.head < 32 && r.count <= 32 }

  type Ring = r: RingData | RingSound(r) witness EmptyRing()

  function EmptyRing(): (r: RingData)
    ensures RingSound(r)
  {
    Ring(seq(32, i => KindEvent(Key)), 0, 0, 0)
  }

  /** What waits, the oldest first. */
  function Waiting(r: Ring): (q: seq<Event>)
    ensures |q| == r.count
  {
    seq(r.count, i requires 0 <= i < r.count => r.slots[(r.head + i) % 32])
  }

  /** The ring after an event is offered: the newest is dropped when it is full. */
  function Offer(r: Ring, e: Event): Ring
  {
    if r.count == 32 then r.(dropped := r.dropped + 1)
    else r.(slots := r.slots[(r.head + r.count) % 32 := e], count := r.count + 1)
  }

  /** The ring after its oldest event is taken. */
  function Taken(r: Ring): Ring
    requires r.count > 0
  {
    r.(head := (r.head + 1) % 32, count := r.count - 1)
  }

  lemma Wrap(head: int, i: int)
    requires 0 <= head < 32 && 0 <= i <= 32
    ensures (head + i) % 32 == if head + i < 32 then head + i else if head + i < 64 then head + i - 32 else 0
  {
  }

  lemma OfferQueues(r: Ring, e: Event)
    ensures Waiting(Offer(r, e)) == if r.count == 32 then Waiting(r) else Waiting(r) + [e]
  {
    if r.count < 32 {
      var o := Offer(r, e);
      Wrap(r.head, r.count);
      forall i | 0 <= i < o.count
        ensures Waiting(o)[i] == (Waiting(r) + [e])[i]
      {
        Wrap(r.head, i);
      }
    }
  }

  lemma TakenIsOldest(r: Ring)
    requires r.count > 0
    ensures r.slots[r.head] == Waiting(r)[0]
    ensures Waiting(Taken(r)) == Waiting(r)[1..]
  {
    var t := Taken(r);
    Wrap(r.head, 1);
    forall i | 0 <= i < t.count
      ensures Waiting(t)[i] == Waiting(r)[i + 1]
    {
      Wrap(t.head, i);
      Wrap(r.head, i + 1);
    }
  }

  /** The kinds that report the pointer, which go to the window under it or bound to it. */
  predicate Pointing(kind: Kind) { kind.PointerMove? || kind.ButtonPress? || kind.ButtonRelease? }

  /** The queue has had something added at its end, and nothing that reports the pointer. */
  ghost predicate Heard(before: seq<Event>, after: seq<Event>) {
    before <= after && forall k | |before| <= k < |after| :: !Pointing(after[k].kind)
  }

  lemma HeardChain(a: seq<Event>, b: seq<Event>, c: seq<Event>)
    requires Heard(a, b) && Heard(b, c)
    ensures Heard(a, c)
  {
    forall k | |a| <= k < |c| ensures !Pointing(c[k].kind) {
      if k < |b| {
        assert c[k] == b[k];
      }
    }
  }

  lemma OfferHeard(r: Ring, e: Event)
    ensures Waiting(r) <= Waiting(Offer(r, e))
    ensures !Pointing(e.kind) ==> Heard(Waiting(r), Waiting(Offer(r, e)))
  {
    hide Waiting, Offer;
    OfferQueues(r, e);
  }

  /** The queue may have lost its oldest and gained at its end, but nothing gained reports the pointer. */
  ghost predicate Unpointed(before: seq<Event>, after: seq<Event>) {
    exists k :: 0 <= k <= |before| && Heard(before[k..], after)
  }

  lemma HeardIsUnpointed(before: seq<Event>, after: seq<Event>)
    requires Heard(before, after)
    ensures Unpointed(before, after)
  {
    assert before[0..] == before;
  }

  lemma LosingIsUnpointed(before: seq<Event>, after: seq<Event>, lost: nat)
    requires lost <= |before| && after == before[lost..]
    ensures Unpointed(before, after)
  {
    assert Heard(before[lost..], after);
  }

  lemma UnpointedChain(a: seq<Event>, b: seq<Event>, c: seq<Event>)
    requires Unpointed(a, b) && Unpointed(b, c)
    ensures Unpointed(a, c)
  {
    var j :| 0 <= j <= |a| && Heard(a[j..], b);
    var k :| 0 <= k <= |b| && Heard(b[k..], c);
    if k <= |a| - j {
      assert a[j..][k..] == a[j + k..];
      forall i | |a| - j - k <= i < |c| ensures !Pointing(c[i].kind) {
        if i < |b| - k {
          assert c[i] == b[k..][i] == b[i + k];
        }
      }
      assert a[j + k..] == b[k..][..|a| - j - k] == c[..|a| - j - k];
      assert Heard(a[j + k..], c);
    } else {
      forall i | 0 <= i < |c| ensures !Pointing(c[i].kind) {
        if i < |b| - k {
          assert c[i] == b[k..][i] == b[i + k];
        }
      }
      assert Heard(a[|a|..], c);
    }
  }

  // ------------------------------------------------------------------ whole runs

  datatype Call = Put(event: Event) | Get

  /** A ring with what was offered to it, what it accepted and what was read from it. */
  datatype History = History(ring: Ring, offered: seq<Event>, accepted: seq<Event>, read: seq<Event>)

  function After(h: History, call: Call): History
  {
    match call
    case Put(e) =>
      History(Offer(h.ring, e), h.offered + [e],
              if h.ring.count == 32 then h.accepted else h.accepted + [e], h.read)
    case Get =>
      if h.ring.count == 0 then h
      else History(Taken(h.ring), h.offered, h.accepted, h.read + [h.ring.slots[h.ring.head]])
  }

  function Run(calls: seq<Call>): History
  {
    if calls == [] then History(EmptyRing(), [], [], [])
    else After(Run(calls[..|calls| - 1]), calls[|calls| - 1])
  }

  /** `part` is `whole` with some of its elements left out. */
  ghost predicate Subsequence<T>(part: seq<T>, whole: seq<T>)
    decreases |whole|
  {
    if part == [] then true
    else if whole == [] then false
    else if part[|part| - 1] == whole[|whole| - 1]
            && Subsequence(part[..|part| - 1], whole[..|whole| - 1]) then true
    else Subsequence(part, whole[..|whole| - 1])
  }

  lemma {:induction false} PrefixOfSubsequence<T>(part: seq<T>, n: nat, whole: seq<T>)
    requires n <= |part| && Subsequence(part, whole)
    ensures Subsequence(part[..n], whole)
    decreases |whole|
  {
    if part != [] && n > 0 {
      var init := whole[..|whole| - 1];
      if part[|part| - 1] == whole[|whole| - 1] && Subsequence(part[..|part| - 1], init) {
        if n == |part| {
          assert part[..n] == part;
        } else {
          PrefixOfSubsequence(part[..|part| - 1], n, init);
          assert part[..|part| - 1][..n] == part[..n];
          Longer(part[..n], init, whole[|whole| - 1]);
          assert init + [whole[|whole| - 1]] == whole;
        }
      } else {
        PrefixOfSubsequence(part, n, init);
        Longer(part[..n], init, whole[|whole| - 1]);
        assert init + [whole[|whole| - 1]] == whole;
      }
    }
  }

  lemma Longer<T>(part: seq<T>, whole: seq<T>, x: T)
    requires Subsequence(part, whole)
    ensures Subsequence(part, whole + [x])
    ensures Subsequence(part + [x], whole + [x])
  {
    assert (whole + [x])[..|whole|] == whole;
    assert (part + [x])[..|part|] == part;
  }

  /** What was accepted is what was read and then what waits, in order; and it is what was offered
      with the dropped ones left out, which are counted. */
  ghost predicate IsFifo(h: History)
  {
    && h.accepted == h.read + Waiting(h.ring)
    && Subsequence(h.accepted, h.offered)
    && h.ring.dropped == |h.offered| - |h.accepted|
  }

  lemma StaysFifo(h: History, call: Call)
    requires IsFifo(h)
    ensures IsFifo(After(h, call))
  {
    hide Subsequence, Waiting, Offer, Taken;
    match call {
      case Put(e) =>
        OfferQueues(h.ring, e);
        OfferCounts(h.ring, e);
        Longer(h.accepted, h.offered, e);
        assert h.read + Waiting(h.ring) + [e] == h.read + (Waiting(h.ring) + [e]);
      case Get =>
        if h.ring.count > 0 {
          TakenIsOldest(h.ring);
          assert Taken(h.ring).dropped == h.ring.dropped by { TakenKeepsCount(h.ring); }
          assert Waiting(h.ring) == [Waiting(h.ring)[0]] + Waiting(h.ring)[1..];
        }
    }
  }

  lemma OfferCounts(r: Ring, e: Event)
    ensures Offer(r, e).dropped == r.dropped + if r.count == 32 then 1 else 0
  {
  }

  lemma TakenKeepsCount(r: Ring)
    requires r.count > 0
    ensures Taken(r).dropped == r.dropped
  {
  }

  /** Every run of the ring is a run of a first-in first-out queue that drops only the newest. */
  lemma {:induction false} RingIsFifo(calls: seq<Call>)
    ensures IsFifo(Run(calls))
  {
    if calls == [] {
      assert Waiting(EmptyRing()) == [];
    } else {
      RingIsFifo(calls[..|calls| - 1]);
      StaysFifo(Run(calls[..|calls| - 1]), calls[|calls| - 1]);
    }
  }

  /** So what is read is an in-order subsequence of what was offered. */
  lemma ReadInOrder(calls: seq<Call>)
    ensures Subsequence(Run(calls).read, Run(calls).offered)
  {
    var h := Run(calls);
    RingIsFifo(calls);
    PrefixOfSubsequence(h.accepted, |h.read|, h.offered);
    assert h.accepted[..|h.read|] == h.read;
  }

  // ------------------------------------------------------------- notices waiting once

  ghost predicate AtMostOne(q: seq<Event>, kind: Kind) {
    forall i, j | 0 <= i < j < |q| && q[i].kind == kind :: q[j].kind != kind
  }

  ghost predicate Waits(r: Ring, kind: Kind)
  {
    exists i :: 0 <= i < r.count && Waiting(r)[i].kind == kind
  }

  method IsWaiting(r: Ring, kind: Kind) returns (waiting: bool)
    ensures waiting <==> Waits(r, kind)
  {
    waiting := false;
    for index := 0 to r.count
      invariant waiting <==> exists i :: 0 <= i < index && Waiting(r)[i].kind == kind
    {
      assert Waiting(r)[index] == r.slots[(r.head + index) % 32];
      if r.slots[(r.head + index) % 32].kind == kind {
        waiting := true;
      }
    }
  }

  /** A notice offered only where none of its kind waits stays the one of its kind. */
  lemma OneNoticeStays(r: Ring, e: Event, kind: Kind)
    requires AtMostOne(Waiting(r), kind)
    requires e.kind == kind ==> !Waits(r, kind)
    ensures AtMostOne(Waiting(Offer(r, e)), kind)
  {
    OfferQueues(r, e);
  }

  lemma OneNoticeLeft(r: Ring, kind: Kind)
    requires r.count > 0 && AtMostOne(Waiting(r), kind)
    ensures AtMostOne(Waiting(Taken(r)), kind)
  {
    TakenIsOldest(r);
  }

  /** At most one notice of either kind waits. */
  ghost predicate Quiet(r: Ring) {
    AtMostOne(Waiting(r), Windows) && AtMostOne(Waiting(r), Notify)
  }

  lemma OfferKeepsQuiet(r: Ring, e: Event)
    requires Quiet(r)
    requires e.kind.Windows? || e.kind.Notify? ==> !Waits(r, e.kind)
    ensures Quiet(Offer(r, e))
  {
    OneNoticeStays(r, e, Windows);
    OneNoticeStays(r, e, Notify);
  }

  lemma TakingKeepsQuiet(r: Ring)
    requires r.count > 0 && Quiet(r)
    ensures Quiet(Taken(r))
  {
    OneNoticeLeft(r, Windows);
    OneNoticeLeft(r, Notify);
  }

  /** The ring of a window given up: nothing waits. */
  function Emptied(r: Ring): Ring { r.(count := 0) }
}
