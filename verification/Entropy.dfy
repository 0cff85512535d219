/** The entropy pool: how samples are mixed into its 4096 bits, what is credited for them, and which
    readings of the time-stamp counter are. */
module Entropy {
  import opened RepetitionTest
  import opened Rotations

  // The pool has 64 words and the stride between samples is 7 words. The two stand as literals in
  // the arithmetic below, where a named constant would make a product or a remainder nonlinear.
  const CREDIT_CEILING := 64 * 64 * 8
  const SOURCES := 3
  const JITTER := 2
  const JITTER_CREDIT := 4

  // ---------------------------------------------------------------- one word

  /** Multiplication by an odd constant, which spreads low bits upwards. */
  function Scatter(x: bv64): bv64 { x * 0x9E37_79B9_7F4A_7C15 }

  /** Multiplication by that constant's inverse modulo 2^64. */
  function Gather(x: bv64): bv64 { x * 0xF1DE_83E1_9937_733D }

  function Fold(x: bv64): bv64 { x ^ (x >> 29) }

  function Unfold(x: bv64): bv64 { x ^ (x >> 29) ^ (x >> 58) }

  function Add64(x: bv64, y: bv64): bv64 { x + y }

  function Sub64(x: bv64, y: bv64): bv64 { x - y }

  function Xor64(x: bv64, y: bv64): bv64 { x ^ y }

  /** What one addition does to the word it lands in. */
  function MixWord(word: bv64, before: bv64, turned: bv64): bv64 {
    Add64(Fold(Scatter(Xor64(word, turned))), before)
  }

  /** The inverse of MixWord for a fixed neighbour and a fixed sample. */
  function UnmixWord(mixed: bv64, before: bv64, turned: bv64): bv64 {
    Xor64(Gather(Unfold(Sub64(mixed, before))), turned)
  }

  lemma ScatterThenGather(x: bv64)
    ensures Gather(x * 0x9E37_79B9_7F4A_7C15) == x
  {
  }

  lemma GatherThenScatter(x: bv64)
    ensures Scatter(x * 0xF1DE_83E1_9937_733D) == x
  {
  }

  lemma ScatterInverse(x: bv64)
    ensures Gather(Scatter(x)) == x
    ensures Scatter(Gather(x)) == x
  {
    ScatterThenGather(x);
    GatherThenScatter(x);
  }

  lemma FoldThenUnfold(x: bv64)
    ensures Unfold(x ^ (x >> 29)) == x
  {
  }

  lemma UnfoldThenFold(x: bv64)
    ensures Fold(x ^ (x >> 29) ^ (x >> 58)) == x
  {
  }

  lemma FoldInverse(x: bv64)
    ensures Unfold(Fold(x)) == x
    ensures Fold(Unfold(x)) == x
  {
    FoldThenUnfold(x);
    UnfoldThenFold(x);
  }

  lemma AddThenSub(x: bv64, y: bv64)
    ensures Sub64(x + y, y) == x
  {
  }

  lemma SubThenAdd(x: bv64, y: bv64)
    ensures Add64(x - y, y) == x
  {
  }

  lemma AddInverse(x: bv64, y: bv64)
    ensures Sub64(Add64(x, y), y) == x
    ensures Add64(Sub64(x, y), y) == x
  {
    AddThenSub(x, y);
    SubThenAdd(x, y);
  }

  lemma XorTwice(x: bv64, y: bv64)
    ensures Xor64(x ^ y, y) == x
  {
  }

  lemma XorInverse(x: bv64, y: bv64)
    ensures Xor64(Xor64(x, y), y) == x
  {
    XorTwice(x, y);
  }

  lemma UnmixMixWord(word: bv64, before: bv64, turned: bv64)
    ensures UnmixWord(MixWord(word, before, turned), before, turned) == word
  {
    XorInverse(word, turned);
    var a := Xor64(word, turned);
    ScatterInverse(a);
    FoldInverse(Scatter(a));
    AddInverse(Fold(Scatter(a)), before);
  }

  lemma MixUnmixWord(word: bv64, before: bv64, turned: bv64)
    ensures MixWord(UnmixWord(word, before, turned), before, turned) == word
  {
    AddInverse(word, before);
    var a := Sub64(word, before);
    FoldInverse(a);
    ScatterInverse(Unfold(a));
    XorInverse(Gather(Unfold(a)), turned);
  }

  lemma XorCancels(x: bv64, y: bv64, z: bv64)
    ensures Xor64(x, y) == Xor64(x, z) <==> y == z
  {
  }

  lemma AddThenSubFirst(x: bv64, y: bv64)
    ensures Sub64(x + y, x) == y
  {
  }

  lemma SumLessFirst(x: bv64, y: bv64)
    ensures Sub64(Add64(x, y), x) == y
  {
    AddThenSubFirst(x, y);
  }

  lemma AddCancels(x: bv64, y: bv64, z: bv64)
    ensures Add64(x, y) == Add64(x, z) <==> y == z
  {
    hide Add64, Sub64;
    SumLessFirst(x, y);
    SumLessFirst(x, z);
  }

  /** The word, its neighbour and the sample each tell in what is mixed. */
  lemma EachTells(word: bv64, before: bv64, turned: bv64, other: bv64)
    ensures MixWord(word, before, turned) == MixWord(other, before, turned) <==> word == other
    ensures MixWord(word, before, turned) == MixWord(word, other, turned) <==> before == other
    ensures MixWord(word, before, turned) == MixWord(word, before, other) <==> turned == other
  {
    UnmixMixWord(word, before, turned);
    UnmixMixWord(other, before, turned);
    hide Scatter, Fold, Add64, Xor64, Gather, Unfold, Sub64;
    AddCancels(Fold(Scatter(Xor64(word, turned))), before, other);
    XorCancels(word, turned, other);
    var a, b := Xor64(word, turned), Xor64(word, other);
    ScatterInverse(a);
    ScatterInverse(b);
    FoldInverse(Scatter(a));
    FoldInverse(Scatter(b));
    AddInverse(Fold(Scatter(a)), before);
    AddInverse(Fold(Scatter(b)), before);
  }

  lemma XorShifted(x: bv64, y: bv64, k: bv64)
    requires k < 64
    ensures ((x ^ y) >> k) & 1 == ((x >> k) & 1) ^ ((y >> k) & 1)
  {
  }

  lemma XorBit(x: bv64, y: bv64, k: bv64)
    requires k < 64
    ensures Bit(x ^ y, k) == Bit(x, k) ^ Bit(y, k)
  {
    hide Bit;
    XorShifted(x, y, k);
    BitIs(x, k);
    BitIs(y, k);
    BitIs(x ^ y, k);
  }

  lemma MeetAt(word: bv64, turned: bv64, k: bv64, bit: bv64)
    requires k < 64 && Bit(turned, k) == bit
    ensures Bit(word ^ turned, k) == Bit(word, k) ^ bit
  {
    hide Bit;
    XorBit(word, turned, k);
  }

  /** Each bit of a sample meets the word's bit that stands as many places on as the sample is turned. */
  lemma BitsMeet(word: bv64, sample: bv64, turned: bv64, turn: bv64, i: bv64, k: bv64)
    requires i < 64 && k == Round(i, turn & 63) && turned == Rotate(sample, turn)
    ensures Bit(word ^ turned, k) == Bit(word, k) ^ Bit(sample, i)
  {
    hide Bit, Rotate, Round;
    RotateMovesBits(sample, turn, i);
    MeetAt(word, turned, k, Bit(sample, i));
  }

  // ------------------------------------------------------------ the pool's state

  /** The state the mixing works upon: the words, the place of the next sample, and how far to turn it. */
  datatype Mixer = Mixer(words: seq<bv64>, position: nat, rotation: bv64)

  predicate Sound(m: Mixer) {
    |m.words| == 64 && m.position < 64 && m.rotation < 64
  }

  /** The word a place's own is mixed with: the one before it, going round. */
  function Before(position: nat): (b: nat)
    ensures position < 64 ==> b < 64 && (b + 1) % 64 == position
  {
    (position + 64 - 1) % 64
  }

  function Mix(m: Mixer, sample: bv64): (r: Mixer)
    requires Sound(m)
    ensures Sound(r)
  {
    var word := MixWord(m.words[m.position], m.words[Before(m.position)], Rotate(sample, m.rotation));
    Mixer(m.words[m.position := word], (m.position + 7) % 64, (m.rotation + 13) & 63)
  }

  /** Takes one sample out again. */
  function Unmix(m: Mixer, sample: bv64): (r: Mixer)
    requires Sound(m)
    ensures Sound(r)
  {
    var here := (m.position + 64 - 7) % 64;
    var turn := (m.rotation - 13) & 63;
    var word := UnmixWord(m.words[here], m.words[Before(here)], Rotate(sample, turn));
    Mixer(m.words[here := word], here, turn)
  }

  lemma ModUnique(x: int, q: int, r: int)
    requires x == 64 * q + r && 0 <= r < 64
    ensures x % 64 == r
  {
  }

  lemma ModAdd(a: int, b: int)
    ensures (a % 64 + b) % 64 == (a + b) % 64
  {
    var s := a % 64 + b;
    ModUnique(a + b, a / 64 + s / 64, s % 64);
  }

  lemma StepsUndo(position: nat, rotation: bv64)
    requires position < 64 && rotation < 64
    ensures ((position + 7) % 64 + 57) % 64 == position == ((position + 57) % 64 + 7) % 64
    ensures (((rotation + 13) & 63) - 13) & 63 == rotation == (((rotation - 13) & 63) + 13) & 63
  {
    ModAdd(position + 7, 57);
    ModAdd(position + 57, 7);
  }

  lemma UnmixMix(m: Mixer, sample: bv64)
    requires Sound(m)
    ensures Unmix(Mix(m, sample), sample) == m
  {
    hide MixWord, UnmixWord, Rotate;
    var before := m.words[Before(m.position)];
    UnmixMixWord(m.words[m.position], before, Rotate(sample, m.rotation));
    StepsUndo(m.position, m.rotation);
    var r := Mix(m, sample);
    var back := Unmix(r, sample);
    assert back.position == m.position && back.rotation == m.rotation;
    assert r.words[Before(m.position)] == before;
    assert back.words == r.words[m.position := m.words[m.position]] == m.words;
  }

  lemma MixUnmix(m: Mixer, sample: bv64)
    requires Sound(m)
    ensures Mix(Unmix(m, sample), sample) == m
  {
    hide MixWord, UnmixWord, Rotate;
    var r := Unmix(m, sample);
    StepsUndo(m.position, m.rotation);
    MixUnmixWord(m.words[r.position], m.words[Before(r.position)], Rotate(sample, r.rotation));
    assert r.words[Before(r.position)] == m.words[Before(r.position)];
    assert Mix(r, sample).words == m.words;
  }

  /** The pool after a whole sequence of samples. */
  function MixAll(m: Mixer, samples: seq<bv64>): (r: Mixer)
    requires Sound(m)
    ensures Sound(r)
    decreases |samples|
  {
    if samples == [] then m else Mix(MixAll(m, samples[..|samples| - 1]), samples[|samples| - 1])
  }

  function UnmixAll(m: Mixer, samples: seq<bv64>): (r: Mixer)
    requires Sound(m)
    ensures Sound(r)
    decreases |samples|
  {
    if samples == [] then m else UnmixAll(Unmix(m, samples[|samples| - 1]), samples[..|samples| - 1])
  }

  /** Mixing any sequence of samples is a bijection of the pool: it has a two-sided inverse. */
  lemma {:induction false} MixAllIsBijective(m: Mixer, samples: seq<bv64>)
    requires Sound(m)
    ensures UnmixAll(MixAll(m, samples), samples) == m
    ensures MixAll(UnmixAll(m, samples), samples) == m
    decreases |samples|
  {
    if samples != [] {
      var init, last := samples[..|samples| - 1], samples[|samples| - 1];
      UnmixMix(MixAll(m, init), last);
      MixAllIsBijective(m, init);
      MixUnmix(m, last);
      MixAllIsBijective(Unmix(m, last), init);
    }
  }

  /** Two pools that differ before the same samples differ after them: no two states ever merge. */
  lemma PoolsNeverMerge(a: Mixer, b: Mixer, samples: seq<bv64>)
    requires Sound(a) && Sound(b)
    ensures MixAll(a, samples) == MixAll(b, samples) <==> a == b
  {
    MixAllIsBijective(a, samples);
    MixAllIsBijective(b, samples);
  }

  // ------------------------------------------------------------ what a sample does

  /** A sample tells: the pool after one and after another are the same only if the samples are. */
  lemma SampleTells(m: Mixer, a: bv64, b: bv64)
    requires Sound(m)
    ensures Mix(m, a) == Mix(m, b) <==> a == b
  {
    hide MixWord, Rotate;
    EachTells(m.words[m.position], m.words[Before(m.position)], Rotate(a, m.rotation), Rotate(b, m.rotation));
    RotateKeepsApart(a, b, m.rotation);
    assert Mix(m, a).words[m.position] ==
           MixWord(m.words[m.position], m.words[Before(m.position)], Rotate(a, m.rotation));
    assert Mix(m, b).words[m.position] ==
           MixWord(m.words[m.position], m.words[Before(m.position)], Rotate(b, m.rotation));
  }

  lemma {:induction false} MixAllJoins(m: Mixer, first: seq<bv64>, more: seq<bv64>)
    requires Sound(m)
    ensures MixAll(m, first + more) == MixAll(MixAll(m, first), more)
    decreases |more|
  {
    hide Mix;
    if more == [] {
      assert first + more == first;
    } else {
      MixAllJoins(m, first, more[..|more| - 1]);
      assert (first + more)[..|first + more| - 1] == first + more[..|more| - 1];
    }
  }

  /** However many samples follow it, one sample changed alone leaves another pool. */
  lemma OneSampleTells(m: Mixer, samples: seq<bv64>, k: nat, other: bv64)
    requires Sound(m) && k < |samples|
    ensures MixAll(m, samples) == MixAll(m, samples[k := other]) <==> samples[k] == other
  {
    hide Mix;
    var before := MixAll(m, samples[..k]);
    var rest := samples[k + 1..];
    assert samples == samples[..k] + [samples[k]] + rest;
    assert samples[k := other] == samples[..k] + [other] + rest;
    MixAllJoins(m, samples[..k] + [samples[k]], rest);
    MixAllJoins(m, samples[..k] + [other], rest);
    MixAllOneMore(m, samples[..k], samples[k]);
    MixAllOneMore(m, samples[..k], other);
    SampleTells(before, samples[k], other);
    PoolsNeverMerge(Mix(before, samples[k]), Mix(before, other), rest);
  }

  lemma MixAllOneMore(m: Mixer, samples: seq<bv64>, sample: bv64)
    requires Sound(m)
    ensures MixAll(m, samples + [sample]) == Mix(MixAll(m, samples), sample)
  {
    assert (samples + [sample])[..|samples|] == samples;
  }

  // --------------------------------------------------- every word in turn, once each

  /** The word the sample of the given index lands in, counted from a first position. */
  function Landing(first: nat, index: nat): nat { (first + 7 * index) % 64 }

  lemma LandingNext(first: nat, index: nat)
    ensures (Landing(first, index) + 7) % 64 == Landing(first, index + 1)
  {
    var at := first + 7 * index;
    ModAdd(at, 7);
    assert first + 7 * (index + 1) == at + 7;
  }

  lemma {:induction false} MixAllPosition(m: Mixer, samples: seq<bv64>)
    requires Sound(m)
    ensures MixAll(m, samples).position == Landing(m.position, |samples|)
    decreases |samples|
  {
    hide MixWord, Rotate;
    if samples != [] {
      MixAllPosition(m, samples[..|samples| - 1]);
      LandingNext(m.position, |samples| - 1);
    }
  }

  lemma SameLanding(first: nat, i: nat, j: nat)
    requires i <= j && Landing(first, i) == Landing(first, j)
    ensures (j - i) % 64 == 0
  {
    var q := (first + 7 * j) / 64 - (first + 7 * i) / 64;
    assert 7 * (j - i) == 64 * q;
    ModUnique(j - i, 55 * q - 6 * (j - i), 0);
  }

  /** Of any sixty-four consecutive samples exactly one lands in each word. */
  lemma SixtyFourLandOnceEach(first: nat, word: nat)
    requires first < 64 && word < 64
    ensures exists k | 0 <= k < 64 :: Landing(first, k) == word
    ensures forall j, k | 0 <= j < k < 64 :: Landing(first, j) != Landing(first, k)
  {
    // 7 * 55 = 6 * 64 + 1, so 55 undoes the stride.
    var n := word + 64 - first;
    var k := (55 * n) % 64;
    ModUnique(first + 7 * k, 6 * n - 7 * ((55 * n) / 64) + 1, word);
    assert Landing(first, k) == word;
    forall i, j | 0 <= i < j < 64
      ensures Landing(first, i) != Landing(first, j)
    {
      if Landing(first, i) == Landing(first, j) {
        SameLanding(first, i, j);
      }
    }
  }

  /** A word none of the samples landed in holds what it held. */
  lemma {:induction false} WordsNotLandedInAreKept(m: Mixer, samples: seq<bv64>, word: nat)
    requires Sound(m) && word < 64
    requires forall k | 0 <= k < |samples| :: Landing(m.position, k) != word
    ensures MixAll(m, samples).words[word] == m.words[word]
    decreases |samples|
  {
    if samples != [] {
      var init := samples[..|samples| - 1];
      WordsNotLandedInAreKept(m, init, word);
      MixAllPosition(m, init);
    }
  }

  /** How far the next sample is turned, by how many came before: thirteen places further each. */
  lemma {:induction false} MixAllRotation(m: Mixer, samples: seq<bv64>, other: seq<bv64>)
    requires Sound(m) && |samples| == |other|
    ensures MixAll(m, samples).rotation == MixAll(m, other).rotation
    ensures samples != [] ==>
              MixAll(m, samples).rotation == (MixAll(m, samples[..|samples| - 1]).rotation + 13) & 63
    decreases |samples|
  {
    hide MixWord, Rotate;
    if samples != [] {
      MixAllRotation(m, samples[..|samples| - 1], other[..|other| - 1]);
    }
  }

  lemma LandedElsewhere(first: nat, n: nat)
    requires first < 64 && n < 64
    ensures Landing(first, n) < 64 && forall k | 0 <= k < n :: Landing(first, k) != Landing(first, n)
  {
    SixtyFourLandOnceEach(first, 0);
  }

  /** The word the last of up to sixty-four samples lands in is one no earlier sample did, so that both the
      pool before and the sample can be told. */
  lemma LastIsKept(m: Mixer, s: seq<bv64>, t: seq<bv64>, x: bv64, y: bv64)
    requires Sound(m) && |s| == |t| < 64 && Mix(MixAll(m, s), x) == Mix(MixAll(m, t), y)
    ensures MixAll(m, s) == MixAll(m, t) && x == y
  {
    hide MixWord, Rotate, Landing, MixAll;
    var a, b := MixAll(m, s), MixAll(m, t);
    var word := Landing(m.position, |s|);
    MixAllPosition(m, s);
    MixAllPosition(m, t);
    MixAllRotation(m, s, t);
    LandedElsewhere(m.position, |s|);
    WordsNotLandedInAreKept(m, s, word);
    WordsNotLandedInAreKept(m, t, word);
    forall i | 0 <= i < 64 ensures a.words[i] == b.words[i] {
      if i != word {
        assert a.words[i] == Mix(a, x).words[i] && b.words[i] == Mix(b, y).words[i];
      }
    }
    assert a == b;
    SampleTells(a, x, y);
  }

  /** Up to sixty-four samples are all kept: from the pool before and the pool after each of them can be told. */
  lemma {:induction false} SixtyFourAreKept(m: Mixer, samples: seq<bv64>, other: seq<bv64>)
    requires Sound(m) && |samples| == |other| <= 64
    ensures MixAll(m, samples) == MixAll(m, other) <==> samples == other
    decreases |samples|
  {
    hide Mix, MixWord, Rotate, Landing;
    if samples != [] && MixAll(m, samples) == MixAll(m, other) {
      var n := |samples| - 1;
      LastIsKept(m, samples[..n], other[..n], samples[n], other[n]);
      SixtyFourAreKept(m, samples[..n], other[..n]);
      assert samples == samples[..n] + [samples[n]] && other == other[..n] + [other[n]];
    }
  }

  // ------------------------------------------------------------------- the pool

  function Least(a: nat, b: nat): nat { if a < b then a else b }

  const Blank := Mixer(seq(64, i => 0), 0, 0)

  lemma MixParts(m: Mixer, sample: bv64)
    requires Sound(m)
    ensures var r := Mix(m, sample);
            && r.words == m.words[m.position := MixWord(m.words[m.position],
                 m.words[Before(m.position)], Rotate(sample, m.rotation))]
            && r.position == (m.position + 7) % 64
            && r.rotation == (m.rotation + 13) & 63
  {
  }

  class Pool {
    const words: array<bv64>
    var position: nat
    var rotation: bv64
    /** In eighths of a bit. */
    var credit: nat
    var samples: seq<nat>
    var credited: seq<nat>
    var jitterLast: bv64
    var jitterDelta: bv64
    var jitterRepeats: nat
    var jitterFailures: nat

    /** Every sample mixed in since the pool was cleared, every counter reading among them, and
        what was credited to a source the accounting has no entry for. */
    ghost var mixed: seq<bv64>
    ghost var readings: seq<bv64>
    ghost var unnamed: nat

    ghost function State(): Mixer
      reads this, words
    {
      Mixer(words[..], position, rotation)
    }

    ghost function Fields(): Record
      reads this
    {
      Record(jitterLast, jitterDelta, jitterRepeats, jitterFailures)
    }

    ghost predicate CreditSound()
      reads this
    {
      && |samples| == |credited| == SOURCES
      && credit == Least(CREDIT_CEILING, credited[0] + credited[1] + credited[2] + unnamed)
    }

    ghost predicate Valid()
      reads this, words
    {
      && Sound(State())
      && State() == MixAll(Blank, mixed)
      && CreditSound()
      && Fields() == RecordOf(readings)
    }

    constructor ()
      ensures Valid() && fresh(words)
      ensures State() == Blank && credit == 0 && mixed == [] && readings == [] && unnamed == 0
    {
      words := new bv64[64](i => 0);
      position, rotation, credit := 0, 0, 0;
      samples, credited := [0, 0, 0], [0, 0, 0];
      jitterLast, jitterDelta, jitterRepeats, jitterFailures := 0, 0, 0, 0;
      mixed, readings, unnamed := [], [], 0;
      new;
      assert words[..] == Blank.words;
    }

    /** The mixing proper. */
    method Stir(sample: bv64)
      requires Sound(State())
      modifies this`position, this`rotation, words
      ensures State() == Mix(old(State()), sample)
    {
      hide Scatter, Fold, Add64, Xor64, Rotate, Mix;
      MixParts(State(), sample);
      var here := position;
      var before := (here + 64 - 1) % 64;
      var word := words[here];
      word := Xor64(word, Rotate(sample, rotation));
      word := Scatter(word);
      word := Fold(word);
      word := Add64(word, words[before]);
      words[here] := word;
      position := (here + 7) % 64;
      rotation := (rotation + 13) & 63;
      assert State().words == Mix(old(State()), sample).words;
    }

    /** The accounting of one sample. */
    method Account(source: nat, eighths: nat)
      requires CreditSound()
      modifies this`credit, this`samples, this`credited, this`unnamed
      ensures CreditSound()
      ensures credit == Least(CREDIT_CEILING, old(credit) + eighths)
      ensures if source < SOURCES
              then samples == old(samples)[source := old(samples)[source] + 1] &&
                   credited == old(credited)[source := old(credited)[source] + eighths] &&
                   unnamed == old(unnamed)
              else samples == old(samples) && credited == old(credited) &&
                   unnamed == old(unnamed) + eighths
    {
      if source < SOURCES {
        samples := samples[source := samples[source] + 1];
        credited := credited[source := credited[source] + eighths];
      } else {
        unnamed := unnamed + eighths;
      }
      credit := if credit + eighths > CREDIT_CEILING then CREDIT_CEILING else credit + eighths;
    }

    /** Mixes one sample in. A source without an entry is mixed and credited but not accounted. */
    method Add(source: nat, sample: bv64, eighths: nat)
      requires Valid()
      modifies this`position, this`rotation, this`credit, this`samples, this`credited, words
      modifies this`mixed, this`unnamed
      ensures Valid()
      ensures mixed == old(mixed) + [sample] && State() == Mix(old(State()), sample)
      ensures forall other :: State() == Mix(old(State()), other) <==> other == sample
      ensures credit == Least(CREDIT_CEILING, old(credit) + eighths)
      ensures if source < SOURCES
              then samples == old(samples)[source := old(samples)[source] + 1] &&
                   credited == old(credited)[source := old(credited)[source] + eighths] &&
                   unnamed == old(unnamed)
              else samples == old(samples) && credited == old(credited) &&
                   unnamed == old(unnamed) + eighths
    {
      hide RecordOf, MixAll, Mix, Sound, Least;
      MixAllOneMore(Blank, mixed, sample);
      forall other ensures Mix(State(), sample) == Mix(State(), other) <==> sample == other {
        SampleTells(State(), sample, other);
      }
      Stir(sample);
      Account(source, eighths);
      mixed := mixed + [sample];
    }

    /** Holds one reading to the Repetition Count Test and says whether it may be credited. */
    method Test(counter: bv64) returns (delta: bv64, credit: bool)
      modifies this`readings, this`jitterLast, this`jitterDelta, this`jitterRepeats,
               this`jitterFailures
      ensures readings == old(readings) + [counter]
      ensures Fields() == Watch(old(Fields()), counter)
      ensures delta == Difference(counter, old(jitterLast))
      ensures credit <==> old(jitterLast) != 0 && jitterRepeats < CUTOFF
    {
      hide Difference, Low32;
      delta := Difference(counter, jitterLast);
      var first := jitterLast == 0;
      credit := false;
      jitterLast := counter;
      readings := readings + [counter];
      if !first {
        if delta == jitterDelta {
          jitterRepeats := Low32(jitterRepeats + 1);
        } else {
          jitterRepeats := 1;
        }
        jitterDelta := delta;
        if jitterRepeats >= CUTOFF {
          if jitterRepeats == CUTOFF {
            jitterFailures := jitterFailures + 1;
          }
        } else {
          credit := true;
        }
      }
    }

    /** One counter reading: mixed in whatever the test says of it, and credited only if it passes. */
    method AddJitter(counter: bv64) returns (credit: bool)
      requires Valid()
      modifies this, words
      ensures Valid()
      ensures readings == old(readings) + [counter]
      ensures credit <==> old(jitterLast) != 0 &&
                          (RunLength(Deltas(readings)) < CUTOFF || ComeRound(Deltas(readings)))
      ensures mixed == old(mixed) + [Xor64(counter, Rotate(Difference(counter, old(jitterLast)), 32))]
      ensures credited == old(credited)[JITTER := old(credited)[JITTER] +
                                        if credit then JITTER_CREDIT else 0]
      ensures unnamed == old(unnamed)
    {
      hide Difference, Xor64, Rotate, MixAll, Mix, Count32, Failures, Deltas, Watch;
      hide RunLength, ComeRound;
      WatchRecordsHistory(readings, counter);
      VerdictUnlessRound(Deltas(readings + [counter]));
      var delta;
      delta, credit := Test(counter);
      Add(JITTER, Xor64(counter, Rotate(delta, 32)), if credit then JITTER_CREDIT else 0);
    }

    method Bits() returns (bits: nat)
      requires Valid()
      ensures 8 * bits <= credit < 8 * bits + 8
      ensures bits <= 64 * 64
    {
      bits := credit / 8;
    }

    method Copy(out: array<bv64>)
      requires Valid() && out != words && out.Length >= 64
      modifies out
      ensures out[..64] == words[..]
      ensures out[64..] == old(out[64..])
    {
      for index := 0 to 64
        invariant out[..index] == words[..index]
        invariant out[64..] == old(out[64..])
      {
        out[index] := words[index];
      }
    }
  }
}
