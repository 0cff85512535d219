/** The Repetition Count Test of NIST SP 800-90B, section 4.4.1, over a whole history of readings:
    what the counter, the failures and the verdicts of crypto/entropy.c stand for. */
module RepetitionTest {

  const CUTOFF := 41

  /** How far the counter has come, going round 2^64. */
  function Difference(later: bv64, earlier: bv64): bv64 { later - earlier }

  /** The deltas a history of counter readings yields. A reading is measured against the one before
      it unless there is none or that one was zero, which the pool takes for "no reading yet". */
  function Deltas(readings: seq<bv64>): (d: seq<bv64>)
    ensures |d| <= |readings|
  {
    if |readings| < 2 then []
    else
      var earlier := Deltas(readings[..|readings| - 1]);
      if readings[|readings| - 2] == 0 then earlier
      else earlier + [Difference(readings[|readings| - 1], readings[|readings| - 2])]
  }

  function CountedOn(counter: bv64, delta: bv64): bv64 { counter + delta }

  lemma SubtractThenCountOn(later: bv64, earlier: bv64)
    ensures CountedOn(earlier, later - earlier) == later
  {
  }

  lemma DifferenceLeads(later: bv64, earlier: bv64)
    ensures CountedOn(earlier, Difference(later, earlier)) == later
  {
    SubtractThenCountOn(later, earlier);
  }

  /** Among readings none of which is zero each delta leads from a reading to the next. */
  lemma {:induction false} DeltasLead(readings: seq<bv64>)
    requires forall i | 0 <= i < |readings| :: readings[i] != 0
    ensures readings != [] ==> |Deltas(readings)| == |readings| - 1
    ensures forall i | 0 <= i < |readings| - 1 :: CountedOn(readings[i], Deltas(readings)[i]) == readings[i + 1]
  {
    hide Difference, CountedOn;
    if |readings| >= 2 {
      DeltasLead(readings[..|readings| - 1]);
      DifferenceLeads(readings[|readings| - 1], readings[|readings| - 2]);
    }
  }

  /** How many of the latest deltas are the same. */
  function RunLength<T(==)>(d: seq<T>): (n: nat)
    ensures n <= |d|
    ensures d != [] ==> n > 0
  {
    if |d| < 2 then |d|
    else if d[|d| - 1] == d[|d| - 2] then RunLength(d[..|d| - 1]) + 1
    else 1
  }

  /** A count as an unsigned 32-bit field holds it. */
  function Low32(n: nat): nat { n % 0x1_0000_0000 }

  /** The 32-bit count the pool keeps of that run. */
  function Count32<T(==)>(d: seq<T>): nat { Low32(RunLength(d)) }

  /** How often the count stood exactly at the cutoff, which is when a failure is counted. */
  function Failures<T(==)>(d: seq<T>): nat {
    if d == [] then 0
    else Failures(d[..|d| - 1]) + if Count32(d) == 41 then 1 else 0
  }

  /** A run of equal deltas begins at `s` and reaches `n` of them. */
  ghost predicate RunFrom<T>(d: seq<T>, s: int, n: nat) {
    && 0 <= s < s + n <= |d|
    && (s == 0 || d[s] != d[s - 1])
    && forall i | s <= i < s + n :: d[i] == d[s]
  }

  /** Where the runs that reach the cutoff begin: the failures the test is meant to declare. */
  ghost function LongRuns<T>(d: seq<T>): set<int> {
    set s | 0 <= s < |d| && RunFrom(d, s, 41)
  }

  /** RunLength is the length of the maximal run of equal deltas at the end. */
  lemma {:induction false} RunLengthIsMaximal<T>(d: seq<T>)
    requires d != []
    ensures RunFrom(d, |d| - RunLength(d), RunLength(d))
  {
    if |d| >= 2 && d[|d| - 1] == d[|d| - 2] {
      var e := d[..|d| - 1];
      RunLengthIsMaximal(e);
      assert d[|d| - RunLength(d)] == e[|e| - RunLength(e)];
    }
  }

  lemma RunLengthUnique<T>(d: seq<T>, n: nat)
    requires RunFrom(d, |d| - n, n)
    ensures RunLength(d) == n
  {
    RunLengthIsMaximal(d);
    var m := RunLength(d);
    forall i | |d| - n < i < |d| ensures d[i] == d[i - 1] {}
    forall i | |d| - m < i < |d| ensures d[i] == d[i - 1] {}
  }

  lemma LongRunsGrow<T>(d: seq<T>)
    requires d != []
    ensures var e := d[..|d| - 1];
            LongRuns(d) == LongRuns(e) + if RunLength(d) == 41 then {|d| - 41} else {}
    ensures |d| - 41 !in LongRuns(d[..|d| - 1])
  {
    var e := d[..|d| - 1];
    forall s | 0 <= s < |d|
      ensures RunFrom(d, s, 41) <==>
              RunFrom(e, s, 41) || (RunLength(d) == 41 && s == |d| - 41)
    {
      if RunFrom(d, s, 41) && s + 41 == |d| {
        RunLengthUnique(d, 41);
      }
      if RunLength(d) == 41 {
        RunLengthIsMaximal(d);
      }
    }
  }

  /** No run was ever long enough for the 32-bit count to come round to the cutoff again. */
  ghost predicate NeverWraps<T>(d: seq<T>) {
    forall n | 0 <= n <= |d| :: RunLength(d[..n]) < 0x1_0000_0029
  }

  lemma Wrapped(n: int)
    requires 0 <= n
    ensures n < 0x1_0000_0029 ==> (n % 0x1_0000_0000 == 41 <==> n == 41)
    ensures n == 0x1_0000_0029 ==> n % 0x1_0000_0000 == 41
  {
  }

  /** One delta more adds a failure just when the 32-bit count stands at the cutoff. */
  lemma FailuresGrow<T>(d: seq<T>)
    requires d != []
    ensures Failures(d) >= Failures(d[..|d| - 1])
    ensures RunLength(d) < 0x1_0000_0029 ==>
              Failures(d) == Failures(d[..|d| - 1]) + if RunLength(d) == 41 then 1 else 0
    ensures RunLength(d) == 0x1_0000_0029 ==> Failures(d) == Failures(d[..|d| - 1]) + 1
  {
    Wrapped(RunLength(d));
  }

  lemma {:induction false} FailuresAtLeastRuns<T>(d: seq<T>)
    ensures Failures(d) >= |LongRuns(d)|
  {
    if d != [] {
      FailuresAtLeastRuns(d[..|d| - 1]);
      LongRunsGrow(d);
      FailuresGrow(d);
    }
  }

  lemma {:induction false} RunOfExactly<T>(d: seq<T>, n: nat)
    requires 0 < n <= RunLength(d)
    ensures exists k | 0 <= k <= |d| :: RunLength(d[..k]) == n
  {
    if RunLength(d) == n {
      assert d[..|d|] == d;
    } else {
      var e := d[..|d| - 1];
      RunOfExactly(e, n);
      var k :| 0 <= k <= |e| && RunLength(e[..k]) == n;
      assert d[..k] == e[..k];
    }
  }

  lemma {:induction false} WrapsAddFailures<T>(d: seq<T>, k: nat)
    requires k <= |d| && RunLength(d[..k]) == 0x1_0000_0029
    ensures Failures(d) > |LongRuns(d)|
  {
    var e := d[..|d| - 1];
    LongRunsGrow(d);
    FailuresGrow(d);
    if k == |d| {
      assert d[..k] == d;
      FailuresAtLeastRuns(e);
    } else {
      assert d[..k] == e[..k];
      WrapsAddFailures(e, k);
    }
  }

  lemma {:induction false} FailuresWithoutWrap<T>(d: seq<T>)
    requires NeverWraps(d)
    ensures Failures(d) == |LongRuns(d)|
  {
    if d != [] {
      var e := d[..|d| - 1];
      forall n | 0 <= n <= |e| ensures RunLength(e[..n]) < 0x1_0000_0029 {
        assert e[..n] == d[..n];
      }
      FailuresWithoutWrap(e);
      assert d[..|d|] == d;
      LongRunsGrow(d);
      FailuresGrow(d);
    }
  }

  /** The failures counted are the runs that reached the cutoff, once each, exactly as long as no
      run comes to 2^32 + 41 equal deltas; past that the 32-bit count has wrapped and counts again. */
  lemma FailuresCountRuns<T>(d: seq<T>)
    ensures Failures(d) == |LongRuns(d)| <==> NeverWraps(d)
  {
    if NeverWraps(d) {
      FailuresWithoutWrap(d);
    } else {
      var n :| 0 <= n <= |d| && RunLength(d[..n]) >= 0x1_0000_0029;
      RunOfExactly(d[..n], 0x1_0000_0029);
      var k :| 0 <= k <= n && RunLength(d[..n][..k]) == 0x1_0000_0029;
      assert d[..n][..k] == d[..k];
      WrapsAddFailures(d, k);
    }
  }

  // ------------------------------------------------------ one reading more

  lemma DeltasGrow(readings: seq<bv64>, counter: bv64)
    ensures readings == [] ==> Deltas(readings) == []
    ensures Deltas(readings + [counter]) ==
            if readings == [] || readings[|readings| - 1] == 0 then Deltas(readings)
            else Deltas(readings) + [Difference(counter, readings[|readings| - 1])]
  {
    hide Difference;
    var longer := readings + [counter];
    assert longer[..|readings|] == readings;
    if readings != [] {
      assert longer[|longer| - 2] == readings[|readings| - 1];
    }
  }

  lemma Remainder(x: int, q: int, r: int)
    requires x == 0x1_0000_0000 * q + r && 0 <= r < 0x1_0000_0000
    ensures x % 0x1_0000_0000 == r
  {
  }

  lemma CountOn(n: nat, next: nat)
    requires next == n + 1
    ensures Low32(next) == Low32(Low32(n) + 1)
    ensures Low32(0) == 0 && Low32(1) == 1
  {
    var q, r := n / 0x1_0000_0000, n % 0x1_0000_0000;
    if r + 1 == 0x1_0000_0000 {
      Remainder(n + 1, q + 1, 0);
    } else {
      Remainder(n + 1, q, r + 1);
    }
  }

  lemma RunGrows<T>(d: seq<T>, delta: T)
    ensures RunLength(d + [delta]) == if d != [] && delta == d[|d| - 1] then RunLength(d) + 1 else 1
    ensures Failures(d + [delta]) == Failures(d) + if Count32(d + [delta]) == CUTOFF then 1 else 0
  {
    hide Low32;
    assert (d + [delta])[..|d|] == d;
  }

  lemma CountGrows<T>(d: seq<T>, delta: T)
    ensures Count32(d + [delta]) == if d != [] && delta == d[|d| - 1]
                                    then Low32(Count32(d) + 1) else 1
    ensures Failures(d + [delta]) == Failures(d) + if Count32(d + [delta]) == CUTOFF then 1 else 0
    ensures Count32<T>([]) == 0 && Low32(1) == 1
  {
    hide Low32, RunLength, Failures;
    RunGrows(d, delta);
    CountOn(RunLength(d), RunLength(d) + 1);
  }

  /** The fields the pool keeps for the test. */
  datatype Record = Record(last: bv64, delta: bv64, repeats: nat, failures: nat)

  /** What those fields stand for: a history of readings. */
  function RecordOf(readings: seq<bv64>): Record {
    var d := Deltas(readings);
    Record(if readings == [] then 0 else readings[|readings| - 1],
           if d == [] then 0 else d[|d| - 1],
           Count32(d),
           Failures(d))
  }

  /** One reading more, by the fields alone. */
  function Watch(r: Record, counter: bv64): Record {
    var delta := Difference(counter, r.last);
    if r.last == 0 then r.(last := counter)
    else
      var repeats := if delta == r.delta then Low32(r.repeats + 1) else 1;
      Record(counter, delta, repeats, r.failures + if repeats == CUTOFF then 1 else 0)
  }

  /** The fields never need the history: watching one reading more is recording the longer one. */
  lemma WatchRecordsHistory(readings: seq<bv64>, counter: bv64)
    ensures RecordOf(readings + [counter]) == Watch(RecordOf(readings), counter)
  {
    hide Difference, Count32, Failures, Low32, Deltas;
    var d := Deltas(readings);
    DeltasGrow(readings, counter);
    if readings != [] {
      CountGrows(d, Difference(counter, readings[|readings| - 1]));
    }
  }

  /** The run has come round: 2^32 equal deltas or more, and the 32-bit count of them small again. */
  ghost predicate ComeRound<T>(d: seq<T>) {
    RunLength(d) >= 0x1_0000_0000 && RunLength(d) % 0x1_0000_0000 < 41
  }

  /** The 32-bit count gives the verdict the run's true length would, exactly unless the run has come
      round: then it passes a reading that the test fails. */
  lemma VerdictUnlessRound<T>(d: seq<T>)
    ensures (Count32(d) < CUTOFF <==> RunLength(d) < CUTOFF) <==> !ComeRound(d)
    ensures Count32(d) < CUTOFF <==> RunLength(d) < CUTOFF || ComeRound(d)
  {
  }

  lemma {:induction false} AllEqualIsOneRun<T>(d: seq<T>, delta: T)
    requires forall i | 0 <= i < |d| :: d[i] == delta
    ensures RunLength(d) == |d|
  {
    if |d| >= 2 {
      AllEqualIsOneRun(d[..|d| - 1], delta);
    }
  }

  /** The shortest such run: after 2^32 equal deltas the next reading of them would be credited. */
  lemma StuckCounterPasses(delta: bv64)
    ensures var d := seq(0x1_0000_0000, i => delta);
            RunLength(d) == 0x1_0000_0000 && Count32(d) < CUTOFF <= RunLength(d)
  {
    AllEqualIsOneRun(seq(0x1_0000_0000, i => delta), delta);
  }
}
