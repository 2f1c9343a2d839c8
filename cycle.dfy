/** The checksum ring of the cycle detector: the fingerprint of step j is written
    into slot j & 7 of an eight-slot ring that starts out all zero, and a repeat is
    reported when some other slot holds the fingerprint just written. */
module Cycle {

  const RingSize := 8

  /** Slot i of the ring after the fingerprints of `history` were written in
      order: the latest one written there, or the 0 of static storage. */
  function Slot(history: seq<bv32>, i: int): (r: bv32)
    ensures r == 0 || exists j | 0 <= j < |history| :: j % RingSize == i && history[j] == r
  {
    if |history| == 0 then 0
    else if (|history| - 1) % RingSize == i then history[|history| - 1]
    else Slot(history[..|history| - 1], i)
  }

  /** The whole ring after `history` was written. */
  function Ring(history: seq<bv32>): (r: seq<bv32>)
    ensures |r| == RingSize
  {
    seq(RingSize, i => Slot(history, i))
  }

  /** Some slot other than s holds the value of slot s. */
  predicate Repeats(ring: seq<bv32>, s: int)
    requires |ring| == RingSize && 0 <= s < RingSize
  {
    exists i | 0 <= i < RingSize :: i != s && ring[i] == ring[s]
  }

  /** Writing one more fingerprint changes exactly the slot of its step. */
  lemma RingRecord(history: seq<bv32>, f: bv32)
    ensures Ring(history + [f]) == Ring(history)[|history| % RingSize := f]
  {
    assert (history + [f])[..|history|] == history;
  }

  /** A slot holds the fingerprint of the latest step that wrote it, as long as
      fewer than RingSize steps have passed since. */
  lemma {:induction false} SlotIsLatestWrite(history: seq<bv32>, j: int)
    requires 0 <= j < |history| <= j + RingSize
    ensures Slot(history, j % RingSize) == history[j]
  {
    if |history| - 1 != j {
      var prefix := history[..|history| - 1];
      SlotIsLatestWrite(prefix, j);
      assert prefix[j] == history[j];
    }
  }

  /** A slot beyond the number of steps taken was never written. */
  lemma {:induction false} SlotUnwritten(history: seq<bv32>, i: int)
    requires |history| <= i < RingSize
    ensures Slot(history, i) == 0
  {
    if |history| > 0 {
      SlotUnwritten(history[..|history| - 1], i);
    }
  }

  /** The fingerprint of step t equals that of one of the seven steps before it. */
  ghost predicate RecentRepeat(history: seq<bv32>, t: int)
    requires 0 <= t < |history|
  {
    exists j | t - RingSize < j < t && 0 <= j :: history[j] == history[t]
  }

  /** A repeat of a recent fingerprint is always detected. */
  lemma RecentRepeatDetected(history: seq<bv32>, j: int)
    requires |history| > 0
    requires |history| - 1 - RingSize < j < |history| - 1 && 0 <= j
    requires history[j] == history[|history| - 1]
    ensures Repeats(Ring(history), (|history| - 1) % RingSize)
  {
    var t := |history| - 1;
    SlotIsLatestWrite(history, t);
    SlotIsLatestWrite(history, j);
    assert Ring(history)[j % RingSize] == Ring(history)[t % RingSize];
  }

  /** A report names a recent repeat, or a 0 fingerprint matching a slot never written. */
  lemma DetectedIsRecentRepeat(history: seq<bv32>)
    requires |history| > 0
    requires Repeats(Ring(history), (|history| - 1) % RingSize)
    ensures RecentRepeat(history, |history| - 1) ||
            (|history| < RingSize && history[|history| - 1] == 0)
  {
    var t := |history| - 1;
    var s := t % RingSize;
    var ring := Ring(history);
    SlotIsLatestWrite(history, t);
    var i :| 0 <= i < RingSize && i != s && ring[i] == ring[s];
    var k := (s - i) % RingSize;
    StepsBack(t, i);
    if k <= t {
      SlotIsLatestWrite(history, t - k);
      assert history[t - k] == history[t];
    } else {
      assert i > t;
      SlotUnwritten(history, i);
    }
  }

  /** Slot i, other than the slot of step t, was last written k steps before t. */
  lemma StepsBack(t: nat, i: int)
    requires 0 <= i < RingSize && i != t % RingSize
    ensures var k := (t % RingSize - i) % RingSize;
      1 <= k < RingSize && (k <= t ==> (t - k) % RingSize == i) && (k > t ==> i > t)
  {
    var s, k := t % RingSize, (t % RingSize - i) % RingSize;
    assert k == if s > i then s - i else s - i + RingSize;
    assert t == RingSize * (t / RingSize) + s;
  }

  /** The detector fires at step t exactly when the fingerprint of step t equals
      that of one of the seven steps before it, or, while fewer than seven steps
      have been taken, when it is 0 (the value of a slot never written). */
  lemma DetectionIffRecentRepeat(history: seq<bv32>)
    requires |history| > 0
    ensures Repeats(Ring(history), (|history| - 1) % RingSize) <==>
              RecentRepeat(history, |history| - 1) ||
              (|history| < RingSize && history[|history| - 1] == 0)
  {
    var t := |history| - 1;
    if Repeats(Ring(history), t % RingSize) {
      DetectedIsRecentRepeat(history);
    }
    if RecentRepeat(history, t) {
      var j :| t - RingSize < j < t && 0 <= j && history[j] == history[t];
      RecentRepeatDetected(history, j);
    }
    if |history| < RingSize && history[t] == 0 {
      ZeroMatchesUnwrittenSlot(history);
    }
  }

  /** Before the ring is full, a 0 fingerprint matches the last, unwritten slot. */
  lemma ZeroMatchesUnwrittenSlot(history: seq<bv32>)
    requires 0 < |history| < RingSize && history[|history| - 1] == 0
    ensures Repeats(Ring(history), (|history| - 1) % RingSize)
  {
    var t := |history| - 1;
    SlotIsLatestWrite(history, t);
    SlotUnwritten(history, RingSize - 1);
    assert Ring(history)[RingSize - 1] == Ring(history)[t % RingSize];
  }
}
