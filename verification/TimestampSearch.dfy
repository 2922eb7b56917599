/** Binary search for the first sequence at or after a time: ResolveTimestampToSequence of src/nats_scan.cpp. */
module TimestampSearch {
  /** The retained messages of a stream: which sequences are present, and the time of each. */
  datatype Stream = Stream(present: nat -> bool, time: nat -> int)

  /** The sentinel for no result, UINT64_MAX; sequences stay below it. */
  const NONE: nat := 0xffff_ffff_ffff_ffff

  function Midpoint(left: nat, right: nat): (mid: nat)
    requires left <= right
    ensures left <= mid <= right
  {
    left + (right - left) / 2
  }

  /** The search over what is left of the range, given the best result so far. */
  function Search(stream: Stream, target: int, left: nat, right: int, best: nat): (result: nat)
    requires !stream.present(0)
    ensures result == best || (left <= result <= right && stream.present(result) && stream.time(result) >= target)
    decreases right - left
  {
    if left > right then best
    else
      var mid := Midpoint(left, right);
      if stream.present(mid) && stream.time(mid) >= target then Search(stream, target, left, mid - 1, mid)
      else Search(stream, target, mid + 1, right, best)
  }

  lemma SearchStep(stream: Stream, target: int, left: nat, right: nat, best: nat, answer: nat)
    requires !stream.present(0) && left <= right && answer == Search(stream, target, left, right, best)
    ensures var mid := Midpoint(left, right);
            answer == if stream.present(mid) && stream.time(mid) >= target
                      then Search(stream, target, left, mid - 1, mid)
                      else Search(stream, target, mid + 1, right, best)
  {
  }

  lemma SearchMoves(stream: Stream, target: int, left: nat, right: nat, best: nat, answer: nat, left': nat, right': int,
                    best': nat)
    requires !stream.present(0) && left <= right && answer == Search(stream, target, left, right, best)
    requires var mid := Midpoint(left, right);
             if stream.present(mid) && stream.time(mid) >= target
             then left' == left && right' == mid - 1 && best' == mid
             else left' == mid + 1 && right' == right && best' == best
    ensures answer == Search(stream, target, left', right', best')
  {
    SearchStep(stream, target, left, right, best, answer);
  }

  /** A missing midpoint sends the search right, and so does an early one.  No message has sequence 0. */
  method ResolveTimestampToSequence(stream: Stream, timestamp: int, firstSeq: nat, lastSeq: nat) returns (result: nat)
    requires !stream.present(0) && lastSeq < NONE
    ensures result == Search(stream, timestamp, firstSeq, lastSeq, NONE)
  {
    var left: nat := firstSeq;
    var right: nat := lastSeq;
    result := NONE;
    ghost var answer := Search(stream, timestamp, firstSeq, lastSeq, NONE);
    while left <= right
      invariant Search(stream, timestamp, left, right, result) == answer
      invariant right < NONE
      decreases right - left
    {
      ghost var left0, right0, best0 := left, right, result;
      var mid := left + (right - left) / 2;
      if !stream.present(mid) {
        left := mid + 1;
      } else if stream.time(mid) >= timestamp {
        result := mid;
        right := mid - 1;
      } else {
        left := mid + 1;
      }
      SearchMoves(stream, timestamp, left0, right0, best0, answer, left, right, result);
    }
  }

  // ---------------------------------------------------------------- what the answer has to be

  ghost predicate Ordered(stream: Stream) {
    forall s, t | s <= t && stream.present(s) && stream.present(t) :: stream.time(s) <= stream.time(t)
  }

  /** `s` is a message in the range at or after the target time. */
  predicate AtOrAfter(stream: Stream, target: int, left: nat, right: int, s: nat) {
    left <= s <= right && stream.present(s) && stream.time(s) >= target
  }

  /** `result` is the least sequence in the range at or after the target time, or `best` when there is none. */
  ghost predicate IsLeast(stream: Stream, target: int, left: nat, right: int, best: nat, result: nat) {
    || (AtOrAfter(stream, target, left, right, result)
        && forall s | AtOrAfter(stream, target, left, right, s) :: result <= s)
    || (result == best && forall s :: !AtOrAfter(stream, target, left, right, s))
  }

  /** Wherever a probe can hit a missing sequence, nothing is retained to its left in the interval searched then. */
  ghost predicate ProbesSafe(present: nat -> bool, left: nat, right: int)
    decreases right - left
  {
    left <= right ==>
      var mid := Midpoint(left, right);
      && (if present(mid) then ProbesSafe(present, left, mid - 1) else forall s | left <= s < mid :: !present(s))
      && ProbesSafe(present, mid + 1, right)
  }

  lemma {:induction false} SafeSearch(stream: Stream, target: int, left: nat, right: int, best: nat, result: nat)
    requires !stream.present(0) && Ordered(stream) && ProbesSafe(stream.present, left, right)
    requires result == Search(stream, target, left, right, best)
    ensures IsLeast(stream, target, left, right, best, result)
    decreases right - left
  {
    if left <= right {
      var mid := Midpoint(left, right);
      if AtOrAfter(stream, target, left, right, mid) {
        SafeSearch(stream, target, left, mid - 1, mid, result);
        LeastOnLeft(stream, target, left, right, best, result);
      } else {
        SafeSearch(stream, target, mid + 1, right, best, result);
        LeastOnRight(stream, target, left, right, best, result);
      }
    }
  }

  /** A probe that meets the time is the answer unless something to its left is. */
  lemma LeastOnLeft(stream: Stream, target: int, left: nat, right: int, best: nat, result: nat)
    requires left <= right && AtOrAfter(stream, target, left, right, Midpoint(left, right))
    requires var mid := Midpoint(left, right); IsLeast(stream, target, left, mid - 1, mid, result)
    ensures IsLeast(stream, target, left, right, best, result)
  {
    var mid := Midpoint(left, right);
    assert forall s | AtOrAfter(stream, target, left, right, s) && s < mid ::
        AtOrAfter(stream, target, left, mid - 1, s);
  }

  /** A probe that does not meet the time rules out everything up to it. */
  lemma LeastOnRight(stream: Stream, target: int, left: nat, right: int, best: nat, result: nat)
    requires Ordered(stream) && ProbesSafe(stream.present, left, right) && left <= right
    requires !AtOrAfter(stream, target, left, right, Midpoint(left, right))
    requires IsLeast(stream, target, Midpoint(left, right) + 1, right, best, result)
    ensures IsLeast(stream, target, left, right, best, result)
  {
    var mid := Midpoint(left, right);
    if stream.present(mid) {
      forall s: nat | s <= mid && stream.present(s) ensures stream.time(s) < target {
        assert stream.time(s) <= stream.time(mid);
      }
    }
    assert forall s | AtOrAfter(stream, target, left, right, s) :: AtOrAfter(stream, target, mid + 1, right, s);
  }

  /** Everything from `s` on is late, everything before is early. */
  function Step(present: nat -> bool, s: nat): Stream {
    Stream(present, (x: nat) => if x >= s then 1 else 0)
  }

  /** The search in a range does not find `s`, whatever it holds for the best result outside the range. */
  ghost predicate Missed(present: nat -> bool, left: nat, right: int, s: nat)
    requires !present(0)
  {
    forall best: nat | !(left <= best <= right) :: Search(Step(present, s), 1, left, right, best) != s
  }

  lemma MissedOnLeft(present: nat -> bool, left: nat, right: nat, s: nat)
    requires !present(0) && left <= right
    requires var mid := Midpoint(left, right); present(mid) && left <= s < mid && Missed(present, left, mid - 1, s)
    ensures Missed(present, left, right, s)
  {
    var stream, mid := Step(present, s), Midpoint(left, right);
    forall best: nat | !(left <= best <= right) ensures Search(stream, 1, left, right, best) != s {
      SearchStep(stream, 1, left, right, best, Search(stream, 1, left, right, best));
      assert !(left <= mid <= mid - 1);
    }
  }

  lemma MissedOnRight(present: nat -> bool, left: nat, right: nat, s: nat)
    requires !present(0) && left <= right
    requires var mid := Midpoint(left, right); mid < s <= right && Missed(present, mid + 1, right, s)
    ensures Missed(present, left, right, s)
  {
    var stream, mid := Step(present, s), Midpoint(left, right);
    forall best: nat | !(left <= best <= right) ensures Search(stream, 1, left, right, best) != s {
      SearchStep(stream, 1, left, right, best, Search(stream, 1, left, right, best));
    }
  }

  lemma MissedByGap(present: nat -> bool, left: nat, right: nat, s: nat)
    requires !present(0) && left <= right
    requires var mid := Midpoint(left, right); !present(mid) && left <= s < mid
    ensures Missed(present, left, right, s)
  {
    var stream := Step(present, s);
    forall best: nat | !(left <= best <= right) ensures Search(stream, 1, left, right, best) != s {
      SearchStep(stream, 1, left, right, best, Search(stream, 1, left, right, best));
    }
  }

  /** A probe that is not safe makes the search miss some message. */
  lemma {:induction false} UnsafeMiss(present: nat -> bool, left: nat, right: int) returns (s: nat)
    requires !present(0) && !ProbesSafe(present, left, right)
    ensures left <= s <= right && present(s) && Missed(present, left, right, s)
    decreases right - left
  {
    var mid := Midpoint(left, right);
    if present(mid) && !ProbesSafe(present, left, mid - 1) {
      s := UnsafeMiss(present, left, mid - 1);
      MissedOnLeft(present, left, right, s);
    } else if !ProbesSafe(present, mid + 1, right) {
      s := UnsafeMiss(present, mid + 1, right);
      MissedOnRight(present, left, right, s);
    } else {
      s :| left <= s < mid && present(s);
      MissedByGap(present, left, right, s);
    }
  }

  /** The search is right for every assignment of non-decreasing times and every target. */
  ghost predicate AlwaysRight(present: nat -> bool, left: nat, right: int)
    requires !present(0)
  {
    forall time: nat -> int, target: int | Ordered(Stream(present, time)) ::
      var result := Search(Stream(present, time), target, left, right, NONE);
      IsLeast(Stream(present, time), target, left, right, NONE, result)
  }

  /** The search finds the least sequence at or after the time, for all times, exactly when its probes are safe. */
  lemma RightIffProbesSafe(present: nat -> bool, firstSeq: nat, lastSeq: nat)
    requires !present(0) && lastSeq < NONE
    ensures AlwaysRight(present, firstSeq, lastSeq) <==> ProbesSafe(present, firstSeq, lastSeq)
  {
    if ProbesSafe(present, firstSeq, lastSeq) {
      forall time: nat -> int, target: int | Ordered(Stream(present, time))
        ensures IsLeast(Stream(present, time), target, firstSeq, lastSeq, NONE,
                        Search(Stream(present, time), target, firstSeq, lastSeq, NONE))
      {
        SafeSearch(Stream(present, time), target, firstSeq, lastSeq, NONE,
                   Search(Stream(present, time), target, firstSeq, lastSeq, NONE));
      }
    } else {
      var s := UnsafeMiss(present, firstSeq, lastSeq);
      var stream := Step(present, s);
      assert Ordered(Stream(present, stream.time));
      assert AtOrAfter(stream, 1, firstSeq, lastSeq, s);
      assert stream == Stream(present, stream.time);
      var result := Search(stream, 1, firstSeq, lastSeq, NONE);
      assert Missed(present, firstSeq, lastSeq, s) && result != s;
      assert !IsLeast(stream, 1, firstSeq, lastSeq, NONE, result);
    }
  }

  /** A range without gaps is safe. */
  lemma {:induction false} GapFreeIsSafe(present: nat -> bool, left: nat, right: int)
    requires left >= 1 && forall s | left <= s <= right :: present(s)
    ensures ProbesSafe(present, left, right)
    decreases right - left
  {
    if left <= right {
      var mid := Midpoint(left, right);
      GapFreeIsSafe(present, left, mid - 1);
      GapFreeIsSafe(present, mid + 1, right);
    }
  }

  /** Over a gap-free range with non-decreasing times the answer is the least sequence at or after the time, or the
      sentinel. */
  lemma GapFreeSearch(stream: Stream, target: int, firstSeq: nat, lastSeq: nat)
    requires firstSeq >= 1 && lastSeq < NONE && !stream.present(0) && Ordered(stream)
    requires forall s | firstSeq <= s <= lastSeq :: stream.present(s)
    ensures IsLeast(stream, target, firstSeq, lastSeq, NONE, Search(stream, target, firstSeq, lastSeq, NONE))
  {
    GapFreeIsSafe(stream.present, firstSeq, lastSeq);
    SafeSearch(stream, target, firstSeq, lastSeq, NONE, Search(stream, target, firstSeq, lastSeq, NONE));
  }

  /** Over gaps the search still ends, and what it finds is a retained message at or after the time; but it can miss:
      of three sequences with the middle one gone, it never answers the first. */
  lemma GapMisses(stream: Stream, target: int, first: nat)
    requires !stream.present(0) && stream.present(first) && !stream.present(first + 1) && stream.present(first + 2)
    requires stream.time(first) >= target && stream.time(first + 2) >= target
    ensures AtOrAfter(stream, target, first, first + 2, first)
    ensures Search(stream, target, first, first + 2, NONE) == first + 2
  {
    assert Midpoint(first, first + 2) == first + 1 && Midpoint(first + 2, first + 2) == first + 2;
    assert Search(stream, target, first + 2, first + 1, first + 2) == first + 2;
    assert Search(stream, target, first + 2, first + 2, NONE) == first + 2;
  }
}
