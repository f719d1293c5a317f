/** Time slots and the two sweeps of the availability search: merging occupied
    slots and listing the free gaps between them. */
module Intervals {
  import opened Model
  import Durations

  /** AllocationService.TimeSlot: the half-open interval [start, end). */
  datatype TimeSlot = TimeSlot(start: Instant, end: Instant) {

    /** getDurationMinutes: whole minutes, truncated toward zero. */
    function DurationMinutes(): (m: int)
      ensures start <= end ==> 0 <= m && m * 60 <= end - start < (m + 1) * 60
      ensures end < start ==> m <= 0 && (m - 1) * 60 < end - start <= m * 60
    {
      Durations.ToMinutes(start, end)
    }
  }

  /** Instant `t` lies in the slot. */
  predicate InSlot(t: Instant, x: TimeSlot) {
    x.start <= t < x.end
  }

  /** Instant `t` lies in some slot of `xs`. */
  predicate Covered(xs: seq<TimeSlot>, t: Instant) {
    exists x :: x in xs && InSlot(t, x)
  }

  predicate NonEmptySlots(xs: seq<TimeSlot>) {
    forall i :: 0 <= i < |xs| ==> xs[i].start < xs[i].end
  }

  predicate SortedByStart(xs: seq<TimeSlot>) {
    forall i, j :: 0 <= i < j < |xs| ==> xs[i].start <= xs[j].start
  }

  /** Every slot ends strictly before any later slot starts: no overlap and
      no two slots touching. */
  predicate Separated(xs: seq<TimeSlot>) {
    forall i, j :: 0 <= i < j < |xs| ==> xs[i].end < xs[j].start
  }

  /** mergeIntervals: an empty list stays empty; otherwise the first slot is
      grown while the next one starts no later than it ends. */
  function MergeIntervals(intervals: seq<TimeSlot>): (merged: seq<TimeSlot>)
    ensures |merged| <= |intervals|
    ensures merged == [] <==> intervals == []
  {
    if intervals == [] then [] else MergeFrom(intervals[0], intervals[1..])
  }

  /** The loop of mergeIntervals: `current` is the slot being grown and `rest`
      the input not read yet. Touching slots (end equal to the next start) are
      merged. */
  function MergeFrom(current: TimeSlot, rest: seq<TimeSlot>): (merged: seq<TimeSlot>)
    ensures 1 <= |merged| <= |rest| + 1
    decreases |rest|
  {
    if rest == [] then [current]
    else if current.end >= rest[0].start then
      var end := if current.end > rest[0].end then current.end else rest[0].end;
      MergeFrom(TimeSlot(current.start, end), rest[1..])
    else [current] + MergeFrom(rest[0], rest[1..])
  }

  /** calculateGaps: the free slots of [dayStart, dayEnd) around `occupied`. */
  function CalculateGaps(occupied: seq<TimeSlot>, dayStart: Instant, dayEnd: Instant): (gaps: seq<TimeSlot>)
    ensures NonEmptySlots(gaps)
  {
    GapsFrom(dayStart, occupied, dayEnd)
  }

  /** The loop of calculateGaps: `current` is the end of the last slot seen. A
      gap is emitted before a slot only when `current` is strictly before the
      slot's start, and a final gap only when `current` is before `dayEnd`. */
  function GapsFrom(current: Instant, slots: seq<TimeSlot>, dayEnd: Instant): (gaps: seq<TimeSlot>)
    ensures NonEmptySlots(gaps)
    decreases |slots|
  {
    if slots == [] then
      if current < dayEnd then [TimeSlot(current, dayEnd)] else []
    else
      var before := if current < slots[0].start then [TimeSlot(current, slots[0].start)] else [];
      before + GapsFrom(slots[0].end, slots[1..], dayEnd)
  }

  lemma CoveredCons(x: TimeSlot, xs: seq<TimeSlot>, t: Instant)
    ensures Covered([x] + xs, t) <==> InSlot(t, x) || Covered(xs, t)
  {
    if Covered([x] + xs, t) {
      var y :| y in [x] + xs && InSlot(t, y);
      if y != x {
        assert y in xs;
      }
    }
    if Covered(xs, t) {
      var y :| y in xs && InSlot(t, y);
      assert y in [x] + xs;
    }
  }

  /** The tail of a start-sorted list is start-sorted and starts no earlier
      than its head. */
  lemma SortedAfterHead(current: TimeSlot, rest: seq<TimeSlot>)
    requires SortedByStart([current] + rest)
    ensures SortedByStart(rest)
    ensures forall i :: 0 <= i < |rest| ==> current.start <= rest[i].start
  {
    var xs := [current] + rest;
    forall i, j | 0 <= i < j < |rest| ensures rest[i].start <= rest[j].start {
      assert xs[i + 1] == rest[i] && xs[j + 1] == rest[j];
    }
    forall i | 0 <= i < |rest| ensures current.start <= rest[i].start {
      assert xs[0] == current && xs[i + 1] == rest[i];
    }
  }

  /** Replacing the first two slots of a start-sorted list by one slot with
      the first one's start keeps it start-sorted. */
  lemma SortedAfterGrow(current: TimeSlot, rest: seq<TimeSlot>, end: Instant)
    requires rest != []
    requires SortedByStart([current] + rest)
    ensures SortedByStart([TimeSlot(current.start, end)] + rest[1..])
  {
    SortedAfterHead(current, rest);
    var ys := [TimeSlot(current.start, end)] + rest[1..];
    forall i, j | 0 <= i < j < |ys| ensures ys[i].start <= ys[j].start {
      assert ys[j] == rest[j];
      if i > 0 {
        assert ys[i] == rest[i];
      }
    }
  }

  /** A slot ending before every slot of a separated list starts, put in
      front of it, keeps it separated. */
  lemma SeparatedCons(x: TimeSlot, tail: seq<TimeSlot>)
    requires Separated(tail)
    requires forall j :: 0 <= j < |tail| ==> x.end < tail[j].start
    ensures Separated([x] + tail)
  {
    var xs := [x] + tail;
    forall i, j | 0 <= i < j < |xs| ensures xs[i].end < xs[j].start {
      assert xs[j] == tail[j - 1];
      if i > 0 {
        assert xs[i] == tail[i - 1];
      }
    }
  }

  /** Merging a start-sorted run of non-empty slots gives separated,
      non-empty slots covering exactly the instants of the input. The first
      merged slot starts with `current` and ends no earlier. */
  lemma {:induction false} MergeFromCorrect(current: TimeSlot, rest: seq<TimeSlot>)
    requires current.start < current.end
    requires NonEmptySlots(rest)
    requires SortedByStart([current] + rest)
    ensures var merged := MergeFrom(current, rest);
      && NonEmptySlots(merged)
      && Separated(merged)
      && merged[0].start == current.start
      && merged[0].end >= current.end
      && (forall i :: 0 <= i < |merged| ==> merged[i].start >= current.start)
      && (forall t :: Covered(merged, t) <==> InSlot(t, current) || Covered(rest, t))
    decreases |rest|
  {
    var merged := MergeFrom(current, rest);
    if rest == [] {
      forall t ensures Covered(merged, t) <==> InSlot(t, current) {
        CoveredCons(current, [], t);
      }
    } else if current.end >= rest[0].start {
      var end := if current.end > rest[0].end then current.end else rest[0].end;
      var grown := TimeSlot(current.start, end);
      SortedAfterHead(current, rest);
      SortedAfterGrow(current, rest, end);
      MergeFromCorrect(grown, rest[1..]);
      assert rest == [rest[0]] + rest[1..];
      forall t ensures Covered(merged, t) <==> InSlot(t, current) || Covered(rest, t) {
        CoveredCons(rest[0], rest[1..], t);
        assert InSlot(t, grown) <==> InSlot(t, current) || InSlot(t, rest[0]);
      }
    } else {
      var tail := MergeFrom(rest[0], rest[1..]);
      SortedAfterHead(current, rest);
      assert rest == [rest[0]] + rest[1..];
      MergeFromCorrect(rest[0], rest[1..]);
      assert merged == [current] + tail;
      SeparatedCons(current, tail);
      forall i | 0 <= i < |merged| ensures merged[i].start >= current.start {
        if i > 0 {
          assert merged[i] == tail[i - 1];
        }
      }
      forall t ensures Covered(merged, t) <==> InSlot(t, current) || Covered(rest, t) {
        CoveredCons(current, tail, t);
        CoveredCons(rest[0], rest[1..], t);
      }
    }
  }

  /** Every merged slot starts before a bound that every input slot starts before. */
  lemma {:induction false} MergeFromStartsBelow(current: TimeSlot, rest: seq<TimeSlot>, bound: Instant)
    requires current.start < bound
    requires forall i :: 0 <= i < |rest| ==> rest[i].start < bound
    ensures forall i :: 0 <= i < |MergeFrom(current, rest)| ==> MergeFrom(current, rest)[i].start < bound
    decreases |rest|
  {
    if rest == [] {
    } else if current.end >= rest[0].start {
      var end := if current.end > rest[0].end then current.end else rest[0].end;
      MergeFromStartsBelow(TimeSlot(current.start, end), rest[1..], bound);
    } else {
      MergeFromStartsBelow(rest[0], rest[1..], bound);
    }
  }

  /** mergeIntervals on a start-sorted list of non-empty slots: the result is
      separated (so sorted), non-empty, and covers the same instants. */
  lemma MergeIntervalsCorrect(intervals: seq<TimeSlot>)
    requires NonEmptySlots(intervals)
    requires SortedByStart(intervals)
    ensures var merged := MergeIntervals(intervals);
      && NonEmptySlots(merged)
      && Separated(merged)
      && SortedByStart(merged)
      && (forall t :: Covered(merged, t) <==> Covered(intervals, t))
  {
    if intervals != [] {
      assert intervals == [intervals[0]] + intervals[1..];
      MergeFromCorrect(intervals[0], intervals[1..]);
      forall t ensures Covered(MergeIntervals(intervals), t) <==> Covered(intervals, t) {
        CoveredCons(intervals[0], intervals[1..], t);
      }
    }
  }

  /** The example in the documentation of mergeIntervals. */
  lemma MergeIntervalsExample()
    ensures MergeIntervals([TimeSlot(1, 3), TimeSlot(2, 6), TimeSlot(8, 10)])
         == [TimeSlot(1, 6), TimeSlot(8, 10)]
  {
  }

  /** Slots that only touch are merged into one. */
  lemma MergeJoinsTouchingSlots()
    ensures MergeIntervals([TimeSlot(1, 3), TimeSlot(3, 5)]) == [TimeSlot(1, 5)]
  {
  }

  /** A day from 9:00 to 18:00 with bookings from 9:00 to 10:00 and from 11:00
      to 12:00, in seconds: free from 10:00 to 11:00 and from 12:00 on. */
  lemma CalculateGapsExample()
    ensures CalculateGaps([TimeSlot(32400, 36000), TimeSlot(39600, 43200)], 32400, 64800)
         == [TimeSlot(36000, 39600), TimeSlot(43200, 64800)]
  {
  }

  /** The slots after the first of a separated list are separated and start
      after the first one ends. */
  lemma SeparatedTail(slots: seq<TimeSlot>)
    requires slots != []
    requires Separated(slots)
    ensures Separated(slots[1..])
    ensures forall j :: 0 <= j < |slots[1..]| ==> slots[0].end < slots[1..][j].start
  {
    var rest := slots[1..];
    forall i, j | 0 <= i < j < |rest| ensures rest[i].end < rest[j].start {
      assert slots[i + 1] == rest[i] && slots[j + 1] == rest[j];
    }
    forall j | 0 <= j < |rest| ensures slots[0].end < rest[j].start {
      assert slots[j + 1] == rest[j];
    }
  }

  /** Every gap after `current` starts no earlier than `current`. */
  lemma {:induction false} GapsStartLate(current: Instant, slots: seq<TimeSlot>, dayEnd: Instant)
    requires NonEmptySlots(slots)
    requires Separated(slots)
    requires slots != [] ==> current < slots[0].end
    ensures forall g :: g in GapsFrom(current, slots, dayEnd) ==> current <= g.start
    decreases |slots|
  {
    if slots != [] {
      SeparatedTail(slots);
      GapsStartLate(slots[0].end, slots[1..], dayEnd);
    }
  }

  /** Two separated lists, the first ending before the second starts, make a
      separated list. */
  lemma SeparatedConcat(xs: seq<TimeSlot>, ys: seq<TimeSlot>)
    requires Separated(xs) && Separated(ys)
    requires forall x, y :: x in xs && y in ys ==> x.end < y.start
    ensures Separated(xs + ys)
  {
    var zs := xs + ys;
    forall i, j | 0 <= i < j < |zs| ensures zs[i].end < zs[j].start {
      if j < |xs| {
        assert zs[i] == xs[i] && zs[j] == xs[j];
      } else if i >= |xs| {
        assert zs[i] == ys[i - |xs|] && zs[j] == ys[j - |xs|];
      } else {
        assert zs[i] in xs && zs[j] in ys by {
          assert zs[i] == xs[i] && zs[j] == ys[j - |xs|];
        }
      }
    }
  }

  /** The gaps are separated. */
  lemma {:induction false} GapsSeparated(current: Instant, slots: seq<TimeSlot>, dayEnd: Instant)
    requires NonEmptySlots(slots)
    requires Separated(slots)
    requires slots != [] ==> current < slots[0].end
    ensures Separated(GapsFrom(current, slots, dayEnd))
    decreases |slots|
  {
    if slots != [] {
      var s := slots[0];
      assert s.start < s.end;
      SeparatedTail(slots);
      var before := if current < s.start then [TimeSlot(current, s.start)] else [];
      var tail := GapsFrom(s.end, slots[1..], dayEnd);
      GapsSeparated(s.end, slots[1..], dayEnd);
      GapsStartLate(s.end, slots[1..], dayEnd);
      SeparatedConcat(before, tail);
    }
  }

  /** No instant lies both in a gap and in a slot. */
  lemma {:induction false} GapsAvoidSlots(current: Instant, slots: seq<TimeSlot>, dayEnd: Instant, t: Instant)
    requires NonEmptySlots(slots)
    requires Separated(slots)
    requires slots != [] ==> current < slots[0].end
    ensures !(Covered(GapsFrom(current, slots, dayEnd), t) && Covered(slots, t))
    decreases |slots|
  {
    if slots != [] {
      var s := slots[0];
      var rest := slots[1..];
      SeparatedTail(slots);
      var before := if current < s.start then [TimeSlot(current, s.start)] else [];
      var tail := GapsFrom(s.end, rest, dayEnd);
      GapsAvoidSlots(s.end, rest, dayEnd, t);
      GapsStartLate(s.end, rest, dayEnd);
      assert slots == [s] + rest;
      CoveredCons(s, rest, t);
      if before != [] {
        CoveredCons(before[0], tail, t);
      }
      if Covered(rest, t) {
        var y :| y in rest && InSlot(t, y);
      }
      if Covered(tail, t) {
        var y :| y in tail && InSlot(t, y);
      }
    }
  }

  /** From `current` up to `dayEnd`, an instant in no slot lies in a gap. */
  lemma {:induction false} GapsFillFreeTime(current: Instant, slots: seq<TimeSlot>, dayEnd: Instant, t: Instant)
    requires NonEmptySlots(slots)
    requires Separated(slots)
    requires current <= t < dayEnd
    requires !Covered(slots, t)
    ensures Covered(GapsFrom(current, slots, dayEnd), t)
    decreases |slots|
  {
    if slots == [] {
      CoveredCons(TimeSlot(current, dayEnd), [], t);
    } else {
      var s := slots[0];
      var rest := slots[1..];
      SeparatedTail(slots);
      var before := if current < s.start then [TimeSlot(current, s.start)] else [];
      var tail := GapsFrom(s.end, rest, dayEnd);
      assert slots == [s] + rest;
      CoveredCons(s, rest, t);
      if before != [] {
        CoveredCons(before[0], tail, t);
      } else {
        assert GapsFrom(current, slots, dayEnd) == tail;
      }
      if t >= s.end {
        GapsFillFreeTime(s.end, rest, dayEnd, t);
      }
    }
  }

  /** Gaps end by `dayEnd` when every slot starts by then. */
  lemma {:induction false} GapsEndInWindow(current: Instant, slots: seq<TimeSlot>, dayEnd: Instant)
    requires forall i :: 0 <= i < |slots| ==> slots[i].start <= dayEnd
    ensures forall g :: g in GapsFrom(current, slots, dayEnd) ==> g.end <= dayEnd
    decreases |slots|
  {
    if slots != [] {
      assert slots[0].start <= dayEnd;
      forall i | 0 <= i < |slots[1..]| ensures slots[1..][i].start <= dayEnd {
        assert slots[1..][i] == slots[i + 1];
      }
      GapsEndInWindow(slots[0].end, slots[1..], dayEnd);
    }
  }

  /** calculateGaps over separated slots of which the first ends after
      `dayStart`: the gaps are separated, start no earlier than `dayStart`, end
      by `dayEnd` when every slot starts by then, and inside [dayStart, dayEnd)
      an instant is in a gap exactly when it is in no occupied slot. */
  lemma CalculateGapsCorrect(occupied: seq<TimeSlot>, dayStart: Instant, dayEnd: Instant)
    requires NonEmptySlots(occupied)
    requires Separated(occupied)
    requires occupied != [] ==> dayStart < occupied[0].end
    ensures var gaps := CalculateGaps(occupied, dayStart, dayEnd);
      && Separated(gaps)
      && (forall g :: g in gaps ==> dayStart <= g.start)
      && ((forall i :: 0 <= i < |occupied| ==> occupied[i].start <= dayEnd) ==>
            forall g :: g in gaps ==> g.end <= dayEnd)
      && (forall t :: Covered(gaps, t) ==> !Covered(occupied, t))
      && (forall t :: dayStart <= t < dayEnd ==> (Covered(gaps, t) <==> !Covered(occupied, t)))
  {
    GapsSeparated(dayStart, occupied, dayEnd);
    GapsStartLate(dayStart, occupied, dayEnd);
    if forall i :: 0 <= i < |occupied| ==> occupied[i].start <= dayEnd {
      GapsEndInWindow(dayStart, occupied, dayEnd);
    }
    forall t ensures !(Covered(CalculateGaps(occupied, dayStart, dayEnd), t) && Covered(occupied, t)) {
      GapsAvoidSlots(dayStart, occupied, dayEnd, t);
    }
    forall t | dayStart <= t < dayEnd && !Covered(occupied, t)
      ensures Covered(CalculateGaps(occupied, dayStart, dayEnd), t)
    {
      GapsFillFreeTime(dayStart, occupied, dayEnd, t);
    }
  }
}
