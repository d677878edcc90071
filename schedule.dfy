/**
 The slot grid of `Doctor.create_schedule` (agenda/models.py:45-65): the
 start times from the opening time, one slot length apart, while strictly
 before the closing time.
 */
module Schedule {
  import opened Agenda

  /**
   The slots from `start` up to (excluding) `end`, `duration` minutes apart.
   With `start >= end` it is empty whatever the duration; otherwise the loop
   it specifies ends only for a positive duration.
   */
  function Grid(start: int, end: int, duration: int): seq<int>
    requires duration > 0 || start >= end
    decreases end - start
  {
    if start < end then [start] + Grid(start + duration, end, duration) else []
  }

  /**
   `create_schedule`: the loop appends the current time and steps by the slot
   length while the current time is before the closing time. The slot length
   defaults to 30 minutes.
   */
  method CreateSchedule(doctor: Doctor, duration: int := DefaultDuration) returns (schedule: seq<TimeOfDay>)
    requires duration > 0 || doctor.startTime >= doctor.endTime
    ensures schedule == Grid(doctor.startTime, doctor.endTime, duration)
  {
    schedule := [];
    var current: int := doctor.startTime;
    var end: int := doctor.endTime;
    while current < end
      invariant doctor.startTime <= current
      invariant duration > 0 || current >= end
      invariant schedule + Grid(current, end, duration) == Grid(doctor.startTime, end, duration)
      decreases end - current
    {
      assert Grid(current, end, duration) == [current] + Grid(current + duration, end, duration);
      assert schedule + [current] + Grid(current + duration, end, duration)
          == schedule + ([current] + Grid(current + duration, end, duration));
      schedule := schedule + [current];
      current := current + duration;
    }
  }

  /** Every slot lies in the working day; the grid is empty exactly when the day is empty or inverted. */
  lemma {:induction false} GridBounds(start: int, end: int, duration: int)
    requires duration > 0 || start >= end
    ensures Grid(start, end, duration) == [] <==> start >= end
    ensures forall t :: t in Grid(start, end, duration) ==> start <= t < end
    decreases end - start
  {
    if start < end {
      GridBounds(start + duration, end, duration);
    }
  }

  /** The `i`-th slot is `start + i * duration`: an arithmetic progression from the opening time. */
  lemma {:induction false} GridAt(start: int, end: int, duration: int, i: int)
    requires duration > 0
    requires 0 <= i < |Grid(start, end, duration)|
    ensures Grid(start, end, duration)[i] == start + i * duration
    decreases end - start
  {
    if i > 0 {
      GridAt(start + duration, end, duration, i - 1);
    }
  }

  /**
   The grid has `n` slots with `(n - 1) * duration < end - start <= n * duration`,
   i.e. `n` is `end - start` divided by `duration`, rounded up.
   */
  lemma {:induction false} GridLength(start: int, end: int, duration: int)
    requires duration > 0
    requires start < end
    ensures (|Grid(start, end, duration)| - 1) * duration < end - start
    ensures end - start <= |Grid(start, end, duration)| * duration
    decreases end - start
  {
    if start + duration < end {
      GridLength(start + duration, end, duration);
    }
  }

  /** Consecutive slots are exactly `duration` apart, and the grid is strictly increasing. */
  lemma GridSteps(start: int, end: int, duration: int)
    requires duration > 0
    ensures var g := Grid(start, end, duration);
      (|g| > 0 ==> g[0] == start) &&
      (forall i :: 0 <= i < |g| - 1 ==> g[i + 1] == g[i] + duration) &&
      (forall i, j :: 0 <= i < j < |g| ==> g[i] < g[j])
  {
    var g := Grid(start, end, duration);
    forall i | 0 <= i < |g| ensures g[i] == start + i * duration {
      GridAt(start, end, duration, i);
    }
    forall i, j | 0 <= i < j < |g| ensures g[i] < g[j] {
      assert g[j] - g[i] == (j - i) * duration;
      MulPositive(j - i, duration);
    }
  }

  /** The grid is complete: the last slot ends at or after the closing time. */
  lemma GridComplete(start: int, end: int, duration: int)
    requires duration > 0
    requires start < end
    ensures var g := Grid(start, end, duration);
      |g| > 0 && g[|g| - 1] + duration >= end
  {
    var g := Grid(start, end, duration);
    GridBounds(start, end, duration);
    GridLength(start, end, duration);
    GridAt(start, end, duration, |g| - 1);
    assert g[|g| - 1] + duration == start + |g| * duration;
  }

  /** The number of slots is the ceiling of `(end - start) / duration`, and 0 for an empty day. */
  lemma GridCount(start: int, end: int, duration: int)
    requires duration > 0
    ensures |Grid(start, end, duration)| == if start < end then (end - start + duration - 1) / duration else 0
  {
    if start < end {
      var n := |Grid(start, end, duration)|;
      GridLength(start, end, duration);
      DivUnique(end - start + duration - 1, duration, n);
    } else {
      GridBounds(start, end, duration);
    }
  }

  /** A time is a slot exactly when it is in the working day and a whole number of slots after opening. */
  lemma GridMembership(start: int, end: int, duration: int, t: int)
    requires duration > 0
    ensures t in Grid(start, end, duration) <==> start <= t < end && (t - start) % duration == 0
  {
    var g := Grid(start, end, duration);
    if t in g {
      GridBounds(start, end, duration);
      var i :| 0 <= i < |g| && g[i] == t;
      GridAt(start, end, duration, i);
      ModMultiple(i, duration);
    }
    if start <= t < end && (t - start) % duration == 0 {
      var i := (t - start) / duration;
      assert t == start + i * duration;
      GridLength(start, end, duration);
      if |g| <= i {
        MulMonotone(|g|, i, duration);
        assert false;
      }
      GridAt(start, end, duration, i);
      assert g[i] == t;
    }
  }

  /** 08:00-12:00 with the default 30-minute slots gives the 8 slots 08:00, 08:30, ..., 11:30. */
  lemma MorningGrid()
    ensures Grid(480, 720, DefaultDuration) == [480, 510, 540, 570, 600, 630, 660, 690]
  {
  }

  /** Called with the default slot length, a doctor working 08:00-12:00 gets the 8 half-hour slots. */
  method MorningSchedule() returns (schedule: seq<TimeOfDay>)
    ensures schedule == [480, 510, 540, 570, 600, 630, 660, 690]
  {
    schedule := CreateSchedule(Doctor(1, 480, 720));
    MorningGrid();
  }

  // Arithmetic helpers.

  lemma MulPositive(a: int, b: int)
    requires a > 0 && b > 0
    ensures a * b > 0
  {
  }

  lemma MulMonotone(a: int, b: int, d: int)
    requires a <= b && d > 0
    ensures a * d <= b * d
  {
    assert b * d - a * d == (b - a) * d;
  }

  lemma ModMultiple(i: int, d: int)
    requires i >= 0 && d > 0
    ensures (i * d) % d == 0
  {
    var q, r := (i * d) / d, (i * d) % d;
    assert r == (i - q) * d;
    if i - q >= 1 {
      MulMonotone(1, i - q, d);
      assert false;
    }
    if i - q <= -1 {
      MulMonotone(1, q - i, d);
      assert false;
    }
  }

  lemma DivUnique(y: int, d: int, n: int)
    requires d > 0
    requires n * d <= y < (n + 1) * d
    ensures y / d == n
  {
    var q, r := y / d, y % d;
    assert y == q * d + r;
    if q < n {
      MulMonotone(q + 1, n, d);
      assert false;
    }
    if q > n {
      MulMonotone(n + 1, q, d);
      assert false;
    }
  }
}
