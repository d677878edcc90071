/**
 `Appointment.check_conflicts` (agenda/models.py:131-156): a candidate
 appointment is checked against the doctor's other appointments on the same
 date, then against the doctor's working hours.

 The two `ValidationError`s become the verdicts `Conflict` and `OutsideHours`.
 The status of an appointment is never looked at, and the hours test looks at
 the start time only.
 */
module Conflicts {
  import opened Agenda

  datatype Verdict = Ok | Conflict | OutsideHours

  /**
   The half-open intervals `[s1, s1 + d1)` and `[s2, s2 + d2)` intersect, as
   tested at line 149. Ends are plain integers: an appointment may run past
   midnight, as a `datetime` sum does within the range of `datetime`.
   */
  predicate Overlaps(s1: int, d1: int, s2: int, d2: int) {
    s1 < s2 + d2 && s1 + d1 > s2
  }

  /** The candidate `c` overlaps the stored appointment `a`. */
  predicate Clash(c: Appointment, a: Appointment) {
    Overlaps(c.time, c.duration, a.time, a.duration)
  }

  /** `a` is one of the rows the query at lines 141-144 selects for `c`. */
  predicate SameDayOther(a: Appointment, c: Appointment) {
    a.doctor == c.doctor && a.date == c.date && a.pk != c.pk
  }

  /** The start time is inside the working day, as tested at line 155. */
  predicate WithinHours(doctor: Doctor, t: TimeOfDay) {
    doctor.startTime <= t < doctor.endTime
  }

  /**
   The query at lines 141-144 over the whole table `store`: the rows of the
   same doctor and date, without the row whose key is the candidate's own.
   */
  function OthersSameDay(store: seq<Appointment>, c: Appointment): (r: seq<Appointment>)
    ensures forall a :: a in r <==> a in store && SameDayOther(a, c)
    ensures |r| <= |store|
  {
    if store == [] then []
    else
      var rest := OthersSameDay(store[1..], c);
      assert forall a :: a in store <==> a == store[0] || a in store[1..];
      if SameDayOther(store[0], c) then [store[0]] + rest else rest
  }

  /**
   The verdict of `check_conflicts` for candidate `c` of `doctor` against the
   table `store`: an overlap with any selected row is a conflict, checked
   before the working hours.
   */
  function Validate(store: seq<Appointment>, doctor: Doctor, c: Appointment): (v: Verdict)
    requires doctor.id == c.doctor
    ensures v == Conflict <==>
      exists a :: a in store && SameDayOther(a, c) && Clash(c, a)
    ensures v == OutsideHours <==>
      (forall a :: a in store && SameDayOther(a, c) ==> !Clash(c, a)) && !(doctor.startTime <= c.time < doctor.endTime)
    ensures v == Ok <==>
      (forall a :: a in store && SameDayOther(a, c) ==> !Clash(c, a)) && doctor.startTime <= c.time < doctor.endTime
  {
    var others := OthersSameDay(store, c);
    if exists a :: a in others && Clash(c, a) then Conflict
    else if !WithinHours(doctor, c.time) then OutsideHours
    else Ok
  }

  /**
   `check_conflicts` itself: the `for` loop over the selected rows stops at the
   first overlap; only when none overlaps are the working hours checked.
   */
  method CheckConflicts(store: seq<Appointment>, doctor: Doctor, c: Appointment) returns (v: Verdict)
    requires doctor.id == c.doctor
    ensures v == Validate(store, doctor, c)
  {
    var existing := OthersSameDay(store, c);
    for i := 0 to |existing|
      invariant forall j :: 0 <= j < i ==> !Clash(c, existing[j])
    {
      if Clash(c, existing[i]) {
        return Conflict;
      }
    }
    if !WithinHours(doctor, c.time) {
      return OutsideHours;
    }
    return Ok;
  }

  /** Overlap is symmetric: it does not matter which side is the candidate. */
  lemma OverlapsSymmetric(s1: int, d1: int, s2: int, d2: int)
    ensures Overlaps(s1, d1, s2, d2) <==> Overlaps(s2, d2, s1, d1)
  {
  }

  /** Intervals that touch end to start do not overlap. */
  lemma TouchingDoesNotOverlap(s: int, d: nat, d2: nat)
    ensures !Overlaps(s + d, d2, s, d) && !Overlaps(s, d, s + d, d2)
  {
  }

  /** Two appointments equal except for their status. */
  predicate SameButStatus(a: Appointment, b: Appointment) {
    a.(status := Agendada) == b.(status := Agendada)
  }

  /**
   The status is never consulted: changing the status of the candidate or of
   any stored row, cancelled or completed ones included, leaves the verdict as
   it was.
   */
  lemma StatusIgnored(store: seq<Appointment>, store': seq<Appointment>, doctor: Doctor, c: Appointment, c': Appointment)
    requires doctor.id == c.doctor
    requires SameButStatus(c, c')
    requires |store| == |store'|
    requires forall i :: 0 <= i < |store| ==> SameButStatus(store[i], store'[i])
    ensures Validate(store, doctor, c) == Validate(store', doctor, c')
  {
    assert c'.doctor == c.doctor && c'.date == c.date && c'.pk == c.pk;
    assert c'.time == c.time && c'.duration == c.duration;
    if Validate(store, doctor, c) == Conflict {
      var a :| a in store && SameDayOther(a, c) && Clash(c, a);
      var i :| 0 <= i < |store| && store[i] == a;
      assert store'[i].doctor == a.doctor && store'[i].date == a.date && store'[i].pk == a.pk;
      assert store'[i].time == a.time && store'[i].duration == a.duration;
      assert store'[i] in store' && SameDayOther(store'[i], c') && Clash(c', store'[i]);
    } else if Validate(store', doctor, c') == Conflict {
      var a' :| a' in store' && SameDayOther(a', c') && Clash(c', a');
      var i :| 0 <= i < |store'| && store'[i] == a';
      assert store[i].doctor == a'.doctor && store[i].date == a'.date && store[i].pk == a'.pk;
      assert store[i].time == a'.time && store[i].duration == a'.duration;
      assert store[i] in store && SameDayOther(store[i], c) && Clash(c, store[i]);
    }
  }

  /** A cancelled or completed appointment blocks an overlapping booking like any other. */
  lemma InactiveStatusStillBlocks(store: seq<Appointment>, doctor: Doctor, c: Appointment, a: Appointment)
    requires doctor.id == c.doctor
    requires a in store && a.status in {Cancelada, Realizada}
    requires SameDayOther(a, c) && Clash(c, a)
    ensures Validate(store, doctor, c) == Conflict
  {
  }

  /** When a candidate both overlaps and starts outside the working day, the overlap is reported. */
  lemma ConflictWins(store: seq<Appointment>, doctor: Doctor, c: Appointment)
    requires doctor.id == c.doctor
    requires !WithinHours(doctor, c.time)
    requires exists a :: a in store && SameDayOther(a, c) && Clash(c, a)
    ensures Validate(store, doctor, c) == Conflict
  {
  }

  /**
   Only the start is held to the working day: a candidate that starts inside
   and meets no overlap is accepted even when it runs past closing.
   */
  lemma EndNotChecked(store: seq<Appointment>, doctor: Doctor, c: Appointment)
    requires doctor.id == c.doctor
    requires WithinHours(doctor, c.time) && c.time + c.duration > doctor.endTime
    requires forall a :: a in store && SameDayOther(a, c) ==> !Clash(c, a)
    ensures Validate(store, doctor, c) == Ok
  {
  }

  // Worked examples: a doctor working 08:00-17:00 on day 0.

  const ExampleDoctor: Doctor := Doctor(1, 480, 1020)

  /** A row of `ExampleDoctor` on day 0, with the default status. */
  function Row(pk: Option<nat>, time: TimeOfDay, duration: nat): Appointment {
    Appointment(pk, 1, 7, 0, time, duration, DefaultStatus, "")
  }

  /** 09:15 for 30 minutes against 09:00-09:30 is a conflict. */
  lemma ExampleOverlap()
    ensures Validate([Row(Some(1), 540, 30)], ExampleDoctor, Row(None, 555, 30)) == Conflict
  {
    assert Clash(Row(None, 555, 30), Row(Some(1), 540, 30));
  }

  /** 09:30 for 30 minutes against 09:00-09:30 is accepted: the intervals only touch. */
  lemma ExampleTouching()
    ensures Validate([Row(Some(1), 540, 30)], ExampleDoctor, Row(None, 570, 30)) == Ok
  {
  }

  /** 07:59 is before opening. */
  lemma ExampleEarly()
    ensures Validate([], ExampleDoctor, Row(None, 479, 30)) == OutsideHours
  {
  }

  /** 16:45 for 60 minutes is accepted although it ends at 17:45. */
  lemma ExampleRunsPastClosing()
    ensures Validate([], ExampleDoctor, Row(None, 1005, 60)) == Ok
  {
  }

  /** Re-checking a stored row does not meet itself: its own key is excluded. */
  lemma ExampleOwnRowExcluded()
    ensures Validate([Row(Some(1), 540, 30)], ExampleDoctor, Row(Some(1), 540, 30)) == Ok
  {
  }
}
