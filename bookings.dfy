/**
 Invariants of the stored appointment table and what a successful
 `check_conflicts` preserves of them.

 The table is a sequence of rows, read as the set of its rows: all the
 invariants are stated over its members, so a row listed twice counts once.
 `Keyed` is the primary-key invariant: every stored row has a key, and no two
 different rows share one.
 */
module Bookings {
  import opened Agenda
  import opened Conflicts

  /** Every stored row has a primary key, and keys are unique. */
  ghost predicate Keyed(store: seq<Appointment>) {
    && (forall a :: a in store ==> a.pk.Some?)
    && (forall a, b :: a in store && b in store && a != b ==> a.pk != b.pk)
  }

  /** The `unique_together` constraint of line 110: no two rows share doctor, date and time. */
  ghost predicate UniqueSlots(store: seq<Appointment>) {
    forall a, b :: a in store && b in store && a != b && a.doctor == b.doctor && a.date == b.date ==> a.time != b.time
  }

  /** No two rows of one doctor on one date overlap. */
  ghost predicate NoOverlaps(store: seq<Appointment>) {
    forall a, b :: a in store && b in store && a != b && a.doctor == b.doctor && a.date == b.date ==> !Clash(a, b)
  }

  /** The rows whose key is not `pk`. */
  function Without(store: seq<Appointment>, pk: Option<nat>): (r: seq<Appointment>)
    ensures forall a :: a in r <==> a in store && a.pk != pk
  {
    if store == [] then []
    else
      var rest := Without(store[1..], pk);
      assert forall a :: a in store <==> a == store[0] || a in store[1..];
      if store[0].pk != pk then [store[0]] + rest else rest
  }

  /** A key `key` is free for a new row, or `c` already has its own key. */
  predicate KeyAvailable(store: seq<Appointment>, c: Appointment, key: nat) {
    c.pk.Some? || forall a :: a in store ==> a.pk != Some(key)
  }

  /** The row `c` becomes once saved: a new row is given the key `key`. */
  function AsStored(c: Appointment, key: nat): (r: Appointment)
    ensures r.pk.Some? && (c.pk.Some? ==> r == c)
    ensures c.pk.None? ==> r.pk == Some(key)
    ensures r.(pk := c.pk) == c
  {
    if c.pk.Some? then c else c.(pk := Some(key))
  }

  /**
   The table after `c` is saved: a row with `c`'s key is replaced by `c`; an
   unsaved `c` (key `None`) is inserted under the unused key `key`.
   */
  function Saved(store: seq<Appointment>, c: Appointment, key: nat): (r: seq<Appointment>)
    requires KeyAvailable(store, c, key)
    ensures forall a :: a in r <==> a == AsStored(c, key) || (a in store && a.pk != c.pk)
  {
    Without(store, c.pk) + [AsStored(c, key)]
  }

  /** Saving keeps the primary-key invariant. */
  lemma SavedKeepsKeys(store: seq<Appointment>, c: Appointment, key: nat)
    requires Keyed(store)
    requires KeyAvailable(store, c, key)
    ensures Keyed(Saved(store, c, key))
  {
    var s, c' := Saved(store, c, key), AsStored(c, key);
    forall a, b | a in s && b in s && a != b ensures a.pk != b.pk {
      if a == c' {
        assert b in store && b.pk != c.pk;
      } else if b == c' {
        assert a in store && a.pk != c.pk;
      }
    }
  }

  /**
   Over a keyed table free of overlaps, saving `c` keeps it free of overlaps
   exactly when `check_conflicts` does not report a conflict for `c`: the
   check rejects only what would break the invariant.
   */
  lemma SavedNoOverlapsIffNoConflict(store: seq<Appointment>, doctor: Doctor, c: Appointment, key: nat)
    requires doctor.id == c.doctor
    requires Keyed(store) && NoOverlaps(store)
    requires KeyAvailable(store, c, key)
    ensures NoOverlaps(Saved(store, c, key)) <==> Validate(store, doctor, c) != Conflict
  {
    var s, c' := Saved(store, c, key), AsStored(c, key);
    if Validate(store, doctor, c) == Conflict {
      var a :| a in store && SameDayOther(a, c) && Clash(c, a);
      assert a in s && c' in s;
      assert a != c' by {
        if c.pk.Some? { assert a.pk != c'.pk; } else { assert a.pk != Some(key); }
      }
      OverlapsSymmetric(c.time, c.duration, a.time, a.duration);
      assert a.doctor == c'.doctor && a.date == c'.date && Clash(a, c');
    } else {
      forall a, b | a in s && b in s && a != b && a.doctor == b.doctor && a.date == b.date
        ensures !Clash(a, b)
      {
        if a == c' {
          assert b in store && SameDayOther(b, c) && !Clash(c, b);
        } else if b == c' {
          assert a in store && SameDayOther(a, c) && !Clash(c, a);
          OverlapsSymmetric(c.time, c.duration, a.time, a.duration);
        } else {
          assert a in store && b in store;
        }
      }
    }
  }

  /**
   A candidate that `check_conflicts` accepts keeps the table keyed and the
   doctor's days free of overlaps once it is saved, so bookings saved one
   after another keep both invariants.
   */
  lemma OkPreservesNoOverlaps(store: seq<Appointment>, doctor: Doctor, c: Appointment, key: nat)
    requires doctor.id == c.doctor
    requires Keyed(store) && NoOverlaps(store)
    requires KeyAvailable(store, c, key)
    requires Validate(store, doctor, c) == Ok
    ensures Keyed(Saved(store, c, key)) && NoOverlaps(Saved(store, c, key))
  {
    SavedKeepsKeys(store, c, key);
    SavedNoOverlapsIffNoConflict(store, doctor, c, key);
  }

  /** Between rows of positive length, freedom from overlaps implies the `unique_together` constraint. */
  lemma NoOverlapsGivesUniqueSlots(store: seq<Appointment>)
    requires forall a :: a in store ==> a.duration > 0
    requires NoOverlaps(store)
    ensures UniqueSlots(store)
  {
    forall a, b | a in store && b in store && a != b && a.doctor == b.doctor && a.date == b.date
      ensures a.time != b.time
    {
      assert !Clash(a, b);
    }
  }

  /**
   With positive lengths throughout, an accepted candidate also keeps the
   `unique_together` constraint.
   */
  lemma OkPreservesUniqueSlots(store: seq<Appointment>, doctor: Doctor, c: Appointment, key: nat)
    requires doctor.id == c.doctor
    requires Keyed(store) && NoOverlaps(store)
    requires KeyAvailable(store, c, key)
    requires c.duration > 0 && forall a :: a in store ==> a.duration > 0
    requires Validate(store, doctor, c) == Ok
    ensures Keyed(Saved(store, c, key)) && UniqueSlots(Saved(store, c, key))
  {
    OkPreservesNoOverlaps(store, doctor, c, key);
    var s := Saved(store, c, key);
    forall a | a in s ensures a.duration > 0 {
      if a != AsStored(c, key) { assert a in store; }
    }
    NoOverlapsGivesUniqueSlots(s);
  }

  /**
   Two bookings saved one after the other: once 09:00-09:30 is saved under
   key 1, a new 09:10 booking meets it and is a conflict.
   */
  lemma ExampleSecondBookingConflicts()
    ensures var first := Row(None, 540, 30);
      var table := Saved([], first, 1);
      table == [Row(Some(1), 540, 30)] &&
      Validate(table, ExampleDoctor, Row(None, 550, 30)) == Conflict
  {
    var table := Saved([], Row(None, 540, 30), 1);
    assert table == [Row(Some(1), 540, 30)];
    assert Clash(Row(None, 550, 30), Row(Some(1), 540, 30));
  }

  /** A zero-length candidate overlaps a row only when it starts strictly inside it. */
  lemma ZeroLengthOverlap(t: int, s: int, d: nat)
    ensures Overlaps(t, 0, s, d) <==> s < t < s + d
  {
  }

  /**
   A zero-length candidate at exactly another row's start passes the overlap
   test, so only the `unique_together` constraint keeps it out of the table.
   */
  lemma ZeroLengthAtStartPasses()
    ensures var a := Row(Some(1), 540, 30);
      var c := Row(None, 540, 0);
      Validate([a], ExampleDoctor, c) == Ok && !UniqueSlots(Saved([a], c, 2))
  {
    var a := Row(Some(1), 540, 30);
    var c := Row(None, 540, 0);
    var c' := AsStored(c, 2);
    assert a in Saved([a], c, 2) && c' in Saved([a], c, 2) && a != c';
  }
}
