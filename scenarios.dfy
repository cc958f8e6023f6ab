/**
 * Concrete bookings for one doctor (id 7), times in minutes after midnight
 * (600 is 10:00), showing what the rule admits and what it refuses.
 */
module Scenarios {
  import opened Models
  import opened Persistence

  /** The verdicts on the table holding only the 10:00 appointment (at key `a`). */
  lemma VerdictsAtTen(a: Id)
    ensures !Clean(map[a := NewTurno(1, 7, 600)], None, NewTurno(2, 7, 615))
    ensures UniqueTogether(map[a := NewTurno(1, 7, 600)], None, NewTurno(2, 7, 615))
    ensures Clean(map[a := NewTurno(1, 7, 600)], None, NewTurno(2, 7, 630))
    ensures UniqueTogether(map[a := NewTurno(1, 7, 600)], None, NewTurno(2, 7, 630))
  {
    ActiveRowBlocksWindow(map[a := NewTurno(1, 7, 600)], None, NewTurno(2, 7, 615), a);
    TouchingIgnored(map[a := NewTurno(1, 7, 600)], None, NewTurno(2, 7, 630), a);
    assert map[a := NewTurno(1, 7, 600)] - {a} == map[];
  }

  /** The verdict on cancelling the 10:00 appointment while 10:30 (at key `b`) is booked. */
  lemma VerdictCancel(a: Id, b: Id)
    requires a != b
    ensures var s := map[a := NewTurno(1, 7, 600), b := NewTurno(2, 7, 630)];
            Clean(s, Some(a), NewTurno(1, 7, 600).(estado := Cancelado))
            && UniqueTogether(s, Some(a), NewTurno(1, 7, 600).(estado := Cancelado))
  {
  }

  /** The verdicts once 10:00 is cancelled: 10:00 is a duplicate start, 09:50 is free. */
  lemma VerdictsAfterCancel(a: Id, b: Id)
    requires a != b
    ensures var s := map[a := NewTurno(1, 7, 600).(estado := Cancelado), b := NewTurno(2, 7, 630)];
            && Clean(s, None, NewTurno(3, 7, 600)) && !UniqueTogether(s, None, NewTurno(3, 7, 600))
            && Clean(s, None, NewTurno(3, 7, 590)) && UniqueTogether(s, None, NewTurno(3, 7, 590))
  {
    var s := map[a := NewTurno(1, 7, 600).(estado := Cancelado), b := NewTurno(2, 7, 630)];
    SameStartAlwaysRejected(s, None, NewTurno(3, 7, 600), a);
    WindowIsOverlap(600, 630);
    assert !Conflicts(s, None, NewTurno(3, 7, 600), b);
    WindowIsOverlap(590, 630);
    assert !Conflicts(s, None, NewTurno(3, 7, 590), b);
  }

  /**
   * A day through `Save`: 10:00 booked; 10:15 refused as an overlap; 10:30
   * (back to back) booked; the 10:00 appointment cancelled; a new booking at
   * exactly 10:00 still refused, by the (doctor, start) uniqueness constraint
   * that the cancelled row keeps occupying; 09:50 then booked, since the
   * cancelled row no longer counts for overlap.
   */
  method DoctorDay()
  {
    var store := new TurnoStore();
    var r := store.Save(None, NewTurno(1, 7, 600));
    var a := r.id;
    assert store.turnos == map[a := NewTurno(1, 7, 600)];
    VerdictsAtTen(a);

    r := store.Save(None, NewTurno(2, 7, 615));
    assert r == Rejected(true, false);

    r := store.Save(None, NewTurno(2, 7, 630));
    var b := r.id;
    assert a != b && store.turnos == map[a := NewTurno(1, 7, 600), b := NewTurno(2, 7, 630)];
    VerdictCancel(a, b);

    r := store.Save(Some(a), NewTurno(1, 7, 600).(estado := Cancelado));
    assert r == Saved(a);
    assert store.turnos == map[a := NewTurno(1, 7, 600).(estado := Cancelado), b := NewTurno(2, 7, 630)];
    VerdictsAfterCancel(a, b);

    r := store.Save(None, NewTurno(3, 7, 600));
    assert r == Rejected(false, true);

    r := store.Save(None, NewTurno(3, 7, 590));
    assert r.Saved?;
  }

  /**
   * The candidate's own status is not consulted: a `Cancelado` appointment
   * whose former slot was rebooked 15 minutes later can no longer be saved
   * again (to edit its reason, say), although the table satisfies both
   * invariants.
   */
  lemma CancelledResaveStillChecked()
    ensures var s := map[1 := NewTurno(1, 7, 600).(estado := Cancelado), 2 := NewTurno(2, 7, 615)];
            && NoDoubleBooking(s) && UniqueSlots(s)
            && !Clean(s, Some(1), s[1].(motivoConsulta := Some("control")))
  {
    var s := map[1 := NewTurno(1, 7, 600).(estado := Cancelado), 2 := NewTurno(2, 7, 615)];
    ActiveRowBlocksWindow(s, Some(1), s[1].(motivoConsulta := Some("control")), 2);
  }
}
