/**
 * The appointment table as a mutable object and `Turno.save`, which writes a
 * row only after the full validation (overlap check plus the
 * (doctor, start) uniqueness constraint) has passed.
 */
module Persistence {
  import opened Models

  /** Outcome of a save: the key written, or both validation verdicts when at least one failed. */
  datatype SaveResult = Saved(id: Id) | Rejected(overlap: bool, duplicate: bool)

  class TurnoStore {
    /** The rows, by primary key. */
    var turnos: Store
    /** The key the next inserted row receives. */
    var nextId: Id

    ghost predicate Valid()
      reads this
    {
      forall k :: k in turnos ==> k < nextId
    }

    /** An empty table. */
    constructor ()
      ensures Valid() && turnos == map[]
      ensures NoDoubleBooking(turnos) && UniqueSlots(turnos)
    {
      turnos := map[];
      nextId := 0;
    }

    /**
     * `Turno.save`: validate `t` (whose primary key is `pk`, `None` for a new
     * instance) against the table; on failure report which checks failed and
     * leave the table alone, on success insert or replace exactly that row.
     */
    method Save(pk: Option<Id>, t: Turno) returns (r: SaveResult)
      requires Valid()
      modifies this
      ensures Valid()
      ensures r.Rejected? <==> !(Clean(old(turnos), pk, t) && UniqueTogether(old(turnos), pk, t))
      ensures r.Rejected? ==>
                && r.overlap == !Clean(old(turnos), pk, t)
                && r.duplicate == !UniqueTogether(old(turnos), pk, t)
                && turnos == old(turnos) && nextId == old(nextId)
      ensures r.Saved? ==> SaveKey(old(turnos), pk, r.id) && turnos == old(turnos)[r.id := t]
      ensures old(NoDoubleBooking(turnos)) ==> NoDoubleBooking(turnos)
      ensures old(UniqueSlots(turnos)) ==> UniqueSlots(turnos)
    {
      var overlapOk := Clean(turnos, pk, t);
      var uniqueOk := UniqueTogether(turnos, pk, t);
      if !overlapOk || !uniqueOk {
        return Rejected(!overlapOk, !uniqueOk);
      }
      var id: Id;
      if pk.Some? {
        id := pk.value;
        nextId := if nextId <= id then id + 1 else nextId;
      } else {
        id := nextId;
        nextId := nextId + 1;
      }
      ghost var before := turnos;
      if NoDoubleBooking(before) {
        SavePreservesNoDoubleBooking(before, pk, t, id);
      }
      if UniqueSlots(before) {
        SavePreservesUniqueSlots(before, pk, t, id);
      }
      turnos := turnos[id := t];
      r := Saved(id);
    }
  }
}
