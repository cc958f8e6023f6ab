/**
 * The appointment (`Turno`) entity of the clinic backend and the rule that
 * keeps a doctor from being double-booked. Times are whole minutes; the
 * appointment table is a map from primary key to row.
 */
module Models {

  /** Length in minutes of every appointment, as far as the overlap check is concerned. */
  const DURATION: nat := 30

  /** Primary keys of appointment rows, and opaque references to doctors and patients. */
  type Id = nat
  type MedicoId = nat
  type PacienteId = nat

  datatype Option<T> = None | Some(value: T)

  /** The five appointment statuses; a new appointment starts as `Pendiente`. */
  datatype Estado = Pendiente | Confirmado | Atendido | Cancelado | Ausente

  /** One row of the appointment table. `duration` is stored but the overlap check ignores it. */
  datatype Turno = Turno(
    paciente: PacienteId,
    medico: MedicoId,
    fechaHora: int,
    estado: Estado,
    motivoConsulta: Option<string>,
    duration: int)

  /** The appointment table: primary key to row. */
  type Store = map<Id, Turno>

  /** A new appointment with the field defaults: no reason, status `Pendiente`, the global duration. */
  function NewTurno(paciente: PacienteId, medico: MedicoId, fechaHora: int): (r: Turno)
    ensures r.paciente == paciente && r.medico == medico && r.fechaHora == fechaHora
    ensures r.estado == Pendiente && r.motivoConsulta == None && r.duration == DURATION
    ensures !Releases(r.estado)
  {
    Turno(paciente, medico, fechaHora, Pendiente, None, DURATION)
  }

  /** `Cancelado` and `Ausente` release the doctor's slot: the overlap check skips such rows. */
  predicate Releases(e: Estado)
  {
    e == Cancelado || e == Ausente
  }

  // ---------------------------------------------------------------------------
  // What a conflict means: two half-open slots [start, start + DURATION) that
  // share a minute.
  // ---------------------------------------------------------------------------

  /** Minute `m` lies in the slot that starts at `start`. */
  ghost predicate Covers(start: int, m: int)
  {
    start <= m < start + DURATION
  }

  /** The slots starting at `a` and at `b` share at least one minute. */
  ghost predicate SlotsOverlap(a: int, b: int)
  {
    exists m :: Covers(a, m) && Covers(b, m)
  }

  /** The range filter of the overlap query: `other` starts strictly inside (start - DURATION, start + DURATION). */
  predicate InWindow(start: int, other: int)
  {
    start - DURATION < other < start + DURATION
  }

  /**
   * The query's strict range filter finds exactly the slots that share a minute
   * with the candidate's, which happens exactly when neither slot ends before
   * the other begins: touching slots do not overlap.
   */
  lemma WindowIsOverlap(start: int, other: int)
    ensures InWindow(start, other) <==> SlotsOverlap(other, start)
    ensures SlotsOverlap(other, start) <==> !(start + DURATION <= other || other + DURATION <= start)
  {
    if InWindow(start, other) {
      var m := if start <= other then other else start;
      assert Covers(other, m) && Covers(start, m);
    }
    if SlotsOverlap(other, start) {
      var m :| Covers(other, m) && Covers(start, m);
      assert InWindow(start, other);
    }
  }

  /** Sharing a minute is symmetric. */
  lemma OverlapSymmetric(a: int, b: int)
    ensures SlotsOverlap(a, b) <==> SlotsOverlap(b, a)
  {
  }

  // ---------------------------------------------------------------------------
  // Turno.clean: the overlap query and its verdict.
  // ---------------------------------------------------------------------------

  /** The window filter holds exactly for the starts whose slot shares a minute with the candidate's. */
  lemma WindowIsOverlapAll()
    ensures forall start, other :: InWindow(start, other) <==> SlotsOverlap(other, start)
  {
    forall start, other
      ensures InWindow(start, other) <==> SlotsOverlap(other, start)
    {
      WindowIsOverlap(start, other);
    }
  }

  /** Row `k` blocks candidate `t`: another active row of the same doctor whose slot shares a minute with `t`'s. */
  ghost predicate Conflicts(store: Store, pk: Option<Id>, t: Turno, k: Id)
  {
    && k in store
    && Some(k) != pk
    && store[k].medico == t.medico
    && !Releases(store[k].estado)
    && SlotsOverlap(store[k].fechaHora, t.fechaHora)
  }

  /**
   * The rows the overlap query returns for candidate `t` whose primary key is
   * `pk`: same doctor, start strictly inside the window, not the candidate's
   * own row, status neither `Cancelado` nor `Ausente`. These are exactly the
   * conflicting rows.
   */
  function Superposiciones(store: Store, pk: Option<Id>, t: Turno): (r: set<Id>)
    ensures forall k :: k in r <==> Conflicts(store, pk, t, k)
  {
    WindowIsOverlapAll();
    set k | k in store
            && store[k].medico == t.medico
            && InWindow(t.fechaHora, store[k].fechaHora)
            && Some(k) != pk
            && !Releases(store[k].estado)
  }

  /** `Turno.clean`: the candidate is admissible iff no stored row conflicts with it. */
  function Clean(store: Store, pk: Option<Id>, t: Turno): (ok: bool)
    ensures ok <==> forall k :: !Conflicts(store, pk, t, k)
  {
    var found := Superposiciones(store, pk, t);
    assert forall k :: Conflicts(store, pk, t, k) ==> k in found;
    found == {}
  }

  // ---------------------------------------------------------------------------
  // unique_together = ('medico', 'fecha_hora'), as checked by full_clean.
  // ---------------------------------------------------------------------------

  /**
   * Rows other than the candidate's own with the candidate's doctor and exact
   * start, of any status. Each of them that is still active is also an overlap,
   * so the lookup decides something of its own only through `Cancelado` and
   * `Ausente` rows.
   */
  function Duplicados(store: Store, pk: Option<Id>, t: Turno): (r: set<Id>)
    ensures forall k :: k in r ==> k in store && store[k].medico == t.medico && store[k].fechaHora == t.fechaHora
    ensures forall k :: k in r && !Releases(store[k].estado) ==> k in Superposiciones(store, pk, t)
  {
    set k | k in store
            && Some(k) != pk
            && store[k].medico == t.medico
            && store[k].fechaHora == t.fechaHora
  }

  /** The uniqueness check passes iff no other row, whatever its status, has the same doctor and start. */
  function UniqueTogether(store: Store, pk: Option<Id>, t: Turno): (ok: bool)
    ensures ok <==> forall k :: k in store && Some(k) != pk && store[k].medico == t.medico ==>
                                 store[k].fechaHora != t.fechaHora
  {
    assert forall k :: k in store && Some(k) != pk && store[k].medico == t.medico && store[k].fechaHora == t.fechaHora
                       ==> k in Duplicados(store, pk, t);
    Duplicados(store, pk, t) == {}
  }

  // ---------------------------------------------------------------------------
  // The invariants every accepted write keeps.
  // ---------------------------------------------------------------------------

  /** For every doctor, the slots of the rows not `Cancelado`/`Ausente` are pairwise disjoint. */
  ghost predicate NoDoubleBooking(store: Store)
  {
    forall i, j :: i in store && j in store && i != j
                   && store[i].medico == store[j].medico
                   && !Releases(store[i].estado) && !Releases(store[j].estado)
                   ==> !SlotsOverlap(store[i].fechaHora, store[j].fechaHora)
  }

  /** No two rows, of any status, share a doctor and a start. */
  ghost predicate UniqueSlots(store: Store)
  {
    forall i, j :: i in store && j in store && i != j && store[i].medico == store[j].medico
                   ==> store[i].fechaHora != store[j].fechaHora
  }

  /** The key a successful save writes: the candidate's own pk, or a key not yet in the table. */
  predicate SaveKey(store: Store, pk: Option<Id>, id: Id)
  {
    if pk.Some? then id == pk.value else id !in store
  }

  /** Writing a candidate that passed `Clean` keeps every doctor's active slots disjoint. */
  lemma SavePreservesNoDoubleBooking(store: Store, pk: Option<Id>, t: Turno, id: Id)
    requires NoDoubleBooking(store)
    requires Clean(store, pk, t)
    requires SaveKey(store, pk, id)
    ensures NoDoubleBooking(store[id := t])
  {
    var s := store[id := t];
    forall i, j | i in s && j in s && i != j && s[i].medico == s[j].medico
                  && !Releases(s[i].estado) && !Releases(s[j].estado)
      ensures !SlotsOverlap(s[i].fechaHora, s[j].fechaHora)
    {
      if i == id {
        assert !Conflicts(store, pk, t, j);
        OverlapSymmetric(s[i].fechaHora, s[j].fechaHora);
      } else if j == id {
        assert !Conflicts(store, pk, t, i);
      }
    }
  }

  /** Writing a candidate that passed the uniqueness check keeps (doctor, start) unique. */
  lemma SavePreservesUniqueSlots(store: Store, pk: Option<Id>, t: Turno, id: Id)
    requires UniqueSlots(store)
    requires UniqueTogether(store, pk, t)
    requires SaveKey(store, pk, id)
    ensures UniqueSlots(store[id := t])
  {
  }

  // ---------------------------------------------------------------------------
  // Properties of the rule.
  // ---------------------------------------------------------------------------

  /**
   * The check rejects exactly when some other active row of the same doctor
   * starts less than DURATION minutes before or after the candidate.
   */
  lemma CleanByDistance(store: Store, pk: Option<Id>, t: Turno)
    ensures Clean(store, pk, t) <==>
            forall k :: k in store && Some(k) != pk && store[k].medico == t.medico && !Releases(store[k].estado) ==>
                        store[k].fechaHora <= t.fechaHora - DURATION || t.fechaHora + DURATION <= store[k].fechaHora
  {
    forall k | k in store
      ensures Conflicts(store, pk, t, k) <==>
              Some(k) != pk && store[k].medico == t.medico && !Releases(store[k].estado) &&
              !(store[k].fechaHora <= t.fechaHora - DURATION || t.fechaHora + DURATION <= store[k].fechaHora)
    {
      WindowIsOverlap(t.fechaHora, store[k].fechaHora);
    }
  }

  /**
   * Back-to-back bookings are accepted: a row of the same doctor whose slot ends
   * exactly when the candidate's starts, or starts exactly when it ends, changes
   * neither verdict, whatever else the table holds.
   */
  lemma TouchingIgnored(store: Store, pk: Option<Id>, t: Turno, k: Id)
    requires k in store && store[k].medico == t.medico
    requires t.fechaHora == store[k].fechaHora + DURATION || t.fechaHora == store[k].fechaHora - DURATION
    ensures Clean(store, pk, t) == Clean(store - {k}, pk, t)
    ensures UniqueTogether(store, pk, t) == UniqueTogether(store - {k}, pk, t)
  {
  }

  /** An active row blocks every candidate of its doctor that starts within DURATION minutes of it. */
  lemma ActiveRowBlocksWindow(store: Store, pk: Option<Id>, t: Turno, k: Id)
    requires k in store && Some(k) != pk
    requires store[k].medico == t.medico && !Releases(store[k].estado)
    requires t.fechaHora - DURATION < store[k].fechaHora < t.fechaHora + DURATION
    ensures !Clean(store, pk, t)
  {
    WindowIsOverlap(t.fechaHora, store[k].fechaHora);
    assert Conflicts(store, pk, t, k);
  }

  /** The candidate's own stored row is never counted: checking with pk `id` is checking against the table without that row. */
  lemma OwnRowIgnored(store: Store, id: Id, t: Turno)
    ensures Clean(store, Some(id), t) == Clean(store - {id}, None, t)
    ensures UniqueTogether(store, Some(id), t) == UniqueTogether(store - {id}, None, t)
  {
  }

  /** A row in status `Cancelado` or `Ausente` never affects the overlap check: removing it changes nothing. */
  lemma ReleasedRowIgnored(store: Store, pk: Option<Id>, t: Turno, k: Id)
    requires k in store && Releases(store[k].estado)
    ensures Clean(store, pk, t) == Clean(store - {k}, pk, t)
  {
  }

  /** The rows of one doctor. */
  function OfMedico(store: Store, m: MedicoId): (r: Store)
    ensures forall k :: k in r <==> k in store && store[k].medico == m
    ensures forall k :: k in r ==> r[k] == store[k]
  {
    map k | k in store && store[k].medico == m :: store[k]
  }

  /** Conflicts are scoped per doctor: the rows of other doctors never change either check. */
  lemma OtherDoctorsIgnored(store: Store, pk: Option<Id>, t: Turno)
    ensures Clean(store, pk, t) == Clean(OfMedico(store, t.medico), pk, t)
    ensures UniqueTogether(store, pk, t) == UniqueTogether(OfMedico(store, t.medico), pk, t)
  {
  }

  /**
   * Re-saving an active appointment without moving it (a new status or reason)
   * never clashes with its own stored row, so it passes both checks whenever
   * the table satisfies the invariants.
   */
  lemma ResaveInPlaceAccepted(store: Store, id: Id, t: Turno)
    requires NoDoubleBooking(store) && UniqueSlots(store)
    requires id in store && !Releases(store[id].estado)
    requires t.medico == store[id].medico && t.fechaHora == store[id].fechaHora
    ensures Clean(store, Some(id), t)
    ensures UniqueTogether(store, Some(id), t)
  {
  }

  /** A row of any status at the candidate's exact doctor and start rejects it, a cancelled one included. */
  lemma SameStartAlwaysRejected(store: Store, pk: Option<Id>, t: Turno, k: Id)
    requires k in store && Some(k) != pk
    requires store[k].medico == t.medico && store[k].fechaHora == t.fechaHora
    ensures !UniqueTogether(store, pk, t)
  {
  }
}
