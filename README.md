# Turno double-booking rule — Dafny model

This project models the appointment (`Turno`) entity of a clinic administration
backend: the rule in `Turno.clean` that keeps a doctor from being double-booked,
and `Turno.save`, which writes an appointment row only after `full_clean()`
accepts it. `full_clean()` runs both `clean` and the `unique_together =
('medico', 'fecha_hora')` constraint.

- `models.dfy` (module `Models`): the entity and the rule, written as functions.
  - `DURATION = 30` minutes.
  - The five statuses (`Pendiente` … `Ausente`) and the `Turno` row.
  - The overlap query (`Superposiciones`) and its verdict (`Clean`).
  - The uniqueness check (`UniqueTogether`).
  - The two table invariants: `NoDoubleBooking` (per doctor, the active slots are pairwise disjoint) and `UniqueSlots` (no two rows share a doctor and a start).
  - The lemmas about all of these.
  - A conflict is defined independently as two half-open slots `[start, start + DURATION)` sharing a minute (`SlotsOverlap`). The query's strict window filter is proved equal to it.
- `store.dfy` (module `Persistence`): the appointment table as a class `TurnoStore`.
  - It holds a `map` from primary key to row, plus the next auto-increment key.
  - `Save` validates, then inserts or replaces exactly one row, or leaves the table untouched.
  - `Save` keeps both invariants.
- `scenarios.dfy` (module `Scenarios`): a day of bookings for one doctor, driven through `Save`, and one concrete consequence of the rule.

Times are integer minutes. A primary key of `None` stands for an instance not yet saved. Doctors and patients are opaque integer references.

Two consequences of the code are worth stating:

- Cancelling the 10:00 appointment frees its slot for the overlap check but not for the exact start. A new booking at 10:00 is still refused, because `unique_together` (app/models.py:91) ignores status (`SameStartAlwaysRejected`, `DoctorDay`).
- The rule uses the global `DURATION` for every row. It does not use the per-row `duration` field (app/models.py:84), which is stored but never read.

The candidate's own status is never consulted. So a `Cancelado` appointment is still overlap-checked when it is saved again (`CancelledResaveStillChecked`).

## Model

| member | source | states |
|---|---|---|
| `Models.WindowIsOverlap` | app/models.py:96-103 | The query's strict window `start - DURATION < other < start + DURATION` holds iff the two 30-minute half-open slots share a minute. That in turn holds iff neither slot ends at or before the other's start, so touching slots do not conflict. |
| `Models.NewTurno` | app/models.py:78-84 | A new appointment takes the field defaults: status `PENDIENTE`, no reason, `duration = DURATION`. So it occupies its slot for the overlap check. |
| `Models.Superposiciones` | app/models.py:100-106 | The filtered and excluded query returns exactly the rows that conflict: same doctor, not the candidate's own pk, not `CANCELADO`/`AUSENTE`, slots overlapping. |
| `Models.Clean` | app/models.py:93-111 | `clean` accepts iff no stored row conflicts with the candidate. |
| `Models.Duplicados` | app/models.py:91 | The `unique_together` lookup finds only rows with the candidate's doctor and exact start. Every such row that is still active is also found by the overlap query, so the constraint adds a rejection of its own only through `CANCELADO`/`AUSENTE` rows. |
| `Models.UniqueTogether` | app/models.py:91 | The uniqueness check passes iff no other row has the candidate's doctor and exact start. The row's status plays no part. |
| `Models.CleanByDistance` | app/models.py:100-108 | `clean` rejects exactly when some other active row of the same doctor starts strictly less than `DURATION` minutes before or after the candidate. |
| `Models.TouchingIgnored` | app/models.py:102-103 | In any table and for any pk, a row of the same doctor starting exactly `DURATION` minutes before or after the candidate changes neither the overlap verdict nor the uniqueness verdict. |
| `Models.ActiveRowBlocksWindow` | app/models.py:100-111 | Any other active row of the same doctor whose start lies strictly inside the window makes `clean` reject. |
| `Models.OwnRowIgnored` | app/models.py:104 | Checking a candidate with pk `id` gives the same verdict as checking a new instance against the table without row `id`. This holds for both the overlap and the uniqueness check. |
| `Models.ResaveInPlaceAccepted` | app/models.py:104 | Re-saving an active appointment at its own doctor and start, with any new status or reason, passes both checks whenever the table satisfies both invariants. |
| `Models.ReleasedRowIgnored` | app/models.py:106 | Removing a `CANCELADO` or `AUSENTE` row never changes the verdict of `clean`. |
| `Models.OtherDoctorsIgnored` | app/models.py:100-101 | Restricting the table to the candidate's doctor changes neither check. |
| `Models.SameStartAlwaysRejected` | app/models.py:91 | A row of any status, a cancelled one included, at the candidate's doctor and exact start makes the uniqueness check fail. |
| `Models.SavePreservesNoDoubleBooking` | app/models.py:100-115 | Writing a candidate that passed `clean` (at its own pk or at a fresh key) keeps every doctor's active slots pairwise disjoint. A new `PENDIENTE` row is included. |
| `Models.SavePreservesUniqueSlots` | app/models.py:113-115 | Writing a candidate that passed the `unique_together` check keeps `(medico, fecha_hora)` unique across all rows. |
| `Persistence.TurnoStore.Save` | app/models.py:113-115 | `save` writes only when both checks pass. A rejection reports which of the two failed and leaves the table and key counter unchanged. A success puts exactly the candidate at its own pk, or at a key not yet used, and changes nothing else. Both invariants are preserved. |
| `Scenarios.CancelledResaveStillChecked` | app/models.py:100-106 | Take a table satisfying both invariants: a cancelled 10:00 row and an active 10:15 row of the same doctor. Saving the cancelled row again is rejected by `clean`, because the candidate's own status is not consulted. |

## Left out

- Persistence.TurnoStore.Save: models `save()` called without arguments, as every caller in app/ calls it. Three behaviours of other calls are not captured:
  - `update_fields` writes only the named columns after the whole in-memory instance was validated. With it, the source can store a combination that was never checked and break `NoDoubleBooking`.
  - `force_insert` with the pk of an existing row raises a database integrity error; the model replaces the row.
  - A new instance created with the pk of an existing row: `clean` excludes that pk, but the uniqueness check excludes the instance's own row only for an instance loaded from the table. The model treats every instance with a pk as loaded, so it accepts a case the source rejects as a duplicate.
- Persistence.TurnoStore.Save: start times are unbounded integers, so the `OverflowError` that `fecha_hora ± 30 minutes` raises next to the first and last representable datetimes (app/models.py:98, app/models.py:103) is not modelled.
- Field validation of `full_clean()` other than the two checks is not modelled. This includes the existence of the referenced doctor and patient, the `choices` of `estado` (a datatype here) and text lengths. Doctors and patients are opaque references.
- The `isinstance(fecha_hora, datetime)` assertions: a start time here is always a concrete integer minute.
- Time zones and calendar arithmetic: times are plain minutes.
- Key assignment: the database's auto-increment sequence is modelled as a counter. A save with an explicit pk moves the counter past that pk.
- Deleting rows, and the cascade deletes from `Paciente`/`Medico` to `Turno` and from `Turno` to `HistorialClinico`, `Receta` and `Recordatorio`. This is framework behaviour. Removing rows cannot break either invariant.
- `Especialidad`, `Medico`, `Paciente`, `HistorialClinico`, `Receta`, `Recordatorio`: plain field declarations with no logic. The reminder `enviado` flag is never acted upon.
- `__str__` methods and date formatting: presentation only.
- The REST viewsets, serializers, router and admin configuration (app/views.py, app/serializers.py, app/urls.py, app/admin.py). They hold no logic. The views and serializers also import a model, `DisponibilidadMedico`, that app/models.py does not define.
- The race between concurrent callers that both check and then write. The model is sequential: one `Save` at a time.
