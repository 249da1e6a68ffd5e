/** The patient appointment endpoints: a table of appointments keyed by id in
    which every read and write is scoped to the acting patient. Request
    validation and the doctor-clinic check are predicates; creating, updating
    and deleting rows are methods on the table. */
module PatientAppointments {
  import opened Records

  // ---------------------------------------------------------------------
  // Requests and rows
  // ---------------------------------------------------------------------

  /** One field of a request: left out, sent as null, or sent with a value. */
  datatype Field<+T> = Absent | Null | Given(value: T)

  /** What the `integer` rule sees in an id field. */
  datatype IdValue = Integer(n: int) | NotInteger

  /** What the `date` rule sees in a date field: a calendar day, or text that
      does not parse as a date. */
  datatype DateValue = CalendarDay(day: int) | NotADate

  /** A time of day; the controller only stores and orders it. */
  type TimeOfDay = int

  datatype Kind = InPerson | Telemedicine
  datatype Status = Scheduled | Cancelled

  /** A row of the `appointments` table. The time is optional because an
      update may set it to null. */
  datatype Appointment = Appointment(
    patientId: int,
    doctorId: Option<int>,
    date: int,
    time: Option<TimeOfDay>,
    kind: Kind,
    status: Status,
    reason: Option<string>)

  /** The fields of a create or update request. */
  datatype Request = Request(
    clinicId: Field<IdValue>,
    doctorId: Field<IdValue>,
    date: Field<DateValue>,
    time: Field<TimeOfDay>,
    kind: Field<string>,
    status: Field<string>,
    reason: Field<string>)

  /** The `max:500` bound on `reason`. */
  const MaxReasonLength: nat := 500

  function KindName(k: Kind): string {
    match k
    case InPerson => "in_person"
    case Telemedicine => "telemedicine"
  }

  /** Rule::in(['in_person', 'telemedicine']). */
  function ParseKind(s: string): (r: Option<Kind>)
    ensures r.Some? <==> s == "in_person" || s == "telemedicine"
    ensures r.Some? ==> KindName(r.value) == s
  {
    if s == "in_person" then Some(InPerson)
    else if s == "telemedicine" then Some(Telemedicine)
    else None
  }

  function StatusName(st: Status): string {
    match st
    case Scheduled => "scheduled"
    case Cancelled => "cancelled"
  }

  /** Rule::in(['scheduled', 'cancelled']). */
  function ParseStatus(s: string): (r: Option<Status>)
    ensures r.Some? <==> s == "scheduled" || s == "cancelled"
    ensures r.Some? ==> StatusName(r.value) == s
  {
    if s == "scheduled" then Some(Scheduled)
    else if s == "cancelled" then Some(Cancelled)
    else None
  }

  // ---------------------------------------------------------------------
  // Validation rules
  // ---------------------------------------------------------------------

  /** ['nullable', 'integer', 'exists:<table>,id']. */
  predicate NullableExistingId(f: Field<IdValue>, ids: set<int>) {
    match f
    case Given(v) => v.Integer? && v.n in ids
    case _ => true
  }

  /** ['nullable', 'string', 'max:500']. */
  predicate NullableReason(f: Field<string>) {
    f.Given? ==> |f.value| <= MaxReasonLength
  }

  /** ['nullable', Rule::in(['in_person', 'telemedicine'])]. */
  predicate NullableKind(f: Field<string>) {
    f.Given? ==> ParseKind(f.value).Some?
  }

  /** The rules of `store`. */
  predicate StoreRulesHold(req: Request, clinicIds: set<int>, userIds: set<int>) {
    && NullableExistingId(req.clinicId, clinicIds)
    && NullableExistingId(req.doctorId, userIds)
    && req.date.Given? && req.date.value.CalendarDay?   // required, date
    && req.time.Given?                                 // required
    && NullableKind(req.kind)
    && NullableReason(req.reason)
  }

  /** The rules of `update`: every field may be left out; a date, type or
      status that is sent must be valid (null included), while
      `appointment_time` carries no rule besides `sometimes` and so accepts
      anything, null included. */
  predicate UpdateRulesHold(req: Request, clinicIds: set<int>, userIds: set<int>) {
    && NullableExistingId(req.clinicId, clinicIds)
    && NullableExistingId(req.doctorId, userIds)
    && (req.date.Absent? || (req.date.Given? && req.date.value.CalendarDay?))
    && (req.kind.Absent? || (req.kind.Given? && ParseKind(req.kind.value).Some?))
    && (req.status.Absent? || (req.status.Given? && ParseStatus(req.status.value).Some?))
    && NullableReason(req.reason)
  }

  // ---------------------------------------------------------------------
  // The doctor-clinic consistency check
  // ---------------------------------------------------------------------

  /** The id in a field for which PHP's `! empty(...)` holds: a validated
      integer other than 0. */
  function FilledId(f: Field<IdValue>): (r: Option<int>)
    ensures r.Some? <==> f.Given? && f.value.Integer? && f.value.n != 0
    ensures r.Some? ==> r.value == f.value.n
  {
    match f
    case Given(Integer(n)) => if n != 0 then Some(n) else None
    case _ => None
  }

  /** `(int) $doctor->clinic_id`: a null affiliation casts to 0. */
  function IntCast(c: Option<int>): int {
    match c
    case None => 0
    case Some(n) => n
  }

  /** The user found under the doctor id exists and its affiliation, cast to
      an integer, equals the clinic id. */
  predicate DoctorInClinic(users: seq<User>, doctorId: int, clinicId: int) {
    match FindUser(users, doctorId)
    case None => false
    case Some(u) => IntCast(u.clinicId) == clinicId
  }

  /** The check runs only when both ids are filled in the same request. */
  predicate ConsistencyHolds(req: Request, users: seq<User>) {
    match (FilledId(req.clinicId), FilledId(req.doctorId))
    case (Some(c), Some(d)) => DoctorInClinic(users, d, c)
    case _ => true
  }

  /** Because the check only runs for a clinic id other than 0, comparing
      the integer casts is the same as requiring the doctor to exist and to
      be affiliated with exactly that clinic: a doctor without a clinic never
      passes. */
  lemma ConsistencyMeansAffiliation(req: Request, users: seq<User>)
    ensures ConsistencyHolds(req, users) <==>
      (FilledId(req.clinicId).Some? && FilledId(req.doctorId).Some? ==>
        FindUser(users, FilledId(req.doctorId).value).Some? &&
        FindUser(users, FilledId(req.doctorId).value).value.clinicId == Some(FilledId(req.clinicId).value))
  {
    if FilledId(req.clinicId).Some? && FilledId(req.doctorId).Some? {
      match FindUser(users, FilledId(req.doctorId).value)
      case None =>
      case Some(u) =>
        assert u.clinicId.None? ==> IntCast(u.clinicId) == 0;
    }
  }

  // ---------------------------------------------------------------------
  // The decisions of store and update
  // ---------------------------------------------------------------------

  /** The record `store` writes from a validated request: owned by the
      caller, scheduled, with the sent date and time, the sent type or
      in-person, and the sent doctor and reason or null. */
  function NewAppointment(patient: int, req: Request): (a: Appointment)
    requires req.date.Given? && req.date.value.CalendarDay? && req.time.Given?
    requires NullableKind(req.kind)
    ensures a.patientId == patient && a.status == Scheduled
    ensures req.date == Given(CalendarDay(a.date)) && a.time == Some(req.time.value)
    ensures req.kind.Given? ==> KindName(a.kind) == req.kind.value
    ensures !req.kind.Given? ==> a.kind == InPerson
    ensures req.doctorId.Given? && req.doctorId.value.Integer? ==> a.doctorId == Some(req.doctorId.value.n)
    ensures !req.doctorId.Given? ==> a.doctorId.None?
    ensures req.reason.Given? ==> a.reason == Some(req.reason.value)
    ensures !req.reason.Given? ==> a.reason.None?
  {
    Appointment(
      patientId := patient,
      doctorId := if req.doctorId.Given? && req.doctorId.value.Integer? then Some(req.doctorId.value.n) else None,
      date := req.date.value.day,
      time := Some(req.time.value),
      kind := if req.kind.Given? then ParseKind(req.kind.value).value else InPerson,
      status := Scheduled,
      reason := if req.reason.Given? then Some(req.reason.value) else None)
  }

  /** A row whose reason respects the validation bound. */
  predicate WellFormed(a: Appointment) {
    a.reason.Some? ==> |a.reason.value| <= MaxReasonLength
  }

  /** What `store` answers for a request by the acting patient. A created
      record belongs to that patient, is scheduled whatever was sent, takes
      its date and time from the request, defaults its type to in-person and
      its doctor and reason to null, and keeps the reason bound. The request
      fails validation exactly when a rule is broken, and fails the
      consistency check exactly when both ids are filled and the doctor is
      missing or affiliated elsewhere. */
  function StoreDecision(patient: int, req: Request, clinics: seq<Clinic>, users: seq<User>): (r: Response<Appointment>)
    ensures r.Ok? || r.ValidationError? || r.Inconsistent?
    ensures r.ValidationError? <==> !StoreRulesHold(req, ClinicIds(clinics), UserIds(users))
    ensures r.Inconsistent? <==>
      StoreRulesHold(req, ClinicIds(clinics), UserIds(users)) &&
      FilledId(req.clinicId).Some? && FilledId(req.doctorId).Some? &&
      !DoctorInClinic(users, FilledId(req.doctorId).value, FilledId(req.clinicId).value)
    ensures r.Ok? ==> r.value.patientId == patient && r.value.status == Scheduled && WellFormed(r.value)
    ensures r.Ok? ==> req.date == Given(CalendarDay(r.value.date)) && req.time.Given? && r.value.time == Some(req.time.value)
    ensures r.Ok? ==> (req.kind.Given? ==> KindName(r.value.kind) == req.kind.value) && (!req.kind.Given? ==> r.value.kind == InPerson)
    ensures r.Ok? ==> (r.value.doctorId.Some? <==> req.doctorId.Given?) && (req.doctorId.Given? ==> req.doctorId.value == Integer(r.value.doctorId.value))
    ensures r.Ok? ==> (r.value.reason.Some? <==> req.reason.Given?) && (req.reason.Given? ==> r.value.reason.value == req.reason.value)
  {
    if !StoreRulesHold(req, ClinicIds(clinics), UserIds(users)) then ValidationError
    else if !ConsistencyHolds(req, users) then Inconsistent
    else Ok(NewAppointment(patient, req))
  }

  /** `$appointment->update($validated)`: each field that was sent replaces
      the stored one (null where the rules let null through); a field left
      out keeps its value, and the owner never changes. */
  function ApplyUpdate(a: Appointment, req: Request): (b: Appointment)
    requires req.date.Absent? || (req.date.Given? && req.date.value.CalendarDay?)
    requires req.kind.Absent? || (req.kind.Given? && ParseKind(req.kind.value).Some?)
    requires req.status.Absent? || (req.status.Given? && ParseStatus(req.status.value).Some?)
    ensures b.patientId == a.patientId
    ensures req.doctorId.Absent? ==> b.doctorId == a.doctorId
    ensures req.date.Absent? ==> b.date == a.date
    ensures req.time.Absent? ==> b.time == a.time
    ensures req.kind.Absent? ==> b.kind == a.kind
    ensures req.status.Absent? ==> b.status == a.status
    ensures req.reason.Absent? ==> b.reason == a.reason
    ensures req.doctorId.Null? ==> b.doctorId.None?
    ensures req.time.Null? ==> b.time.None?
    ensures req.reason.Null? ==> b.reason.None?
    ensures req.doctorId.Given? && req.doctorId.value.Integer? ==> b.doctorId == Some(req.doctorId.value.n)
    ensures req.date.Given? ==> req.date.value == CalendarDay(b.date)
    ensures req.time.Given? ==> b.time == Some(req.time.value)
    ensures req.kind.Given? ==> KindName(b.kind) == req.kind.value
    ensures req.status.Given? ==> StatusName(b.status) == req.status.value
    ensures req.reason.Given? ==> b.reason == Some(req.reason.value)
  {
    Appointment(
      patientId := a.patientId,
      doctorId := match req.doctorId
        case Absent => a.doctorId
        case Null => None
        case Given(v) => if v.Integer? then Some(v.n) else a.doctorId,
      date := if req.date.Given? then req.date.value.day else a.date,
      time := match req.time
        case Absent => a.time
        case Null => None
        case Given(t) => Some(t),
      kind := if req.kind.Given? then ParseKind(req.kind.value).value else a.kind,
      status := if req.status.Given? then ParseStatus(req.status.value).value else a.status,
      reason := match req.reason
        case Absent => a.reason
        case Null => None
        case Given(s) => Some(s))
  }

  /** The row under `id` belongs to the acting patient. */
  predicate OwnedBy(rows: map<int, Appointment>, patient: int, id: int) {
    id in rows && rows[id].patientId == patient
  }

  /** What `update` answers: an id the patient does not own is not found
      whatever the request holds; then the rules; then the consistency
      check; then the target's sent fields are replaced. */
  function UpdateDecision(patient: int, id: int, req: Request, rows: map<int, Appointment>, clinics: seq<Clinic>, users: seq<User>): (r: Response<Appointment>)
    ensures r.NotFound? <==> !OwnedBy(rows, patient, id)
    ensures r.ValidationError? <==> OwnedBy(rows, patient, id) && !UpdateRulesHold(req, ClinicIds(clinics), UserIds(users))
    ensures r.Inconsistent? <==>
      OwnedBy(rows, patient, id) && UpdateRulesHold(req, ClinicIds(clinics), UserIds(users)) &&
      FilledId(req.clinicId).Some? && FilledId(req.doctorId).Some? &&
      !DoctorInClinic(users, FilledId(req.doctorId).value, FilledId(req.clinicId).value)
    ensures r.Ok? ==> OwnedBy(rows, patient, id) && r.value.patientId == patient
    ensures r.Ok? && WellFormed(rows[id]) ==> WellFormed(r.value)
    ensures r.Ok? ==> r.value == ApplyUpdate(rows[id], req)
  {
    if !OwnedBy(rows, patient, id) then NotFound
    else if !UpdateRulesHold(req, ClinicIds(clinics), UserIds(users)) then ValidationError
    else if !ConsistencyHolds(req, users) then Inconsistent
    else Ok(ApplyUpdate(rows[id], req))
  }

  /** Sending the same update twice leaves the row as sending it once; in
      particular cancelling an already cancelled appointment changes nothing. */
  lemma ApplyUpdateIdempotent(a: Appointment, req: Request)
    requires req.date.Absent? || (req.date.Given? && req.date.value.CalendarDay?)
    requires req.kind.Absent? || (req.kind.Given? && ParseKind(req.kind.value).Some?)
    requires req.status.Absent? || (req.status.Given? && ParseStatus(req.status.value).Some?)
    ensures ApplyUpdate(ApplyUpdate(a, req), req) == ApplyUpdate(a, req)
  {
  }

  /** A doctor without a clinic casts to clinic 0, so against any filled
      clinic id both store and update reject it. */
  lemma UnaffiliatedDoctorRejected(patient: int, id: int, req: Request, rows: map<int, Appointment>, clinics: seq<Clinic>, users: seq<User>, u: User)
    requires FilledId(req.clinicId).Some? && FilledId(req.doctorId).Some?
    requires FindUser(users, FilledId(req.doctorId).value) == Some(u) && u.clinicId.None?
    ensures StoreRulesHold(req, ClinicIds(clinics), UserIds(users)) ==> StoreDecision(patient, req, clinics, users) == Inconsistent
    ensures OwnedBy(rows, patient, id) && UpdateRulesHold(req, ClinicIds(clinics), UserIds(users)) ==>
      UpdateDecision(patient, id, req, rows, clinics, users) == Inconsistent
  {
  }

  // ---------------------------------------------------------------------
  // index: the caller's appointments, newest first
  // ---------------------------------------------------------------------

  /** One element of the listing: a row and its id. */
  datatype Entry = Entry(id: int, appointment: Appointment)

  /** Time order with a null time before every time, as the database sorts
      NULL. */
  predicate TimeBefore(x: Option<TimeOfDay>, y: Option<TimeOfDay>) {
    match (x, y)
    case (None, Some(_)) => true
    case (Some(a), Some(b)) => a < b
    case _ => false
  }

  /** `a` may be listed before `b` under orderBy(date, desc), orderBy(time, desc). */
  predicate NotEarlier(a: Appointment, b: Appointment) {
    a.date > b.date || (a.date == b.date && !TimeBefore(a.time, b.time))
  }

  predicate NewestFirst(es: seq<Entry>) {
    forall i, j :: 0 <= i < j < |es| ==> NotEarlier(es[i].appointment, es[j].appointment)
  }

  /** Places an entry before the first entry it is not earlier than. */
  function InsertNewest(e: Entry, es: seq<Entry>): (r: seq<Entry>)
    requires NewestFirst(es)
    ensures NewestFirst(r)
    ensures multiset(r) == multiset(es) + multiset{e}
  {
    if es == [] then [e]
    else if NotEarlier(e.appointment, es[0].appointment) then [e] + es
    else
      var rest := InsertNewest(e, es[1..]);
      assert es == [es[0]] + es[1..];
      PrependNewest(es[0], es[1..], e, rest);
      [es[0]] + rest
  }

  /** A head that is not earlier than the inserted entry nor than anything
      after it may stay in front. */
  lemma PrependNewest(h: Entry, tail: seq<Entry>, e: Entry, rest: seq<Entry>)
    requires NewestFirst([h] + tail) && NotEarlier(h.appointment, e.appointment)
    requires NewestFirst(rest) && multiset(rest) == multiset(tail) + multiset{e}
    ensures NewestFirst([h] + rest)
  {
    forall j | 0 <= j < |rest| ensures NotEarlier(h.appointment, rest[j].appointment) {
      var x := rest[j];
      assert x in multiset(rest);
      if x != e {
        assert x in multiset(tail);
        var k :| 0 <= k < |tail| && tail[k] == x;
        assert ([h] + tail)[0] == h && ([h] + tail)[k + 1] == x;
      }
    }
    var r := [h] + rest;
    forall i, j | 0 <= i < j < |r| ensures NotEarlier(r[i].appointment, r[j].appointment) {
      assert r[j] == rest[j - 1];
      if i > 0 { assert r[i] == rest[i - 1]; } else { assert r[i] == h; }
    }
  }

  /** The entry of a row that the caller owns, in the listing. */
  predicate Listed(rows: map<int, Appointment>, patient: int, ids: set<int>, e: Entry) {
    e.id in ids && OwnedBy(rows, patient, e.id) && rows[e.id] == e.appointment
  }

  /** The caller's rows among `ids`, each once, newest first. */
  ghost function Collect(rows: map<int, Appointment>, patient: int, ids: set<int>): (es: seq<Entry>)
    ensures NewestFirst(es)
    ensures forall e :: multiset(es)[e] == if Listed(rows, patient, ids, e) then 1 else 0
    decreases ids
  {
    if ids == {} then []
    else
      assert exists id :: id in ids by {
        if forall id :: id !in ids { assert false; }
      }
      var id :| id in ids;
      var rest := Collect(rows, patient, ids - {id});
      if OwnedBy(rows, patient, id) then
        var e := Entry(id, rows[id]);
        assert multiset(rest)[e] == 0;
        InsertNewest(e, rest)
      else rest
  }

  /** The listing of a patient's appointments as a multiset of entries. */
  ghost function Listing(rows: map<int, Appointment>, patient: int): multiset<Entry> {
    multiset(Collect(rows, patient, rows.Keys))
  }

  /** A row created for the patient under an unused id adds exactly its entry
      to that patient's listing. */
  lemma ListingAfterCreate(rows: map<int, Appointment>, patient: int, id: int, a: Appointment)
    requires id !in rows && a.patientId == patient
    ensures Listing(rows[id := a], patient) == Listing(rows, patient) + multiset{Entry(id, a)}
  {
    var rows' := rows[id := a];
    forall e ensures Listing(rows', patient)[e] == (Listing(rows, patient) + multiset{Entry(id, a)})[e] {
      assert Listed(rows', patient, rows'.Keys, e) <==> Listed(rows, patient, rows.Keys, e) || e == Entry(id, a);
    }
  }

  /** Removing an owned row removes exactly its entry from the listing. */
  lemma ListingAfterDelete(rows: map<int, Appointment>, patient: int, id: int)
    requires OwnedBy(rows, patient, id)
    ensures Listing(rows - {id}, patient) == Listing(rows, patient) - multiset{Entry(id, rows[id])}
  {
    var rows' := rows - {id};
    forall e ensures Listing(rows', patient)[e] == (Listing(rows, patient) - multiset{Entry(id, rows[id])})[e] {
      assert Listed(rows', patient, rows'.Keys, e) <==> Listed(rows, patient, rows.Keys, e) && e != Entry(id, rows[id]);
    }
  }

  /** Removing a row that is not another patient's leaves that patient's
      listing as it was. */
  lemma ListingRemoveIsolated(rows: map<int, Appointment>, other: int, id: int)
    requires id !in rows || rows[id].patientId != other
    ensures Listing(rows - {id}, other) == Listing(rows, other)
  {
    var rows' := rows - {id};
    forall e ensures Listing(rows', other)[e] == Listing(rows, other)[e] {
      assert Listed(rows', other, rows'.Keys, e) <==> Listed(rows, other, rows.Keys, e);
    }
  }

  /** Writing a row that neither was nor becomes another patient's leaves
      that patient's listing as it was. */
  lemma ListingIsolated(rows: map<int, Appointment>, other: int, id: int, a: Appointment)
    requires id !in rows || rows[id].patientId != other
    requires a.patientId != other
    ensures Listing(rows[id := a], other) == Listing(rows, other)
  {
    var rows' := rows[id := a];
    forall e ensures Listing(rows', other)[e] == Listing(rows, other)[e] {
      assert Listed(rows', other, rows'.Keys, e) <==> Listed(rows, other, rows.Keys, e);
    }
  }

  // ---------------------------------------------------------------------
  // The appointments table
  // ---------------------------------------------------------------------

  /** The `appointments` table: rows by id, and the next auto-increment id. */
  class AppointmentTable {
    var rows: map<int, Appointment>
    var nextId: int

    /** Ids below the counter, and every row within the reason bound. */
    ghost predicate Valid()
      reads this
    {
      (forall id :: id in rows ==> id < nextId) &&
      (forall id :: id in rows ==> WellFormed(rows[id]))
    }

    constructor ()
      ensures Valid() && rows == map[]
    {
      rows, nextId := map[], 1;
    }

    /** GET appointments: exactly the caller's rows, each once, ordered by
        date and then time, both descending. */
    ghost function Index(patient: int): (es: seq<Entry>)
      reads this
      ensures NewestFirst(es)
      ensures forall e :: multiset(es)[e] == if OwnedBy(rows, patient, e.id) && rows[e.id] == e.appointment then 1 else 0
    {
      Collect(rows, patient, rows.Keys)
    }

    /** GET appointments/{id}: the row when the caller owns it, and not found
        for an id that is missing or belongs to someone else. */
    function Show(patient: int, id: int): (r: Response<Appointment>)
      reads this
      ensures r.Ok? || r.NotFound?
      ensures r.Ok? <==> OwnedBy(rows, patient, id)
      ensures r.Ok? ==> r.value == rows[id] && r.value.patientId == patient
    {
      if id in rows && rows[id].patientId == patient then Ok(rows[id]) else NotFound
    }

    /** POST appointments: validate, check the doctor against the clinic, then
        create the record under a fresh id; on any failure nothing changes. */
    method Store(patient: int, req: Request, clinics: seq<Clinic>, users: seq<User>) returns (r: Response<Appointment>, id: int)
      requires Valid()
      modifies this
      ensures Valid()
      ensures r == StoreDecision(patient, req, clinics, users)
      ensures r.Ok? ==> id == old(nextId) && id !in old(rows) && rows == old(rows)[id := r.value]
      ensures r.Ok? ==> OwnedBy(rows, patient, id) && Show(patient, id) == r
      ensures r.Ok? ==> Listing(rows, patient) == Listing(old(rows), patient) + multiset{Entry(id, r.value)}
      ensures r.Ok? ==> forall other :: other != patient ==> Listing(rows, other) == Listing(old(rows), other)
      ensures !r.Ok? ==> rows == old(rows) && nextId == old(nextId)
    {
      id := nextId;
      if !StoreRulesHold(req, ClinicIds(clinics), UserIds(users)) {
        return ValidationError, id;
      }
      if FilledId(req.clinicId).Some? && FilledId(req.doctorId).Some? {
        var doctor := FindUser(users, FilledId(req.doctorId).value);
        if doctor.None? || IntCast(doctor.value.clinicId) != FilledId(req.clinicId).value {
          return Inconsistent, id;
        }
      }
      var a := NewAppointment(patient, req);
      ListingAfterCreate(rows, patient, id, a);
      forall other | other != patient
        ensures Listing(rows[id := a], other) == Listing(rows, other)
      {
        ListingIsolated(rows, other, id, a);
      }
      rows := rows[id := a];
      nextId := nextId + 1;
      r := Ok(a);
    }

    /** PUT appointments/{id}: an id the caller does not own is not found;
        otherwise validate, check the doctor against the clinic, and replace
        the sent fields of that row alone. */
    method Update(patient: int, id: int, req: Request, clinics: seq<Clinic>, users: seq<User>) returns (r: Response<Appointment>)
      requires Valid()
      modifies this
      ensures Valid() && nextId == old(nextId)
      ensures r == UpdateDecision(patient, id, req, old(rows), clinics, users)
      ensures r.Ok? ==> rows == old(rows)[id := r.value] && Show(patient, id) == r
      ensures forall other :: other != patient ==> Listing(rows, other) == Listing(old(rows), other)
      ensures !r.Ok? ==> rows == old(rows)
    {
      if !(id in rows && rows[id].patientId == patient) {
        return NotFound;
      }
      if !UpdateRulesHold(req, ClinicIds(clinics), UserIds(users)) {
        return ValidationError;
      }
      if FilledId(req.clinicId).Some? && FilledId(req.doctorId).Some? {
        var doctor := FindUser(users, FilledId(req.doctorId).value);
        if doctor.None? || IntCast(doctor.value.clinicId) != FilledId(req.clinicId).value {
          return Inconsistent;
        }
      }
      var a := ApplyUpdate(rows[id], req);
      forall other | other != patient
        ensures Listing(rows[id := a], other) == Listing(rows, other)
      {
        ListingIsolated(rows, other, id, a);
      }
      rows := rows[id := a];
      r := Ok(a);
    }

    /** DELETE appointments/{id}: removes the caller's row and no other; an id
        the caller does not own is not found and nothing changes. */
    method Destroy(patient: int, id: int) returns (r: Response<()>)
      requires Valid()
      modifies this
      ensures Valid() && nextId == old(nextId)
      ensures r.Ok? || r.NotFound?
      ensures r.Ok? <==> OwnedBy(old(rows), patient, id)
      ensures r.Ok? ==> rows == old(rows) - {id}
      ensures r.Ok? ==> Listing(rows, patient) == Listing(old(rows), patient) - multiset{Entry(id, old(rows)[id])}
      ensures forall other :: other != patient ==> Listing(rows, other) == Listing(old(rows), other)
      ensures !r.Ok? ==> rows == old(rows)
    {
      if !(id in rows && rows[id].patientId == patient) {
        return NotFound;
      }
      ListingAfterDelete(rows, patient, id);
      forall other | other != patient
        ensures Listing(rows - {id}, other) == Listing(rows, other)
      {
        ListingRemoveIsolated(rows, other, id);
      }
      rows := rows - {id};
      r := Ok(());
    }
  }
}
