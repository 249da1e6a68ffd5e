# Clinic backend: patient appointments, clinic directory and clinic seeding

This project is a Dafny model of three parts of a Laravel clinic-management backend:

- the patient appointment API (`index`, `store`, `show`, `update`, `destroy`);
- the clinic directory API (the clinic list ordered by name, and the doctors of one clinic);
- the seeder that creates the eight standard clinics.

Four modules make up the model:

- `Records` (`records.dfy`) holds the shared rows.
  - A `clinics` row and a `users` row, where a user carries its role names.
  - The `Response` of an action: `Ok`, `ValidationError` (422 from request validation), `Inconsistent` (422 "doctor does not belong to the chosen clinic") or `NotFound` (404 from `findOrFail`).
  - First-match lookup by id, `User::find` / `Clinic::find`.
- `PatientAppointments` (`patient_appointments.dfy`) models the appointment actions.
  - The `appointments` table is a class `AppointmentTable`: a `map` from id to row plus the next auto-increment id.
  - `Store`, `Update` and `Destroy` are methods that change it.
    - `Store` and `Update` answer exactly as the pure decision functions `StoreDecision` and `UpdateDecision`, and validate ids against the `clinics` and `users` tables they are given.
    - `Destroy` deletes exactly when the caller owns the row.
    - `Store` adds exactly the new entry to the caller's listing, `Destroy` removes exactly the deleted one, and none of the three changes another patient's listing.
  - `Show` is a function on the table; `Index` is a ghost function that enumerates the map.
  - Request fields are three-valued: left out, sent as null, or sent with a value. The validation rules are predicates over that.
- `ClinicApi` (`clinic_api.dfy`) models the clinic directory.
  - PHP `trim`, and the doctor display name built from it.
  - The doctors query and its `map` into entries.
  - The name-ordered clinic list.
- `Seeding` (`seeding.dfy`) models the seeder.
  - The `department_type` slug, `strtolower(preg_replace('/[^a-z0-9]+/i', '_', name))`, as a left-to-right scan.
  - `updateOrCreate` keyed by name, as `Upsert` on a table value and as the method `ClinicTable.UpdateOrCreate`.
  - The seeding loop `ClinicTable.Run`.
  - `ClinicTable` keeps its auto-increment counter above every id, so a created clinic never reuses an id.

What the controller does, in the cases that are easy to misread:

- `store` goes straight from the doctor-clinic check (PatientAppointmentController.php lines 42-47) to `Appointment::create` (line 49). There is no availability or capacity check, so a valid, consistent request is always created.
- `update` accepts `status` `scheduled` as well as `cancelled` (line 88), so a cancelled appointment can be scheduled again.
- The doctor-clinic check compares `(int) $doctor->clinic_id` with `(int) $validated['clinic_id']`, and runs only when both ids pass PHP's `! empty(...)` (lines 42-44 and 92-94).
  - A clinic or doctor id of `0`, `null` or absent skips the check.
  - A doctor with a null clinic casts to `0`, so it is rejected against any filled clinic id (`UnaffiliatedDoctorRejected`, `ConsistencyMeansAffiliation`).
- `appointment_time` on update carries only `sometimes` (line 86). An explicit null passes validation and is written, so the stored time is optional (`Appointment.time: Option<TimeOfDay>`).

## Model

All source paths are under `backend/`.

| member | source | states |
|---|---|---|
| Records.FindUser | backend/app/Http/Controllers/Api/PatientAppointmentController.php:43 | a user is found exactly when some row has the id, and the one found is a row with that id |
| Records.IsDoctor | backend/app/Http/Controllers/Api/ClinicController.php:26-28 | a doctor is a user holding the role named "doctor" (definition, no contract) |
| Records.UserIds | backend/app/Http/Controllers/Api/PatientAppointmentController.php:34 | `exists:users,id` accepts exactly the ids that `User::find` finds |
| Records.FindClinic | backend/app/Http/Controllers/Api/ClinicController.php:21 | a clinic is found exactly when some row has the id, and the one found is a row with that id |
| Records.ClinicIds | backend/app/Http/Controllers/Api/PatientAppointmentController.php:33 | `exists:clinics,id` accepts every id in the table and nothing else |
| PatientAppointments.ParseKind | backend/app/Http/Controllers/Api/PatientAppointmentController.php:37 | `Rule::in` accepts exactly "in_person" and "telemedicine", and the accepted text is the kind's name |
| PatientAppointments.ParseStatus | backend/app/Http/Controllers/Api/PatientAppointmentController.php:88 | `Rule::in` accepts exactly "scheduled" and "cancelled", and the accepted text is the status's name |
| PatientAppointments.NullableExistingId | backend/app/Http/Controllers/Api/PatientAppointmentController.php:33-34 | `nullable`, `integer`, `exists`: a field left out or null passes; a sent value must be an integer id of the table (definition, no contract) |
| PatientAppointments.NullableReason | backend/app/Http/Controllers/Api/PatientAppointmentController.php:38 | `nullable`, `max:500`: a sent reason has at most 500 characters (definition, no contract) |
| PatientAppointments.NullableKind | backend/app/Http/Controllers/Api/PatientAppointmentController.php:37 | `nullable`, `Rule::in`: a sent type must be one of the two kinds (definition, no contract) |
| PatientAppointments.StoreRulesHold | backend/app/Http/Controllers/Api/PatientAppointmentController.php:32-39 | the store rules: both ids nullable existing integers, date required and a date, time required, type nullable and one of the kinds, reason nullable and bounded (definition, no contract) |
| PatientAppointments.UpdateRulesHold | backend/app/Http/Controllers/Api/PatientAppointmentController.php:82-90 | the update rules: as store, except that date, time, type and status may be left out, a sent date, type or status must be valid, and time takes anything (definition, no contract) |
| PatientAppointments.FilledId | backend/app/Http/Controllers/Api/PatientAppointmentController.php:42 | `! empty($validated[...])` holds exactly for a sent integer other than 0, and yields that integer |
| PatientAppointments.IntCast | backend/app/Http/Controllers/Api/PatientAppointmentController.php:44 | `(int)` of a nullable clinic id: null reads as 0 (definition, no contract) |
| PatientAppointments.DoctorInClinic | backend/app/Http/Controllers/Api/PatientAppointmentController.php:43-44 | the user under the doctor id exists and its cast clinic id equals the clinic id (definition, no contract) |
| PatientAppointments.ConsistencyHolds | backend/app/Http/Controllers/Api/PatientAppointmentController.php:42-47 | the doctor-clinic check passes when either id is not filled, and otherwise when the doctor is in the clinic (definition, no contract) |
| PatientAppointments.ConsistencyMeansAffiliation | backend/app/Http/Controllers/Api/PatientAppointmentController.php:44 | since a filled clinic id is never 0, the cast comparison passes exactly when the doctor exists and its clinic is exactly that id |
| PatientAppointments.NewAppointment | backend/app/Http/Controllers/Api/PatientAppointmentController.php:49-57 | the created record belongs to the caller, is scheduled, has the sent date and time, the sent type or in-person, and the sent doctor and reason or null |
| PatientAppointments.StoreDecision | backend/app/Http/Controllers/Api/PatientAppointmentController.php:28-60 | validation fails iff a rule is broken; the doctor-clinic check fails iff both ids are filled and the doctor is missing or in another clinic; a created record belongs to the caller, is scheduled, takes date and time from the request, defaults type to in-person and doctor and reason to null, and respects the reason bound |
| PatientAppointments.ApplyUpdate | backend/app/Http/Controllers/Api/PatientAppointmentController.php:99 | each field left out keeps its value; null clears doctor, time and reason; a sent value replaces the field; the owner never changes |
| PatientAppointments.OwnedBy | backend/app/Http/Controllers/Api/PatientAppointmentController.php:79 | the `where('patient_id', $user->id)` scope before `findOrFail`: the id is in the table and its row belongs to the caller (definition, no contract; the same scope is at lines 67 and 109) |
| PatientAppointments.UpdateDecision | backend/app/Http/Controllers/Api/PatientAppointmentController.php:74-102 | an id the caller does not own is not found whatever the request; then validation fails iff a rule is broken; then the doctor-clinic check; on success the row is the owned row with the sent fields replaced, and it keeps the reason bound |
| PatientAppointments.ApplyUpdateIdempotent | backend/app/Http/Controllers/Api/PatientAppointmentController.php:99 | sending the same update twice leaves the row as sending it once, so cancelling twice is a no-op |
| PatientAppointments.UnaffiliatedDoctorRejected | backend/app/Http/Controllers/Api/PatientAppointmentController.php:42-46 | a doctor with a null clinic is rejected by store and update against any filled clinic id |
| PatientAppointments.TimeBefore | backend/app/Http/Controllers/Api/PatientAppointmentController.php:20 | the ascending order on `appointment_time` that the descending sort reverses; a null time comes before every time (definition, no contract) |
| PatientAppointments.NotEarlier | backend/app/Http/Controllers/Api/PatientAppointmentController.php:19-20 | one row may be listed before another: a later date, or the same date and a time that is not earlier (definition, no contract) |
| PatientAppointments.NewestFirst | backend/app/Http/Controllers/Api/PatientAppointmentController.php:19-20 | a listing sorted by date and then time, both descending (definition, no contract) |
| PatientAppointments.InsertNewest | backend/app/Http/Controllers/Api/PatientAppointmentController.php:19-20 | inserting into a list ordered by date and then time, both descending, keeps it ordered and adds exactly that entry |
| PatientAppointments.Collect | backend/app/Http/Controllers/Api/PatientAppointmentController.php:16-21 | the caller's rows among the given ids, each exactly once and no other row, newest first |
| PatientAppointments.ListingAfterCreate | backend/app/Http/Controllers/Api/PatientAppointmentController.php:49-57 | a row created for the caller under an unused id adds exactly its entry to the caller's listing |
| PatientAppointments.ListingAfterDelete | backend/app/Http/Controllers/Api/PatientAppointmentController.php:112 | deleting an owned row removes exactly its entry from the caller's listing |
| PatientAppointments.ListingIsolated | backend/app/Http/Controllers/Api/PatientAppointmentController.php:78-80 | writing a row that neither was nor becomes another patient's leaves that patient's listing unchanged |
| PatientAppointments.ListingRemoveIsolated | backend/app/Http/Controllers/Api/PatientAppointmentController.php:112 | deleting a row that is not another patient's leaves that patient's listing unchanged |
| PatientAppointments.AppointmentTable.Index | backend/app/Http/Controllers/Api/PatientAppointmentController.php:12-26 | the listing holds exactly the caller's rows, each once, ordered by date and then time, both descending |
| PatientAppointments.AppointmentTable.Show | backend/app/Http/Controllers/Api/PatientAppointmentController.php:62-72 | the row is returned iff the caller owns it; an id that is missing or belongs to someone else is not found |
| PatientAppointments.AppointmentTable.Store | backend/app/Http/Controllers/Api/PatientAppointmentController.php:28-60 | answers as `StoreDecision`; on success the record is stored under a fresh id, shown to its owner, and adds exactly one entry to the caller's listing and none to anyone else's; on failure nothing changes |
| PatientAppointments.AppointmentTable.Update | backend/app/Http/Controllers/Api/PatientAppointmentController.php:74-102 | answers as `UpdateDecision` on the old rows; on success only that row changes; other patients' listings never change; on failure nothing changes |
| PatientAppointments.AppointmentTable.Destroy | backend/app/Http/Controllers/Api/PatientAppointmentController.php:104-117 | deletes iff the caller owns the row; then exactly that row and its listing entry are gone, and no other patient's listing changes; otherwise not found and nothing changes |
| ClinicApi.TrimStart | backend/app/Http/Controllers/Api/ClinicController.php:34 | the result is a suffix of the text; everything cut is trimmable and the result does not start with a trimmable character |
| ClinicApi.IsTrimmable | backend/app/Http/Controllers/Api/ClinicController.php:34 | PHP trim's default character list: space, tab, line feed, carriage return, NUL and vertical tab (definition, no contract) |
| ClinicApi.TrimEnd | backend/app/Http/Controllers/Api/ClinicController.php:34 | the result is a prefix of the text; everything cut is trimmable and the result does not end with a trimmable character |
| ClinicApi.Trim | backend/app/Http/Controllers/Api/ClinicController.php:34 | the result has nothing to trim at either end, is no longer than the text, and is empty for all-blank text |
| ClinicApi.TrimIsSlice | backend/app/Http/Controllers/Api/ClinicController.php:34 | what trim keeps is a contiguous slice of the text, and everything cut from either end is trimmable |
| ClinicApi.TrimSurrounded | backend/app/Http/Controllers/Api/ClinicController.php:34 | trim removes exactly the blanks around a core with nothing to trim at its ends |
| ClinicApi.OrEmpty | backend/app/Http/Controllers/Api/ClinicController.php:34 | `?? ''`: a missing name reads as the empty text (definition, no contract) |
| ClinicApi.DisplayName | backend/app/Http/Controllers/Api/ClinicController.php:34 | the doctor's name is never padded, and it is empty when both names are missing |
| ClinicApi.DisplayNameOfCleanNames | backend/app/Http/Controllers/Api/ClinicController.php:34 | clean first and last names give "first last"; with one missing, the other alone |
| ClinicApi.WorksAt | backend/app/Http/Controllers/Api/ClinicController.php:24-28 | the query selects users with the doctor role whose clinic id equals the clinic's; a null clinic id never matches (definition, no contract) |
| ClinicApi.ClinicDoctors | backend/app/Http/Controllers/Api/ClinicController.php:24-30 | the query selects every user with the doctor role in that clinic, as often as the table holds it, and nobody else |
| ClinicApi.ToEntry | backend/app/Http/Controllers/Api/ClinicController.php:32-36 | an entry carries the user's id, email and display name |
| ClinicApi.DoctorListing | backend/app/Http/Controllers/Api/ClinicController.php:31-37 | one entry per selected user, in query order, each from that user |
| ClinicApi.Doctors | backend/app/Http/Controllers/Api/ClinicController.php:19-40 | not found iff the clinic does not exist; otherwise one entry per selected doctor, in order |
| ClinicApi.DoctorsSound | backend/app/Http/Controllers/Api/ClinicController.php:24-37 | every listed entry is built from a doctor of that clinic |
| ClinicApi.DoctorsComplete | backend/app/Http/Controllers/Api/ClinicController.php:24-37 | every doctor of the clinic appears in the listing |
| ClinicApi.NameAtMost | backend/app/Http/Controllers/Api/ClinicController.php:14 | the order `orderBy('name')` sorts by: character-code lexicographic order (definition, no contract) |
| ClinicApi.NameAtMostTotal | backend/app/Http/Controllers/Api/ClinicController.php:14 | any two names are comparable |
| ClinicApi.NameAtMostTransitive | backend/app/Http/Controllers/Api/ClinicController.php:14 | the name order is transitive |
| ClinicApi.SortedByName | backend/app/Http/Controllers/Api/ClinicController.php:14 | the clinic list is in `orderBy('name')` order: every earlier name is at most every later one (definition, no contract) |
| ClinicApi.InsertByName | backend/app/Http/Controllers/Api/ClinicController.php:14 | inserting into a name-ordered list keeps it ordered and adds exactly that clinic |
| ClinicApi.SortByName | backend/app/Http/Controllers/Api/ClinicController.php:12-17 | the clinic list is ordered by name and holds every clinic as often as the table does |
| Seeding.LowerChar | backend/database/seeders/ClinicsTableSeeder.php:32 | `strtolower` maps A-Z to a-z and leaves every other character alone |
| Seeding.IsAlnum | backend/database/seeders/ClinicsTableSeeder.php:32 | the characters `[a-z0-9]` matches under `/i`: ASCII letters of either case and digits (definition, no contract) |
| Seeding.ToLower | backend/database/seeders/ClinicsTableSeeder.php:32 | lower-casing keeps the length and lowers each character |
| Seeding.Collapse | backend/database/seeders/ClinicsTableSeeder.php:32 | the `preg_replace` as a left-to-right scan: letters and digits are copied; the first character of each run of other characters becomes `_`, the rest of the run is dropped (definition, no contract) |
| Seeding.ReplaceRuns | backend/database/seeders/ClinicsTableSeeder.php:32 | `preg_replace('/[^a-z0-9]+/i', '_', name)`: the scan started outside a run (definition, no contract) |
| Seeding.Slug | backend/database/seeders/ClinicsTableSeeder.php:32 | the `department_type`: `strtolower` of the replacement (definition, no contract) |
| Seeding.CollapseShape | backend/database/seeders/ClinicsTableSeeder.php:32 | the replacement is no longer than the name, holds only letters, digits and `_`, and never two `_` in a row |
| Seeding.SlugShape | backend/database/seeders/ClinicsTableSeeder.php:32 | a department type is no longer than the name, holds only lower-case letters, digits and `_`, and never two `_` in a row |
| Seeding.CollapseWord | backend/database/seeders/ClinicsTableSeeder.php:32 | a run of letters and digits is kept as it is |
| Seeding.CollapseSeparator | backend/database/seeders/ClinicsTableSeeder.php:32 | a run of other characters becomes one `_` |
| Seeding.CollapseAppend | backend/database/seeders/ClinicsTableSeeder.php:32 | the replacement of a concatenation is the replacement of its parts, the second continuing the first's run |
| Seeding.CollapseStartsWithWord | backend/database/seeders/ClinicsTableSeeder.php:32 | text that starts with a letter or digit is replaced the same way whatever came before |
| Seeding.ReplaceRunsAppend | backend/database/seeders/ClinicsTableSeeder.php:32 | replacement distributes over a concatenation split next to a letter or digit |
| Seeding.ToLowerAppend | backend/database/seeders/ClinicsTableSeeder.php:32 | lower-casing distributes over concatenation |
| Seeding.ToLowerFixed | backend/database/seeders/ClinicsTableSeeder.php:32 | lower-casing leaves any text without the letters A-Z unchanged |
| Seeding.CollapseFixed | backend/database/seeders/ClinicsTableSeeder.php:32 | replacement leaves a slug-shaped text unchanged |
| Seeding.SlugOfLowercase | backend/database/seeders/ClinicsTableSeeder.php:32 | a text that is already a department type maps to itself |
| Seeding.SlugIdempotent | backend/database/seeders/ClinicsTableSeeder.php:32 | taking the department type of a department type changes nothing |
| Seeding.TwoWordReplace | backend/database/seeders/ClinicsTableSeeder.php:32 | two words around a separator run become the words joined by one `_` |
| Seeding.TwoWordSlug | backend/database/seeders/ClinicsTableSeeder.php:32 | two words around a separator run give the lower-cased words joined by one `_` |
| Seeding.SlugExample | backend/database/seeders/ClinicsTableSeeder.php:20 | "Obstetrics & Gynecology" gets department type "obstetrics_gynecology" |
| Seeding.FirstNamed | backend/database/seeders/ClinicsTableSeeder.php:30-31 | the lookup by name finds the first row with that name, or reports that none has it |
| Seeding.NameColumn | backend/database/seeders/ClinicsTableSeeder.php:31 | the name column lists each row's name in row order |
| Seeding.Upsert | backend/database/seeders/ClinicsTableSeeder.php:30-33 | afterwards the first row with the name has the given attributes; an existing row keeps its id, and a new row takes the next id; every row except the first one with the name is untouched; a settled name changes nothing |
| Seeding.UpsertKeepsSettled | backend/database/seeders/ClinicsTableSeeder.php:30-33 | an upsert of one name keeps every other settled name settled |
| Seeding.UpsertCount | backend/database/seeders/ClinicsTableSeeder.php:30-33 | an upsert adds a row with the name only when none existed, and leaves the count of every other name unchanged |
| Seeding.SeedAll | backend/database/seeders/ClinicsTableSeeder.php:29-34 | the `foreach` loop from a given table: one upsert per name, in order (definition, no contract) |
| Seeding.SeedAllKeepsRows | backend/database/seeders/ClinicsTableSeeder.php:29-34 | seeding only adds rows, at most one per name; existing rows keep their ids and names; the id counter never goes back |
| Seeding.UpsertCounterAhead | backend/database/seeders/ClinicsTableSeeder.php:30-33 | an upsert keeps the auto-increment counter above every id, and a created row takes an id no existing row has |
| Seeding.SeedAllCounterAhead | backend/database/seeders/ClinicsTableSeeder.php:29-34 | seeding keeps the auto-increment counter above every id |
| Seeding.CountNamedZero | backend/database/seeders/ClinicsTableSeeder.php:30 | no row has the name exactly when the lookup by name finds none |
| Seeding.SeededNamesDistinct | backend/database/seeders/ClinicsTableSeeder.php:18-27 | the eight seeded names are pairwise different |
| Seeding.SeededNames | backend/database/seeders/ClinicsTableSeeder.php:18-27 | the eight clinic names, in the seeder's order (constant) |
| Seeding.SeedAllSettles | backend/database/seeders/ClinicsTableSeeder.php:29-34 | after the loop the first row of every listed name has its department type and a null location |
| Seeding.SeedAllCount | backend/database/seeders/ClinicsTableSeeder.php:29-34 | the loop adds one row for a listed name that had none, and otherwise leaves the count of every name unchanged |
| Seeding.SeedAllFixed | backend/database/seeders/ClinicsTableSeeder.php:29-34 | on a table where every listed name is already settled the loop changes nothing |
| Seeding.SeedResult | backend/database/seeders/ClinicsTableSeeder.php:16-35 | after seeding every standard clinic is present with its department type, exactly once if it was at most once before |
| Seeding.SeedIdempotent | backend/database/seeders/ClinicsTableSeeder.php:16-35 | running the seeder twice gives the same table as running it once |
| Seeding.ClinicTable.UpdateOrCreate | backend/database/seeders/ClinicsTableSeeder.php:30-33 | the table afterwards is `Upsert` of the table before, and the counter stays above every id |
| Seeding.ClinicTable.Run | backend/database/seeders/ClinicsTableSeeder.php:16-35 | the loop's table is the seeding of the initial table; every standard clinic is settled and present exactly once if it was at most once before; the counter stays above every id |

## Left out

- Request handling, authentication and JSON shaping are not modelled. The acting patient is a parameter. Status codes are the four `Response` cases.
- Eager loading (`with('doctor')`, `load('doctor')`) is left out. The model returns rows, not the joined doctor fields.
- Time stamps (`created_at`, `updated_at`) are not modelled.
- The `Appointment` model class (fillable, casts) is not part of this model. `clinic_id` is validated but not written: store does not pass it, and update's write of it depends on that class. The modelled row has no clinic column.
- The `date` rule is abstract: a date field is either a calendar day or text that does not parse. Times are opaque integers, because the controller only stores and sorts them.
- Before validation, Laravel's global middleware trims every request string and then turns empty strings into null. Request fields in the model are the values after both steps: a sent `" telemedicine "` arrives as `Given("telemedicine")`, and a blank string arrives as `Null`. The middleware itself is not modelled. Non-string values for `reason` are not modelled.
- Database ordering is modelled as code-point lexicographic order on names, with null times sorting first. The database collation and the order among ties are left out. `AppointmentTable.Index`, `ClinicApi.SortByName` and `PatientAppointments.Collect` therefore fix one order among ties, where the database may choose another.
- AppointmentTable.Index: a ghost function, because it enumerates a map. It is specified by what it lists and in what order, not executed.
- `User::find` after `exists:users,id` can still miss a user deleted in between. The model looks up the same `users` value, so that race is left out, as is all concurrency.
- The users and clinics tables are sequences with first-match lookup. `FindClinic` repeats the shape of `FindUser` because the two lookups are over different tables. The roles relation is a set of role names per user.
- A doctor id that is not an integer cannot reach the write, because validation rejects it. `ApplyUpdate` keeps the old doctor in that case.
- Whether the database accepts a null `appointment_time` on update depends on the migration, which is not part of this model.
- `ClinicController::doctors`: the `select` of four columns is left out, since the entry is built from the same fields.
- The frontend pages are outside the modelled backend.
