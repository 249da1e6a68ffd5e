/** Shared rows and response shapes of the clinic backend: the `clinics` and
    `users` tables as the controllers and the seeder see them, and the
    outcome of a request. */
module Records {

  datatype Option<+T> = None | Some(value: T)

  /** What a controller action answers: the payload on success, or one of the
      error responses the appointment and clinic controllers produce. */
  datatype Response<+T> =
    | Ok(value: T)
    | ValidationError   // 422 raised by request validation
    | Inconsistent      // 422 "Selected doctor does not belong to the chosen clinic."
    | NotFound          // 404 from findOrFail

  /** A row of the `clinics` table. */
  datatype Clinic = Clinic(id: int, name: string, departmentType: string, location: Option<string>)

  /** A row of the `users` table together with the names of its roles. */
  datatype User = User(
    id: int,
    firstName: Option<string>,
    lastName: Option<string>,
    email: string,
    clinicId: Option<int>,
    roles: set<string>)

  /** The role relation used wherever doctors are selected. */
  predicate IsDoctor(u: User) {
    "doctor" in u.roles
  }

  /** `User::find(id)`: the first row with that id, if any. */
  function FindUser(users: seq<User>, id: int): (r: Option<User>)
    ensures r.Some? <==> exists k :: 0 <= k < |users| && users[k].id == id
    ensures r.Some? ==> r.value in users && r.value.id == id
  {
    if users == [] then None
    else if users[0].id == id then Some(users[0])
    else FindUser(users[1..], id)
  }

  /** The set of ids an `exists:users,id` rule accepts. */
  function UserIds(users: seq<User>): (ids: set<int>)
    ensures forall id :: id in ids <==> FindUser(users, id).Some?
  {
    set u | u in users :: u.id
  }

  /** `Clinic::find(id)`: the first row with that id, if any. */
  function FindClinic(clinics: seq<Clinic>, id: int): (r: Option<Clinic>)
    ensures r.Some? <==> exists k :: 0 <= k < |clinics| && clinics[k].id == id
    ensures r.Some? ==> r.value in clinics && r.value.id == id
  {
    if clinics == [] then None
    else if clinics[0].id == id then Some(clinics[0])
    else FindClinic(clinics[1..], id)
  }

  /** The set of ids an `exists:clinics,id` rule accepts. */
  function ClinicIds(clinics: seq<Clinic>): (ids: set<int>)
    ensures forall k :: 0 <= k < |clinics| ==> clinics[k].id in ids
    ensures forall id :: id in ids ==> exists k :: 0 <= k < |clinics| && clinics[k].id == id
  {
    set c | c in clinics :: c.id
  }
}
