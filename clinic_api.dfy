/** The clinic directory endpoints: the list of clinics ordered by name, and
    the doctors of one clinic with their display names. */
module ClinicApi {
  import opened Records

  // ---------------------------------------------------------------------
  // trim() and the display name
  // ---------------------------------------------------------------------

  /** The characters PHP's trim() strips by default: space, tab, line feed,
      carriage return, NUL and vertical tab. */
  predicate IsTrimmable(c: char) {
    c == ' ' || c == '\t' || c == '\n' || c == '\r' || c == '\0' || c == '\U{000B}'
  }

  predicate AllTrimmable(s: string) {
    forall i :: 0 <= i < |s| ==> IsTrimmable(s[i])
  }

  /** A text with nothing to trim at either end. */
  predicate Trimmed(s: string) {
    s == [] || (!IsTrimmable(s[0]) && !IsTrimmable(s[|s| - 1]))
  }

  function TrimStart(s: string): (r: string)
    ensures |r| <= |s| && r == s[|s| - |r|..]
    ensures AllTrimmable(s[..|s| - |r|])
    ensures r == [] || !IsTrimmable(r[0])
  {
    if s != [] && IsTrimmable(s[0]) then
      var r := TrimStart(s[1..]);
      assert s[..|s| - |r|] == [s[0]] + s[1..][..|s| - 1 - |r|];
      assert s[1..][|s| - 1 - |r|..] == s[|s| - |r|..];
      r
    else s
  }

  function TrimEnd(s: string): (r: string)
    ensures |r| <= |s| && r == s[..|r|]
    ensures AllTrimmable(s[|r|..])
    ensures r == [] || !IsTrimmable(r[|r| - 1])
  {
    if s != [] && IsTrimmable(s[|s| - 1]) then
      var r := TrimEnd(s[..|s| - 1]);
      assert s[|r|..] == s[..|s| - 1][|r|..] + [s[|s| - 1]];
      assert s[..|s| - 1][..|r|] == s[..|r|];
      r
    else s
  }

  /** PHP trim(): the text with its leading and trailing trimmable
      characters removed; what is left is a slice of the text with nothing
      to trim at either end. */
  function Trim(s: string): (r: string)
    ensures Trimmed(r)
    ensures |r| <= |s|
    ensures AllTrimmable(s) ==> r == []
  {
    var t := TrimStart(s);
    var r := TrimEnd(t);
    assert r == [] || r[0] == t[0];
    r
  }

  /** What trim() keeps is a slice of the text, and everything it cuts from
      either end is trimmable; with `Trimmed` this pins the result. */
  lemma {:induction false} TrimIsSlice(s: string)
    ensures exists i ::
      && 0 <= i <= |s| - |Trim(s)|
      && Trim(s) == s[i..i + |Trim(s)|]
      && AllTrimmable(s[..i])
      && AllTrimmable(s[i + |Trim(s)|..])
  {
    var t := TrimStart(s);
    var r := TrimEnd(t);
    var i := |s| - |t|;
    SuffixSlices(s, i, |r|);
    assert Trim(s) == r;
  }

  lemma SuffixSlices(s: string, i: nat, n: nat)
    requires i + n <= |s|
    ensures s[i..][..n] == s[i..i + n] && s[i..][n..] == s[i + n..]
  {
  }

  lemma {:induction false} TrimStartSkips(a: string, m: string)
    requires AllTrimmable(a)
    requires m == [] || !IsTrimmable(m[0])
    ensures TrimStart(a + m) == m
    decreases |a|
  {
    if a == [] {
      assert a + m == m;
    } else {
      assert (a + m)[1..] == a[1..] + m;
      TrimStartSkips(a[1..], m);
    }
  }

  lemma {:induction false} TrimEndSkips(m: string, b: string)
    requires AllTrimmable(b)
    requires m == [] || !IsTrimmable(m[|m| - 1])
    ensures TrimEnd(m + b) == m
    decreases |b|
  {
    if b == [] {
      assert m + b == m;
    } else {
      var mb := m + b;
      assert mb[..|mb| - 1] == m + b[..|b| - 1];
      TrimEndSkips(m, b[..|b| - 1]);
    }
  }

  /** trim() removes exactly the trimmable characters around a core that has
      nothing to trim at its ends. */
  lemma TrimSurrounded(a: string, m: string, b: string)
    requires AllTrimmable(a) && AllTrimmable(b) && Trimmed(m)
    ensures Trim(a + m + b) == m
  {
    if m == [] {
      assert a + m + b == a + b;
      assert AllTrimmable(a + b);
    } else {
      assert a + m + b == a + (m + b);
      TrimStartSkips(a, m + b);
      TrimEndSkips(m, b);
    }
  }

  /** `$u->first_name ?? ''`. */
  function OrEmpty(s: Option<string>): string {
    match s
    case None => ""
    case Some(v) => v
  }

  /** The `name` of a doctor entry: trim(first . ' ' . last), missing names
      read as empty; never padded, and empty when both names are missing. */
  function DisplayName(first: Option<string>, last: Option<string>): (r: string)
    ensures Trimmed(r)
    ensures first.None? && last.None? ==> r == ""
  {
    Trim(OrEmpty(first) + " " + OrEmpty(last))
  }

  /** With clean names the display name is "first last"; with one of them
      missing it is the other alone. */
  lemma DisplayNameOfCleanNames(first: Option<string>, last: Option<string>)
    ensures first.Some? && last.Some? && first.value != [] && Trimmed(first.value) && last.value != [] && Trimmed(last.value)
      ==> DisplayName(first, last) == first.value + " " + last.value
    ensures first.Some? && Trimmed(first.value) && last.None? ==> DisplayName(first, last) == first.value
    ensures first.None? && last.Some? && Trimmed(last.value) ==> DisplayName(first, last) == last.value
  {
    var f, l := OrEmpty(first), OrEmpty(last);
    if first.Some? && last.Some? && f != [] && Trimmed(f) && l != [] && Trimmed(l) {
      assert f + " " + l == [] + (f + " " + l) + [];
      TrimSurrounded([], f + " " + l, []);
    }
    if first.Some? && Trimmed(f) && last.None? {
      assert f + " " + l == [] + f + " ";
      TrimSurrounded([], f, " ");
    }
    if first.None? && last.Some? && Trimmed(l) {
      assert f + " " + l == " " + l + [];
      TrimSurrounded(" ", l, []);
    }
  }

  // ---------------------------------------------------------------------
  // ClinicController::doctors
  // ---------------------------------------------------------------------

  /** One element of the doctors listing. */
  datatype DoctorEntry = DoctorEntry(id: int, name: string, email: string)

  /** A user the doctors query selects for the clinic: a doctor whose
      `clinic_id` equals it (a null `clinic_id` never matches). */
  predicate WorksAt(u: User, clinicId: int) {
    IsDoctor(u) && u.clinicId == Some(clinicId)
  }

  /** The users the query selects, in table order: each qualifying user as
      often as the table holds it, and nobody else. */
  function ClinicDoctors(users: seq<User>, clinicId: int): (ds: seq<User>)
    ensures |ds| <= |users|
    ensures forall u :: u in ds ==> u in users && WorksAt(u, clinicId)
    ensures forall u :: multiset(ds)[u] == if WorksAt(u, clinicId) then multiset(users)[u] else 0
  {
    if users == [] then []
    else
      var rest := ClinicDoctors(users[1..], clinicId);
      assert users == [users[0]] + users[1..];
      if WorksAt(users[0], clinicId) then [users[0]] + rest else rest
  }

  function ToEntry(u: User): (e: DoctorEntry)
    ensures e.id == u.id && e.email == u.email && e.name == DisplayName(u.firstName, u.lastName)
  {
    DoctorEntry(u.id, DisplayName(u.firstName, u.lastName), u.email)
  }

  /** One entry per user, in order, each carrying that user's id and email
      and its display name. */
  predicate ListsUsers(es: seq<DoctorEntry>, ds: seq<User>) {
    |es| == |ds| &&
    forall k :: 0 <= k < |ds| ==>
      es[k].id == ds[k].id && es[k].email == ds[k].email && es[k].name == DisplayName(ds[k].firstName, ds[k].lastName)
  }

  /** The `map` over the selected users. */
  function DoctorListing(ds: seq<User>): (es: seq<DoctorEntry>)
    ensures ListsUsers(es, ds)
  {
    seq(|ds|, k requires 0 <= k < |ds| => ToEntry(ds[k]))
  }

  /** GET clinics/{id}/doctors: not found for an unknown clinic; otherwise
      the entries of exactly the users the query selects, in its order. */
  function Doctors(clinics: seq<Clinic>, users: seq<User>, clinicId: int): (r: Response<seq<DoctorEntry>>)
    ensures r.Ok? || r.NotFound?
    ensures r.NotFound? <==> FindClinic(clinics, clinicId).None?
    ensures r.Ok? ==> ListsUsers(r.value, ClinicDoctors(users, clinicId))
  {
    if FindClinic(clinics, clinicId).None? then NotFound
    else Ok(DoctorListing(ClinicDoctors(users, clinicId)))
  }

  /** Every entry of the listing is built from a doctor of that clinic. */
  lemma DoctorsSound(clinics: seq<Clinic>, users: seq<User>, clinicId: int, k: nat)
    requires Doctors(clinics, users, clinicId).Ok?
    requires k < |Doctors(clinics, users, clinicId).value|
    ensures exists u :: u in users && WorksAt(u, clinicId) && Doctors(clinics, users, clinicId).value[k] == ToEntry(u)
  {
    var ds := ClinicDoctors(users, clinicId);
    assert ds[k] in ds;
    assert Doctors(clinics, users, clinicId).value[k] == ToEntry(ds[k]);
  }

  /** Every doctor of the clinic appears in the listing. */
  lemma DoctorsComplete(clinics: seq<Clinic>, users: seq<User>, clinicId: int, u: User)
    requires FindClinic(clinics, clinicId).Some?
    requires u in users && WorksAt(u, clinicId)
    ensures exists k :: 0 <= k < |Doctors(clinics, users, clinicId).value| && Doctors(clinics, users, clinicId).value[k] == ToEntry(u)
  {
    var ds := ClinicDoctors(users, clinicId);
    assert multiset(users)[u] > 0;
    assert u in multiset(ds);
    var k :| 0 <= k < |ds| && ds[k] == u;
    assert Doctors(clinics, users, clinicId).value[k] == ToEntry(u);
  }

  // ---------------------------------------------------------------------
  // ClinicController::index: clinics ordered by name
  // ---------------------------------------------------------------------

  /** `a <= b` in character-code lexicographic order. */
  predicate NameAtMost(a: string, b: string) {
    a == [] || (b != [] && (a[0] < b[0] || (a[0] == b[0] && NameAtMost(a[1..], b[1..]))))
  }

  lemma {:induction false} NameAtMostTotal(a: string, b: string)
    ensures NameAtMost(a, b) || NameAtMost(b, a)
    decreases |a|
  {
    if a != [] && b != [] && a[0] == b[0] {
      NameAtMostTotal(a[1..], b[1..]);
    }
  }

  lemma {:induction false} NameAtMostTransitive(a: string, b: string, c: string)
    requires NameAtMost(a, b) && NameAtMost(b, c)
    ensures NameAtMost(a, c)
    decreases |a|
  {
    if a != [] && b != [] && c != [] && a[0] == b[0] == c[0] {
      NameAtMostTransitive(a[1..], b[1..], c[1..]);
    }
  }

  predicate SortedByName(cs: seq<Clinic>) {
    forall i, j :: 0 <= i < j < |cs| ==> NameAtMost(cs[i].name, cs[j].name)
  }

  /** Places a clinic before the first clinic whose name it does not exceed. */
  function InsertByName(c: Clinic, cs: seq<Clinic>): (r: seq<Clinic>)
    requires SortedByName(cs)
    ensures SortedByName(r)
    ensures multiset(r) == multiset(cs) + multiset{c}
  {
    if cs == [] then [c]
    else if NameAtMost(c.name, cs[0].name) then
      assert forall j :: 0 <= j < |cs| ==> NameAtMost(c.name, cs[j].name) by {
        forall j | 0 <= j < |cs| ensures NameAtMost(c.name, cs[j].name) {
          if j > 0 { NameAtMostTransitive(c.name, cs[0].name, cs[j].name); }
        }
      }
      [c] + cs
    else
      var rest := InsertByName(c, cs[1..]);
      assert cs == [cs[0]] + cs[1..];
      NameAtMostTotal(c.name, cs[0].name);
      PrependByName(cs[0], cs[1..], c, rest);
      [cs[0]] + rest
  }

  /** A head whose name does not exceed the inserted clinic's nor any name
      after it may stay in front. */
  lemma PrependByName(h: Clinic, tail: seq<Clinic>, c: Clinic, rest: seq<Clinic>)
    requires SortedByName([h] + tail) && NameAtMost(h.name, c.name)
    requires SortedByName(rest) && multiset(rest) == multiset(tail) + multiset{c}
    ensures SortedByName([h] + rest)
  {
    forall j | 0 <= j < |rest| ensures NameAtMost(h.name, rest[j].name) {
      var x := rest[j];
      assert x in multiset(rest);
      if x != c {
        assert x in multiset(tail);
        var k :| 0 <= k < |tail| && tail[k] == x;
        assert ([h] + tail)[0] == h && ([h] + tail)[k + 1] == x;
      }
    }
    var r := [h] + rest;
    forall i, j | 0 <= i < j < |r| ensures NameAtMost(r[i].name, r[j].name) {
      assert r[j] == rest[j - 1];
      if i > 0 { assert r[i] == rest[i - 1]; } else { assert r[i] == h; }
    }
  }

  /** Clinic::query()->orderBy('name')->get(): every clinic, each as often
      as the table holds it, in non-decreasing order of name. */
  function SortByName(cs: seq<Clinic>): (r: seq<Clinic>)
    ensures SortedByName(r)
    ensures multiset(r) == multiset(cs)
  {
    if cs == [] then []
    else
      assert cs == [cs[0]] + cs[1..];
      InsertByName(cs[0], SortByName(cs[1..]))
  }
}
