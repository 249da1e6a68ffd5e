/** The clinic seeder: the `department_type` slug derived from a clinic name,
    and the `run` loop that upserts the eight standard clinics by name. */
module Seeding {
  import opened Records

  // ---------------------------------------------------------------------
  // The slug: strtolower(preg_replace('/[^a-z0-9]+/i', '_', $name))
  // ---------------------------------------------------------------------

  /** A character the case-insensitive class `[a-z0-9]` matches. */
  predicate IsAlnum(c: char) {
    'a' <= c <= 'z' || 'A' <= c <= 'Z' || '0' <= c <= '9'
  }

  /** A character a slug may contain. */
  predicate IsSlugChar(c: char) {
    'a' <= c <= 'z' || '0' <= c <= '9' || c == '_'
  }

  predicate AllAlnum(s: string) {
    forall i :: 0 <= i < |s| ==> IsAlnum(s[i])
  }

  predicate NoneAlnum(s: string) {
    forall i :: 0 <= i < |s| ==> !IsAlnum(s[i])
  }

  /** strtolower on one character: ASCII upper case only. */
  function LowerChar(c: char): (d: char)
    ensures 'A' <= c <= 'Z' ==> 'a' <= d <= 'z' && d as int == c as int + 32
    ensures !('A' <= c <= 'Z') ==> d == c
  {
    if 'A' <= c <= 'Z' then (c as int + 32) as char else c
  }

  /** strtolower: each character lowered, the length kept. */
  function ToLower(s: string): (r: string)
    ensures |r| == |s|
    ensures forall i :: 0 <= i < |s| ==> r[i] == LowerChar(s[i])
  {
    seq(|s|, i requires 0 <= i < |s| => LowerChar(s[i]))
  }

  /** preg_replace('/[^a-z0-9]+/i', '_', s), scanning left to right:
      `inRun` says the previous character was already replaced, so a further
      separator joins that run instead of starting a new one. */
  function Collapse(s: string, inRun: bool): string {
    if s == [] then []
    else if IsAlnum(s[0]) then [s[0]] + Collapse(s[1..], false)
    else if inRun then Collapse(s[1..], true)
    else "_" + Collapse(s[1..], true)
  }

  /** Every maximal run of characters outside `[A-Za-z0-9]` becomes one `_`. */
  function ReplaceRuns(s: string): string {
    Collapse(s, false)
  }

  /** The `department_type` the seeder stores for a clinic name. */
  function Slug(name: string): string {
    ToLower(ReplaceRuns(name))
  }

  /** The scan keeps alphanumerics, emits only alphanumerics and `_`, never
      two `_` in a row, never lengthens the text, and never starts with `_`
      inside a run. */
  lemma {:induction false} CollapseShape(s: string, inRun: bool)
    ensures |Collapse(s, inRun)| <= |s|
    ensures forall i :: 0 <= i < |Collapse(s, inRun)| ==> IsAlnum(Collapse(s, inRun)[i]) || Collapse(s, inRun)[i] == '_'
    ensures forall i :: 0 <= i < |Collapse(s, inRun)| - 1 ==> Collapse(s, inRun)[i] != '_' || Collapse(s, inRun)[i + 1] != '_'
    ensures inRun && Collapse(s, inRun) != [] ==> Collapse(s, inRun)[0] != '_'
  {
    if s != [] {
      if IsAlnum(s[0]) {
        CollapseShape(s[1..], false);
      } else {
        CollapseShape(s[1..], true);
      }
    }
  }

  /** The slug uses only `[a-z0-9_]`, never holds two consecutive `_`, and is
      no longer than the name. */
  lemma SlugShape(name: string)
    ensures |Slug(name)| <= |name|
    ensures forall i :: 0 <= i < |Slug(name)| ==> IsSlugChar(Slug(name)[i])
    ensures forall i :: 0 <= i < |Slug(name)| - 1 ==> Slug(name)[i] != '_' || Slug(name)[i + 1] != '_'
  {
    var r := ReplaceRuns(name);
    CollapseShape(name, false);
    var l := ToLower(r);
    assert l == Slug(name);
    forall i | 0 <= i < |l| ensures IsSlugChar(l[i]) {
      assert IsAlnum(r[i]) || r[i] == '_';
    }
    forall i | 0 <= i < |l| - 1 ensures l[i] != '_' || l[i + 1] != '_' {
      assert r[i] != '_' || r[i + 1] != '_';
    }
  }

  /** A run of alphanumerics is copied unchanged. */
  lemma {:induction false} CollapseWord(w: string, inRun: bool)
    requires AllAlnum(w)
    ensures Collapse(w, inRun) == w
  {
    if w != [] {
      CollapseWord(w[1..], false);
    }
  }

  /** A non-empty run of separators becomes a single `_`. */
  lemma {:induction false} CollapseSeparator(g: string, inRun: bool)
    requires NoneAlnum(g)
    ensures Collapse(g, inRun) == if g == [] || inRun then "" else "_"
  {
    if g != [] {
      CollapseSeparator(g[1..], true);
    }
  }

  /** Whether the scan is inside a run after reading `a`. */
  function RunAfter(a: string, inRun: bool): bool {
    if a == [] then inRun else !IsAlnum(a[|a| - 1])
  }

  /** The scan over a concatenation is the scan of each part, the second
      started in the state the first ended in. */
  lemma {:induction false} CollapseAppend(a: string, b: string, inRun: bool)
    ensures Collapse(a + b, inRun) == Collapse(a, inRun) + Collapse(b, RunAfter(a, inRun))
  {
    if a == [] {
      assert a + b == b;
    } else {
      var ab := a + b;
      assert ab[0] == a[0] && ab[1..] == a[1..] + b;
      var next := !IsAlnum(a[0]);
      CollapseAppend(a[1..], b, next);
      assert RunAfter(a[1..], next) == RunAfter(a, inRun) by {
        if |a| > 1 { assert a[1..][|a| - 2] == a[|a| - 1]; }
      }
    }
  }

  /** Whether the scan starts inside a run does not matter when the text
      starts with an alphanumeric. */
  lemma CollapseStartsWithWord(b: string, inRun: bool)
    requires b != [] && IsAlnum(b[0])
    ensures Collapse(b, inRun) == Collapse(b, false)
  {
  }

  /** The replacement works run by run: splitting the text at a point that is
      not inside a run of separators splits the result at the same point. */
  lemma ReplaceRunsAppend(a: string, b: string)
    requires a == [] || b == [] || IsAlnum(a[|a| - 1]) || IsAlnum(b[0])
    ensures ReplaceRuns(a + b) == ReplaceRuns(a) + ReplaceRuns(b)
  {
    CollapseAppend(a, b, false);
    if b != [] && IsAlnum(b[0]) {
      CollapseStartsWithWord(b, RunAfter(a, false));
    }
  }

  /** strtolower leaves a text without upper-case ASCII letters unchanged. */
  lemma ToLowerFixed(s: string)
    requires forall i :: 0 <= i < |s| ==> !('A' <= s[i] <= 'Z')
    ensures ToLower(s) == s
  {
  }

  /** A name that is already lower-case alphanumeric is its own slug. */
  lemma SlugOfLowercase(name: string)
    requires forall i :: 0 <= i < |name| ==> 'a' <= name[i] <= 'z' || '0' <= name[i] <= '9'
    ensures Slug(name) == name
  {
    CollapseWord(name, false);
    ToLowerFixed(name);
  }

  /** Text made of `[a-z0-9_]` without two consecutive `_`, and not starting
      with `_` inside a run, is a fixed point of the scan. */
  lemma {:induction false} CollapseFixed(s: string, inRun: bool)
    requires forall i :: 0 <= i < |s| ==> IsSlugChar(s[i])
    requires forall i :: 0 <= i < |s| - 1 ==> s[i] != '_' || s[i + 1] != '_'
    requires inRun ==> s == [] || s[0] != '_'
    ensures Collapse(s, inRun) == s
  {
    if s != [] {
      CollapseFixed(s[1..], !IsAlnum(s[0]));
    }
  }

  /** A slug is its own slug. */
  lemma SlugIdempotent(name: string)
    ensures Slug(Slug(name)) == Slug(name)
  {
    var l := Slug(name);
    SlugShape(name);
    CollapseFixed(l, false);
    ToLowerFixed(l);
  }

  /** Two words joined by a run of separators become the two words joined by
      one `_`. */
  lemma TwoWordReplace(w1: string, g: string, w2: string)
    requires w1 != [] && AllAlnum(w1)
    requires g != [] && NoneAlnum(g)
    requires w2 != [] && AllAlnum(w2)
    ensures ReplaceRuns(w1 + g + w2) == w1 + "_" + w2
  {
    CollapseAppend(w1 + g, w2, false);
    CollapseAppend(w1, g, false);
    CollapseWord(w1, false);
    CollapseSeparator(g, false);
    CollapseWord(w2, true);
  }

  /** ... and the slug lowers both words. */
  lemma TwoWordSlug(w1: string, g: string, w2: string)
    requires w1 != [] && AllAlnum(w1)
    requires g != [] && NoneAlnum(g)
    requires w2 != [] && AllAlnum(w2)
    ensures Slug(w1 + g + w2) == ToLower(w1) + "_" + ToLower(w2)
  {
    TwoWordReplace(w1, g, w2);
    ToLowerAppend(w1 + "_", w2);
    ToLowerAppend(w1, "_");
  }

  /** strtolower works character by character. */
  lemma ToLowerAppend(x: string, y: string)
    ensures ToLower(x + y) == ToLower(x) + ToLower(y)
  {
  }

  /** "Obstetrics & Gynecology" is stored as "obstetrics_gynecology". */
  lemma SlugExample()
    ensures Slug("Obstetrics & Gynecology") == "obstetrics_gynecology"
  {
    var w1, g, w2 := "Obstetrics", " & ", "Gynecology";
    assert "Obstetrics & Gynecology" == w1 + g + w2;
    TwoWordSlug(w1, g, w2);
    LoweredWords();
  }

  lemma LoweredWords()
    ensures ToLower("Obstetrics") + "_" + ToLower("Gynecology") == "obstetrics_gynecology"
  {
    assert ToLower("Obstetrics") == "obstetrics";
    assert ToLower("Gynecology") == "gynecology";
    assert "obstetrics" + "_" + "gynecology" == "obstetrics_gynecology";
  }

  // ---------------------------------------------------------------------
  // The table and `run`: Clinic::updateOrCreate(['name' => $name], [...])
  // ---------------------------------------------------------------------

  /** The clinics table: its rows in id order and the next auto-increment id. */
  datatype Table = Table(rows: seq<Clinic>, nextId: int)

  /** The eight clinic names the seeder writes, in its order. */
  const SeededNames: seq<string> := [
    "OPD",
    "Pediatrics",
    "Obstetrics & Gynecology",
    "Dental Clinic",
    "Cardiology",
    "Orthopedics",
    "Dermatology",
    "Ophthalmology"
  ]

  /** The position of the first row with the given name (`where name ... first()`). */
  function FirstNamed(rows: seq<Clinic>, name: string): (r: Option<nat>)
    ensures r.Some? ==> r.value < |rows| && rows[r.value].name == name
    ensures r.Some? ==> forall k :: 0 <= k < r.value ==> rows[k].name != name
    ensures r.None? ==> forall k :: 0 <= k < |rows| ==> rows[k].name != name
  {
    if rows == [] then None
    else if rows[0].name == name then Some(0)
    else match FirstNamed(rows[1..], name)
      case None => None
      case Some(k) => Some(k + 1)
  }

  /** The names column, row by row. */
  function NameColumn(rows: seq<Clinic>): (names: seq<string>)
    ensures |names| == |rows|
    ensures forall k :: 0 <= k < |rows| ==> names[k] == rows[k].name
  {
    seq(|rows|, k requires 0 <= k < |rows| => rows[k].name)
  }

  /** How many rows carry the name. */
  function CountNamed(rows: seq<Clinic>, name: string): nat {
    multiset(NameColumn(rows))[name]
  }

  /** The first row with the name exists and holds the given attributes. */
  predicate Settled(t: Table, name: string, departmentType: string, location: Option<string>) {
    match FirstNamed(t.rows, name)
    case None => false
    case Some(k) => t.rows[k].departmentType == departmentType && t.rows[k].location == location
  }

  /** updateOrCreate keyed by name: the first row with that name gets the new
      attributes, or a row is appended under the next id. Ids and names of
      existing rows never change, every other row is untouched, the name is
      settled afterwards, and an already settled name leaves the table as it
      was. */
  function Upsert(t: Table, name: string, departmentType: string, location: Option<string>): (r: Table)
    ensures Settled(r, name, departmentType, location)
    ensures |r.rows| == |t.rows| + (if FirstNamed(t.rows, name).Some? then 0 else 1)
    ensures forall k :: 0 <= k < |t.rows| ==> r.rows[k].id == t.rows[k].id && r.rows[k].name == t.rows[k].name
    ensures forall k :: 0 <= k < |t.rows| && t.rows[k].name != name ==> r.rows[k] == t.rows[k]
    ensures FirstNamed(t.rows, name).Some? ==>
      forall k :: 0 <= k < |t.rows| && k != FirstNamed(t.rows, name).value ==> r.rows[k] == t.rows[k]
    ensures FirstNamed(t.rows, name).None? ==> r.rows[|t.rows|] == Clinic(t.nextId, name, departmentType, location) && r.nextId == t.nextId + 1
    ensures FirstNamed(t.rows, name).Some? ==> r.nextId == t.nextId
    ensures Settled(t, name, departmentType, location) ==> r == t
  {
    match FirstNamed(t.rows, name)
    case Some(k) =>
      var row := t.rows[k].(departmentType := departmentType, location := location);
      assert FirstNamed(t.rows[k := row], name) == Some(k) by { FirstNamedSameNames(t.rows, t.rows[k := row], name); }
      Table(t.rows[k := row], t.nextId)
    case None =>
      var rows := t.rows + [Clinic(t.nextId, name, departmentType, location)];
      assert FirstNamed(rows, name) == Some(|t.rows|) by { FirstNamedAppended(t.rows, rows, name); }
      Table(rows, t.nextId + 1)
  }

  lemma {:induction false} FirstNamedSameNames(a: seq<Clinic>, b: seq<Clinic>, name: string)
    requires NameColumn(a) == NameColumn(b)
    ensures FirstNamed(a, name) == FirstNamed(b, name)
  {
    if a != [] {
      assert NameColumn(a[1..]) == NameColumn(b[1..]);
      FirstNamedSameNames(a[1..], b[1..], name);
    }
  }

  lemma {:induction false} FirstNamedAppended(a: seq<Clinic>, b: seq<Clinic>, name: string)
    requires |b| == |a| + 1 && b[..|a|] == a && b[|a|].name == name
    requires FirstNamed(a, name).None?
    ensures FirstNamed(b, name) == Some(|a|)
  {
    if a != [] {
      assert b[1..][..|a| - 1] == a[1..];
      FirstNamedAppended(a[1..], b[1..], name);
    }
  }

  /** A row keeps its position as first of its name while the rows before it
      keep their names. */
  lemma FirstNamedStable(a: seq<Clinic>, b: seq<Clinic>, name: string)
    requires |a| <= |b|
    requires forall k :: 0 <= k < |a| ==> b[k].name == a[k].name
    requires FirstNamed(a, name).Some?
    ensures FirstNamed(b, name) == FirstNamed(a, name)
  {
    var k := FirstNamed(a, name).value;
    assert b[k].name == name;
  }

  /** Upserting one name leaves another name's first row where it was. */
  lemma UpsertKeepsSettled(t: Table, m: string, d: string, l: Option<string>, n: string, dn: string, ln: Option<string>)
    requires m != n && Settled(t, n, dn, ln)
    ensures Settled(Upsert(t, m, d, l), n, dn, ln)
  {
    var r := Upsert(t, m, d, l);
    FirstNamedStable(t.rows, r.rows, n);
  }

  /** A name occurs in the table exactly when it has a first row. */
  lemma CountNamedZero(rows: seq<Clinic>, name: string)
    ensures CountNamed(rows, name) == 0 <==> FirstNamed(rows, name).None?
  {
    var names := NameColumn(rows);
    if FirstNamed(rows, name).Some? {
      assert names[FirstNamed(rows, name).value] == name;
      assert name in multiset(names);
    } else {
      assert name !in names;
    }
  }

  /** An upsert adds a row of its name only when there was none, and never
      changes how many rows carry any other name. */
  lemma UpsertCount(t: Table, m: string, d: string, l: Option<string>, n: string)
    ensures CountNamed(Upsert(t, m, d, l).rows, n) ==
      if n == m && CountNamed(t.rows, n) == 0 then 1 else CountNamed(t.rows, n)
  {
    var r := Upsert(t, m, d, l);
    CountNamedZero(t.rows, m);
    if FirstNamed(t.rows, m).Some? {
      assert NameColumn(r.rows) == NameColumn(t.rows);
    } else {
      assert NameColumn(r.rows) == NameColumn(t.rows) + [m];
    }
  }

  /** `run` from a given table: one upsert per name, in the given order. */
  function SeedAll(t: Table, names: seq<string>): Table
    decreases |names|
  {
    if names == [] then t
    else
      var last := names[|names| - 1];
      Upsert(SeedAll(t, names[..|names| - 1]), last, Slug(last), None)
  }

  /** Seeding only adds rows, at most one per name, the rows already there
      keep their ids and names, and the id counter never goes back. */
  lemma {:induction false} SeedAllKeepsRows(t: Table, names: seq<string>)
    ensures |t.rows| <= |SeedAll(t, names).rows| <= |t.rows| + |names|
    ensures forall k :: 0 <= k < |t.rows| ==>
      SeedAll(t, names).rows[k].id == t.rows[k].id && SeedAll(t, names).rows[k].name == t.rows[k].name
    ensures t.nextId <= SeedAll(t, names).nextId
    decreases |names|
  {
    if names != [] {
      SeedAllKeepsRows(t, names[..|names| - 1]);
    }
  }

  predicate Distinct(names: seq<string>) {
    forall i, j :: 0 <= i < j < |names| ==> names[i] != names[j]
  }

  lemma SeededNamesDistinct()
    ensures Distinct(SeededNames)
  {
  }

  /** After seeding, every seeded name's first row has its slug and a null
      location. */
  lemma {:induction false} SeedAllSettles(t: Table, names: seq<string>)
    requires Distinct(names)
    ensures forall n :: n in names ==> Settled(SeedAll(t, names), n, Slug(n), None)
    decreases |names|
  {
    if names != [] {
      var init, last := names[..|names| - 1], names[|names| - 1];
      SeedAllSettles(t, init);
      var s := SeedAll(t, init);
      forall n | n in names ensures Settled(Upsert(s, last, Slug(last), None), n, Slug(n), None) {
        if n != last {
          assert n in init by {
            var k :| 0 <= k < |names| && names[k] == n;
            assert k < |names| - 1;
            assert init[k] == n;
          }
          UpsertKeepsSettled(s, last, Slug(last), None, n, Slug(n), None);
        }
      }
    }
  }

  /** Seeding adds one row for a name that had none and leaves the number of
      rows of every name that already had one. */
  lemma {:induction false} SeedAllCount(t: Table, names: seq<string>, n: string)
    ensures CountNamed(SeedAll(t, names).rows, n) ==
      if n in names && CountNamed(t.rows, n) == 0 then 1 else CountNamed(t.rows, n)
    decreases |names|
  {
    if names != [] {
      var init, last := names[..|names| - 1], names[|names| - 1];
      SeedAllCount(t, init, n);
      UpsertCount(SeedAll(t, init), last, Slug(last), None, n);
      assert names == init + [last];
    }
  }

  /** Seeding a table whose seeded names are all settled changes nothing. */
  lemma {:induction false} SeedAllFixed(u: Table, names: seq<string>)
    requires forall n :: n in names ==> Settled(u, n, Slug(n), None)
    ensures SeedAll(u, names) == u
    decreases |names|
  {
    if names != [] {
      var init, last := names[..|names| - 1], names[|names| - 1];
      forall n | n in init ensures Settled(u, n, Slug(n), None) {
        var k :| 0 <= k < |init| && init[k] == n;
        assert names[k] == n;
      }
      SeedAllFixed(u, init);
    }
  }

  /** After `run` each seeded name has a first row with its slug and a null
      location, and a name that had at most one row before has exactly one. */
  lemma SeedResult(t: Table)
    ensures forall n :: n in SeededNames ==> Settled(SeedAll(t, SeededNames), n, Slug(n), None)
    ensures forall n :: n in SeededNames && CountNamed(t.rows, n) <= 1 ==> CountNamed(SeedAll(t, SeededNames).rows, n) == 1
  {
    SeededNamesDistinct();
    SeedAllSettles(t, SeededNames);
    forall n | n in SeededNames && CountNamed(t.rows, n) <= 1
      ensures CountNamed(SeedAll(t, SeededNames).rows, n) == 1
    {
      SeedAllCount(t, SeededNames, n);
    }
  }

  /** Running the seeder twice leaves the table as running it once. */
  lemma SeedIdempotent(t: Table)
    ensures SeedAll(SeedAll(t, SeededNames), SeededNames) == SeedAll(t, SeededNames)
  {
    SeedResult(t);
    SeedAllFixed(SeedAll(t, SeededNames), SeededNames);
  }

  /** The clinics table as the seeder updates it in place. */
  /** The auto-increment counter is above every id in the table. */
  predicate CounterAhead(t: Table) {
    forall k :: 0 <= k < |t.rows| ==> t.rows[k].id < t.nextId
  }

  /** An upsert keeps the counter ahead, and a row it creates takes an id no
      existing row has. */
  lemma UpsertCounterAhead(t: Table, name: string, departmentType: string, location: Option<string>)
    requires CounterAhead(t)
    ensures CounterAhead(Upsert(t, name, departmentType, location))
    ensures FirstNamed(t.rows, name).None? ==>
      forall k :: 0 <= k < |t.rows| ==> t.rows[k].id != Upsert(t, name, departmentType, location).rows[|t.rows|].id
  {
    var r := Upsert(t, name, departmentType, location);
    forall k | 0 <= k < |r.rows| ensures r.rows[k].id < r.nextId {
      if k < |t.rows| {
        assert r.rows[k].id == t.rows[k].id;
      }
    }
  }

  /** Seeding keeps the counter ahead of every id. */
  lemma {:induction false} SeedAllCounterAhead(t: Table, names: seq<string>)
    requires CounterAhead(t)
    ensures CounterAhead(SeedAll(t, names))
    decreases |names|
  {
    if names != [] {
      var init, last := names[..|names| - 1], names[|names| - 1];
      SeedAllCounterAhead(t, init);
      UpsertCounterAhead(SeedAll(t, init), last, Slug(last), None);
    }
  }

  class ClinicTable {
    var rows: seq<Clinic>
    var nextId: int

    function State(): Table
      reads this
    {
      Table(rows, nextId)
    }

    /** The counter is ahead of every id, as the database's auto-increment
        keeps it. */
    ghost predicate Valid()
      reads this
    {
      CounterAhead(State())
    }

    constructor (rows0: seq<Clinic>, nextId0: int)
      requires CounterAhead(Table(rows0, nextId0))
      ensures Valid() && State() == Table(rows0, nextId0)
    {
      rows, nextId := rows0, nextId0;
    }

    /** Clinic::updateOrCreate(['name' => name], [attributes]). */
    method UpdateOrCreate(name: string, departmentType: string, location: Option<string>)
      requires Valid()
      modifies this
      ensures Valid()
      ensures State() == Upsert(old(State()), name, departmentType, location)
    {
      UpsertCounterAhead(State(), name, departmentType, location);
      match FirstNamed(rows, name)
      case Some(k) =>
        rows := rows[k := rows[k].(departmentType := departmentType, location := location)];
      case None =>
        rows := rows + [Clinic(nextId, name, departmentType, location)];
        nextId := nextId + 1;
    }

    /** ClinicsTableSeeder::run: upsert the eight clinics in order. */
    method Run()
      requires Valid()
      modifies this
      ensures Valid()
      ensures State() == SeedAll(old(State()), SeededNames)
      ensures forall n :: n in SeededNames ==> Settled(State(), n, Slug(n), None)
      ensures forall n :: n in SeededNames && CountNamed(old(rows), n) <= 1 ==> CountNamed(rows, n) == 1
    {
      var names := SeededNames;
      for i := 0 to |names|
        invariant Valid()
        invariant State() == SeedAll(old(State()), names[..i])
      {
        UpdateOrCreate(names[i], Slug(names[i]), None);
        assert names[..i + 1][..i] == names[..i];
      }
      assert names[..|names|] == names;
      SeedResult(old(State()));
    }
  }
}
