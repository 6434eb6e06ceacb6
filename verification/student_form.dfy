/** The student modal's form: one entry per vaccine type, ticked or not and tied to a drive,
    built blank for a new student or from an existing student, changed by the tick box and
    the drive selector, and turned into the payload sent to the back end. */
module StudentForm {
  import opened Wrappers
  import opened Seqs
  import opened Records

  /** `{ hasVaccine, driveId }`. */
  datatype Entry = Entry(hasVaccine: bool, driveId: string)

  /** `formData.vaccines`: its properties in insertion order. */
  type Entries = seq<(string, Entry)>

  /** `formData`. */
  datatype Form = Form(id: string, name: string, className: string, vaccines: Entries)

  /** `{ ...obj, [key]: value }` and `obj[key] = value`: an existing property is replaced
      where it stands, a new one goes last. */
  function Put(entries: Entries, key: string, value: Entry): Entries {
    if key in Keys(entries) then entries[FirstIndex(Keys(entries), key) := (key, value)]
    else entries + [(key, value)]
  }

  /** `Put` keeps the property names and their order, adding `key` last when it is new. */
  lemma PutKeys(entries: Entries, key: string, value: Entry)
    ensures Keys(Put(entries, key, value)) == if key in Keys(entries) then Keys(entries) else Keys(entries) + [key]
  {
    var r := Put(entries, key, value);
    if key in Keys(entries) {
      assert forall k | 0 <= k < |r| :: Keys(r)[k] == Keys(entries)[k];
    } else {
      assert forall k | 0 <= k < |entries| :: Keys(r)[k] == Keys(entries)[k];
    }
  }

  /** After `Put`, reading `key` gives the new value and every other key reads as before. */
  lemma PutLookup(entries: Entries, key: string, value: Entry, other: string)
    ensures Lookup(Put(entries, key, value), key) == Some(value)
    ensures other != key ==> Lookup(Put(entries, key, value), other) == Lookup(entries, other)
  {
    PutKeys(entries, key, value);
    if key in Keys(entries) {
      PutLookupReplaced(entries, key, value, other);
    } else {
      PutLookupAppended(entries, key, value, other);
    }
  }

  /** `PutLookup` when `key` is already present and is overwritten in place. */
  lemma PutLookupReplaced(entries: Entries, key: string, value: Entry, other: string)
    requires key in Keys(entries)
    requires Keys(Put(entries, key, value)) == Keys(entries)
    ensures Lookup(Put(entries, key, value), key) == Some(value)
    ensures other != key ==> Lookup(Put(entries, key, value), other) == Lookup(entries, other)
  {
    var r, ks := Put(entries, key, value), Keys(entries);
    var i := FirstIndex(ks, key);
    if other != key && other in ks {
      var j := FirstIndex(ks, other);
      assert r[j] == entries[j];
    }
  }

  /** `PutLookup` when `key` is new and is added last. */
  lemma PutLookupAppended(entries: Entries, key: string, value: Entry, other: string)
    requires key !in Keys(entries)
    requires Keys(Put(entries, key, value)) == Keys(entries) + [key]
    ensures Lookup(Put(entries, key, value), key) == Some(value)
    ensures other != key ==> Lookup(Put(entries, key, value), other) == Lookup(entries, other)
  {
    var r, ks := Put(entries, key, value), Keys(entries);
    assert Keys(r)[|entries|] == key;
    assert FirstIndex(Keys(r), key) == |entries| by {
      assert forall k | 0 <= k < |entries| :: Keys(r)[k] == ks[k];
    }
    if other != key && other in ks {
      assert Keys(r)[..|Keys(r)| - 1] == ks;
      FirstIndexOfPrefix(Keys(r), other);
      assert r[FirstIndex(ks, other)] == entries[FirstIndex(ks, other)];
    }
  }


  /** `vaccineTypes.forEach(v => { obj[v] = entry(v) })`, starting from `{}`. */
  function BuildEntries(types: seq<string>, entry: string -> Entry): (r: Entries)
    ensures forall v :: v in Keys(r) <==> v in types
    ensures NoDuplicates(types) ==> |r| == |types| && forall i | 0 <= i < |types| :: r[i] == (types[i], entry(types[i]))
  {
    if types == [] then []
    else
      var p, last := types[..|types| - 1], types[|types| - 1];
      var prev := BuildEntries(p, entry);
      assert types == p + [last];
      PutKeys(prev, last, entry(last));
      assert NoDuplicates(types) ==> NoDuplicates(p) && last !in Keys(prev) by {
        if NoDuplicates(types) {
          forall i, j | 0 <= i < j < |p| ensures p[i] != p[j] {
            assert p[i] == types[i] && p[j] == types[j];
          }
          assert last !in p;
        }
      }
      Put(prev, last, entry(last))
  }

  /** The built object lists each type once, where it first appears: writing a type again
      replaces its entry in place. */
  lemma {:induction false} BuildEntriesKeys(types: seq<string>, entry: string -> Entry)
    ensures Keys(BuildEntries(types, entry)) == Distinct(types)
  {
    if types != [] {
      var p, last := types[..|types| - 1], types[|types| - 1];
      var prev := BuildEntries(p, entry);
      BuildEntriesKeys(p, entry);
      PutKeys(prev, last, entry(last));
    }
  }

  /** Reading a built entry gives `entry(v)` for each listed type, nothing for the rest; a
      type listed twice is written twice with the same value. */
  lemma {:induction false} BuildEntriesLookup(types: seq<string>, entry: string -> Entry, v: string)
    ensures Lookup(BuildEntries(types, entry), v) == if v in types then Some(entry(v)) else None
  {
    if types != [] {
      var p, last := types[..|types| - 1], types[|types| - 1];
      var prev := BuildEntries(p, entry);
      BuildEntriesLookup(p, entry, v);
      PutLookup(prev, last, entry(last), v);
      assert BuildEntries(types, entry) == Put(prev, last, entry(last));
      InPrefixOrLast(types, v);
    }
  }

  /** The `openAddModal` entry: not ticked, no drive. */
  function BlankEntry(v: string): Entry {
    Entry(false, "")
  }

  /** `openAddModal`: blank identity fields and an unticked entry per vaccine type. */
  function AddForm(types: seq<string>): (f: Form)
    ensures f.id == "" && f.name == "" && f.className == ""
    ensures forall v :: v in Keys(f.vaccines) <==> v in types
    ensures NoDuplicates(types) ==> Keys(f.vaccines) == types
    ensures forall i | 0 <= i < |f.vaccines| :: f.vaccines[i].1 == Entry(false, "")
  {
    var entries := BuildEntries(types, BlankEntry);
    BlankEntries(types);
    assert NoDuplicates(types) ==> Keys(entries) == types;
    Form("", "", "", entries)
  }

  lemma {:induction false} BlankEntries(types: seq<string>)
    ensures forall i | 0 <= i < |BuildEntries(types, BlankEntry)| :: BuildEntries(types, BlankEntry)[i].1 == Entry(false, "")
  {
    if types != [] {
      var p, last := types[..|types| - 1], types[|types| - 1];
      var prev := BuildEntries(p, BlankEntry);
      BlankEntries(p);
      var r := Put(prev, last, BlankEntry(last));
      assert r == BuildEntries(types, BlankEntry);
      if last in Keys(prev) {
        forall i | 0 <= i < |r| ensures r[i].1 == Entry(false, "") {
          if i != FirstIndex(Keys(prev), last) {
            assert r[i] == prev[i];
          }
        }
      } else {
        forall i | 0 <= i < |r| ensures r[i].1 == Entry(false, "") {
          if i < |prev| {
            assert r[i] == prev[i];
          }
        }
      }
    }
  }

  /** `student.vaccines.find(vac => vac.name === name)`. */
  function FindVaccination(vs: seq<Vaccination>, name: string): (r: Option<Vaccination>)
    ensures r.None? <==> forall k | 0 <= k < |vs| :: vs[k].name != name
    ensures r.Some? ==> exists k | 0 <= k < |vs| ::
      vs[k] == r.value && vs[k].name == name && forall j | 0 <= j < k :: vs[j].name != name
  {
    if vs == [] then None
    else if vs[0].name == name then Some(vs[0])
    else
      var r := FindVaccination(vs[1..], name);
      assert forall k | 1 <= k < |vs| :: vs[k] == vs[1..][k - 1];
      assert r.Some? ==> exists k | 0 <= k < |vs| ::
        vs[k] == r.value && vs[k].name == name && forall j | 0 <= j < k :: vs[j].name != name
      by {
        if r.Some? {
          var k :| 0 <= k < |vs[1..]| && vs[1..][k] == r.value && vs[1..][k].name == name &&
            forall j | 0 <= j < k :: vs[1..][j].name != name;
          assert vs[k + 1] == r.value;
        }
      }
      r
  }

  /** `vs[k]` is the first of `vs` with its name: the one `find` returns for that name. */
  ghost predicate FirstNamed(vs: seq<Vaccination>, k: int) {
    0 <= k < |vs| && forall j | 0 <= j < k :: vs[j].name != vs[k].name
  }

  lemma FindFirst(vs: seq<Vaccination>, k: int)
    requires FirstNamed(vs, k)
    ensures FindVaccination(vs, vs[k].name) == Some(vs[k])
  {
    var r := FindVaccination(vs, vs[k].name);
    var k' :| 0 <= k' < |vs| && vs[k'] == r.value && vs[k'].name == vs[k].name &&
      forall j | 0 <= j < k' :: vs[j].name != vs[k].name;
    assert k' == k;
  }

  /** The `openModal` entry for vaccine type `v`: `hasVaccine: !!v` and
      `driveId: v ? v.driveId : ''` for the student's first vaccination named `v`. */
  function EditEntryFor(student: Student, v: string): (e: Entry)
    ensures e.hasVaccine <==> exists k | 0 <= k < |student.vaccines| :: student.vaccines[k].name == v
    ensures forall k | FirstNamed(student.vaccines, k) && student.vaccines[k].name == v ::
      e == Entry(true, student.vaccines[k].driveId)
    ensures !e.hasVaccine ==> e.driveId == ""
  {
    var r := FindVaccination(student.vaccines, v);
    assert forall k | FirstNamed(student.vaccines, k) && student.vaccines[k].name == v :: r == Some(student.vaccines[k]) by {
      forall k | FirstNamed(student.vaccines, k) && student.vaccines[k].name == v ensures r == Some(student.vaccines[k]) {
        FindFirst(student.vaccines, k);
      }
    }
    match r
    case Some(x) => Entry(true, x.driveId)
    case None => Entry(false, "")
  }

  function EditEntry(student: Student): string -> Entry {
    (v: string) => EditEntryFor(student, v)
  }

  /** `openModal(student)`: the student's identity, and for each vaccine type an entry ticked
      with the drive of the student's first vaccination of that name, or unticked with no
      drive when the student has none. */
  function EditForm(types: seq<string>, student: Student): (f: Form)
    ensures f.id == student.id && f.name == student.name && f.className == student.className
    ensures forall v :: v in Keys(f.vaccines) <==> v in types
    ensures NoDuplicates(types) ==> Keys(f.vaccines) == types
    ensures forall v | v in types ::
      Lookup(f.vaccines, v).Some? && Lookup(f.vaccines, v).value.hasVaccine <==> exists k | 0 <= k < |student.vaccines| :: student.vaccines[k].name == v
    ensures forall k | FirstNamed(student.vaccines, k) && student.vaccines[k].name in types ::
      Lookup(f.vaccines, student.vaccines[k].name) == Some(Entry(true, student.vaccines[k].driveId))
    ensures forall v | v in types && (forall k | 0 <= k < |student.vaccines| :: student.vaccines[k].name != v) ::
      Lookup(f.vaccines, v) == Some(Entry(false, ""))
  {
    var entries := BuildEntries(types, EditEntry(student));
    assert NoDuplicates(types) ==> Keys(entries) == types;
    assert forall v | v in types :: Lookup(entries, v) == Some(EditEntryFor(student, v)) by {
      forall v | v in types ensures Lookup(entries, v) == Some(EditEntryFor(student, v)) {
        BuildEntriesLookup(types, EditEntry(student), v);
      }
    }
    Form(student.id, student.name, student.className, entries)
  }

  /** `handleVaccineToggle(vaccine)`. Ticking picks the first drive listed, or no drive when
      none is listed; unticking clears the drive. A vaccine the form has no entry for makes
      `current.hasVaccine` throw; the model returns `None` for it. */
  function ToggleVaccine(form: Form, vaccine: string, drives: seq<Drive>): (r: Option<Form>)
    ensures r.None? <==> vaccine !in Keys(form.vaccines)
    ensures r.Some? ==> r.value.id == form.id && r.value.name == form.name && r.value.className == form.className
    ensures r.Some? ==> Keys(r.value.vaccines) == Keys(form.vaccines)
    ensures r.Some? ==> var was := Lookup(form.vaccines, vaccine).value;
      Lookup(r.value.vaccines, vaccine) == Some(Entry(!was.hasVaccine, if !was.hasVaccine && |drives| > 0 then drives[0].id else ""))
    ensures r.Some? ==> forall v | v != vaccine :: Lookup(r.value.vaccines, v) == Lookup(form.vaccines, v)
  {
    match Lookup(form.vaccines, vaccine)
    case None => None
    case Some(current) =>
      var next := Entry(!current.hasVaccine, if !current.hasVaccine && |drives| > 0 then drives[0].id else "");
      PutLookups(form.vaccines, vaccine, next);
      Some(form.(vaccines := Put(form.vaccines, vaccine, next)))
  }

  /** `PutLookup` for every other key at once. */
  lemma PutLookups(entries: Entries, key: string, value: Entry)
    ensures Lookup(Put(entries, key, value), key) == Some(value)
    ensures forall v | v != key :: Lookup(Put(entries, key, value), v) == Lookup(entries, v)
    ensures Keys(Put(entries, key, value)) == if key in Keys(entries) then Keys(entries) else Keys(entries) + [key]
  {
    PutLookup(entries, key, value, key);
    PutKeys(entries, key, value);
    forall v | v != key ensures Lookup(Put(entries, key, value), v) == Lookup(entries, v) {
      PutLookup(entries, key, value, v);
    }
  }

  /** Toggling twice restores the tick and leaves every other vaccine as it was. */
  lemma ToggleTwiceRestoresTick(form: Form, vaccine: string, drives: seq<Drive>)
    requires vaccine in Keys(form.vaccines)
    ensures var once := ToggleVaccine(form, vaccine, drives);
      var twice := ToggleVaccine(once.value, vaccine, drives);
      && twice.Some?
      && Lookup(twice.value.vaccines, vaccine).value.hasVaccine == Lookup(form.vaccines, vaccine).value.hasVaccine
      && Keys(twice.value.vaccines) == Keys(form.vaccines)
      && forall v | v != vaccine :: Lookup(twice.value.vaccines, v) == Lookup(form.vaccines, v)
  {
  }

  /** `handleDriveChange(vaccine, driveId)`: the entry keeps its tick and takes the drive. A
      vaccine without an entry gets one, unticked (`...undefined` spreads nothing). */
  function ChangeDrive(form: Form, vaccine: string, driveId: string): (f: Form)
    ensures f.id == form.id && f.name == form.name && f.className == form.className
    ensures Lookup(f.vaccines, vaccine) == Some(Entry(
      match Lookup(form.vaccines, vaccine) case Some(e) => e.hasVaccine case None => false,
      driveId))
    ensures forall v | v != vaccine :: Lookup(f.vaccines, v) == Lookup(form.vaccines, v)
    ensures vaccine in Keys(form.vaccines) ==> Keys(f.vaccines) == Keys(form.vaccines)
  {
    var has := match Lookup(form.vaccines, vaccine) case Some(e) => e.hasVaccine case None => false;
    PutLookups(form.vaccines, vaccine, Entry(has, driveId));
    form.(vaccines := Put(form.vaccines, vaccine, Entry(has, driveId)))
  }

  // ---------------------------------------------------------------------------------------
  // Submitting

  predicate IsTicked(e: (string, Entry)) {
    e.1.hasVaccine
  }

  /** `Object.entries(formData.vaccines).filter(...).map(...)`. */
  function Ticked(entries: Entries): (r: seq<Vaccination>)
    ensures forall x :: x in r <==> exists k | 0 <= k < |entries| ::
      entries[k].1.hasVaccine && x == Vaccination(entries[k].0, entries[k].1.driveId)
    ensures var t := Filter(entries, IsTicked);
      |r| == |t| && forall k | 0 <= k < |r| :: r[k] == Vaccination(t[k].0, t[k].1.driveId)
  {
    var t := Filter(entries, IsTicked);
    var r := seq(|t|, k requires 0 <= k < |t| => Vaccination(t[k].0, t[k].1.driveId));
    forall x ensures x in r <==> exists k | 0 <= k < |entries| ::
      entries[k].1.hasVaccine && x == Vaccination(entries[k].0, entries[k].1.driveId)
    {
      if x in r {
        var k :| 0 <= k < |t| && r[k] == x;
        assert t[k] in t;
        var j :| 0 <= j < |entries| && entries[j] == t[k];
      }
      if exists k | 0 <= k < |entries| :: entries[k].1.hasVaccine && x == Vaccination(entries[k].0, entries[k].1.driveId) {
        var k :| 0 <= k < |entries| && entries[k].1.hasVaccine && x == Vaccination(entries[k].0, entries[k].1.driveId);
        assert IsTicked(entries[k]);
        assert entries[k] in t;
        var j :| 0 <= j < |t| && t[j] == entries[k];
        assert r[j] == x;
      }
    }
    r
  }

  /** The payload lists the ticked entries one each, in entry order: an entry adds its
      vaccination in front of those of the entries after it exactly when it is ticked. */
  lemma TickedInEntryOrder(e: (string, Entry), rest: Entries)
    ensures Ticked([]) == []
    ensures Ticked([e] + rest) == (if e.1.hasVaccine then [Vaccination(e.0, e.1.driveId)] else []) + Ticked(rest)
  {
    var s := [e] + rest;
    assert s[0] == e && s[1..] == rest;
    var t, tr := Filter(s, IsTicked), Filter(rest, IsTicked);
    var r, rr := Ticked(s), Ticked(rest);
    if e.1.hasVaccine {
      assert t == [e] + tr;
      assert forall k | 1 <= k < |r| :: r[k] == rr[k - 1] by {
        forall k | 1 <= k < |r| ensures r[k] == rr[k - 1] {
          assert t[k] == tr[k - 1];
        }
      }
    } else {
      assert t == tr;
    }
  }

  /** `studentPayload`. */
  function Payload(form: Form): (s: Student)
    ensures s.id == form.id && s.name == form.name && s.className == form.className
    ensures s.vaccines == Ticked(form.vaccines)
  {
    Student(form.id, form.name, form.className, Ticked(form.vaccines))
  }

  /** The request `handleSubmit` sends: `POST /students` with a one-student list when
      adding, `PUT /students/<id>` with the student when editing. */
  datatype Request = PostStudents(students: seq<Student>) | PutStudent(id: string, student: Student)

  function SubmitRequest(form: Form, isAddMode: bool): (q: Request)
    ensures isAddMode ==> q == PostStudents([Payload(form)])
    ensures !isAddMode ==> q == PutStudent(form.id, Payload(form))
  {
    if isAddMode then PostStudents([Payload(form)]) else PutStudent(form.id, Payload(form))
  }

  /** A fresh add form submits a student without vaccinations. */
  lemma AddFormSubmitsNoVaccines(types: seq<string>)
    ensures Payload(AddForm(types)).vaccines == []
  {
    FilterNone(AddForm(types).vaccines, IsTicked);
  }

  /** Every payload entry of an opened student is one of the student's vaccinations. */
  lemma EditedPayloadFromStudent(types: seq<string>, student: Student)
    requires NoDuplicates(types)
    ensures forall x | x in Payload(EditForm(types, student)).vaccines :: x in student.vaccines
  {
    var entries := EditForm(types, student).vaccines;
    var vs := student.vaccines;
    forall x | x in Payload(EditForm(types, student)).vaccines ensures x in vs {
      var i :| 0 <= i < |entries| && entries[i].1.hasVaccine && x == Vaccination(entries[i].0, entries[i].1.driveId);
      assert entries[i] == (types[i], EditEntry(student)(types[i]));
      var found := FindVaccination(vs, types[i]);
      assert found.Some?;
      var k :| 0 <= k < |vs| && vs[k] == found.value && vs[k].name == types[i];
      assert x == vs[k];
    }
  }

  /** Each vaccination of an opened student whose name is a vaccine type is in the payload,
      provided no earlier vaccination has the same name. */
  lemma EditedPayloadHasStudent(types: seq<string>, student: Student, k: nat)
    requires NoDuplicates(types)
    requires k < |student.vaccines| && student.vaccines[k].name in types
    requires forall j | 0 <= j < k :: student.vaccines[j].name != student.vaccines[k].name
    ensures student.vaccines[k] in Payload(EditForm(types, student)).vaccines
  {
    var entries := EditForm(types, student).vaccines;
    var vs := student.vaccines;
    var x := vs[k];
    var i :| 0 <= i < |types| && types[i] == x.name;
    assert entries[i] == (types[i], EditEntry(student)(types[i]));
    var found := FindVaccination(vs, x.name);
    var k' :| 0 <= k' < |vs| && vs[k'] == found.value && vs[k'].name == x.name &&
      forall j | 0 <= j < k' :: vs[j].name != x.name;
    assert k' == k;
    assert entries[i].1.hasVaccine && x == Vaccination(entries[i].0, entries[i].1.driveId);
  }

  /** Opening a student and submitting unchanged sends back the student's vaccinations, when
      their names are distinct and all among the vaccine types. */
  lemma EditThenSubmitKeepsVaccinations(types: seq<string>, student: Student)
    requires NoDuplicates(types)
    requires forall k | 0 <= k < |student.vaccines| :: student.vaccines[k].name in types
    requires forall j, k | 0 <= j < k < |student.vaccines| :: student.vaccines[j].name != student.vaccines[k].name
    ensures var p := Payload(EditForm(types, student));
      && p.id == student.id && p.name == student.name && p.className == student.className
      && forall x :: x in p.vaccines <==> x in student.vaccines
  {
    EditedPayloadFromStudent(types, student);
    EditedPayloadHasAll(types, student);
  }

  /** With distinct vaccination names, every vaccination of an opened student whose name is
      a vaccine type is in the payload. */
  lemma EditedPayloadHasAll(types: seq<string>, student: Student)
    requires NoDuplicates(types)
    requires forall k | 0 <= k < |student.vaccines| :: student.vaccines[k].name in types
    requires forall j, k | 0 <= j < k < |student.vaccines| :: student.vaccines[j].name != student.vaccines[k].name
    ensures forall x | x in student.vaccines :: x in Payload(EditForm(types, student)).vaccines
  {
    forall x | x in student.vaccines ensures x in Payload(EditForm(types, student)).vaccines {
      var k :| 0 <= k < |student.vaccines| && student.vaccines[k] == x;
      EditedPayloadHasStudent(types, student, k);
    }
  }

  /** Opening a student who carries a vaccine twice keeps only the first of the two: `find`
      gives one entry per type, so submitting unchanged sends one vaccination fewer. */
  lemma EditDropsRepeatedVaccine()
    ensures var student := Student("S1", "A", "10th", [Vaccination("Covaxin", "D1"), Vaccination("Covaxin", "D2")]);
      Payload(EditForm(["Covaxin"], student)).vaccines == [Vaccination("Covaxin", "D1")]
  {
    var student := Student("S1", "A", "10th", [Vaccination("Covaxin", "D1"), Vaccination("Covaxin", "D2")]);
    var types := ["Covaxin"];
    var entries := EditForm(types, student).vaccines;
    assert FirstNamed(student.vaccines, 0);
    assert EditEntryFor(student, "Covaxin") == Entry(true, "D1");
    assert entries == [("Covaxin", Entry(true, "D1"))];
    TickedInEntryOrder(("Covaxin", Entry(true, "D1")), []);
    assert [("Covaxin", Entry(true, "D1"))] + [] == entries;
  }
}
