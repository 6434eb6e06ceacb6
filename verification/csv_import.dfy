/** The bulk import of students from CSV (`handleCSVImport`). The CSV reader has already
    turned each line into an object keyed by the header; a line is modelled as its
    header/value pairs in header order. Identity columns `id`, `name` and `class` are copied;
    every other column whose lower-cased header starts with `vaccine` and whose value is
    non-empty becomes a vaccination, paired with the column `driveId<digits of the header>`. */
module CsvImport {
  import opened Wrappers
  import opened Seqs
  import opened Records
  import Text

  type CsvRow = seq<(string, string)>

  predicate IsIdentityKey(key: string) {
    key == "id" || key == "name" || key == "class"
  }

  /** Membership in `...rest` of `const { id, name, class: studentClass, ...rest } = row`. */
  predicate InRest(e: (string, string)) {
    !IsIdentityKey(e.0)
  }

  function Rest(row: CsvRow): CsvRow {
    Filter(row, InRest)
  }

  /** `key.toLowerCase().startsWith('vaccine') && value`. */
  predicate IsVaccineColumn(e: (string, string)) {
    Text.StartsWith(Text.Lower(e.0), "vaccine") && e.1 != ""
  }

  /** `` `driveId${key.replace(/[^0-9]/g, '')}` ``. */
  function DriveKey(vaccineKey: string): string {
    "driveId" + Text.Digits(vaccineKey)
  }

  /** `row[driveKey] || ''`. */
  function DriveIdFor(row: CsvRow, vaccineKey: string): string {
    Lookup(row, DriveKey(vaccineKey)).GetOr("")
  }

  /** The `forEach` over the rest columns, pushing one vaccination per vaccine column. */
  function VaccinesOf(entries: CsvRow, row: CsvRow): seq<Vaccination> {
    if entries == [] then []
    else
      var e := entries[0];
      (if IsVaccineColumn(e) then [Vaccination(e.1, DriveIdFor(row, e.0))] else []) + VaccinesOf(entries[1..], row)
  }

  /** The pushed list, stated as filter-then-map: one vaccination per vaccine column, in
      column order, named by the column's value and paired with its drive column. */
  lemma {:induction false} VaccinesOfIsFilterMap(entries: CsvRow, row: CsvRow)
    ensures var cols := Filter(entries, IsVaccineColumn);
      var r := VaccinesOf(entries, row);
      && |r| == |cols|
      && forall k | 0 <= k < |r| :: r[k] == Vaccination(cols[k].1, DriveIdFor(row, cols[k].0))
  {
    if entries != [] {
      VaccinesOfIsFilterMap(entries[1..], row);
      var e := entries[0];
      var cols, tcols := Filter(entries, IsVaccineColumn), Filter(entries[1..], IsVaccineColumn);
      var r, tr := VaccinesOf(entries, row), VaccinesOf(entries[1..], row);
      if IsVaccineColumn(e) {
        assert cols == [e] + tcols;
        assert r == [Vaccination(e.1, DriveIdFor(row, e.0))] + tr;
        forall k | 0 < k < |r| ensures r[k] == Vaccination(cols[k].1, DriveIdFor(row, cols[k].0)) {
          assert r[k] == tr[k - 1] && cols[k] == tcols[k - 1];
        }
      } else {
        assert cols == tcols;
        assert r == [] + tr == tr;
      }
    }
  }

  /** A student as `handleCSVImport` builds it from a line. An identity column the line
      lacks leaves that field `undefined`, which `JSON.stringify` drops from the posted body:
      `None`. */
  datatype Imported = Imported(id: Option<string>, name: Option<string>, className: Option<string>, vaccines: seq<Vaccination>)

  /** A student with all its fields present, as it is posted. */
  function Posted(s: Student): Imported {
    Imported(Some(s.id), Some(s.name), Some(s.className), s.vaccines)
  }

  /** One imported student: the identity columns copied as they are, or left undefined when
      the line has no such column, and one vaccination per vaccine column. */
  function DecodeRow(row: CsvRow): (s: Imported)
    ensures s.id == Lookup(row, "id") && s.name == Lookup(row, "name") && s.className == Lookup(row, "class")
    ensures s.id.None? <==> "id" !in Keys(row)
    ensures var cols := Filter(Rest(row), IsVaccineColumn);
      && |s.vaccines| == |cols|
      && forall k | 0 <= k < |cols| ::
        s.vaccines[k] == Vaccination(cols[k].1, DriveIdFor(row, cols[k].0))
  {
    VaccinesOfIsFilterMap(Rest(row), row);
    Imported(Lookup(row, "id"), Lookup(row, "name"), Lookup(row, "class"), VaccinesOf(Rest(row), row))
  }

  /** A line without a `class` column posts a student without a class, not one with an
      empty class. */
  lemma LineWithoutClass()
    ensures DecodeRow([("id", "STU2006"), ("name", "Kabir")]).className == None
  {
    assert Keys([("id", "STU2006"), ("name", "Kabir")]) == ["id", "name"];
  }

  /** The columns that become vaccinations are columns of the line, never `id`, `name` or
      `class`, each with a vaccine header and a non-empty value. */
  lemma VaccineColumnsOfRow(row: CsvRow, k: nat)
    requires k < |Filter(Rest(row), IsVaccineColumn)|
    ensures var e := Filter(Rest(row), IsVaccineColumn)[k];
      e in row && !IsIdentityKey(e.0) && Text.StartsWith(Text.Lower(e.0), "vaccine") && e.1 != ""
      && DecodeRow(row).vaccines[k].name == e.1
  {
    var cols := Filter(Rest(row), IsVaccineColumn);
    assert cols[k] in cols;
  }

  /** `data.map(...)`: one student per line, in line order, none dropped or merged. */
  function DecodeRows(rows: seq<CsvRow>): (r: seq<Imported>)
    ensures |r| == |rows|
    ensures forall i | 0 <= i < |rows| :: r[i] == DecodeRow(rows[i])
  {
    seq(|rows|, i requires 0 <= i < |rows| => DecodeRow(rows[i]))
  }

  /** A line without any non-empty vaccine column gives a student without vaccinations. */
  lemma NoVaccineColumnsNoVaccines(row: CsvRow)
    requires forall i | 0 <= i < |row| :: !IsVaccineColumn(row[i])
    ensures DecodeRow(row).vaccines == []
  {
    FilterNone(Rest(row), IsVaccineColumn);
  }

  // ---------------------------------------------------------------------------------------
  // The sample file's layout, and decoding it back

  /** Columns `vaccineN, driveIdN, vaccineN+1, driveIdN+1, ...` for `vs`. */
  function VaccineColumns(vs: seq<Vaccination>, n: nat): (r: CsvRow)
    ensures |r| == 2 * |vs|
  {
    if vs == [] then []
    else [("vaccine" + Text.Decimal(n), vs[0].name), ("driveId" + Text.Decimal(n), vs[0].driveId)] + VaccineColumns(vs[1..], n + 1)
  }

  /** The sample layout puts vaccination `j` in columns `2j` and `2j + 1`, numbered `n + j`. */
  lemma {:induction false} VaccineColumnsAt(vs: seq<Vaccination>, n: nat, j: nat)
    requires j < |vs|
    ensures VaccineColumns(vs, n)[2 * j] == ("vaccine" + Text.Decimal(n + j), vs[j].name)
    ensures VaccineColumns(vs, n)[2 * j + 1] == ("driveId" + Text.Decimal(n + j), vs[j].driveId)
  {
    if j > 0 {
      VaccineColumnsAt(vs[1..], n + 1, j - 1);
      var r, rest := VaccineColumns(vs, n), VaccineColumns(vs[1..], n + 1);
      assert r[2..] == rest;
      assert r[2 * j] == rest[2 * (j - 1)];
      assert r[2 * j + 1] == rest[2 * (j - 1) + 1];
      assert n + 1 + (j - 1) == n + j;
    }
  }

  /** A student written as a line of the sample file `id,name,class,vaccine1,driveId1,...`. */
  function SampleRow(s: Student): CsvRow {
    [("id", s.id), ("name", s.name), ("class", s.className)] + VaccineColumns(s.vaccines, 1)
  }

  lemma VaccineKeyFacts(n: nat)
    ensures Text.StartsWith(Text.Lower("vaccine" + Text.Decimal(n)), "vaccine")
    ensures DriveKey("vaccine" + Text.Decimal(n)) == "driveId" + Text.Decimal(n)
    ensures !IsIdentityKey("vaccine" + Text.Decimal(n))
  {
    var d := Text.Decimal(n);
    Text.LowerVaccineKey(d);
    assert ("vaccine" + d)[..7] == "vaccine";
    Text.DigitsOfLabelAndNumber("vaccine", d);
    assert ("vaccine" + d)[0] == 'v';
  }

  /** The sample columns have pairwise different headers. */
  lemma ColumnKeysDiffer(n: nat, m: nat)
    ensures "vaccine" + Text.Decimal(n) != "driveId" + Text.Decimal(m)
    ensures n != m ==> "driveId" + Text.Decimal(n) != "driveId" + Text.Decimal(m)
  {
    assert ("vaccine" + Text.Decimal(n))[0] == 'v' && ("driveId" + Text.Decimal(m))[0] == 'd';
    if "driveId" + Text.Decimal(n) == "driveId" + Text.Decimal(m) {
      assert ("driveId" + Text.Decimal(n))[7..] == Text.Decimal(n);
      assert ("driveId" + Text.Decimal(m))[7..] == Text.Decimal(m);
      Text.DecimalInjective(n, m);
    }
  }

  lemma DriveKeyFacts(n: nat)
    ensures !Text.StartsWith(Text.Lower("driveId" + Text.Decimal(n)), "vaccine")
    ensures !IsIdentityKey("driveId" + Text.Decimal(n))
  {
    var k := "driveId" + Text.Decimal(n);
    assert Text.Lower(k)[0] == 'd';
    assert k[0] == 'd';
  }

  /** Looking up `driveIdM` among the sample columns finds the drive of the M-th vaccination. */
  lemma {:induction false} LookupDriveColumn(vs: seq<Vaccination>, n: nat, m: nat)
    requires n <= m < n + |vs|
    ensures Lookup(VaccineColumns(vs, n), "driveId" + Text.Decimal(m)) == Some(vs[m - n].driveId)
  {
    var key := "driveId" + Text.Decimal(m);
    var c0, c1 := ("vaccine" + Text.Decimal(n), vs[0].name), ("driveId" + Text.Decimal(n), vs[0].driveId);
    var tail := VaccineColumns(vs[1..], n + 1);
    assert VaccineColumns(vs, n) == [c0, c1] + tail;
    ColumnKeysDiffer(n, m);
    if m == n {
      assert ([c0, c1] + tail)[1..] == [c1] + tail;
    } else {
      assert Keys([c0, c1]) == [c0.0, c1.0];
      LookupAppend([c0, c1], tail, key);
      LookupDriveColumn(vs[1..], n + 1, m);
      assert vs[1..][m - (n + 1)] == vs[m - n];
    }
  }

  /** The first pair of sample columns yields the first vaccination, and nothing else. */
  lemma DecodeFirstPair(vs: seq<Vaccination>, n: nat, row: CsvRow)
    requires |vs| > 0 && vs[0].name != ""
    requires Lookup(row, "driveId" + Text.Decimal(n)) == Some(vs[0].driveId)
    ensures VaccinesOf(VaccineColumns(vs, n), row) == [vs[0]] + VaccinesOf(VaccineColumns(vs[1..], n + 1), row)
  {
    var cols := VaccineColumns(vs, n);
    var c0, c1, tail := cols[0], cols[1], cols[2..];
    assert c0 == ("vaccine" + Text.Decimal(n), vs[0].name);
    assert c1 == ("driveId" + Text.Decimal(n), vs[0].driveId);
    assert cols[1..][1..] == tail;
    assert tail == VaccineColumns(vs[1..], n + 1);
    VaccineKeyFacts(n);
    DriveKeyFacts(n);
    assert VaccinesOf(cols[1..], row) == VaccinesOf(tail, row);
  }

  /** Column `driveIdM` of `row` holds the drive of `vs[M - n]`, for each M the columns number. */
  ghost predicate DrivesListed(row: CsvRow, vs: seq<Vaccination>, n: nat) {
    forall m | n <= m < n + |vs| :: Lookup(row, "driveId" + Text.Decimal(m)) == Some(vs[m - n].driveId)
  }

  lemma {:induction false} DecodeColumns(vs: seq<Vaccination>, n: nat, row: CsvRow)
    requires forall j | 0 <= j < |vs| :: vs[j].name != ""
    requires DrivesListed(row, vs, n)
    ensures VaccinesOf(VaccineColumns(vs, n), row) == vs
  {
    if vs != [] {
      DecodeFirstPair(vs, n, row);
      DecodeColumns(vs[1..], n + 1, row);
      assert vs == [vs[0]] + vs[1..];
    }
  }

  /** No sample vaccine or drive column is an identity column. */
  lemma {:induction false} VaccineColumnsInRest(vs: seq<Vaccination>, n: nat)
    ensures forall i | 0 <= i < |VaccineColumns(vs, n)| :: InRest(VaccineColumns(vs, n)[i])
  {
    if vs != [] {
      var cols, rest := VaccineColumns(vs, n), VaccineColumns(vs[1..], n + 1);
      var c0, c1 := ("vaccine" + Text.Decimal(n), vs[0].name), ("driveId" + Text.Decimal(n), vs[0].driveId);
      assert cols == [c0, c1] + rest;
      VaccineColumnsInRest(vs[1..], n + 1);
      assert InRest(c0) by { VaccineKeyFacts(n); }
      assert InRest(c1) by { DriveKeyFacts(n); }
      forall i | 0 <= i < |cols| ensures InRest(cols[i]) {
        if i >= 2 {
          assert cols[i] == rest[i - 2];
        }
      }
    }
  }

  /** The rest columns of a sample line are its vaccine and drive columns. */
  lemma RestOfSampleRow(s: Student)
    ensures Rest(SampleRow(s)) == VaccineColumns(s.vaccines, 1)
  {
    var header: CsvRow := [("id", s.id), ("name", s.name), ("class", s.className)];
    var cols := VaccineColumns(s.vaccines, 1);
    VaccineColumnsInRest(s.vaccines, 1);
    FilterAppend(header, cols, InRest);
    FilterKeepsAll(cols, InRest);
    FilterNone(header, InRest);
  }

  /** The identity columns of a sample line hold the student's id, name and class. */
  lemma SampleRowIdentity(s: Student)
    ensures Lookup(SampleRow(s), "id") == Some(s.id)
    ensures Lookup(SampleRow(s), "name") == Some(s.name)
    ensures Lookup(SampleRow(s), "class") == Some(s.className)
  {
    var row := SampleRow(s);
    assert row[0] == ("id", s.id);
    assert row[1..][0] == ("name", s.name);
    assert row[1..][1..][0] == ("class", s.className);
  }

  /** `driveIdM` of a sample line holds the M-th vaccination's drive. */
  lemma SampleRowDriveLookup(s: Student, m: nat)
    requires 1 <= m < 1 + |s.vaccines|
    ensures Lookup(SampleRow(s), "driveId" + Text.Decimal(m)) == Some(s.vaccines[m - 1].driveId)
  {
    var header: CsvRow := [("id", s.id), ("name", s.name), ("class", s.className)];
    var key := "driveId" + Text.Decimal(m);
    DriveKeyFacts(m);
    assert key !in Keys(header);
    LookupAppend(header, VaccineColumns(s.vaccines, 1), key);
    LookupDriveColumn(s.vaccines, 1, m);
  }

  lemma SampleRowDriveLookups(s: Student, row: CsvRow)
    requires row == SampleRow(s)
    ensures DrivesListed(row, s.vaccines, 1)
  {
    forall m | 1 <= m < 1 + |s.vaccines| ensures Lookup(row, "driveId" + Text.Decimal(m)) == Some(s.vaccines[m - 1].driveId) {
      SampleRowDriveLookup(s, m);
    }
  }

  /** Decoding a line written in the sample layout gives the student back, provided every
      vaccine name is non-empty (an empty name is an empty column, which decoding skips). */
  lemma DecodeSampleRow(s: Student)
    requires forall j | 0 <= j < |s.vaccines| :: s.vaccines[j].name != ""
    ensures DecodeRow(SampleRow(s)) == Posted(s)
  {
    var row := SampleRow(s);
    RestOfSampleRow(s);
    SampleRowDriveLookups(s, row);
    DecodeColumns(s.vaccines, 1, row);
    SampleRowIdentity(s);
  }

  /** The first line of the sample file. */
  lemma SampleLineTwoVaccines()
    ensures DecodeRow([("id", "STU2001"), ("name", "Ananya"), ("class", "10th"),
      ("vaccine1", "Covishield"), ("driveId1", "DRV001"), ("vaccine2", "Covaxin"), ("driveId2", "DRV002")])
      == Posted(Student("STU2001", "Ananya", "10th", [Vaccination("Covishield", "DRV001"), Vaccination("Covaxin", "DRV002")]))
  {
    var vs := [Vaccination("Covishield", "DRV001"), Vaccination("Covaxin", "DRV002")];
    var s := Student("STU2001", "Ananya", "10th", vs);
    assert Text.Decimal(1) == "1" && Text.Decimal(2) == "2";
    assert "vaccine" + "1" == "vaccine1" && "driveId" + "1" == "driveId1";
    assert "vaccine" + "2" == "vaccine2" && "driveId" + "2" == "driveId2";
    var cols := VaccineColumns(vs, 1);
    assert cols[0] == ("vaccine1", "Covishield") && cols[1] == ("driveId1", "DRV001");
    assert cols[2] == ("vaccine2", "Covaxin") && cols[3] == ("driveId2", "DRV002");
    assert SampleRow(s) == [("id", "STU2001"), ("name", "Ananya"), ("class", "10th"),
      ("vaccine1", "Covishield"), ("driveId1", "DRV001"), ("vaccine2", "Covaxin"), ("driveId2", "DRV002")];
    DecodeSampleRow(s);
  }

  /** The last line of the sample file, `STU2005,Simran,12th,,,`: one field short of the
      header, so the reader gives no `driveId2`, and every vaccine column is empty. */
  lemma SampleLineNoVaccines()
    ensures DecodeRow([("id", "STU2005"), ("name", "Simran"), ("class", "12th"),
      ("vaccine1", ""), ("driveId1", ""), ("vaccine2", "")])
      == Posted(Student("STU2005", "Simran", "12th", []))
  {
    var row: CsvRow := [("id", "STU2005"), ("name", "Simran"), ("class", "12th"),
      ("vaccine1", ""), ("driveId1", ""), ("vaccine2", "")];
    assert Text.Lower("driveId1")[0] == 'd';
    NoVaccineColumnsNoVaccines(row);
  }
}
