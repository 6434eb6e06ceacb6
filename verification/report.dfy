/** The vaccination report page: students joined against drives into flat report rows, the
    vaccine filter and the list of filter options, the visible page of rows, and the
    five-column records handed to the spreadsheet writer. */
module Report {
  import opened Wrappers
  import opened Seqs
  import opened Records

  const Yes := "Yes"
  const No := "No"
  /** Shown for a missing date or vaccine. */
  const Placeholder := "-"
  /** The filter value that selects every row. */
  const AllVaccines := "All"

  datatype ReportRow = ReportRow(name: string, className: string, vaccinated: string, date: string, vaccine: string)

  // ---------------------------------------------------------------------------------------
  // Reconciliation

  /** No drive after position `i` carries the id of `drives[i]`. */
  ghost predicate LastWithId(drives: seq<Drive>, i: int)
    requires 0 <= i < |drives|
  {
    forall j | i < j < |drives| :: drives[j].id != drives[i].id
  }

  /** `driveMap`: each drive stored under its id, a later drive replacing an earlier one
      with the same id. */
  function DriveIndex(drives: seq<Drive>): map<string, Drive> {
    if drives == [] then map[]
    else DriveIndex(drives[..|drives| - 1])[drives[|drives| - 1].id := drives[|drives| - 1]]
  }

  /** The index holds exactly the ids the drives carry. */
  lemma {:induction false} DriveIndexKeys(drives: seq<Drive>)
    ensures forall id :: id in DriveIndex(drives) <==> exists i | 0 <= i < |drives| :: drives[i].id == id
  {
    if drives != [] {
      var n := |drives| - 1;
      var p := drives[..n];
      DriveIndexKeys(p);
      assert DriveIndex(drives) == DriveIndex(p)[drives[n].id := drives[n]];
      forall id ensures id in DriveIndex(drives) <==> exists i | 0 <= i < |drives| :: drives[i].id == id {
        if id in DriveIndex(drives) && id != drives[n].id {
          var i :| 0 <= i < n && p[i].id == id;
          assert drives[i] == p[i];
        }
        if exists i | 0 <= i < |drives| :: drives[i].id == id {
          var i :| 0 <= i < |drives| && drives[i].id == id;
          if i < n {
            assert p[i] == drives[i];
          }
        }
      }
    }
  }

  /** An id maps to the last drive listed with it. */
  lemma {:induction false} DriveIndexLast(drives: seq<Drive>, i: nat)
    requires i < |drives| && LastWithId(drives, i)
    ensures drives[i].id in DriveIndex(drives) && DriveIndex(drives)[drives[i].id] == drives[i]
  {
    var n := |drives| - 1;
    var p := drives[..n];
    if i < n {
      assert p[i] == drives[i];
      assert LastWithId(p, i) by {
        forall j | i < j < n ensures p[j].id != p[i].id {
          assert p[j] == drives[j];
        }
      }
      DriveIndexLast(p, i);
    }
  }

  /** `drive.date || '-'` for the drive registered under `driveId`, `{}` standing in for a
      missing one. The date cell is never blank. */
  function DriveDate(index: map<string, Drive>, driveId: string): (r: string)
    ensures r != ""
  {
    if driveId in index && index[driveId].date != "" then index[driveId].date else Placeholder
  }

  /** The date a row shows for a drive id: the date of the last drive carrying that id, or
      the placeholder when that date is empty or no drive carries the id. */
  lemma RowDateIsLastDriveDate(drives: seq<Drive>, driveId: string, i: nat)
    requires i < |drives| && drives[i].id == driveId
    requires forall j | i < j < |drives| :: drives[j].id != driveId
    ensures DriveDate(DriveIndex(drives), driveId) == if drives[i].date == "" then Placeholder else drives[i].date
  {
    DriveIndexLast(drives, i);
  }

  lemma RowDateOfUnknownDrive(drives: seq<Drive>, driveId: string)
    requires forall j | 0 <= j < |drives| :: drives[j].id != driveId
    ensures DriveDate(DriveIndex(drives), driveId) == Placeholder
  {
    DriveIndexKeys(drives);
  }

  /** How many rows a student contributes: one per vaccination, or the single "No" row. */
  function RowCount(s: Student): nat {
    if |s.vaccines| > 0 then |s.vaccines| else 1
  }

  /** The rows of one student. */
  function StudentRows(s: Student, index: map<string, Drive>): (r: seq<ReportRow>)
    ensures |r| == RowCount(s)
    ensures forall j | 0 <= j < |s.vaccines| ::
      r[j] == ReportRow(s.name, s.className, Yes, DriveDate(index, s.vaccines[j].driveId), s.vaccines[j].name)
    ensures |s.vaccines| == 0 ==> r == [ReportRow(s.name, s.className, No, Placeholder, Placeholder)]
  {
    if |s.vaccines| > 0 then
      seq(|s.vaccines|, j requires 0 <= j < |s.vaccines| =>
        ReportRow(s.name, s.className, Yes, DriveDate(index, s.vaccines[j].driveId), s.vaccines[j].name))
    else
      [ReportRow(s.name, s.className, No, Placeholder, Placeholder)]
  }

  /** The sum over students of max(1, number of vaccinations). */
  function TotalRows(students: seq<Student>): nat {
    if students == [] then 0 else RowCount(students[0]) + TotalRows(students[1..])
  }

  /** All students' rows, student after student. */
  function RowsOf(students: seq<Student>, index: map<string, Drive>): (r: seq<ReportRow>)
    ensures |r| == TotalRows(students)
  {
    if students == [] then [] else StudentRows(students[0], index) + RowsOf(students[1..], index)
  }

  /** `reportRows` before filtering. */
  function ReportRows(students: seq<Student>, drives: seq<Drive>): (r: seq<ReportRow>)
    ensures |r| == TotalRows(students)
  {
    RowsOf(students, DriveIndex(drives))
  }

  lemma {:induction false} RowsOfAppend(a: seq<Student>, b: seq<Student>, index: map<string, Drive>)
    ensures RowsOf(a + b, index) == RowsOf(a, index) + RowsOf(b, index)
    ensures TotalRows(a + b) == TotalRows(a) + TotalRows(b)
  {
    if a == [] {
      assert a + b == b;
    } else {
      var h := StudentRows(a[0], index);
      assert (a + b)[0] == a[0] && (a + b)[1..] == a[1..] + b;
      RowsOfAppend(a[1..], b, index);
      calc {
        RowsOf(a + b, index);
        h + RowsOf(a[1..] + b, index);
        h + (RowsOf(a[1..], index) + RowsOf(b, index));
        (h + RowsOf(a[1..], index)) + RowsOf(b, index);
        RowsOf(a, index) + RowsOf(b, index);
      }
    }
  }

  /** Row order: student `i`'s rows sit together, in vaccination order, right after the rows
      of the students before it. */
  lemma RowsInStudentOrder(students: seq<Student>, index: map<string, Drive>, i: nat, j: nat)
    requires i < |students| && j < RowCount(students[i])
    ensures TotalRows(students[..i]) + j < |RowsOf(students, index)|
    ensures RowsOf(students, index)[TotalRows(students[..i]) + j] == StudentRows(students[i], index)[j]
  {
    var before, rest := students[..i], students[i + 1..];
    assert students == before + ([students[i]] + rest);
    RowsOfAppend(before, [students[i]] + rest, index);
    RowsOfAppend([students[i]], rest, index);
    assert RowsOf([students[i]], index) == StudentRows(students[i], index) by {
      assert [students[i]][1..] == [];
    }
  }

  // ---------------------------------------------------------------------------------------
  // Filter and filter options

  function HasVaccine(name: string): ReportRow -> bool {
    (row: ReportRow) => row.vaccine == name
  }

  /** `reportRows.filter(row => row.vaccine === filter)` unless the filter is "All". */
  function FilterRows(rows: seq<ReportRow>, filter: string): (r: seq<ReportRow>)
    ensures filter == AllVaccines ==> r == rows
    ensures filter != AllVaccines ==> forall row :: row in r <==> row in rows && row.vaccine == filter
    ensures filter != AllVaccines ==>
      forall row :: multiset(r)[row] == if row.vaccine == filter then multiset(rows)[row] else 0
    ensures IsSubsequence(r, rows)
  {
    if filter == AllVaccines then
      assert IsSubsequence(rows, rows) by { SubsequenceOfItself(rows); }
      rows
    else
      FilterCountsAndOrder(rows, HasVaccine(filter));
      Filter(rows, HasVaccine(filter))
  }

  /** Applying the same filter to already filtered rows changes nothing. */
  lemma FilterRowsIdempotent(rows: seq<ReportRow>, filter: string)
    ensures FilterRows(FilterRows(rows, filter), filter) == FilterRows(rows, filter)
  {
    if filter != AllVaccines {
      FilterIdempotent(rows, HasVaccine(filter));
    }
  }

  function VaccineColumn(rows: seq<ReportRow>): (r: seq<string>)
    ensures |r| == |rows|
    ensures forall k | 0 <= k < |rows| :: r[k] == rows[k].vaccine
  {
    seq(|rows|, k requires 0 <= k < |rows| => rows[k].vaccine)
  }

  predicate NotPlaceholder(v: string) {
    v != Placeholder
  }

  /** The vaccine names the option list draws on: the vaccine column without placeholders. */
  function OfferedNames(rows: seq<ReportRow>): seq<string> {
    Filter(VaccineColumn(rows), NotPlaceholder)
  }

  /** `['All', ...new Set(names)]`: "All", then every vaccine name of the rows except the
      placeholder, once, in order of first appearance (not sorted). */
  function VaccineOptions(rows: seq<ReportRow>): (r: seq<string>)
    ensures |r| >= 1 && r[0] == AllVaccines
    ensures NoDuplicates(r[1..])
    ensures forall v :: v in r[1..] <==> v != Placeholder && exists k | 0 <= k < |rows| :: rows[k].vaccine == v
    ensures forall i, j | 1 <= i < j < |r| ::
      r[i] in OfferedNames(rows) && r[j] in OfferedNames(rows) &&
      FirstIndex(OfferedNames(rows), r[i]) < FirstIndex(OfferedNames(rows), r[j])
  {
    var names := OfferedNames(rows);
    var d := Distinct(names);
    assert forall v :: v in VaccineColumn(rows) <==> exists k | 0 <= k < |rows| :: rows[k].vaccine == v by {
      forall v ensures v in VaccineColumn(rows) <==> exists k | 0 <= k < |rows| :: rows[k].vaccine == v {
        if v in VaccineColumn(rows) {
          var k :| 0 <= k < |rows| && VaccineColumn(rows)[k] == v;
        }
      }
    }
    assert ([AllVaccines] + d)[1..] == d;
    [AllVaccines] + d
  }

  // ---------------------------------------------------------------------------------------
  // Paging

  /** `data.slice(page * rowsPerPage, page * rowsPerPage + rowsPerPage)`. */
  function PageSlice<T>(rows: seq<T>, page: nat, rowsPerPage: nat): (r: seq<T>)
    ensures |r| <= rowsPerPage
    ensures |r| == if page * rowsPerPage >= |rows| then 0 else Min(rowsPerPage, |rows| - page * rowsPerPage)
    ensures forall k | 0 <= k < |r| :: r[k] == rows[page * rowsPerPage + k]
  {
    rows[Min(page * rowsPerPage, |rows|)..Min(page * rowsPerPage + rowsPerPage, |rows|)]
  }

  /** Slicing the first page of the first page gives the first page again. */
  lemma FirstPageIdempotent<T>(rows: seq<T>, rowsPerPage: nat)
    ensures PageSlice(PageSlice(rows, 0, rowsPerPage), 0, rowsPerPage) == PageSlice(rows, 0, rowsPerPage)
  {
  }

  /** The pages before page `n`, concatenated. */
  function PagesBefore<T>(rows: seq<T>, rowsPerPage: nat, n: nat): seq<T> {
    if n == 0 then [] else PagesBefore(rows, rowsPerPage, n - 1) + PageSlice(rows, n - 1, rowsPerPage)
  }

  /** The rows before `start`, then the next `size` rows, are the rows before `start + size`. */
  lemma SliceThenNext<T>(rows: seq<T>, start: nat, size: nat)
    ensures rows[..Min(start, |rows|)] + rows[Min(start, |rows|)..Min(start + size, |rows|)] == rows[..Min(start + size, |rows|)]
  {
  }

  /** Paging loses and repeats nothing: the first `n` pages are the first `n * rowsPerPage`
      rows, so enough pages give back all the rows. */
  lemma {:induction false} PagesCoverRows<T>(rows: seq<T>, rowsPerPage: nat, n: nat)
    ensures PagesBefore(rows, rowsPerPage, n) == rows[..Min(n * rowsPerPage, |rows|)]
  {
    if n > 0 {
      PagesCoverRows(rows, rowsPerPage, n - 1);
      var start := (n - 1) * rowsPerPage;
      assert start + rowsPerPage == n * rowsPerPage;
      assert PageSlice(rows, n - 1, rowsPerPage) == rows[Min(start, |rows|)..Min(start + rowsPerPage, |rows|)];
      SliceThenNext(rows, start, rowsPerPage);
    }
  }

  /** The paging cursor the table keeps. */
  datatype Pager = Pager(page: nat, rowsPerPage: nat)

  const InitialPager := Pager(0, 5)

  /** `handleChangePage`. */
  function ChangePage(p: Pager, newPage: nat): (r: Pager)
    ensures r.page == newPage && r.rowsPerPage == p.rowsPerPage
  {
    p.(page := newPage)
  }

  /** `handleChangeRowsPerPage`: the new page size, back on the first page. */
  function ChangeRowsPerPage(p: Pager, rowsPerPage: nat): (r: Pager)
    ensures r.page == 0 && r.rowsPerPage == rowsPerPage
  {
    Pager(0, rowsPerPage)
  }

  /** After a page-size change the table shows the first `rowsPerPage` rows. */
  lemma PageSizeChangeShowsFirstRows<T>(p: Pager, rowsPerPage: nat, rows: seq<T>)
    ensures var q := ChangeRowsPerPage(p, rowsPerPage);
      PageSlice(rows, q.page, q.rowsPerPage) == rows[..Min(rowsPerPage, |rows|)]
  {
  }

  /** The rows the table shows: at most one page of `data`, starting at the page's first row. */
  function VisibleRows(data: seq<ReportRow>, p: Pager): (r: seq<ReportRow>)
    ensures |r| <= p.rowsPerPage && |r| <= |data|
    ensures |r| == if p.page * p.rowsPerPage >= |data| then 0 else Min(p.rowsPerPage, |data| - p.page * p.rowsPerPage)
    ensures r == [] || p.page * p.rowsPerPage + |r| <= |data|
    ensures forall k | 0 <= k < |r| :: r[k] == data[p.page * p.rowsPerPage + k]
  {
    PageSlice(data, p.page, p.rowsPerPage)
  }

  /** The page opens on its first five rows. */
  lemma InitialRows(data: seq<ReportRow>)
    ensures VisibleRows(data, InitialPager) == data[..Min(5, |data|)]
  {
  }

  // ---------------------------------------------------------------------------------------
  // Export

  const ExportHeaders: seq<string> :=
    ["Student Name", "Class", "Vaccinated Status", "Date of Vaccination", "Vaccine Name"]

  /** One spreadsheet record: header/value pairs in column order. */
  type ExportRecord = seq<(string, string)>

  /** Reads a report row back from a record with exactly the five export columns. */
  function RowOfRecord(rec: ExportRecord): Option<ReportRow> {
    if Keys(rec) == ExportHeaders then Some(ReportRow(rec[0].1, rec[1].1, rec[2].1, rec[3].1, rec[4].1))
    else None
  }

  /** The record `handleDownload` builds for a row. */
  function RecordOfRow(row: ReportRow): (rec: ExportRecord)
    ensures Keys(rec) == ExportHeaders
    ensures RowOfRecord(rec) == Some(row)
  {
    [("Student Name", row.name), ("Class", row.className), ("Vaccinated Status", row.vaccinated),
     ("Date of Vaccination", row.date), ("Vaccine Name", row.vaccine)]
  }

  /** `dataToExport`: one record per row of the whole filtered data set (not just the visible
      page), in the same order, each with the five export columns. */
  function ExportTable(data: seq<ReportRow>): (t: seq<ExportRecord>)
    ensures |t| == |data|
    ensures forall i | 0 <= i < |t| :: Keys(t[i]) == ExportHeaders && RowOfRecord(t[i]) == Some(data[i])
  {
    seq(|data|, i requires 0 <= i < |data| => RecordOfRow(data[i]))
  }

  /** Reading every record back gives the exported rows. */
  function RowsOfTable(t: seq<ExportRecord>): Option<seq<ReportRow>> {
    if t == [] then Some([])
    else match (RowOfRecord(t[0]), RowsOfTable(t[1..]))
      case (Some(row), Some(rest)) => Some([row] + rest)
      case _ => None
  }

  /** The export is not limited to the visible page: every row shown is exported, and so is
      every row of `data`, however many pages there are. */
  lemma ExportCoversEveryPage(data: seq<ReportRow>, p: Pager)
    ensures |ExportTable(data)| == |data| >= |VisibleRows(data, p)|
    ensures forall k | 0 <= k < |VisibleRows(data, p)| :: RecordOfRow(VisibleRows(data, p)[k]) in ExportTable(data)
  {
    var v := VisibleRows(data, p);
    forall k | 0 <= k < |v| ensures RecordOfRow(v[k]) in ExportTable(data) {
      var i := p.page * p.rowsPerPage + k;
      assert ExportTable(data)[i] == RecordOfRow(data[i]);
    }
  }

  lemma {:induction false} ExportRoundTrip(data: seq<ReportRow>)
    ensures RowsOfTable(ExportTable(data)) == Some(data)
  {
    if data != [] {
      assert ExportTable(data)[1..] == ExportTable(data[1..]);
      ExportRoundTrip(data[1..]);
      assert data == [data[0]] + data[1..];
    }
  }

  // ---------------------------------------------------------------------------------------
  // The page

  /** What the page holds once both fetches have answered: the rows under the current
      filter, and the options computed from those same rows. */
  datatype ReportView = ReportView(data: seq<ReportRow>, vaccineOptions: seq<string>)

  function LoadReport(students: seq<Student>, drives: seq<Drive>, filter: string): (v: ReportView)
    ensures v.data == FilterRows(ReportRows(students, drives), filter)
    ensures v.vaccineOptions == VaccineOptions(v.data)
  {
    var rows := FilterRows(ReportRows(students, drives), filter);
    ReportView(rows, VaccineOptions(rows))
  }

  /** Because the options are rebuilt from the filtered rows, choosing a vaccine narrows the
      option list to "All" and that vaccine. */
  lemma FilteredOptions(students: seq<Student>, drives: seq<Drive>, filter: string)
    requires filter != AllVaccines && filter != Placeholder
    requires exists row | row in ReportRows(students, drives) :: row.vaccine == filter
    ensures LoadReport(students, drives, filter).vaccineOptions == [AllVaccines, filter]
  {
    var v := LoadReport(students, drives, filter);
    var row :| row in ReportRows(students, drives) && row.vaccine == filter;
    assert row in v.data;
    forall k | 0 <= k < |v.data| ensures v.data[k].vaccine == filter {
      assert v.data[k] in v.data;
    }
    OptionsOfOneVaccine(v.data, filter);
  }

  /** Rows that all carry one vaccine offer "All" and that vaccine. */
  lemma OptionsOfOneVaccine(rows: seq<ReportRow>, name: string)
    requires |rows| > 0 && name != Placeholder
    requires forall k | 0 <= k < |rows| :: rows[k].vaccine == name
    ensures VaccineOptions(rows) == [AllVaccines, name]
  {
    var r := VaccineOptions(rows);
    assert rows[0].vaccine == name;
    assert name in r[1..];
    var t := r[1..];
    forall i | 0 <= i < |t| ensures t[i] == name {
      assert t[i] in t;
    }
    OnlyOneValue(t, name);
    assert r == [r[0]] + t;
  }

  /** Choosing a vaccine no row carries leaves nothing to show and only "All" to choose. */
  lemma UnmatchedFilter(students: seq<Student>, drives: seq<Drive>, filter: string)
    requires filter != AllVaccines
    requires forall row | row in ReportRows(students, drives) :: row.vaccine != filter
    ensures LoadReport(students, drives, filter) == ReportView([], [AllVaccines])
  {
  }
}
