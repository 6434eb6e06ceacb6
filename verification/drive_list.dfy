/** The vaccination-drive page: the drive table sorted by date in either direction, the
    direction toggle on the Date column, and the add/edit form the drive modal opens with. */
module DriveList {
  import opened Wrappers
  import opened Records
  import opened StableSort
  import Text

  // ---------------------------------------------------------------------------------------
  // Date sort

  datatype SortOrder = Asc | Desc

  /** `toggleDateSort`. */
  function ToggleDateSort(order: SortOrder): (r: SortOrder)
    ensures r != order
  {
    if order == Asc then Desc else Asc
  }

  lemma ToggleTwiceRestores(order: SortOrder)
    ensures ToggleDateSort(ToggleDateSort(order)) == order
  {
  }

  /** The sort key for `order`: the drive's date (as `new Date(drive.date)` reads it through
      `day`), negated for descending order, where the comparator is `dateB - dateA`. */
  function DateKey(day: string -> int, order: SortOrder): Drive -> int {
    if order == Asc then (d: Drive) => day(d.date) else (d: Drive) => -day(d.date)
  }

  /** `[...drives].sort(comparator)`: a sorted copy; `drives` itself is a value and stays
      as it was. */
  function SortedDrives(drives: seq<Drive>, order: SortOrder, day: string -> int): (r: seq<Drive>)
    ensures multiset(r) == multiset(drives)
    ensures |r| == |drives|
    ensures order == Asc ==> forall i, j | 0 <= i < j < |r| :: day(r[i].date) <= day(r[j].date)
    ensures order == Desc ==> forall i, j | 0 <= i < j < |r| :: day(r[i].date) >= day(r[j].date)
  {
    var r := Sort(drives, DateKey(day, order));
    assert |r| == |multiset(r)| == |multiset(drives)| == |drives|;
    assert forall i, j | 0 <= i < j < |r| :: DateKey(day, order)(r[i]) <= DateKey(day, order)(r[j]);
    r
  }

  /** The drives on day `t`, in list order. */
  function DrivesOn(drives: seq<Drive>, day: string -> int, t: int): seq<Drive> {
    WithKey(drives, DateKey(day, Asc), t)
  }

  /** Stability: in either direction, drives sharing a date keep their relative order. */
  lemma SortedDrivesKeepTies(drives: seq<Drive>, order: SortOrder, day: string -> int, t: int)
    ensures DrivesOn(SortedDrives(drives, order, day), day, t) == DrivesOn(drives, day, t)
  {
    if order == Asc {
      SortIsStable(drives, DateKey(day, Asc), t);
    } else {
      DescendingKeepsTies(drives, day, t);
    }
  }

  /** The descending sort groups by the negated date, which is grouping by the date. */
  lemma DescendingKeepsTies(drives: seq<Drive>, day: string -> int, t: int)
    ensures DrivesOn(SortedDrives(drives, Desc, day), day, t) == DrivesOn(drives, day, t)
  {
    var r, k := Sort(drives, DateKey(day, Desc)), -t;
    calc {
      DrivesOn(SortedDrives(drives, Desc, day), day, t);
      { assert SortedDrives(drives, Desc, day) == r; }
      DrivesOn(r, day, t);
      { NegatedDateGroups(r, day, t); }
      WithKey(r, DateKey(day, Desc), k);
      { SortIsStable(drives, DateKey(day, Desc), k); }
      WithKey(drives, DateKey(day, Desc), k);
      { NegatedDateGroups(drives, day, t); }
      DrivesOn(drives, day, t);
    }
  }

  lemma NegatedDateGroups(drives: seq<Drive>, day: string -> int, t: int)
    ensures WithKey(drives, DateKey(day, Desc), -t) == DrivesOn(drives, day, t)
  {
    WithNegatedKey(drives, DateKey(day, Asc), DateKey(day, Desc), t);
  }

  // ---------------------------------------------------------------------------------------
  // The drive form

  /** `formData` of the drive modal. `doses` is `None` for the blank input. */
  datatype DriveForm = DriveForm(
    id: string,
    name: string,
    date: string,
    doses: Option<int>,
    applicableClasses: string,
    vaccineName: string)

  /** `openAddModal`: every field blank. */
  function AddForm(): (f: DriveForm)
    ensures f.id == "" && f.name == "" && f.date == "" && f.doses == None
    ensures f.applicableClasses == "" && f.vaccineName == ""
  {
    DriveForm("", "", "", None, "", "")
  }

  /** `applicable_classes` as the form's text field holds it: an array joined with `','`,
      a string kept as it is, a missing value blank. */
  function ClassesText(field: ClassesField): (r: string)
    ensures field.ClassList? ==> r == Text.Join(field.items, ",")
    ensures field.ClassText? ==> r == field.text
    ensures field.NoClasses? ==> r == ""
  {
    match field
    case ClassList(items) => Text.Join(items, ",")
    case ClassText(text) => text
    case NoClasses => ""
  }

  /** `openModal(drive)`: each field copied, `|| ''` turning a falsy value (a missing field,
      or `0` doses) into the blank input. */
  function EditForm(d: Drive): (f: DriveForm)
    ensures f.id == d.id && f.name == d.name && f.date == d.date && f.vaccineName == d.vaccineName
    ensures f.doses == if d.dosesAvailable == 0 then None else Some(d.dosesAvailable)
    ensures f.applicableClasses == ClassesText(d.applicableClasses)
  {
    DriveForm(d.id, d.name, d.date,
      if d.dosesAvailable == 0 then None else Some(d.dosesAvailable),
      ClassesText(d.applicableClasses), d.vaccineName)
  }

  /** Splitting on `','` undoes joining with it, when no class label contains a comma. */
  function SplitOnComma(s: string): (r: seq<string>)
    ensures |r| >= 1
    decreases |s|
  {
    if s == [] then [""]
    else if s[0] == ',' then [""] + SplitOnComma(s[1..])
    else
      var rest := SplitOnComma(s[1..]);
      [[s[0]] + rest[0]] + rest[1..]
  }

  lemma {:induction false} SplitWord(w: string, tail: string)
    requires forall i | 0 <= i < |w| :: w[i] != ','
    ensures SplitOnComma(w + tail) == [w + SplitOnComma(tail)[0]] + SplitOnComma(tail)[1..]
    decreases |w|
  {
    if w != [] {
      assert (w + tail)[1..] == w[1..] + tail;
      SplitWord(w[1..], tail);
      assert [w[0]] + (w[1..] + SplitOnComma(tail)[0]) == w + SplitOnComma(tail)[0];
    } else {
      assert w + tail == tail;
      var r := SplitOnComma(tail);
      assert w + r[0] == r[0];
      assert [r[0]] + r[1..] == r;
    }
  }

  /** Joining loses nothing when no class label contains a comma: the form text
      determines the drive's class list. */
  lemma {:induction false} ClassesTextRoundTrip(items: seq<string>)
    requires |items| > 0
    requires forall i, j | 0 <= i < |items| && 0 <= j < |items[i]| :: items[i][j] != ','
    ensures SplitOnComma(ClassesText(ClassList(items))) == items
  {
    if |items| == 1 {
      SplitWord(items[0], "");
      assert items[0] + "" == items[0];
    } else {
      ClassesTextRoundTrip(items[1..]);
      var tail := Text.Join(items[1..], ",");
      assert Text.Join(items, ",") == items[0] + ("," + tail);
      SplitWord(items[0], "," + tail);
      assert ("," + tail)[1..] == tail;
      var r := SplitOnComma("," + tail);
      assert r == [""] + items[1..];
      assert r[0] == "" && r[1..] == items[1..];
      assert items[0] + "" == items[0];
      assert items == [items[0]] + items[1..];
    }
  }
}
