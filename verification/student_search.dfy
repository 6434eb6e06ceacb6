/** The student page's list: loading the students, the sorted list of vaccine types they
    carry, and the search box filter over name, class, id and vaccine names. */
module StudentSearch {
  import opened Wrappers
  import opened Seqs
  import opened Records
  import Text

  // ---------------------------------------------------------------------------------------
  // Vaccine types

  /** Some student has a vaccination entry named `v`. */
  ghost predicate SomeoneHas(students: seq<Student>, v: string) {
    exists i, k | 0 <= i < |students| && 0 <= k < |students[i].vaccines| :: students[i].vaccines[k].name == v
  }

  /** The names `vaccinesSet.add(v.name)` receives, in the order of the two `forEach` loops. */
  function AllVaccineNames(students: seq<Student>): (r: seq<string>)
    ensures forall v :: v in r <==> SomeoneHas(students, v)
  {
    if students == [] then []
    else
      var head, rest := VaccineNames(students[0].vaccines), AllVaccineNames(students[1..]);
      forall v ensures v in head + rest <==> SomeoneHas(students, v) {
        if v in head {
          var k :| 0 <= k < |head| && head[k] == v;
          assert students[0].vaccines[k].name == v;
        } else if v in rest {
          var i, k :| 0 <= i < |students[1..]| && 0 <= k < |students[1..][i].vaccines| && students[1..][i].vaccines[k].name == v;
          assert students[i + 1].vaccines[k].name == v;
        }
        if SomeoneHas(students, v) {
          var i, k :| 0 <= i < |students| && 0 <= k < |students[i].vaccines| && students[i].vaccines[k].name == v;
          if i == 0 {
            assert head[k] == v;
          } else {
            assert students[1..][i - 1].vaccines[k].name == v;
          }
        }
      }
      head + rest
  }

  /** `a < b` on strings: the first differing character decides, and a proper prefix comes
      first. This is the order of the default `Array.prototype.sort`. */
  predicate LexLess(a: string, b: string)
    decreases |a|
  {
    if a == [] then b != []
    else if b == [] then false
    else if a[0] != b[0] then a[0] < b[0]
    else LexLess(a[1..], b[1..])
  }

  lemma {:induction false} LexIrreflexive(a: string)
    ensures !LexLess(a, a)
    decreases |a|
  {
    if a != [] {
      LexIrreflexive(a[1..]);
    }
  }

  lemma {:induction false} LexTransitive(a: string, b: string, c: string)
    requires LexLess(a, b) && LexLess(b, c)
    ensures LexLess(a, c)
    decreases |a|
  {
    if a != [] && b != [] && c != [] && a[0] == b[0] && b[0] == c[0] {
      LexTransitive(a[1..], b[1..], c[1..]);
    }
  }

  lemma {:induction false} LexTotal(a: string, b: string)
    requires a != b
    ensures LexLess(a, b) || LexLess(b, a)
    decreases |a|
  {
    if a != [] && b != [] && a[0] == b[0] {
      assert a == [a[0]] + a[1..] && b == [b[0]] + b[1..];
      LexTotal(a[1..], b[1..]);
    }
  }

  lemma {:induction false} LexAsymmetric(a: string, b: string)
    requires LexLess(a, b)
    ensures !LexLess(b, a)
    decreases |a|
  {
    if a != [] && b != [] && a[0] == b[0] {
      LexAsymmetric(a[1..], b[1..]);
    }
  }

  ghost predicate StrictlySorted(s: seq<string>) {
    forall i, j | 0 <= i < j < |s| :: LexLess(s[i], s[j])
  }

  lemma StrictlySortedNoDuplicates(s: seq<string>)
    requires StrictlySorted(s)
    ensures NoDuplicates(s)
  {
    forall i, j | 0 <= i < j < |s| ensures s[i] != s[j] {
      LexIrreflexive(s[i]);
    }
  }

  /** `x` placed in front of everything it precedes. */
  function InsertName(x: string, s: seq<string>): (r: seq<string>)
    requires StrictlySorted(s) && x !in s
    ensures |r| == |s| + 1
    ensures forall y :: y in r <==> y == x || y in s
    ensures StrictlySorted(r)
  {
    if s == [] then [x]
    else if LexLess(x, s[0]) then
      var r := [x] + s;
      forall i, j | 0 <= i < j < |r| ensures LexLess(r[i], r[j]) {
        if i == 0 && j > 1 {
          LexTransitive(x, s[0], s[j - 1]);
        }
      }
      r
    else
      var rest := InsertName(x, s[1..]);
      var r := [s[0]] + rest;
      LexTotal(x, s[0]);
      forall i, j | 0 <= i < j < |r| ensures LexLess(r[i], r[j]) {
        if i == 0 {
          assert r[j] == rest[j - 1];
          if r[j] != x {
            assert r[j] in s[1..];
            var k :| 0 <= k < |s[1..]| && s[1..][k] == r[j];
            assert s[k + 1] == r[j];
          }
        } else {
          assert r[i] == rest[i - 1] && r[j] == rest[j - 1];
        }
      }
      r
  }

  /** `.sort()` of a list without repeats. */
  function SortNames(s: seq<string>): (r: seq<string>)
    requires NoDuplicates(s)
    ensures |r| == |s|
    ensures forall y :: y in r <==> y in s
    ensures StrictlySorted(r)
  {
    if s == [] then []
    else
      var rest := s[1..];
      assert NoDuplicates(rest) by {
        forall i, j | 0 <= i < j < |rest| ensures rest[i] != rest[j] {
          assert rest[i] == s[i + 1] && rest[j] == s[j + 1];
        }
      }
      assert s[0] !in rest by {
        forall k | 0 <= k < |rest| ensures rest[k] != s[0] {
          assert rest[k] == s[k + 1];
        }
      }
      assert s == [s[0]] + rest;
      InsertName(s[0], SortNames(rest))
  }

  /** A strictly sorted list is determined by its elements. */
  lemma {:induction false} SortedUnique(a: seq<string>, b: seq<string>)
    requires StrictlySorted(a) && StrictlySorted(b)
    requires forall y :: y in a <==> y in b
    ensures a == b
    decreases |a|
  {
    if a != [] {
      assert a[0] in b;
    }
    if b != [] {
      assert b[0] in a;
    }
    if a != [] && b != [] {
      assert a[0] == b[0] by {
        if a[0] != b[0] {
          assert b[0] in a;
          var i :| 0 <= i < |a| && a[i] == b[0];
          assert a[0] in b;
          var j :| 0 <= j < |b| && b[j] == a[0];
          LexAsymmetric(a[0], b[0]);
          assert false;
        }
      }
      forall y ensures y in a[1..] <==> y in b[1..] {
        if y in a[1..] {
          var i :| 1 <= i < |a| && a[i] == y;
          LexIrreflexive(y);
          assert y in b && y != b[0];
        }
        if y in b[1..] {
          var j :| 1 <= j < |b| && b[j] == y;
          LexIrreflexive(y);
          assert y in a && y != a[0];
        }
      }
      assert StrictlySorted(a[1..]) by {
        forall i, j | 0 <= i < j < |a[1..]| ensures LexLess(a[1..][i], a[1..][j]) {
          assert a[1..][i] == a[i + 1] && a[1..][j] == a[j + 1];
        }
      }
      assert StrictlySorted(b[1..]) by {
        forall i, j | 0 <= i < j < |b[1..]| ensures LexLess(b[1..][i], b[1..][j]) {
          assert b[1..][i] == b[i + 1] && b[1..][j] == b[j + 1];
        }
      }
      SortedUnique(a[1..], b[1..]);
      assert a == [a[0]] + a[1..] && b == [b[0]] + b[1..];
    }
  }

  /** `Array.from(vaccinesSet).sort()`: every vaccine name some student carries, once each,
      in ascending order. */
  function VaccineTypes(students: seq<Student>): (r: seq<string>)
    ensures StrictlySorted(r)
    ensures NoDuplicates(r)
    ensures forall v :: v in r <==> SomeoneHas(students, v)
  {
    var r := SortNames(Distinct(AllVaccineNames(students)));
    StrictlySortedNoDuplicates(r);
    r
  }

  /** The vaccine types are the only sorted repeat-free listing of the names students carry. */
  lemma VaccineTypesIsTheSortedListing(students: seq<Student>, listing: seq<string>)
    requires StrictlySorted(listing)
    requires forall v :: v in listing <==> SomeoneHas(students, v)
    ensures listing == VaccineTypes(students)
  {
    SortedUnique(listing, VaccineTypes(students));
  }

  /** Loading twice the same student list gives the same types, whatever order the back end
      lists the students in. */
  lemma VaccineTypesIgnoreOrder(a: seq<Student>, b: seq<Student>)
    requires multiset(a) == multiset(b)
    ensures VaccineTypes(a) == VaccineTypes(b)
  {
    forall v ensures SomeoneHas(a, v) <==> SomeoneHas(b, v) {
      if SomeoneHas(a, v) {
        var i, k :| 0 <= i < |a| && 0 <= k < |a[i].vaccines| && a[i].vaccines[k].name == v;
        assert a[i] in multiset(b);
        var j :| 0 <= j < |b| && b[j] == a[i];
        assert b[j].vaccines[k].name == v;
      }
      if SomeoneHas(b, v) {
        var j, k :| 0 <= j < |b| && 0 <= k < |b[j].vaccines| && b[j].vaccines[k].name == v;
        assert b[j] in multiset(a);
        var i :| 0 <= i < |a| && a[i] == b[j];
        assert a[i].vaccines[k].name == v;
      }
    }
    SortedUnique(VaccineTypes(a), VaccineTypes(b));
  }

  // ---------------------------------------------------------------------------------------
  // Loading

  /** The outcome of `fetch('/students')` and `res.json()`: the list, or the message of the
      error thrown on the way (`'Failed to fetch students'` for a response that is not ok). */
  datatype Fetched = Loaded(data: seq<Student>) | FetchFailed(message: string)

  datatype StudentsView = StudentsView(students: seq<Student>, vaccineTypes: seq<string>, error: Option<string>)

  /** `fetchStudents` and `refreshStudents`. */
  function LoadStudents(response: Fetched): (v: StudentsView)
    ensures response.FetchFailed? <==> v.error.Some?
    ensures response.FetchFailed? ==> v == StudentsView([], [], Some(response.message))
    ensures response.Loaded? ==> v.students == response.data
    ensures response.Loaded? ==> forall t :: t in v.vaccineTypes <==> SomeoneHas(response.data, t)
    ensures response.Loaded? ==> StrictlySorted(v.vaccineTypes)
  {
    match response
    case Loaded(data) => StudentsView(data, VaccineTypes(data), None)
    case FetchFailed(message) => StudentsView([], [], Some(message))
  }

  // ---------------------------------------------------------------------------------------
  // Search

  /** `student.vaccines.map(v => v.name).join(' ')`. */
  function VaccinesText(s: Student): string {
    Text.Join(VaccineNames(s.vaccines), " ")
  }

  /** The search test: the lower-cased query is a substring of the lower-cased name, class,
      id or vaccine names. */
  predicate Matches(s: Student, query: string) {
    var q := Text.Lower(query);
    || Text.Contains(Text.Lower(s.name), q)
    || Text.Contains(Text.Lower(s.className), q)
    || Text.Contains(Text.Lower(s.id), q)
    || Text.Contains(Text.Lower(VaccinesText(s)), q)
  }

  function MatchesQuery(query: string): Student -> bool {
    (s: Student) => Matches(s, query)
  }

  /** `filteredStudents`: the students passing the search test, in list order; an empty
      search box shows everyone. */
  function FilteredStudents(students: seq<Student>, query: string): (r: seq<Student>)
    ensures forall s :: s in r <==> s in students && Matches(s, query)
    ensures forall s :: multiset(r)[s] == if Matches(s, query) then multiset(students)[s] else 0
    ensures IsSubsequence(r, students)
    ensures query == "" ==> r == students
  {
    EmptyQueryKeepsAll(students, query);
    FilterCountsAndOrder(students, MatchesQuery(query));
    Filter(students, MatchesQuery(query))
  }

  lemma EmptyQueryKeepsAll(students: seq<Student>, query: string)
    ensures query == "" ==> Filter(students, MatchesQuery(query)) == students
  {
    if query == "" {
      forall i | 0 <= i < |students| ensures MatchesQuery(query)(students[i]) {
        Text.EmptyContained(Text.Lower(students[i].name));
      }
      FilterKeepsAll(students, MatchesQuery(query));
    }
  }

  /** Typing part of a student's name, in any letter case, finds the student: `part` occurs
      in the name as written, and the query differs from it only in the case of its ASCII
      letters. */
  lemma FoundByName(students: seq<Student>, i: nat, part: string, query: string)
    requires i < |students| && Text.Contains(students[i].name, part)
    requires Text.Lower(query) == Text.Lower(part)
    ensures students[i] in FilteredStudents(students, query)
  {
    Text.LowerKeepsContains(students[i].name, part);
  }

  /** Typing part of one of a student's vaccine names, in any letter case, finds the student:
      `part` occurs in the vaccine name as written, and the query differs from it only in
      the case of its ASCII letters. */
  lemma FoundByVaccineName(students: seq<Student>, i: nat, k: nat, part: string, query: string)
    requires i < |students| && k < |students[i].vaccines|
    requires Text.Contains(students[i].vaccines[k].name, part)
    requires Text.Lower(query) == Text.Lower(part)
    ensures students[i] in FilteredStudents(students, query)
  {
    var s := students[i];
    var names := VaccineNames(s.vaccines);
    Text.JoinHasPart(names, " ", k);
    var a, c :| VaccinesText(s) == a + names[k] + c;
    Text.LowerKeepsContains(names[k], part);
    Text.ContainedInMiddle(Text.Lower(a), Text.Lower(names[k]), Text.Lower(c), Text.Lower(part));
    Text.LowerAppend(a, names[k]);
    Text.LowerAppend(a + names[k], c);
  }

  /** Typing more characters only narrows the list: a student the longer query finds, the
      shorter query it extends finds too. */
  lemma NarrowingQuery(students: seq<Student>, shorter: string, longer: string)
    requires Text.Contains(longer, shorter)
    ensures forall s :: s in FilteredStudents(students, longer) ==> s in FilteredStudents(students, shorter)
  {
    Text.LowerKeepsContains(longer, shorter);
    var ql, qs := Text.Lower(longer), Text.Lower(shorter);
    forall s | s in FilteredStudents(students, longer) ensures Matches(s, shorter) {
      if Text.Contains(Text.Lower(s.name), ql) {
        Text.ContainsTrans(Text.Lower(s.name), ql, qs);
      } else if Text.Contains(Text.Lower(s.className), ql) {
        Text.ContainsTrans(Text.Lower(s.className), ql, qs);
      } else if Text.Contains(Text.Lower(s.id), ql) {
        Text.ContainsTrans(Text.Lower(s.id), ql, qs);
      } else {
        Text.ContainsTrans(Text.Lower(VaccinesText(s)), ql, qs);
      }
    }
  }

  /** `ANAN` finds `Ananya`. */
  lemma UpperCaseQueryFindsName()
    ensures var s := Student("STU2001", "Ananya", "10th", []);
      FilteredStudents([s], "ANAN") == [s]
  {
    var s := Student("STU2001", "Ananya", "10th", []);
    assert Text.Lower("ANAN") == "anan" == Text.Lower("Anan");
    assert Text.StartsWith("Ananya", "Anan");
    FoundByName([s], 0, "Anan", "ANAN");
    var r := FilteredStudents([s], "ANAN");
    assert multiset(r) == multiset([s]);
    assert r[0] in multiset(r);
  }
}
