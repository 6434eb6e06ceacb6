# School vaccination admin: the front end's data transformations

This project models the pure data handling inside four pages of a React admin front end
for school vaccination drives, and proves properties of it in Dafny.

- **Report** (`report.dfy`). Students are joined against the drives into flat report
  rows: one row per vaccination, or a single "No" row. A drive id finds the last drive
  carrying it. The rows are filtered by vaccine name, and the filter's option list is
  built from the filtered rows. The page of rows the table shows is cut out, and the
  rows become five-column records for the spreadsheet export.
- **Student management**.
  - `csv_import.dfy` decodes the CSV bulk import. Each header-keyed line becomes a
    student. Every non-empty `vaccineN` column becomes a vaccination paired with
    column `driveIdN`.
  - `student_search.dfy` covers the sorted, repeat-free vaccine-type list, loading the
    students, and the case-insensitive search over name, class, id and vaccine names.
  - `student_form.dfy` covers the modal's per-vaccine form: building it blank or from a
    student, the tick box and drive selector, and the submit payload.
- **Vaccination drives** (`drive_list.dfy`, `stable_sort.dfy`). The drive list is sorted
  by date in either direction with a stable sort, and the Date column toggles the
  direction. The drive form is filled in for adding or editing; this includes turning
  `applicable_classes` (an array or a string) into one text field.
- **Dashboard** (`dashboard.dfy`). Drives are kept when their date falls in the closed
  30-day window. The pie-chart data is built, and a failed load resets the page.

Shared modules:
- `wrappers.dfy`: `Option`.
- `seqs.dfy`: filtering, first-appearance deduplication, and JavaScript-object lookup
  over key/value entries.
- `text.dfy`: ASCII lower-casing, substring search, `join`, and decimal digits.
- `records.dfy`: the student and drive records.

A JavaScript object is modelled as its entries in insertion order. Reading a key gives the
first entry with that key. Writing a key replaces that entry in place, or appends a new one.

Dates are kept as the text the back end sends. Wherever the code compares dates with
`new Date(text)`, the model takes a parameter `day: string -> int`. That parameter gives
the date's millisecond instant. The dashboard's "now" is a parameter `now`.

A property missing from the JSON is handled as each page handles it:
- The drive form reads every drive property through `x || ''`. The model gives a missing
  drive property the value the form falls back to: `''`, `0`, or no classes.
- The CSV import copies `id`, `name` and `class` as they are. A line without one of these
  columns leaves it undefined, and `JSON.stringify` then leaves it out of the post. The
  model's imported student holds an `Option` for each, with `None` for undefined.
- The report copies a student's name and class as they are, and treats a missing
  `vaccines` like an empty list: the student gets the single `No` row. It never reads `id`.
- The student page reads a student's id, name, class and vaccines with no fallback.
- The model takes every student record to carry all four.

Behaviour of the code that is easy to misread:
- The report's option list is not sorted. It lists the vaccine names in the order they
  first appear.
- The report's options are computed from the filtered rows, not from all rows. So
  choosing a vaccine narrows the options to "All" and that vaccine (`Report.FilteredOptions`).
- The drive form keeps `applicable_classes` as one comma-joined string. It does not trim
  or split it.
- The dashboard statistics come from the back end, and there is no PDF export. Neither
  is modelled.

## Model

| member | source | states |
|---|---|---|
| Report.DriveIndexKeys | src/report.js:35-38 | the map holds exactly the ids the drives carry |
| Report.DriveIndexLast | src/report.js:35-38 | each id maps to the last drive listed with it, a later drive replacing an earlier one |
| Report.DriveDate | src/report.js:43-48 | the date cell is never blank, whatever the drive id |
| Report.RowDateIsLastDriveDate | src/report.js:35-48 | a row's date is the date of the last drive with the vaccination's drive id, or `-` when that date is empty |
| Report.RowDateOfUnknownDrive | src/report.js:43-48 | a drive id no drive carries gives the date `-` |
| Report.StudentRows | src/report.js:41-60 | a student with vaccinations gives one `Yes` row per vaccination, in order, with its name, class, vaccine and drive date; a student without gives the single row `(name, class, No, -, -)` |
| Report.RowsOf | src/report.js:39-61 | the number of rows is the sum over students of max(1, number of vaccinations) |
| Report.ReportRows | src/report.js:35-61 | the report rows of the students and drives number Σ max(1, n) |
| Report.RowsOfAppend | src/report.js:40-61 | the rows of two student lists back to back are the rows of each, back to back |
| Report.RowsInStudentOrder | src/report.js:40-61 | row j of student i sits at position (rows of the students before i) + j: student order first, then vaccination order |
| Report.HasVaccine | src/report.js:63 | the filter test `row.vaccine === filter` |
| Report.FilterRows | src/report.js:62-64 | `All` keeps every row; any other filter keeps exactly the rows whose vaccine equals it, with their multiplicities, as an order-preserving subsequence |
| Report.FilterRowsIdempotent | src/report.js:62-64 | filtering already filtered rows again changes nothing |
| Report.OfferedNames | src/report.js:66 | the rows' vaccine names, in row order, without the `-` of rows with no vaccine |
| Seqs.Distinct | src/report.js:66 | repeat-free, holding exactly the input's elements, in order of first appearance |
| Report.VaccineOptions | src/report.js:66-67 | `All` first, then each vaccine name other than `-` that occurs in the rows, once, in order of first appearance |
| Report.LoadReport | src/report.js:62-67 | the page's data is the filtered rows, and its options are built from those filtered rows |
| Report.FilteredOptions | src/report.js:62-67 | with a vaccine filter that some row matches, the options become exactly `[All, filter]` |
| Report.OptionsOfOneVaccine | src/report.js:66-67 | rows that all carry one vaccine offer exactly `All` and that vaccine |
| Report.UnmatchedFilter | src/report.js:62-67 | a filter no row matches leaves no rows and the options `[All]` |
| Report.PageSlice | src/report.js:128 | the page holds at most rowsPerPage rows, is empty past the end, and is the run of rows starting at page × rowsPerPage |
| Report.FirstPageIdempotent | src/report.js:128 | the first page of the first page is the first page |
| Report.PagesCoverRows | src/report.js:128 | pages 0..n-1 laid end to end are exactly the first min(n × rowsPerPage, total) rows: nothing lost or repeated |
| Report.ChangePage | src/report.js:73 | moving to a page keeps the page size |
| Report.ChangeRowsPerPage | src/report.js:75-78 | a page-size change sets the size and returns to page 0 |
| Report.PageSizeChangeShowsFirstRows | src/report.js:75-78 | after a page-size change the table shows the first rowsPerPage rows |
| Report.VisibleRows | src/report.js:128 | the table shows at most rowsPerPage rows, and no more than there are; row k shown is row page × rowsPerPage + k of the data |
| Report.InitialRows | src/report.js:23-24 | the page opens on page 0 with five rows per page, showing the first five rows |
| Report.RecordOfRow | src/report.js:81-87 | a record has exactly the five headers Student Name, Class, Vaccinated Status, Date of Vaccination, Vaccine Name, in that order, and reads back as the row |
| Report.ExportTable | src/report.js:80-87 | one record per row of the whole filtered data, in order, each with the five headers and reading back as its row |
| Report.ExportRoundTrip | src/report.js:81-87 | reading every exported record back gives the exported rows |
| Report.ExportCoversEveryPage | src/report.js:80-87 | the export is not limited to the page shown: it holds a record for every row of the data, among them every row on screen |
| CsvImport.Rest | src/student_management.js:205 | `...rest`: the line's columns other than `id`, `name` and `class`, in order |
| CsvImport.IsVaccineColumn | src/student_management.js:208 | the column's lower-cased header starts with `vaccine` and its value is non-empty |
| CsvImport.DriveKey | src/student_management.js:209-210 | the drive column of a vaccine header is `driveId` followed by the header's digits |
| CsvImport.DriveIdFor | src/student_management.js:211 | the value of the drive column, or `''` when the line has no such column |
| CsvImport.VaccinesOf | src/student_management.js:207-213 | the walk over the non-identity columns in order, pushing one vaccination per vaccine column |
| CsvImport.VaccinesOfIsFilterMap | src/student_management.js:206-212 | the pushed vaccinations are, in column order, one per vaccine column: named by its value and paired with its drive column |
| CsvImport.DecodeRow | src/student_management.js:204-214 | id, name and class are the values of their columns, and undefined exactly when the line has no such column; the vaccinations correspond one to one, in order, to the non-identity columns whose lower-cased header starts with `vaccine` and whose value is non-empty |
| CsvImport.LineWithoutClass | src/student_management.js:205 | a line without a `class` column gives a student whose class is undefined, not `''` |
| CsvImport.VaccineColumnsOfRow | src/student_management.js:205-211 | each column that yields a vaccination is a column of the line, never id, name or class, has a vaccine header and a non-empty value, and gives the vaccination its name |
| CsvImport.DecodeRows | src/student_management.js:204-215 | one student per line, in line order, none dropped or merged |
| CsvImport.NoVaccineColumnsNoVaccines | src/student_management.js:207-208 | a line without a non-empty vaccine column gives a student without vaccinations |
| CsvImport.VaccineColumns | src/student_management.js:6-8 | the sample layout writes two columns per vaccination |
| CsvImport.VaccineColumnsAt | src/student_management.js:6-8 | the sample layout writes vaccination j as the columns `vaccineN`, `driveIdN` at positions 2j and 2j+1, with N = n + j |
| CsvImport.VaccineKeyFacts | src/student_management.js:208-210 | `vaccineN` is a vaccine header, not an identity column, and its drive key is `driveIdN` |
| CsvImport.DriveKeyFacts | src/student_management.js:205-208 | `driveIdN` is neither a vaccine header nor an identity column |
| CsvImport.LookupDriveColumn | src/student_management.js:209-211 | among the sample columns, `driveIdM` holds the drive of the M-th vaccination |
| CsvImport.DecodeFirstPair | src/student_management.js:207-211 | the first pair of sample columns yields the first vaccination and nothing more |
| CsvImport.DecodeColumns | src/student_management.js:207-212 | sample columns decode back to their vaccinations when the names are non-empty and each drive column is found |
| CsvImport.VaccineColumnsInRest | src/student_management.js:205 | no sample vaccine or drive column is an identity column |
| CsvImport.RestOfSampleRow | src/student_management.js:205 | the rest columns of a sample line are its vaccine and drive columns |
| CsvImport.SampleRowIdentity | src/student_management.js:205 | a sample line's id, name and class columns hold the student's |
| CsvImport.SampleRowDriveLookup | src/student_management.js:209-211 | `driveIdM` of a sample line holds the M-th vaccination's drive |
| CsvImport.SampleRowDriveLookups | src/student_management.js:209-211 | every drive column of a sample line is found |
| CsvImport.DecodeSampleRow | src/student_management.js:204-214 | decoding a student written in the sample layout gives the student back with all four properties present, when every vaccine name is non-empty |
| CsvImport.SampleLineTwoVaccines | src/student_management.js:7-8 | the line `STU2001,Ananya,10th,Covishield,DRV001,Covaxin,DRV002` decodes to those two vaccinations |
| CsvImport.SampleLineNoVaccines | src/student_management.js:7-12 | the line `STU2005,Simran,12th,,,` decodes to a student without vaccinations |
| StudentSearch.AllVaccineNames | src/student_management.js:54-57 | the names added to the set are exactly the vaccine names some student carries |
| StudentSearch.LexLess | src/student_management.js:58 | the order of the default `sort()`: character by character, a proper prefix first |
| StudentSearch.LexIrreflexive | src/student_management.js:58 | no string sorts before itself |
| StudentSearch.LexTransitive | src/student_management.js:58 | the sort order is transitive |
| StudentSearch.LexTotal | src/student_management.js:58 | of two different strings one sorts first |
| StudentSearch.LexAsymmetric | src/student_management.js:58 | two strings never each sort before the other |
| StudentSearch.InsertName | src/student_management.js:58 | inserting a new name into a strictly ascending list gives a strictly ascending list with that name added |
| StudentSearch.SortNames | src/student_management.js:58 | sorting a repeat-free list gives a strictly ascending list with the same elements |
| StudentSearch.SortedUnique | src/student_management.js:58 | two strictly ascending lists with the same elements are equal |
| StudentSearch.VaccineTypes | src/student_management.js:54-58 | strictly ascending, repeat-free, and holding exactly the vaccine names some student carries |
| StudentSearch.VaccineTypesIsTheSortedListing | src/student_management.js:54-58 | any strictly ascending listing of exactly those names is the vaccine-type list |
| StudentSearch.VaccineTypesIgnoreOrder | src/student_management.js:80-84 | reloading the same students in another order gives the same vaccine types |
| StudentSearch.LoadStudents | src/student_management.js:47-66 | a failed load shows no students, no types and the error; a successful one shows the students and their sorted vaccine types |
| StudentSearch.FilteredStudents | src/student_management.js:234-243 | keeps exactly the students whose lower-cased name, class, id or space-joined vaccine names contain the lower-cased query, with their multiplicities, as an order-preserving subsequence; the empty query keeps everyone |
| StudentSearch.EmptyQueryKeepsAll | src/student_management.js:234-243 | the empty query keeps every student |
| StudentSearch.VaccinesText | src/student_management.js:236 | a student's vaccine names joined with single spaces |
| StudentSearch.Matches | src/student_management.js:235-242 | the search test: the lower-cased query occurs in the lower-cased name, class, id or space-joined vaccine names |
| StudentSearch.FoundByName | src/student_management.js:238 | a query that differs only in the case of its ASCII letters from some part of a student's name finds the student |
| StudentSearch.FoundByVaccineName | src/student_management.js:236-241 | a query that differs only in the case of its ASCII letters from some part of one of a student's vaccine names finds the student |
| StudentSearch.UpperCaseQueryFindsName | src/student_management.js:235-238 | the query `ANAN` lists the student `Ananya`, and only that student |
| StudentSearch.NarrowingQuery | src/student_management.js:234-243 | a student found by a query is found by every substring of it: typing more only narrows the list |
| StudentForm.Put | src/student_management.js:145-150 | writing one property of the form's vaccine object: the entry under that key is replaced, or a new one added last |
| StudentForm.PutLookupReplaced | src/student_management.js:145-150 | overwriting a present key: it reads the new value, every other key as before |
| StudentForm.PutLookupAppended | src/student_management.js:145-150 | adding a new key last: it reads the new value, every other key as before |
| StudentForm.PutKeys | src/student_management.js:145-150 | writing a property keeps the property names and their order, adding the key last when it is new |
| StudentForm.PutLookup | src/student_management.js:145-150 | after writing a key, reading it gives the new value and every other key reads as before |
| StudentForm.PutLookups | src/student_management.js:159-165 | the same, for every other key at once |
| StudentForm.BuildEntries | src/student_management.js:97-100 | the form has an entry for exactly the vaccine types; for a repeat-free type list, entry i is type i with its built value |
| StudentForm.BuildEntriesKeys | src/student_management.js:114-120 | the built object lists each type once, in order of first appearance, a repeated type overwriting its entry in place |
| StudentForm.BuildEntriesLookup | src/student_management.js:114-120 | reading a built form gives each type's value, also when the type list repeats a name, and nothing for other names |
| StudentForm.AddForm | src/student_management.js:95-108 | blank id, name and class, and an unticked entry without drive for each vaccine type; for a repeat-free type list the entries are in type order |
| StudentForm.BlankEntries | src/student_management.js:97-100 | every entry of the add form is unticked and without drive |
| StudentForm.FindVaccination | src/student_management.js:115 | the first vaccination with the name, or none when no vaccination has it |
| StudentForm.FindFirst | src/student_management.js:115 | `find` by name returns the vaccination at k when no earlier vaccination has its name |
| StudentForm.EditEntryFor | src/student_management.js:115-119 | ticked exactly when the student has a vaccination of that name; then carrying the drive id of the first such vaccination, otherwise no drive |
| StudentForm.EditEntry | src/student_management.js:114-120 | the per-type entry the edit form is built from |
| StudentForm.EditForm | src/student_management.js:110-128 | identity copied from the student; an entry per type, ticked exactly when the student has a vaccination of that name; a ticked entry holds the drive id of the student's first vaccination of that name, an unticked one no drive; for a repeat-free type list the entries are in type order |
| StudentForm.ToggleVaccine | src/student_management.js:140-154 | flips the tick of one vaccine, setting the first drive's id (or `''` without drives) when ticking and `''` when unticking; other entries and the key order are unchanged; a vaccine without an entry is the error case |
| StudentForm.ToggleTwiceRestoresTick | src/student_management.js:140-154 | toggling twice restores the tick and leaves every other entry as it was |
| StudentForm.ChangeDrive | src/student_management.js:156-167 | the entry takes the drive and keeps its tick (unticked when it had no entry); other entries are unchanged |
| StudentForm.Ticked | src/student_management.js:175-177 | the payload lists the ticked entries in entry order, one vaccination per ticked entry, each as its vaccine name and drive id |
| StudentForm.TickedInEntryOrder | src/student_management.js:175-177 | an empty form ticks nothing; otherwise the first entry's vaccination, when ticked, comes before those of the rest |
| StudentForm.Payload | src/student_management.js:171-178 | id, name and class from the form, and the ticked vaccinations |
| StudentForm.SubmitRequest | src/student_management.js:181-195 | adding posts a one-student list; editing puts the student under its id |
| StudentForm.AddFormSubmitsNoVaccines | src/student_management.js:95-108 | a fresh add form submits a student without vaccinations |
| StudentForm.EditedPayloadFromStudent | src/student_management.js:113-120 | every payload vaccination of an opened student is one of the student's vaccinations |
| StudentForm.EditedPayloadHasStudent | src/student_management.js:113-120 | a vaccination of an opened student whose name is a vaccine type, and is the first with that name, is in the payload |
| StudentForm.EditDropsRepeatedVaccine | src/student_management.js:113-120 | a student with two `Covaxin` vaccinations, opened and submitted unchanged, sends back only the first |
| StudentForm.EditedPayloadHasAll | src/student_management.js:113-120 | with distinct vaccination names all of them vaccine types, every vaccination of an opened student is in the payload |
| StudentForm.EditThenSubmitKeepsVaccinations | src/student_management.js:169-178 | opening a student and submitting unchanged sends back the student's identity and vaccinations, when their names are distinct and all vaccine types |
| Seqs.Filter | src/report.js:63 | `Array.prototype.filter`: no longer than its input, holding exactly the input's elements that pass the test |
| Seqs.FilterCountsAndOrder | src/report.js:63 | the filtered list keeps each passing element with its multiplicity, in input order |
| Seqs.Keys | src/student_management.js:175 | `Object.entries` property names: one per entry, in entry order |
| Seqs.Lookup | src/student_management.js:142 | `obj[key]`: undefined exactly when no entry has the key, otherwise the value of the first entry with it |
| Text.Lower | src/student_management.js:235 | `toLowerCase`: the same length, each character lower-cased |
| Text.StartsWith | src/student_management.js:208 | `startsWith`: the text begins with the prefix |
| Text.Contains | src/student_management.js:238-241 | `includes`: some suffix of the text starts with the query |
| Text.ContainsAt | src/student_management.js:238-241 | `includes` holds exactly when the query occurs at some position of the text |
| Text.LowerKeepsContains | src/student_management.js:235-241 | lower-casing both sides keeps a substring a substring |
| Text.Join | src/student_management.js:236 | the vaccine names joined with one space between neighbours |
| Text.JoinHasPart | src/student_management.js:236 | every vaccine name occurs in the joined text |
| Text.Digits | src/student_management.js:209 | the digits of a header, each with its multiplicity and in order, and nothing else |
| Text.DigitsOfLabelAndNumber | src/student_management.js:209 | a letters-then-digits header such as `vaccine12` yields exactly its digits |
| DriveList.ToggleDateSort | src/vaccine_drive.js:114-116 | the toggle always changes the direction |
| DriveList.ToggleTwiceRestores | src/vaccine_drive.js:114-116 | toggling twice restores the direction |
| DriveList.SortedDrives | src/vaccine_drive.js:118-124 | a permutation of the drives, dates non-decreasing in ascending order and non-increasing in descending order |
| DriveList.SortedDrivesKeepTies | src/vaccine_drive.js:118-124 | in either direction, drives with the same date keep their relative order |
| DriveList.DescendingKeepsTies | src/vaccine_drive.js:121-123 | the descending sort keeps drives of the same date in list order |
| DriveList.NegatedDateGroups | src/vaccine_drive.js:121-123 | grouping drives by the negated date picks the drives of that date, in order |
| DriveList.AddForm | src/vaccine_drive.js:47-59 | all six fields blank |
| DriveList.ClassesText | src/vaccine_drive.js:69-71 | an array of classes is joined with `,`, a string is kept, a missing value is blank |
| DriveList.EditForm | src/vaccine_drive.js:61-75 | each field copied from the drive; 0 doses shows as blank; classes as `ClassesText` |
| DriveList.ClassesTextRoundTrip | src/vaccine_drive.js:69-71 | splitting the joined text on `,` gives back the class list, when the list is non-empty and no class label contains a comma |
| StableSort.Insert | src/vaccine_drive.js:118-124 | inserting into a sorted list keeps it sorted and adds exactly the element |
| StableSort.Sort | src/vaccine_drive.js:118-124 | the result is sorted by the key and a permutation of the input |
| StableSort.InsertKeepsKeyOrder | src/vaccine_drive.js:118-124 | insertion keeps each key's elements in order, the inserted one first |
| StableSort.SortIsStable | src/vaccine_drive.js:118-124 | elements with equal keys come out in their input order |
| StableSort.WithNegatedKey | src/vaccine_drive.js:121-123 | grouping by the negated key (descending order) is grouping by the key |
| Dashboard.InWindow | src/dashboard.js:29 | the instant lies in the closed window from now to now + 30 days |
| Dashboard.UpcomingDrives | src/dashboard.js:24-30 | keeps exactly the drives dated in the closed window [now, now + 30 days], with their multiplicities, as an order-preserving subsequence |
| Dashboard.UpcomingIdempotent | src/dashboard.js:27-30 | filtering the upcoming drives again at the same moment changes nothing |
| Dashboard.WindowEdges | src/dashboard.js:24-30 | a drive exactly 30 days ahead is upcoming; one 31 days ahead is not |
| Dashboard.PieData | src/dashboard.js:47-52 | with statistics, the slices Vaccinated then Unvaccinated carrying their counts; without, no slices |
| Dashboard.LoadDashboard | src/dashboard.js:14-39 | an error exactly when either response fails, and then no statistics, no drives and the fixed message; otherwise the statistics and the upcoming drives |
| Dashboard.FailedLoadShowsNothing | src/dashboard.js:33-36 | after a failed load there is no slice and no drive |
| Dashboard.LoadedDashboardContents | src/dashboard.js:22-31 | after a successful load the pie has the two fetched counts and the list is the window's drives in fetched order |

## Left out

- Network calls (`fetch`, `Promise.all`, `res.json()`), loading flags, `alert`, and closing
  the modals: these are I/O and UI plumbing. A fetch outcome is a parameter: `Option` for
  the dashboard, `Fetched` for the student list. The report is modelled only once both of
  its fetches have answered; its `.catch` only clears the loading flag.
- React state, hooks, JSX tables, MUI, recharts and the CSV file reader: rendering. A CSV
  line arrives already split into header/value pairs. A line shorter than the header just
  lacks the trailing columns.
- The XLSX workbook and file writing (src/report.js:88-95): a foreign library. Only the
  record of each row is modelled.
- JavaScript `Date`: parsing, time of day, time zones, daylight saving and invalid dates.
  Date comparisons go through the `day` parameter, and the 30-day horizon is taken as
  30 × 86 400 000 ms.
- `toLowerCase` is modelled on ASCII letters only. String order compares characters; the
  code compares UTF-16 code units, which agree below U+10000.
- `parseInt` of the rows-per-page choice: the page size is a `nat`.
- `handleInputChange` and `handleChange`, which copy a text field into the form by name.
- The drive page's `refreshDrives` and `handleSubmit`: I/O only. Editing a drive sends
  nothing.
- StudentForm.ToggleVaccine: a vaccine without an entry makes the source throw inside the
  state update. The model returns `None` for that case; it does not model React's error
  handling.
- CsvImport.DecodeSampleRow: the round trip needs non-empty vaccine names, because the
  import skips an empty vaccine column.
- StudentForm.EditThenSubmitKeepsVaccinations: it needs distinct vaccination names and
  states set equality, not order. Opening a student keeps only the first vaccination of
  each name (`find`, src/student_management.js:115), so submitting unchanged drops the
  others, as StudentForm.EditDropsRepeatedVaccine shows. The payload follows the
  vaccine-type order, not the student's.
- Student records missing `id`, `name`, `class` or `vaccines`: the student page then throws
  while loading (src/student_management.js:56, caught at 60-63) or while filtering
  (src/student_management.js:236-240), and the report copies an undefined name or class
  into its row. The model's students carry all four properties, so these failures are not
  modelled; a missing `vaccines` in the report behaves as the empty list the model allows.
- A CSV line is a list of header/value pairs, so the model admits repeated headers, which a
  parsed line object cannot hold. Reading a header takes its first column.
- JavaScript objects whose keys look like integers list those keys first. No header or
  vaccine-type name the model relies on has that form.
- src/login.js, src/App.js and src/sidebar.js: credentials, routing and navigation.
- Dashboard statistics computation and PDF export: they do not exist in this code.
