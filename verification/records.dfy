/** The records the back end serves and the front end reads: students with their vaccination
    entries, and vaccination drives. A drive property the JSON leaves out is modelled by the
    value the drive form falls back to for it (`''`, `0`, no classes). A student is taken to
    carry all four of its properties. */
module Records {

  /** One entry of `student.vaccines`: `{ name, driveId }`. */
  datatype Vaccination = Vaccination(name: string, driveId: string)

  /** A student; `className` is the JSON property `class`. */
  datatype Student = Student(id: string, name: string, className: string, vaccines: seq<Vaccination>)

  /** `drive.applicable_classes`, which the back end sends either as an array of class
      labels or as one string, or leaves out. */
  datatype ClassesField = ClassList(items: seq<string>) | ClassText(text: string) | NoClasses

  /** A drive. `date` is the date text as stored (`YYYY-MM-DD`); comparing dates goes
      through a parser supplied by the caller. */
  datatype Drive = Drive(
    id: string,
    name: string,
    date: string,
    dosesAvailable: int,
    applicableClasses: ClassesField,
    vaccineName: string)

  /** The names of a student's vaccination entries, in order. */
  function VaccineNames(vs: seq<Vaccination>): (r: seq<string>)
    ensures |r| == |vs|
    ensures forall i | 0 <= i < |vs| :: r[i] == vs[i].name
  {
    seq(|vs|, i requires 0 <= i < |vs| => vs[i].name)
  }
}
