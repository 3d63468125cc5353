/**
  A university of the validation network and its student table.

  The table (`students_df`) is reassigned as a whole by the two add
  operations; it is kept here as a sequence field that those methods
  replace.  Loading the table from CSV is replaced by the constructor's
  `initial` argument, and the date of enrolment is passed in as `today`.
 */
module Universities {
  import opened Records

  class University {
    const name: string
    var students: seq<Student>

    /** Every row names this university (true of every row the add methods append). */
    ghost predicate RowsNamed()
      reads this
    {
      forall s :: s in students ==> s.university == name
    }

    constructor (name: string, initial: seq<Student>)
      ensures this.name == name && students == initial
    {
      this.name := name;
      students := initial;
    }

    /**
      `add_student`: appends the converted row and answers true, or answers
      false and leaves the table as it was when a conversion raises.
     */
    method AddStudent(studentId: string, studentName: string, degree: string,
                      cgpa: Raw, graduationYear: Raw, today: string) returns (added: bool)
      modifies this
      ensures added <==> AsCgpa(cgpa).Some? && AsYear(graduationYear).Some?
      ensures added ==> students == old(students) + [NewRecord(name, studentId, studentName, degree, cgpa, graduationYear, today).value]
      ensures !added ==> students == old(students)
      ensures old(RowsNamed()) ==> RowsNamed()
    {
      var row := NewRecord(name, studentId, studentName, degree, cgpa, graduationYear, today);
      if row.None? {
        return false;
      }
      students := students + [row.value];
      return true;
    }

    /**
      `add_students_bulk`: appends every converted row, in list order, or
      none of them and answers false.
     */
    method AddStudentsBulk(entries: seq<BulkEntry>, today: string) returns (added: bool)
      modifies this
      ensures added <==> entries != [] && forall i :: 0 <= i < |entries| ==> EntryRecord(name, entries[i], today).Some?
      ensures added ==> students == old(students) + BulkRecords(name, entries, today).value
      ensures !added ==> students == old(students)
      ensures old(RowsNamed()) ==> RowsNamed()
    {
      var rows := BulkRecords(name, entries, today);
      if rows.None? {
        return false;
      }
      students := students + rows.value;
      return true;
    }
  }
}
