/** The three record-to-document adapters of main.py: `_load_grade_history_csv`,
    `_load_coursebook_csv` and `_load_prof_reviews_json`. Each one turns parsed
    records into one sentence-plus-provenance Document per record. Opening and
    parsing the file is left to the caller: the adapters receive the records. */
module Adapters {
  import opened Wrappers
  import opened Seqs
  import opened Text
  import opened Documents

  // ---------------------------------------------------------------------------
  // The row loop shared by both CSV adapters:
  //   for i, row in enumerate(reader): docs.append(<document for row i>)
  // A row whose document raises aborts the whole loop with that exception.
  // ---------------------------------------------------------------------------

  /** The documents for `rows` in row order, or the error of the first row whose
      document cannot be built. */
  function Enumerate<R>(rows: seq<R>, build: (nat, R) -> Result<Document, LoadError>): Result<seq<Document>, LoadError>
  {
    if |rows| == 0 then Ok([])
    else match Enumerate(rows[..|rows| - 1], build)
      case Err(e) => Err(e)
      case Ok(docs) =>
        match build(|rows| - 1, rows[|rows| - 1])
        case Err(e) => Err(e)
        case Ok(d) => Ok(docs + [d])
  }

  /** Success means every row built: then there is one document per row, document
      `i` being row `i`'s (with `i` its zero-based index). Failure carries the error
      of the first row that failed. */
  lemma {:induction false} EnumerateSpec<R>(rows: seq<R>, build: (nat, R) -> Result<Document, LoadError>)
    ensures Enumerate(rows, build).Ok? <==> forall i :: 0 <= i < |rows| ==> build(i, rows[i]).Ok?
    ensures Enumerate(rows, build).Ok? ==>
      |Enumerate(rows, build).value| == |rows| &&
      forall i :: 0 <= i < |rows| ==> Enumerate(rows, build).value[i] == build(i, rows[i]).value
    ensures Enumerate(rows, build).Err? ==>
      exists i :: 0 <= i < |rows| && build(i, rows[i]) == Err(Enumerate(rows, build).error) &&
        forall j :: 0 <= j < i ==> build(j, rows[j]).Ok?
  {
    if |rows| > 0 {
      var n := |rows| - 1;
      var prefix := rows[..n];
      EnumerateSpec(prefix, build);
      assert forall i :: 0 <= i < n ==> prefix[i] == rows[i];
    }
  }

  /** Once a prefix fails, the whole enumeration fails with the same error. */
  lemma {:induction false} EnumerateErrPrefix<R>(rows: seq<R>, k: nat, build: (nat, R) -> Result<Document, LoadError>)
    requires k <= |rows| && Enumerate(rows[..k], build).Err?
    ensures Enumerate(rows, build) == Enumerate(rows[..k], build)
    decreases |rows| - k
  {
    if k < |rows| {
      assert rows[..k + 1][..k] == rows[..k];
      EnumerateErrPrefix(rows, k + 1, build);
    } else {
      assert rows[..k] == rows;
    }
  }

  /** The loop itself: builds the documents row by row, appending to `docs`. */
  method BuildDocuments<R>(rows: seq<R>, build: (nat, R) -> Result<Document, LoadError>)
    returns (r: Result<seq<Document>, LoadError>)
    ensures r == Enumerate(rows, build)
  {
    var docs: seq<Document> := [];
    var i := 0;
    while i < |rows|
      invariant 0 <= i <= |rows|
      invariant Enumerate(rows[..i], build) == Ok(docs)
    {
      var d := build(i, rows[i]);
      assert rows[..i + 1][..i] == rows[..i];
      if d.Err? {
        EnumerateErrPrefix(rows, i + 1, build);
        return Err(d.error);
      }
      docs := docs + [d.value];
      i := i + 1;
    }
    assert rows[..i] == rows;
    return Ok(docs);
  }

  // ---------------------------------------------------------------------------
  // _load_grade_history_csv
  // ---------------------------------------------------------------------------

  /** The grade columns, in the order of the whitelist at main.py:96. */
  const GradeKeys: seq<string> := ["A+", "A", "A-", "B+", "B", "B-", "C+", "C", "C-", "D+", "D", "D-", "F", "W", "P"]

  /** The columns the sentence and the metadata index with `row[...]`, in evaluation order. */
  const RequiredGradeKeys: seq<string> := ["Subject", "Catalog Nbr", "Section", "Instructor 1"]

  predicate IsGradeEntry(e: (string, string))
  {
    e.0 in GradeKeys && e.1 != ""
  }

  /** The (key, value) pairs that go into the grade string, in column order. */
  function GradeEntries(row: Row): Row
  {
    Filter(StripKeys(row), IsGradeEntry)
  }

  function FormatEntry(e: (string, string)): string
  {
    e.0 + ": " + e.1
  }

  /** `", ".join(f"{k}: {v}" for the grade entries)`. */
  function GradeString(row: Row): string
  {
    var entries := GradeEntries(row);
    Join(", ", seq(|entries|, i requires 0 <= i < |entries| => FormatEntry(entries[i])))
  }

  /** The grade string lists exactly the whitelisted (stripped) columns with a
      non-empty value, in column order; it is empty exactly when there is none. */
  lemma GradeStringSpec(row: Row)
    ensures forall e :: e in GradeEntries(row) ==> e in StripKeys(row) && e.0 in GradeKeys && e.1 != ""
    ensures forall e :: e in StripKeys(row) && e.0 in GradeKeys && e.1 != "" ==> e in GradeEntries(row)
    ensures IsSubsequence(GradeEntries(row), StripKeys(row))
    ensures GradeString(row) == "" <==> GradeEntries(row) == []
  {
    var entries := GradeEntries(row);
    FilterIsSubsequence(StripKeys(row), IsGradeEntry);
    var parts := seq(|entries|, i requires 0 <= i < |entries| => FormatEntry(entries[i]));
    JoinEmpty(", ", parts);
  }

  function GradeSentence(subject: string, catalog: string, section: string, instructor1: string,
                         instructor2: string, instructor3: string, grades: string): string
  {
    "In a past semester, for course " + subject + " " + catalog + " Section " + section + ", " +
    "the instructor " + instructor1 + " (and others: " + instructor2 + ", " + instructor3 + ") " +
    "gave the following grades: " + grades + "."
  }

  /** The document for row `i` of a grade-history file (main.py:93-111). */
  function GradeDocument(fileName: string, i: nat, row: Row): Result<Document, LoadError>
  {
    var d := StripKeys(row);
    match Require(d, RequiredGradeKeys)
    case Err(e) => Err(e)
    case Ok(v) =>
      var course := v[0] + " " + v[1];
      Ok(Document(
        GradeSentence(v[0], v[1], v[2], v[3], GetOr(d, "Instructor 2", "N/A"), GetOr(d, "Instructor 3", "N/A"), GradeString(row)),
        map["source" := Str(fileName), "row" := Int(i), "course" := Str(course), "professor" := Str(v[3])]))
  }

  /** A row yields a document exactly when, after stripping its keys, it has
      Subject, Catalog Nbr, Section and Instructor 1; otherwise the error names
      the first of these it lacks. The document records the file, the row index,
      the course "<Subject> <Catalog Nbr>" and Instructor 1, its sentence names
      that course and section, fills a missing Instructor 2 or 3 with "N/A", and
      ends with the grade string. */
  lemma GradeDocumentSpec(fileName: string, i: nat, row: Row)
    ensures var d, r := StripKeys(row), GradeDocument(fileName, i, row);
      && (r.Ok? <==> forall k :: 0 <= k < |RequiredGradeKeys| ==> Get(d, RequiredGradeKeys[k]).Some?)
      && (r.Err? ==> exists k :: FirstMissing(d, RequiredGradeKeys, k) && r.error == KeyError(RequiredGradeKeys[k]))
      && (r.Ok? ==>
            var subject, catalog := Get(d, "Subject").value, Get(d, "Catalog Nbr").value;
            var section, instructor := Get(d, "Section").value, Get(d, "Instructor 1").value;
            && r.value.metadata == map["source" := Str(fileName), "row" := Int(i),
                                       "course" := Str(subject + " " + catalog), "professor" := Str(instructor)]
            && r.value.content == GradeSentence(subject, catalog, section, instructor,
                                                GetOr(d, "Instructor 2", "N/A"), GetOr(d, "Instructor 3", "N/A"),
                                                GradeString(row))
            && StartsWith(r.value.content, "In a past semester, for course " + subject + " " + catalog + " Section " + section + ", "))
  {
    var d, r := StripKeys(row), GradeDocument(fileName, i, row);
    if r.Ok? {
      GradeDocumentFields(fileName, i, row);
      var subject, catalog := Get(d, "Subject").value, Get(d, "Catalog Nbr").value;
      var section, instructor := Get(d, "Section").value, Get(d, "Instructor 1").value;
      GradeSentenceOpening(subject, catalog, section, instructor,
                           GetOr(d, "Instructor 2", "N/A"), GetOr(d, "Instructor 3", "N/A"), GradeString(row));
    }
  }

  lemma GradeDocumentFields(fileName: string, i: nat, row: Row)
    requires GradeDocument(fileName, i, row).Ok?
    ensures var d, r := StripKeys(row), GradeDocument(fileName, i, row);
      && Get(d, "Subject").Some? && Get(d, "Catalog Nbr").Some? && Get(d, "Section").Some? && Get(d, "Instructor 1").Some?
      && r.value.metadata == map["source" := Str(fileName), "row" := Int(i),
                                 "course" := Str(Get(d, "Subject").value + " " + Get(d, "Catalog Nbr").value),
                                 "professor" := Str(Get(d, "Instructor 1").value)]
      && r.value.content == GradeSentence(Get(d, "Subject").value, Get(d, "Catalog Nbr").value,
                                          Get(d, "Section").value, Get(d, "Instructor 1").value,
                                          GetOr(d, "Instructor 2", "N/A"), GetOr(d, "Instructor 3", "N/A"),
                                          GradeString(row))
  {
    var d := StripKeys(row);
    var v := Require(d, RequiredGradeKeys);
    assert Get(d, RequiredGradeKeys[0]) == Some(v.value[0]);
    assert Get(d, RequiredGradeKeys[1]) == Some(v.value[1]);
    assert Get(d, RequiredGradeKeys[2]) == Some(v.value[2]);
    assert Get(d, RequiredGradeKeys[3]) == Some(v.value[3]);
  }

  lemma GradeSentenceOpening(subject: string, catalog: string, section: string, instructor1: string,
                             instructor2: string, instructor3: string, grades: string)
    ensures StartsWith(GradeSentence(subject, catalog, section, instructor1, instructor2, instructor3, grades),
                       "In a past semester, for course " + subject + " " + catalog + " Section " + section + ", ")
  {
    var opening := "In a past semester, for course " + subject + " " + catalog + " Section " + section + ", ";
    assert GradeSentence(subject, catalog, section, instructor1, instructor2, instructor3, grades)[..|opening|] == opening;
  }

  /** The course a grade document records: the stripped Subject, a space, and the
      stripped Catalog Nbr. */
  lemma GradeDocumentCourse(fileName: string, i: nat, row: Row)
    requires GradeDocument(fileName, i, row).Ok?
    ensures Get(StripKeys(row), "Subject").Some? && Get(StripKeys(row), "Catalog Nbr").Some?
    ensures GradeDocument(fileName, i, row).value.metadata["course"] ==
      Str(Get(StripKeys(row), "Subject").value + " " + Get(StripKeys(row), "Catalog Nbr").value)
  {
    GradeDocumentFields(fileName, i, row);
  }

  /** `_load_grade_history_csv` applied to a file's rows: the documents of all rows,
      or the first row's KeyError, which discards the file's documents. */
  function GradeHistoryDocs(fileName: string, rows: seq<Row>): Result<seq<Document>, LoadError>
  {
    Enumerate(rows, (i: nat, row: Row) => GradeDocument(fileName, i, row))
  }

  /** A grade-history file loads when every row builds; then document `i` is row `i`'s. */
  lemma GradeHistoryDocsOk(fileName: string, rows: seq<Row>)
    requires GradeHistoryDocs(fileName, rows).Ok?
    ensures |GradeHistoryDocs(fileName, rows).value| == |rows|
    ensures forall i :: 0 <= i < |rows| ==>
      GradeDocument(fileName, i, rows[i]).Ok? && GradeHistoryDocs(fileName, rows).value[i] == GradeDocument(fileName, i, rows[i]).value
  {
    EnumerateSpec(rows, (i: nat, row: Row) => GradeDocument(fileName, i, row));
  }

  method LoadGradeHistoryCsv(fileName: string, rows: seq<Row>) returns (r: Result<seq<Document>, LoadError>)
    ensures r == GradeHistoryDocs(fileName, rows)
  {
    r := BuildDocuments(rows, (i: nat, row: Row) => GradeDocument(fileName, i, row));
  }

  // ---------------------------------------------------------------------------
  // _load_coursebook_csv
  // ---------------------------------------------------------------------------

  /** The columns the coursebook sentence reads with `row[...]`, in evaluation order. */
  const CoursebookKeys: seq<string> := [
    "course_prefix", "course_number", "section", "class_number", "title", "instructor_s",
    "days", "times_12h", "location", "enrolled_status", "enrolled_current", "enrolled_max"]

  /** "Course Section: <prefix> <number>.<section>", the opening of a coursebook sentence. */
  function CoursebookHeading(v: seq<string>): string
    requires |v| == |CoursebookKeys|
  {
    "Course Section: " + v[0] + " " + v[1] + "." + v[2]
  }

  function CoursebookSentence(v: seq<string>): string
    requires |v| == |CoursebookKeys|
  {
    CoursebookHeading(v) +
    (" (Class Number: " + v[3] + "). " +
     "Title: " + v[4] + ". " +
     "Instructor: " + v[5] + ". " +
     "Schedule: " + v[6] + " from " + v[7] + ". " +
     "Location: " + v[8] + ". " +
     "Status: " + v[9] + " (" + v[10] + "/" + v[11] + " enrolled).")
  }

  /** The document for row `i` of a coursebook file (main.py:124-137). */
  function CoursebookDocument(fileName: string, i: nat, row: Row): Result<Document, LoadError>
  {
    match Require(row, CoursebookKeys)
    case Err(e) => Err(e)
    case Ok(v) =>
      Ok(Document(CoursebookSentence(v),
        map["source" := Str(fileName), "row" := Int(i), "course" := Str(v[0] + " " + v[1])]))
  }

  /** A row yields a document exactly when it has all twelve coursebook columns
      (keys are not stripped here); otherwise the error names the first missing one.
      The document records the file, the row index and the course
      "<course_prefix> <course_number>", and its sentence starts with that course
      and the section. */
  lemma CoursebookDocumentSpec(fileName: string, i: nat, row: Row)
    ensures var r := CoursebookDocument(fileName, i, row);
      && (r.Ok? <==> forall k :: 0 <= k < |CoursebookKeys| ==> Get(row, CoursebookKeys[k]).Some?)
      && (r.Err? ==> exists k :: FirstMissing(row, CoursebookKeys, k) && r.error == KeyError(CoursebookKeys[k]))
      && (r.Ok? ==>
            var prefix, number := Get(row, "course_prefix").value, Get(row, "course_number").value;
            && r.value.metadata == map["source" := Str(fileName), "row" := Int(i), "course" := Str(prefix + " " + number)]
            && StartsWith(r.value.content, "Course Section: " + prefix + " " + number + "." + Get(row, "section").value))
  {
    var v := Require(row, CoursebookKeys);
    if v.Ok? {
      assert Get(row, CoursebookKeys[0]) == Some(v.value[0]);
      assert Get(row, CoursebookKeys[1]) == Some(v.value[1]);
      assert Get(row, CoursebookKeys[2]) == Some(v.value[2]);
      var heading := CoursebookHeading(v.value);
      assert CoursebookSentence(v.value)[..|heading|] == heading;
    }
  }

  function CoursebookDocs(fileName: string, rows: seq<Row>): Result<seq<Document>, LoadError>
  {
    Enumerate(rows, (i: nat, row: Row) => CoursebookDocument(fileName, i, row))
  }

  method LoadCoursebookCsv(fileName: string, rows: seq<Row>) returns (r: Result<seq<Document>, LoadError>)
    ensures r == CoursebookDocs(fileName, rows)
  {
    r := BuildDocuments(rows, (i: nat, row: Row) => CoursebookDocument(fileName, i, row));
  }

  // ---------------------------------------------------------------------------
  // _load_prof_reviews_json
  // ---------------------------------------------------------------------------

  /** The parsed review file: course number to the list of professor records, in file order. */
  type Reviews = seq<(string, seq<Row>)>

  /** An f-string placeholder for `prof.get(key)`: the value, or "None" when absent. */
  function Shown(v: Option<string>): string
  {
    match v
    case Some(s) => s
    case None => "None"
  }

  /** The document for one professor record under course `course` (main.py:68-79). */
  function ReviewSentence(course: string, name: string, rating: string, difficulty: string, again: string): string
  {
    "For course CS " + course + ", professor " + name + " " +
    "has a student rating of " + rating + ", " +
    "a difficulty of " + difficulty + ", " +
    "and " + again + " of students would take them again."
  }

  function ReviewDocument(course: string, prof: Row): Document
  {
    var name := Get(prof, "name");
    Document(
      ReviewSentence(course, Shown(name), Shown(Get(prof, "rating")), Shown(Get(prof, "difficulty")),
                     Shown(Get(prof, "would_take_again"))),
      map["source" := Str("professor_reviews"), "course" := Str(course),
          "professor" := if name.Some? then Str(name.value) else Null])
  }

  /** The document names its course and professor and comes from the reviews;
      its metadata has no other key; its sentence opens with the course and the
      professor's name, "None" when the record has none. */
  lemma ReviewDocumentSpec(course: string, prof: Row)
    ensures var d := ReviewDocument(course, prof);
      && d.metadata.Keys == {"source", "course", "professor"}
      && d.metadata["source"] == Str("professor_reviews") && d.metadata["course"] == Str(course)
      && d.metadata["professor"] == (if Get(prof, "name").Some? then Str(Get(prof, "name").value) else Null)
      && StartsWith(d.content, "For course CS " + course + ", professor " + Shown(Get(prof, "name")) + " ")
  {
    ReviewSentenceOpening(course, Shown(Get(prof, "name")), Shown(Get(prof, "rating")),
                          Shown(Get(prof, "difficulty")), Shown(Get(prof, "would_take_again")));
  }

  lemma ReviewSentenceOpening(course: string, name: string, rating: string, difficulty: string, again: string)
    ensures StartsWith(ReviewSentence(course, name, rating, difficulty, again),
                       "For course CS " + course + ", professor " + name + " ")
  {
    var opening := "For course CS " + course + ", professor " + name + " ";
    assert ReviewSentence(course, name, rating, difficulty, again)[..|opening|] == opening;
  }

  function CourseReviewDocs(course: string, profs: seq<Row>): seq<Document>
  {
    seq(|profs|, j requires 0 <= j < |profs| => ReviewDocument(course, profs[j]))
  }

  /** All review documents: courses in file order, and within a course its professors in order. */
  function ReviewDocs(data: Reviews): seq<Document>
  {
    if |data| == 0 then []
    else ReviewDocs(data[..|data| - 1]) + CourseReviewDocs(data[|data| - 1].0, data[|data| - 1].1)
  }

  function ProfessorCount(data: Reviews): nat
  {
    if |data| == 0 then 0 else ProfessorCount(data[..|data| - 1]) + |data[|data| - 1].1|
  }

  /** One document per professor record; each says it comes from the professor
      reviews and names its enclosing course key; reviews of a file split in two
      are the reviews of the first part followed by those of the second. */
  lemma {:induction false} ReviewDocsSpec(data: Reviews)
    ensures |ReviewDocs(data)| == ProfessorCount(data)
    ensures forall k :: 0 <= k < |ReviewDocs(data)| ==>
      "source" in ReviewDocs(data)[k].metadata && "course" in ReviewDocs(data)[k].metadata &&
      ReviewDocs(data)[k].metadata["source"] == Str("professor_reviews") &&
      exists c :: 0 <= c < |data| && ReviewDocs(data)[k].metadata["course"] == Str(data[c].0)
  {
    if |data| > 0 {
      var n := |data| - 1;
      var prefix := data[..n];
      ReviewDocsSpec(prefix);
      var docs := ReviewDocs(data);
      var before := ReviewDocs(prefix);
      var last := CourseReviewDocs(data[n].0, data[n].1);
      CourseReviewDocsMeta(data[n].0, data[n].1);
      assert docs == before + last;
      forall k | 0 <= k < |docs|
        ensures "source" in docs[k].metadata && "course" in docs[k].metadata
        ensures docs[k].metadata["source"] == Str("professor_reviews")
        ensures exists c :: 0 <= c < |data| && docs[k].metadata["course"] == Str(data[c].0)
      {
        if k < |before| {
          var c :| 0 <= c < n && before[k].metadata["course"] == Str(prefix[c].0);
          assert prefix[c] == data[c];
        } else {
          assert docs[k] == last[k - |before|];
        }
      }
    }
  }

  /** The documents of one course all come from the reviews and name that course. */
  lemma CourseReviewDocsMeta(course: string, profs: seq<Row>)
    ensures forall j :: 0 <= j < |CourseReviewDocs(course, profs)| ==>
      var m := CourseReviewDocs(course, profs)[j].metadata;
      "source" in m && "course" in m && m["source"] == Str("professor_reviews") && m["course"] == Str(course)
  {
    forall j | 0 <= j < |profs|
      ensures var m := CourseReviewDocs(course, profs)[j].metadata;
        "source" in m && "course" in m && m["source"] == Str("professor_reviews") && m["course"] == Str(course)
    {
      ReviewDocumentSpec(course, profs[j]);
    }
  }

  lemma {:induction false} ReviewDocsAppend(a: Reviews, b: Reviews)
    ensures ReviewDocs(a + b) == ReviewDocs(a) + ReviewDocs(b)
    decreases |b|
  {
    if |b| == 0 {
      assert a + b == a;
    } else {
      var n := |b| - 1;
      var last := CourseReviewDocs(b[n].0, b[n].1);
      assert (a + b)[..|a + b| - 1] == a + b[..n];
      assert (a + b)[|a + b| - 1] == b[n];
      assert ReviewDocs(a + b) == ReviewDocs(a + b[..n]) + last;
      ReviewDocsAppend(a, b[..n]);
      assert ReviewDocs(b) == ReviewDocs(b[..n]) + last;
    }
  }

  lemma CourseReviewDocsStep(course: string, profs: seq<Row>, j: nat)
    requires j < |profs|
    ensures CourseReviewDocs(course, profs[..j + 1]) ==
      CourseReviewDocs(course, profs[..j]) + [ReviewDocument(course, profs[j])]
  {
  }

  lemma ReviewDocsStep(data: Reviews, c: nat)
    requires c < |data|
    ensures ReviewDocs(data[..c + 1]) == ReviewDocs(data[..c]) + CourseReviewDocs(data[c].0, data[c].1)
  {
    assert data[..c + 1][..c] == data[..c];
  }

  /** The adapter's nested loop: for each course, for each professor, append a document. */
  method LoadProfReviewsJson(data: Reviews) returns (docs: seq<Document>)
    ensures docs == ReviewDocs(data)
  {
    docs := [];
    var c := 0;
    while c < |data|
      invariant 0 <= c <= |data|
      invariant docs == ReviewDocs(data[..c])
    {
      var course := data[c].0;
      var profs := data[c].1;
      var j := 0;
      while j < |profs|
        invariant 0 <= j <= |profs|
        invariant docs == ReviewDocs(data[..c]) + CourseReviewDocs(course, profs[..j])
      {
        docs := docs + [ReviewDocument(course, profs[j])];
        CourseReviewDocsStep(course, profs, j);
        j := j + 1;
      }
      assert profs[..j] == profs;
      ReviewDocsStep(data, c);
      c := c + 1;
    }
    assert data[..c] == data;
  }
}
