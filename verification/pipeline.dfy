/** How the two scripts meet: filter_data.py writes `data/filtered_<file>`, and
    the ingestion loop of main.py reads every file of `data/` and picks an
    adapter from the file's name. */
module Pipeline {
  import opened Wrappers
  import opened Seqs
  import opened Text
  import opened Documents
  import opened Adapters
  import opened Ingest
  import opened FilterData

  /** The records `csv.DictReader` yields for a written table: each row's cells
      paired with the header's names. */
  function DictRows(g: Frame): (r: seq<Row>)
    ensures |r| == |g.rows|
  {
    seq(|g.rows|, i requires 0 <= i < |g.rows| => Zip(g.columns, g.rows[i]))
  }

  /** A lower-case, dot-free prefix with no "c" that starts with "filtered_" turns
      a CSV name without "coursebook" into a grade-history name. */
  lemma GradeHistoryAfterPrefix(p: string, file: string)
    requires Lower(p) == p && StartsWith(p, "filtered_")
    requires forall k :: 0 <= k < |p| ==> p[k] != '.' && p[k] != 'c'
    requires Suffix(file) == ".csv" && !Contains(Lower(file), "coursebook")
    ensures Classify(p + file) == GradeHistoryCsv
  {
    var name := p + file;
    SuffixAfterPrefix(p, file);
    LowerAppend(p, file);
    assert Lower(name)[..|p|] == p;
    assert StartsWith(Lower(name), "filtered_");
    ContainsAfterPrefix(p, Lower(file), "coursebook");
    ClassifySpec(name);
  }

  lemma FilteredPrefix()
    ensures var p := "filtered_";
      && Lower(p) == p && StartsWith(p, "filtered_")
      && forall k :: 0 <= k < |p| ==> p[k] != '.' && p[k] != 'c'
  {
  }

  /** Every file filter_data.py writes from a CSV whose name does not mention
      "coursebook" is loaded by the grade-history adapter: the "filtered_"
      prefix keeps the ".csv" suffix and adds the marker the dispatch looks for. */
  lemma FilteredOutputRoutesToGradeHistory(file: string)
    requires Suffix(file) == ".csv" && !Contains(Lower(file), "coursebook")
    ensures Classify(OutputName(file)) == GradeHistoryCsv
  {
    FilteredPrefix();
    GradeHistoryAfterPrefix("filtered_", file);
  }

  /** A semester file name: a stem with no dot and no "c" or "C", then ".csv". */
  lemma SemesterFileRoutes(file: string)
    requires |file| > 4 && file[|file| - 4] == '.' && file[|file| - 3] == 'c' && file[|file| - 2] == 's' && file[|file| - 1] == 'v'
    requires forall k :: 0 <= k < |file| - 4 ==> file[k] != '.' && file[k] != 'c' && file[k] != 'C'
    ensures Classify(OutputName(file)) == GradeHistoryCsv
  {
    var n := |file| - 4;
    LastIndexOfSpec(file, '.');
    assert LastIndexOf(file, '.') == Some(n);
    assert file[n..] == ".csv";
    forall k | 0 <= k <= |file| - 10
      ensures Lower(file)[k] != 'c'
    {
    }
    ContainsNoRoom(Lower(file), "coursebook");
    FilteredOutputRoutesToGradeHistory(file);
  }

  /** So each of the six semester files, once filtered, becomes grade history. */
  lemma SemesterOutputIsGradeHistory(file: string)
    requires file in FileNames
    ensures Classify(OutputName(file)) == GradeHistoryCsv
  {
    SemesterFileRoutes(file);
  }

  lemma DictRowKeys(g: Frame, i: nat)
    requires i < |g.rows| && |g.rows[i]| == |g.columns|
    ensures |DictRows(g)[i]| == |g.columns|
    ensures forall j :: 0 <= j < |g.columns| ==> DictRows(g)[i][j] == (g.columns[j], g.rows[i][j])
  {
  }

  /** A grade-history record that has a Subject but no "Catalog Nbr" key fails
      with `KeyError('Catalog Nbr')`. */
  lemma RecordLacksCatalog(fileName: string, i: nat, row: Row)
    requires exists j :: 0 <= j < |row| && Strip(row[j].0) == "Subject"
    requires forall j :: 0 <= j < |row| ==> Strip(row[j].0) != "Catalog Nbr"
    ensures GradeDocument(fileName, i, row) == Err(KeyError("Catalog Nbr"))
  {
    var d := StripKeys(row);
    StripKeysHas(row, "Subject");
    StripKeysHas(row, "Catalog Nbr");
    GradeDocumentSpec(fileName, i, row);
    assert Get(d, RequiredGradeKeys[0]).Some? && Get(d, RequiredGradeKeys[1]).None?;
    var k :| FirstMissing(d, RequiredGradeKeys, k) && GradeDocument(fileName, i, row).error == KeyError(RequiredGradeKeys[k]);
    assert k == 1;
  }

  /** A non-empty file every row of which fails the same way fails that way. */
  lemma GradeHistoryAllFail(fileName: string, rows: seq<Row>, e: LoadError)
    requires rows != [] && forall i :: 0 <= i < |rows| ==> GradeDocument(fileName, i, rows[i]) == Err(e)
    ensures GradeHistoryDocs(fileName, rows) == Err(e)
  {
    EnumerateSpec(rows, (i: nat, row: Row) => GradeDocument(fileName, i, row));
  }

  /** A "Subject" column keeps its name when the adapter strips it. */
  lemma SubjectColumnStrips(columns: seq<string>)
    requires "Subject" in columns
    ensures exists j :: 0 <= j < |columns| && Strip(columns[j]) == "Subject"
  {
    var j :| 0 <= j < |columns| && columns[j] == "Subject";
    StripUnchanged(columns[j]);
  }

  /** Each record of a table whose header has a name stripping to "Subject" but
      none stripping to "Catalog Nbr" has the same keys. */
  lemma RecordWithoutCatalog(g: Frame, i: nat)
    requires WellFormed(g) && i < |g.rows|
    requires exists j :: 0 <= j < |g.columns| && Strip(g.columns[j]) == "Subject"
    requires forall j :: 0 <= j < |g.columns| ==> Strip(g.columns[j]) != "Catalog Nbr"
    ensures var row := DictRows(g)[i];
      && (exists j :: 0 <= j < |row| && Strip(row[j].0) == "Subject")
      && (forall j :: 0 <= j < |row| ==> Strip(row[j].0) != "Catalog Nbr")
  {
    var row := DictRows(g)[i];
    var s :| 0 <= s < |g.columns| && Strip(g.columns[s]) == "Subject";
    DictRowKeys(g, i);
    assert row[s].0 == g.columns[s];
  }

  /** Read as grade history, such a table gives no documents when it is empty and
      fails on its first row otherwise. */
  lemma TableWithoutCatalog(name: string, g: Frame)
    requires WellFormed(g)
    requires exists j :: 0 <= j < |g.columns| && Strip(g.columns[j]) == "Subject"
    requires forall j :: 0 <= j < |g.columns| ==> Strip(g.columns[j]) != "Catalog Nbr"
    ensures GradeHistoryDocs(name, DictRows(g)) == if g.rows == [] then Ok([]) else Err(KeyError("Catalog Nbr"))
  {
    var rows := DictRows(g);
    forall i | 0 <= i < |rows|
      ensures GradeDocument(name, i, rows[i]) == Err(KeyError("Catalog Nbr"))
    {
      RecordWithoutCatalog(g, i);
      RecordLacksCatalog(name, i, rows[i]);
    }
    if rows == [] {
      assert GradeHistoryDocs(name, rows) == Ok([]);
    } else {
      GradeHistoryAllFail(name, rows, KeyError("Catalog Nbr"));
    }
  }

  /** Such a file, named as grade history, adds no documents. */
  lemma FileWithoutCatalog(name: string, g: Frame, pages: Result<seq<Document>, LoadError>)
    requires WellFormed(g) && Classify(name) == GradeHistoryCsv
    requires exists j :: 0 <= j < |g.columns| && Strip(g.columns[j]) == "Subject"
    requires forall j :: 0 <= j < |g.columns| ==> Strip(g.columns[j]) != "Catalog Nbr"
    ensures DictRows(g) != [] ==> GradeHistoryDocs(name, DictRows(g)) == Err(KeyError("Catalog Nbr"))
    ensures FileDocuments(DataFile(name, pages, Ok(DictRows(g)))) == []
  {
    TableWithoutCatalog(name, g);
    FileDocumentsCases(DataFile(name, pages, Ok(DictRows(g))));
  }

  /** A filtered file routed to grade history, whose input has no column that
      strips to "Catalog Nbr", fails on its first row and adds no documents. */
  lemma FilteredFileWithoutCatalog(file: string, f: Frame, pages: Result<seq<Document>, LoadError>)
    requires WellFormed(f) && FilterFrame(file, f).Ok? && Classify(OutputName(file)) == GradeHistoryCsv
    requires forall j :: 0 <= j < |f.columns| ==> Strip(f.columns[j]) != "Catalog Nbr"
    ensures var rows := DictRows(FilterFrame(file, f).value.frame);
      && (rows != [] ==> GradeHistoryDocs(OutputName(file), rows) == Err(KeyError("Catalog Nbr")))
      && FileDocuments(DataFile(OutputName(file), pages, Ok(rows))) == []
  {
    FilterFrameWellFormed(file, f);
    FilterFrameErrors(file, f);
    SubjectColumnStrips(f.columns);
    FileWithoutCatalog(OutputName(file), FilterFrame(file, f).value.frame, pages);
  }

  /** The filtered Spring 2022 file keeps its "Catalog Number" header, which the
      grade-history adapter does not know: a non-empty file fails on its first
      row with `KeyError('Catalog Nbr')`, so that semester adds no documents to
      the index, whatever its rows hold. */
  lemma Spring2022AddsNothing(file: string, f: Frame, pages: Result<seq<Document>, LoadError>)
    requires file == "Spring 2022.csv"
    requires WellFormed(f) && FilterFrame(file, f).Ok?
    requires forall j :: 0 <= j < |f.columns| ==> Strip(f.columns[j]) != "Catalog Nbr"
    ensures CatalogColumn(file) == "Catalog Number"
    ensures var rows := DictRows(FilterFrame(file, f).value.frame);
      && (rows != [] ==> GradeHistoryDocs(OutputName(file), rows) == Err(KeyError("Catalog Nbr")))
      && FileDocuments(DataFile(OutputName(file), pages, Ok(rows))) == []
  {
    SemesterOutputIsGradeHistory(file);
    FilteredFileWithoutCatalog(file, f, pages);
  }

  /** A document about course "CS <n>", n a catalog number in [6000, 7000]. */
  predicate GraduateCSDocument(d: Document)
  {
    && "course" in d.metadata
    && var course := d.metadata["course"];
    && course.Str? && |course.s| >= 3 && course.s[..3] == "CS "
    && match ParseCatalog(course.s[3..])
       case Some(n) => Between(n)
       case None => false
  }

  /** A record with exactly one key stripping to "Subject" and one stripping to
      "Catalog Nbr", both written without padding (other keys may be padded): the
      document's course is its Subject, a space and its Catalog Nbr. */
  lemma RecordCourse(name: string, i: nat, row: Row, s: nat, c: nat)
    requires s < |row| && c < |row| && row[s].0 == "Subject" && row[c].0 == "Catalog Nbr"
    requires forall j :: 0 <= j < |row| && Strip(row[j].0) == "Subject" ==> j == s
    requires forall j :: 0 <= j < |row| && Strip(row[j].0) == "Catalog Nbr" ==> j == c
    requires GradeDocument(name, i, row).Ok?
    ensures GradeDocument(name, i, row).value.metadata["course"] == Str(row[s].1 + " " + row[c].1)
  {
    GradeDocumentCourse(name, i, row);
    var a := StripKeysLast(row, "Subject");
    var b := StripKeysLast(row, "Catalog Nbr");
    assert a == s && b == c;
  }

  /** Header names that strip to "Subject" or "Catalog Nbr" are written without padding. */
  predicate ExactKeyColumns(columns: seq<string>)
  {
    && (forall j :: 0 <= j < |columns| && Strip(columns[j]) == "Subject" ==> columns[j] == "Subject")
    && (forall j :: 0 <= j < |columns| && Strip(columns[j]) == "Catalog Nbr" ==> columns[j] == "Catalog Nbr")
  }

  /** In a record of a well-formed table whose Subject and Catalog Nbr headers are
      exact, those two columns are the only keys stripping to their names. */
  lemma DictRowShape(g: Frame, k: nat, s: nat, c: nat)
    requires WellFormed(g) && ExactKeyColumns(g.columns)
    requires s < |g.columns| && c < |g.columns| && g.columns[s] == "Subject" && g.columns[c] == "Catalog Nbr"
    requires k < |g.rows|
    ensures var row := DictRows(g)[k];
      && s < |row| && c < |row| && row[s] == ("Subject", g.rows[k][s]) && row[c] == ("Catalog Nbr", g.rows[k][c])
      && (forall j :: 0 <= j < |row| && Strip(row[j].0) == "Subject" ==> j == s)
      && (forall j :: 0 <= j < |row| && Strip(row[j].0) == "Catalog Nbr" ==> j == c)
  {
    DictRowKeys(g, k);
  }

  /** The document of a CS record with a qualifying catalog cell is about a graduate CS course. */
  lemma CSRecordCourse(name: string, row: Row, k: nat, s: nat, c: nat, cell: string)
    requires s < |row| && c < |row| && row[s] == ("Subject", "CS") && row[c] == ("Catalog Nbr", cell)
    requires forall j :: 0 <= j < |row| && Strip(row[j].0) == "Subject" ==> j == s
    requires forall j :: 0 <= j < |row| && Strip(row[j].0) == "Catalog Nbr" ==> j == c
    requires ParseCatalog(cell).Some? && Between(ParseCatalog(cell).value)
    requires GradeDocument(name, k, row).Ok?
    ensures GraduateCSDocument(GradeDocument(name, k, row).value)
  {
    RecordCourse(name, k, row, s, c);
    var course := "CS " + cell;
    assert course[3..] == cell;
  }

  /** A well-formed table with exact Subject and Catalog Nbr headers, whose every
      row is a CS row with a qualifying catalog cell, gives only graduate CS
      documents. */
  lemma TableCourses(name: string, g: Frame, s: nat, c: nat)
    requires WellFormed(g) && ExactKeyColumns(g.columns)
    requires s < |g.columns| && c < |g.columns| && g.columns[s] == "Subject" && g.columns[c] == "Catalog Nbr"
    requires forall k :: 0 <= k < |g.rows| ==>
      g.rows[k][s] == "CS" && ParseCatalog(g.rows[k][c]).Some? && Between(ParseCatalog(g.rows[k][c]).value)
    ensures var r := GradeHistoryDocs(name, DictRows(g));
      r.Ok? ==> forall k :: 0 <= k < |r.value| ==> GraduateCSDocument(r.value[k])
  {
    var rows := DictRows(g);
    var r := GradeHistoryDocs(name, rows);
    if r.Ok? {
      GradeHistoryDocsOk(name, rows);
      forall k | 0 <= k < |r.value|
        ensures GraduateCSDocument(r.value[k])
      {
        DictRowShape(g, k, s, c);
        CSRecordCourse(name, rows[k], k, s, c, g.rows[k][c]);
      }
    }
  }

  /** The other semesters: when the headers that strip to "Subject" and "Catalog Nbr"
      are written without padding (other headers may be padded),
      every document the grade-history adapter makes from a filtered file is
      about a course "CS <n>" whose catalog number n lies in [6000, 7000]. */
  lemma FilteredDocumentsAreGraduateCS(file: string, f: Frame)
    requires file != "Spring 2022.csv" && WellFormed(f) && FilterFrame(file, f).Ok?
    requires ExactKeyColumns(f.columns)
    ensures var r := GradeHistoryDocs(OutputName(file), DictRows(FilterFrame(file, f).value.frame));
      r.Ok? ==> forall k :: 0 <= k < |r.value| ==> GraduateCSDocument(r.value[k])
  {
    var g := FilterFrame(file, f).value.frame;
    FilterFrameWellFormed(file, f);
    WrittenRowsQualify(file, f);
    TableCourses(OutputName(file), g, ColumnIndex(f.columns, "Subject").value, ColumnIndex(f.columns, "Catalog Nbr").value);
  }
}
