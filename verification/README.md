# Course-advisor ingestion and grade filter, modelled in Dafny

The system answers questions about graduate computer-science courses by
retrieval over a similarity index. This project models the deterministic part
of how that index is fed:

- **`filter_data.py`** reads each semester's grade-distribution table. It keeps
  the rows whose Subject is `CS` and whose catalog number lies in [6000, 7000].
  It writes them to `data/filtered_<file>`. The catalog column is called
  `Catalog Number` in `Spring 2022.csv` and `Catalog Nbr` in every other file.
- **`main.py`** walks the data folder and chooses a loader for each file:
  - PDF and Word files go to their third-party loaders.
  - CSV files are routed by name: a name containing `coursebook` goes to the
    coursebook adapter; otherwise a name containing `filtered_` goes to the
    grade-history adapter.
  - Each adapter turns one record into one `Document`: a sentence plus a
    provenance map.

  A file whose adapter raises contributes nothing, and the walk goes on with the
  next file. The documents are then split into chunks. The chunks go into the
  vector store in batches of 100: the first batch creates the store and each
  later batch is added to it.

Modules (one `.dfy` file each):

| module | file | what it holds |
|---|---|---|
| `Wrappers` | wrappers.dfy | `Option`, `Result` |
| `Seqs` | seqs.dfy | flatten, flat-map, zip, filter, subsequence |
| `Text` | text.dfy | Python's `str.strip`, ASCII `lower`, `in`, `join`, digits, `PurePath.suffix` |
| `Documents` | documents.dfy | `Document`, provenance values, records as ordered key/value lists, `row[k]` and `row.get` |
| `Batching` | batching.dfy | `batch_generator` and its partition lemmas |
| `Adapters` | adapters.dfy | the three `_load_*` adapters (imperative loops proved against functions) |
| `Ingest` | ingest.dfy | file dispatch, the `all_docs` loop, the vector store as a class, the batch loop |
| `FilterData` | filter_data.dfy | the row filter of filter_data.py, as pure functions over a table |
| `Pipeline` | pipeline.dfy | what happens when the filter's output is read back by the ingestion loop |

Python semantics that matter here are written out:

- A record is an ordered list of (key, value) pairs, because dict order decides
  the order of the grade string.
- `{k.strip(): v ...}` keeps a key's first position and its last value.
- `row[k]` raises `KeyError`. In the model this is an `Err(KeyError(k))` that
  aborts the file.
- `str.strip` uses Python's whitespace set.
- `PurePath.suffix` takes the text from the last dot, unless that dot is the
  name's first or last character.
- `pd.to_numeric(errors='coerce')` and the inclusive `between(6000, 7000)` are
  modelled on plain and decimal digit strings. A value that does not parse is
  NaN and is never kept.

The folder loop (main.py:183-202) dispatches only `.pdf`, `.docx` and `.csv`,
so `_load_prof_reviews_json` is never called from it. The adapter is modelled
on its own (`Adapters.LoadProfReviewsJson`), and `Ingest.ClassifySpec` states
that a `.json` file is skipped.

## Model

| member | source | states |
|---|---|---|
| Batching.BatchesConcat | main.py:50-53 | concatenating the batches gives back the input exactly, in order |
| Batching.BatchSizes | main.py:52-53 | every batch is non-empty and at most `batch_size` long; all but the last are exactly `batch_size` long |
| Batching.BatchCount | main.py:52 | the number of batches is the ceiling of length over size; an empty input gives no batches and only an empty input does |
| Batching.BatchAt | main.py:52-53 | batch i is the slice `data[i*size : i*size+size]` (cut at the end), and it starts inside the data |
| Batching.BatchPrefix | main.py:52-53 | the first i batches together are the first `i*size` elements |
| Batching.BatchesAligned | main.py:225-227 | two lists of equal length batched with the same size give the same number of batches, pairwise of equal length, so the text batches and the metadata batches are cut at the same places |
| Documents.GetSpec | main.py:69 | `get` finds nothing exactly when no pair has the key; otherwise it returns the value of a pair with that key |
| Documents.GetOr | main.py:102 | `row.get(k, default)` gives the default when no pair carries the key, and otherwise the value of a pair carrying it |
| Documents.Put | main.py:93 | storing a key makes it map to the new value and leaves other keys alone; an existing key keeps its position, and a new key is appended |
| Documents.StripKeysHas | main.py:93 | after stripping, a key is present exactly when some column name strips to it |
| Documents.StripKeysLast | main.py:93 | a stripped key holds the value of the last column whose name strips to it |
| Documents.StripKeysDistinct | main.py:93 | when no two names strip alike, stripping keeps every column, in order, with its name stripped |
| Documents.Require | main.py:101-109 | indexing the keys in turn succeeds exactly when all are present, returning their values; otherwise the error is `KeyError` of the first missing key |
| Text.StripSpec | main.py:93 | `strip` removes only whitespace, from both ends, and what remains has no whitespace at either end |
| Text.JoinEmpty | main.py:97 | joining non-empty parts with a non-empty separator gives the empty string exactly when there are no parts |
| Text.ContainsAfterPrefix | main.py:192-195 | a prefix none of whose characters starts the searched text neither creates nor hides an occurrence of it |
| Text.SuffixAfterPrefix | main.py:183-191 | a dot-free prefix added to a name keeps its non-empty suffix |
| Adapters.EnumerateSpec | main.py:91-111 | a per-row loop succeeds exactly when every row builds; then it gives one document per row, document i being row i's with index i; otherwise it reports the first failing row's error |
| Adapters.EnumerateErrPrefix | main.py:91-111 | once a prefix of the rows fails, the whole file fails with that error |
| Adapters.BuildDocuments | main.py:88-111 | the row loop that appends to `docs` computes exactly the enumeration above |
| Adapters.GradeStringSpec | main.py:93-97 | the grade string lists exactly the stripped (grade, count) pairs whose key is one of the 15 grades and whose count is non-empty, in column order; it is empty exactly when there are none |
| Adapters.GradeDocumentSpec | main.py:93-111 | a row yields a document exactly when it has Subject, Catalog Nbr, Section and Instructor 1, else `KeyError` of the first missing one; the metadata is exactly source, row index, course `"<Subject> <Catalog Nbr>"` and professor; missing Instructor 2 or 3 render `N/A`; the sentence opens with the course and section |
| Adapters.GradeDocumentCourse | main.py:108 | a built grade document's course is the stripped Subject, a space and the stripped Catalog Nbr |
| Adapters.GradeHistoryDocsOk | main.py:91-111 | a loaded grade-history file has one document per row, document i built from row i |
| Adapters.LoadGradeHistoryCsv | main.py:83-112 | the adapter's loop returns the grade documents of all rows, or the first row's error |
| Adapters.CoursebookDocumentSpec | main.py:124-137 | a row yields a document exactly when it has the twelve coursebook columns (keys not stripped), else `KeyError` of the first missing one; the metadata is exactly source, row index and course `"<course_prefix> <course_number>"`; the sentence opens with the course and section |
| Adapters.LoadCoursebookCsv | main.py:115-138 | the adapter's loop returns the coursebook documents of all rows, or the first row's error |
| Adapters.ReviewDocumentSpec | main.py:68-79 | the metadata has exactly the keys source, course and professor; source is `professor_reviews`, course is the enclosing key, and professor is the name or `None`; the sentence opens with the course and the name (`None` when missing) |
| Adapters.CourseReviewDocsMeta | main.py:65-79 | every document of one course is marked `professor_reviews` and names that course |
| Adapters.ReviewDocsSpec | main.py:65-79 | one document per professor record; each is marked `professor_reviews` and carries one of the file's course keys |
| Adapters.ReviewDocsAppend | main.py:65-66 | the documents of a file split in two are those of the first part followed by those of the second, so courses come in file order |
| Adapters.LoadProfReviewsJson | main.py:55-81 | the nested loop appends exactly the review documents, courses in order and professors in order within each |
| Ingest.ClassifySpec | main.py:183-202 | each branch of the dispatch, both ways: `.pdf` goes to the PDF loader and `.docx` to the DOCX loader; a `.csv` whose lower-cased name has `coursebook` goes to the coursebook adapter, even if it also has `filtered_`; any other `.csv` with `filtered_` goes to grade history; a `.csv` with neither marker is skipped; anything else (a `.json` file included) is skipped |
| Ingest.KelvinSignCoursebook | main.py:191-193 | the name test lower-cases as `str.lower` does, so a `.csv` named with the Kelvin sign U+212A in place of the last `K` of `COURSEBOOK` goes to the coursebook adapter |
| Ingest.FailedFileAddsNothing | main.py:191-204 | a skipped file, a failing reader or a failing adapter adds no documents |
| Ingest.DroppedFile | main.py:181-204 | a file that adds nothing leaves the other files' documents as they are, and the files after it are still read |
| Ingest.LoadFile | main.py:181-204 | one pass of the folder loop adds exactly the file's share: a PDF's or DOCX's pages, the coursebook or grade-history adapter's documents, and nothing for a skipped file or when the loader or adapter raises |
| Ingest.LoadDocuments | main.py:178-208 | the folder loop returns `None` exactly when no file contributed, and otherwise every file's documents in file order |
| Ingest.VectorStore.FromTexts | main.py:236-238 | the store created from the first batch holds exactly its (text, metadata) pairs |
| Ingest.VectorStore.AddTexts | main.py:241-243 | adding a batch appends exactly its pairs after what the store held |
| Ingest.EntriesAppend | main.py:232-243 | the entries of two runs of chunks are the entries of the first followed by those of the second |
| Ingest.BuildIndex | main.py:222-243 | no store exactly when there are no chunks; otherwise a new store holding every chunk once, in order, with its own metadata |
| Ingest.RebuildVectorStore | main.py:178-243 | the rebuild gives no store when no document was loaded or the split leaves no chunk; otherwise the store holds exactly the chunks of the loaded documents |
| FilterData.ColumnIndex | filter_data.py:12-22 | column lookup returns a position holding that name, or reports that no column has it |
| FilterData.ParseSpec | filter_data.py:12 | a cell parses exactly when it is a digit string or `<digits>.<digits>`, and every other cell is coerced to NaN; a digit string parses to its integer value; a decimal parses to the value of its whole digits plus its fractional digits, and its kept fraction has no trailing zeros |
| FilterData.TrimZerosValue | filter_data.py:12 | dropping the trailing zeros of a fraction does not change its value, so `6500.50` and `6500.5` are the same number |
| FilterData.BetweenDigits | filter_data.py:15 | the inclusive range test keeps whole part 6000 to 6999, or exactly 7000 with no fraction; so 6000 and 7000 are kept and 7000.5 is not |
| FilterData.RenderParse | filter_data.py:25 | a value written back (as an integer, or as a float like `6313.0`) reads as the same value, and it is written as an integer exactly when the column is not a float column |
| FilterData.OutputPathSpec | filter_data.py:25 | the output of `<file>` is written to `data/filtered_<file>` |
| FilterData.KeptRowWritten | filter_data.py:12-25 | a kept row as written differs from the input row only in its catalog cell, which holds the same number, is written as an integer exactly in an integer column, and passes the mask again unchanged |
| FilterData.FilterFrameErrors | filter_data.py:11-22 | the catalog column is `Catalog Number` for `Spring 2022.csv` and `Catalog Nbr` otherwise; the filter fails exactly when that column or Subject is missing, the catalog column being reported first |
| FilterData.FilterFrameRows | filter_data.py:13-25 | the output goes to `data/filtered_<file>` with the same header; its rows are the input rows that are CS with a catalog number in [6000, 7000], a subsequence in input order, with every copy of a repeated qualifying row kept; a cell that does not parse is never kept; each row is unchanged except the catalog cell, which holds the same number |
| Seqs.FilterMultiset | filter_data.py:13-16 | a boolean mask keeps every copy of an element that passes it and no copy of one that fails |
| FilterData.WrittenRowsQualify | filter_data.py:13-22 | every written row is a CS row with a catalog number in [6000, 7000] |
| FilterData.FilterFrameWellFormed | filter_data.py:25 | the written table has the input's header and a cell per column in every row |
| FilterData.WrittenRowsStable | filter_data.py:12-25 | the written rows pass the mask again, keep the column's integer-or-float form, and are written back unchanged |
| FilterData.FilterIdempotent | filter_data.py:6-25 | filtering the written table again writes the same table |
| Pipeline.FilteredOutputRoutesToGradeHistory | main.py:191-196 | the `filtered_` name of any `.csv` whose name has no `coursebook` is routed to the grade-history adapter |
| Pipeline.SemesterFileRoutes | main.py:183-196 | a name made of a dot-free stem without `c`/`C` and `.csv`, once prefixed, is grade history |
| Pipeline.SemesterOutputIsGradeHistory | filter_data.py:4 | each of the six semester files, once filtered, is loaded as grade history |
| Pipeline.RecordLacksCatalog | main.py:101 | a record with a Subject but no key stripping to `Catalog Nbr` fails with `KeyError('Catalog Nbr')` |
| Pipeline.TableWithoutCatalog | main.py:91-101 | a table read as grade history whose header has a name stripping to Subject and none stripping to `Catalog Nbr` gives no documents when empty and fails with `KeyError('Catalog Nbr')` otherwise |
| Pipeline.FileWithoutCatalog | main.py:195-204 | a file routed to grade history whose header has a name stripping to Subject and none stripping to `Catalog Nbr` adds no documents, and fails with `KeyError('Catalog Nbr')` when it has a row |
| Pipeline.FilteredFileWithoutCatalog | filter_data.py:13-25 | a filtered table whose header has Subject but nothing stripping to `Catalog Nbr`, read back as grade history, adds no documents |
| Pipeline.Spring2022AddsNothing | filter_data.py:18-25 | for `Spring 2022.csv` the catalog column is `Catalog Number`; when no header name of that file strips to `Catalog Nbr`, its filtered output, read back, fails on its first row and adds no documents |
| Pipeline.RecordCourse | main.py:92-108 | when exactly one key strips to `Subject` and one to `Catalog Nbr`, both unpadded, a grade document's course is the record's Subject, a space and its Catalog Nbr; other keys may be padded |
| Pipeline.CSRecordCourse | main.py:105-110 | the document of a CS record with a qualifying catalog cell is about a graduate CS course |
| Pipeline.TableCourses | main.py:91-111 | a table whose `Subject` and `Catalog Nbr` headers are exact (other headers may be padded) and whose rows are all such records gives only graduate CS documents |
| Pipeline.FilteredDocumentsAreGraduateCS | filter_data.py:13-16 | for the other semesters, every document built from a filtered file is about a course `CS <n>` with n in [6000, 7000]; padded headers are allowed except ones that strip to `Subject` or `Catalog Nbr` |

## Left out

- The similarity index itself: `FAISS.from_texts` and `add_texts` become a
  store that records the (text, metadata) pairs it was given. Embeddings,
  nearest-neighbour search and `save_local`/`load_local` are not modelled.
- The local → remote → rebuild fallback of `get_vector_store`: it is all disk,
  network and archive I/O. Only the rebuild path is modelled.
- The Bedrock embeddings and language model, the prompt and the retrieval
  chain: these are remote services.
- `time.sleep(3)` between batches and the progress messages: these are timing
  and output.
- `RecursiveCharacterTextSplitter`: its algorithm is not part of this model. It
  is a parameter (`split`) of `Ingest.RebuildVectorStore`.
- `PyPDFLoader` and `Docx2txtLoader`: a file carries what its loader returns (or
  the error it raises) as data.
- Parsing with `csv.DictReader`, `json.load`, `pd.read_csv` and `to_csv`: the
  model takes parsed records and tables.
  - A short CSV line (missing values become `None`) and a long one (extra
    values land under a `None` key) are not modelled.
  - Writing a table and reading it back is modelled as pairing the header with
    each row's cells (`Pipeline.DictRows`); CSV quoting is taken to round-trip.
- `Adapters.ReviewDocumentSpec`: JSON values other than strings (numbers, `null`)
  are rendered as strings by Python's f-strings. The model holds every field as
  a string or absent.
- `Text.Lower`: folds the ASCII capitals and the Kelvin sign U+212A (which
  Python lowers to `k`). Python's `str.lower` folds other letters too, but
  only to non-ASCII letters or, for U+0130, to `i` followed by a combining dot,
  so none of them can create or break the ASCII markers `coursebook` and
  `filtered_`; they are left as they are.
- `Documents.Get`: records, review files and course entries are taken to have
  distinct keys. For a repeated key, Python's dict keeps the last value, both
  in `csv.DictReader` (a repeated header) and in `json.load` (a repeated course
  or field name). The model's `Get` returns the first pair's value.
- `FilterData.ParseCatalog`: accepts digits, optionally followed by a dot and
  digits. Other spellings pandas accepts (signs, exponents, surrounding blanks,
  `.5`) are treated as NaN.
- `FilterData.Between`: compares the exact decimal value. Pandas compares a
  64-bit float, which can round a very long fraction onto 7000.
- `FilterData.Render`: writes a kept decimal with its exact fractional digits.
  `to_csv` writes the shortest repr of the 64-bit float. Past about 16
  significant digits the two differ: `6500.123456789012345` is written
  `6500.123456789012`. So `FilterData.KeptRowWritten` ("the same number") and
  the round trip of `FilterData.RenderParse` hold for pandas only for values
  of at most 15 significant digits, which the float's repr gives back as
  written.
- `FilterData.FilterFrameRows`: other columns are taken to be written back as
  read. Pandas may re-render them, for instance an integer column that holds a
  blank.
- `FilterData.WellFormed`: lemmas assume distinct column names and one cell per
  column. `read_csv` renames duplicate headers and pads short rows.
- `Pipeline.FilteredDocumentsAreGraduateCS`: assumes that every header that
  strips to `Subject` or `Catalog Nbr` is written exactly so; other headers may
  be padded. A second, padded column such as ` Subject` is a real exception.
  The filter tests the exact `Subject` column, but the adapter's key stripping
  (main.py:92-93) keeps whichever of the two comes last, so the document's
  course could then come from a column the filter never looked at.
- The module-level loop of filter_data.py (read, filter, write each of the six
  files, stopping at the first exception): it is file I/O. Each file's filter is
  modelled by `FilterData.FilterFrame`.
- `Adapters.ReviewDocsSpec`: states that each document carries one of the
  file's course keys, not which one. The order is stated by
  `Adapters.ReviewDocsAppend` and the definition of `Adapters.ReviewDocs`.
- `Text.Suffix`: follows the long-standing `PurePath.suffix` rule. Newer Python
  releases treat a name ending in a dot differently, which no file name here
  does.
- `Batching.Batches`: requires a positive size (`range` with step 0 raises). The
  only caller passes 100.
- scarper.py, api.py and frontend.py: scraping over the network, a web endpoint
  and a chat page. They are not part of this model.
