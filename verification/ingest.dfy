/** The rebuild path of `get_vector_store` (main.py): pick an adapter for every
    file of the data folder by its name, gather all documents, split them into
    chunks, and add the chunks to the vector store 100 at a time. */
module Ingest {
  import opened Wrappers
  import opened Seqs
  import opened Text
  import opened Documents
  import opened Adapters
  import opened Batching

  // ---------------------------------------------------------------------------
  // File dispatch
  // ---------------------------------------------------------------------------

  datatype FileKind = Pdf | Docx | CoursebookCsv | GradeHistoryCsv | UnknownCsv | Unsupported

  /** Which branch of the dispatch at main.py:183-202 a file name takes. The suffix
      test is case-sensitive; the name tests are on the lower-cased name, and
      "coursebook" is checked before "filtered_". */
  function Classify(name: string): FileKind
  {
    var suffix := Suffix(name);
    if suffix == ".pdf" then Pdf
    else if suffix == ".docx" then Docx
    else if suffix == ".csv" then
      if Contains(Lower(name), "coursebook") then CoursebookCsv
      else if Contains(Lower(name), "filtered_") then GradeHistoryCsv
      else UnknownCsv
    else Unsupported
  }

  /** A CSV whose name mentions both goes to the coursebook adapter; only the
      exact suffixes ".pdf", ".docx" and ".csv" are loaded, so a ".json" file (the
      professor-review file included) and an upper-case ".PDF" are skipped. */
  lemma ClassifySpec(name: string)
    ensures Classify(name) == Pdf <==> Suffix(name) == ".pdf"
    ensures Classify(name) == Docx <==> Suffix(name) == ".docx"
    ensures Classify(name) == CoursebookCsv <==> Suffix(name) == ".csv" && Contains(Lower(name), "coursebook")
    ensures Classify(name) == GradeHistoryCsv <==>
      Suffix(name) == ".csv" && Contains(Lower(name), "filtered_") && !Contains(Lower(name), "coursebook")
    ensures Classify(name) == UnknownCsv <==>
      Suffix(name) == ".csv" && !Contains(Lower(name), "coursebook") && !Contains(Lower(name), "filtered_")
    ensures Classify(name) == Unsupported <==> Suffix(name) !in {".pdf", ".docx", ".csv"}
    ensures Suffix(name) == ".json" ==> Classify(name) == Unsupported
  {
  }

  /** The name test folds case as `str.lower` does: the Kelvin sign U+212A lowers
      to `k`, so "COURSEBOO\u212A.csv" goes to the coursebook adapter. */
  lemma KelvinSignCoursebook()
    ensures Classify("COURSEBOO\U{212A}.csv") == CoursebookCsv
  {
    var n := "COURSEBOO\U{212A}.csv";
    assert Suffix(n) == ".csv" by {
      assert n[..13][..12] == n[..12] && n[..12][..11] == n[..11];
      assert LastIndexOf(n[..11], '.') == Some(10);
      assert LastIndexOf(n, '.') == Some(10);
    }
    LowerAppend("COURSEBOO\U{212A}", ".csv");
    assert Lower(n) == "coursebook.csv" by { assert n == "COURSEBOO\U{212A}" + ".csv"; }
    assert "coursebook.csv"[0..10] == "coursebook";
  }

  /** A file of the data folder, with what each reader would make of it: the
      documents PyPDFLoader / Docx2txtLoader return (or the exception they raise),
      and the records csv.DictReader yields (or the exception it raises). Which
      of the two is used depends on the file's name. */
  datatype DataFile = DataFile(name: string, pages: Result<seq<Document>, LoadError>, rows: Result<seq<Row>, LoadError>)

  /** What one file adds to `all_docs`: its adapter's documents, or nothing when
      the file is skipped or its adapter raises. */
  function FileDocuments(f: DataFile): seq<Document>
  {
    match Classify(f.name)
    case Pdf | Docx => if f.pages.Ok? then f.pages.value else []
    case CoursebookCsv =>
      if f.rows.Err? then [] else
      var r := CoursebookDocs(f.name, f.rows.value);
      if r.Ok? then r.value else []
    case GradeHistoryCsv =>
      if f.rows.Err? then [] else
      var r := GradeHistoryDocs(f.name, f.rows.value);
      if r.Ok? then r.value else []
    case UnknownCsv => []
    case Unsupported => []
  }

  /** `all_docs` after the loop over `files`: every file's documents, file after file. */
  function Collected(files: seq<DataFile>): seq<Document>
  {
    FlatMap(files, FileDocuments)
  }

  /** A file that is skipped, or whose reader or adapter raises, adds nothing. */
  lemma FailedFileAddsNothing(f: DataFile)
    requires
      || Classify(f.name) in {UnknownCsv, Unsupported}
      || (Classify(f.name) in {Pdf, Docx} && f.pages.Err?)
      || (Classify(f.name) in {CoursebookCsv, GradeHistoryCsv} && f.rows.Err?)
      || (Classify(f.name) == CoursebookCsv && f.rows.Ok? && CoursebookDocs(f.name, f.rows.value).Err?)
      || (Classify(f.name) == GradeHistoryCsv && f.rows.Ok? && GradeHistoryDocs(f.name, f.rows.value).Err?)
    ensures FileDocuments(f) == []
  {
  }

  /** A file that adds nothing leaves no trace: the result is what the other
      files give, and the files after it are still processed. */
  lemma DroppedFile(a: seq<DataFile>, f: DataFile, b: seq<DataFile>)
    requires FileDocuments(f) == []
    ensures Collected(a + [f] + b) == Collected(a) + Collected(b)
  {
    FlatMapSkip(a, f, b, FileDocuments);
  }

  lemma FileDocumentsCases(f: DataFile)
    ensures var kind := Classify(f.name);
      && (kind in {Pdf, Docx} ==> FileDocuments(f) == if f.pages.Ok? then f.pages.value else [])
      && (kind == CoursebookCsv ==>
            FileDocuments(f) == if f.rows.Ok? && CoursebookDocs(f.name, f.rows.value).Ok?
                                then CoursebookDocs(f.name, f.rows.value).value else [])
      && (kind == GradeHistoryCsv ==>
            FileDocuments(f) == if f.rows.Ok? && GradeHistoryDocs(f.name, f.rows.value).Ok?
                                then GradeHistoryDocs(f.name, f.rows.value).value else [])
      && (kind in {UnknownCsv, Unsupported} ==> FileDocuments(f) == [])
  {
  }

  lemma CollectedStep(files: seq<DataFile>, i: nat)
    requires i < |files|
    ensures Collected(files[..i + 1]) == Collected(files[..i]) + FileDocuments(files[i])
  {
    assert files[..i + 1][..i] == files[..i];
  }

  /** One pass of the document-gathering loop (main.py:180-206): the documents
      the file's branch appends to `all_docs`, or none when it is skipped or raises. */
  method LoadFile(f: DataFile) returns (docs: seq<Document>)
    ensures docs == FileDocuments(f)
  {
    FileDocumentsCases(f);
    var kind := Classify(f.name);
    docs := [];
    if kind == Pdf || kind == Docx {
      if f.pages.Ok? {
        docs := f.pages.value;
      }
    } else if kind == CoursebookCsv {
      if f.rows.Ok? {
        var r := LoadCoursebookCsv(f.name, f.rows.value);
        if r.Ok? {
          docs := r.value;
        }
      }
    } else if kind == GradeHistoryCsv {
      if f.rows.Ok? {
        var r := LoadGradeHistoryCsv(f.name, f.rows.value);
        if r.Ok? {
          docs := r.value;
        }
      }
    }
  }

  /** The document-gathering loop (main.py:179-208): `None` when no file
      contributed a document, otherwise all documents in file order. */
  method LoadDocuments(files: seq<DataFile>) returns (r: Option<seq<Document>>)
    ensures r.None? <==> Collected(files) == []
    ensures r.Some? ==> r.value == Collected(files)
  {
    var allDocs: seq<Document> := [];
    var i := 0;
    while i < |files|
      invariant 0 <= i <= |files|
      invariant allDocs == Collected(files[..i])
    {
      var docs := LoadFile(files[i]);
      allDocs := allDocs + docs;
      CollectedStep(files, i);
      i := i + 1;
    }
    assert files[..i] == files;
    if allDocs == [] {
      return None;
    }
    return Some(allDocs);
  }

  // ---------------------------------------------------------------------------
  // The vector store and the batched build
  // ---------------------------------------------------------------------------

  /** The similarity index, seen only as the (text, metadata) pairs added to it,
      in the order they were added. Embedding and search are not modelled. */
  class VectorStore {
    var entries: seq<(string, Metadata)>

    /** `FAISS.from_texts(texts, embedding, metadatas=metadatas)`. */
    constructor FromTexts(texts: seq<string>, metadatas: seq<Metadata>)
      requires |texts| == |metadatas|
      ensures entries == Zip(texts, metadatas)
    {
      entries := Zip(texts, metadatas);
    }

    /** `vector_store.add_texts(texts, metadatas=metadatas)`. */
    method AddTexts(texts: seq<string>, metadatas: seq<Metadata>)
      requires |texts| == |metadatas|
      modifies this
      ensures entries == old(entries) + Zip(texts, metadatas)
    {
      entries := entries + Zip(texts, metadatas);
    }
  }

  /** Each chunk as the store keeps it: its text together with its own metadata. */
  function Entries(chunks: seq<Document>): (r: seq<(string, Metadata)>)
    ensures |r| == |chunks|
    ensures forall i :: 0 <= i < |chunks| ==> r[i].0 == chunks[i].content && r[i].1 == chunks[i].metadata
  {
    seq(|chunks|, i requires 0 <= i < |chunks| => (chunks[i].content, chunks[i].metadata))
  }

  /** The batch loop (main.py:222-243). Texts and metadatas are cut into batches
      separately and zipped back together; the first batch creates the store and
      every later one is added to it. After batch `i` the store holds exactly the
      chunks of the first `i` batches; at the end it holds every chunk once, in
      order, each text with its own metadata. No chunks, no store. */
  method BuildIndex(chunks: seq<Document>) returns (store: VectorStore?)
    ensures store == null <==> chunks == []
    ensures store != null ==> fresh(store) && store.entries == Entries(chunks)
  {
    var texts := Texts(chunks);
    var metadatas := Metadatas(chunks);
    var textBatches := Batches(texts, BatchSize);
    var metadataBatches := Batches(metadatas, BatchSize);
    BatchesAligned(texts, metadatas, BatchSize);
    BatchCount(texts, BatchSize);
    var pairs := Zip(textBatches, metadataBatches);
    store := null;
    var i := 0;
    while i < |pairs|
      invariant 0 <= i <= |pairs|
      invariant store == null <==> i == 0
      invariant store != null ==> fresh(store) && store.entries == Entries(chunks[..Min(i * BatchSize, |chunks|)])
    {
      var (textBatch, metadataBatch) := pairs[i];
      BatchStep(chunks, i);
      if i == 0 {
        store := new VectorStore.FromTexts(textBatch, metadataBatch);
      } else {
        store.AddTexts(textBatch, metadataBatch);
      }
      i := i + 1;
    }
    BatchesConcat(texts, BatchSize);
    BatchPrefix(texts, BatchSize, i);
    assert textBatches[..i] == textBatches;
    assert chunks[..|chunks|] == chunks;
  }

  function Texts(chunks: seq<Document>): (r: seq<string>)
    ensures |r| == |chunks| && forall i :: 0 <= i < |chunks| ==> r[i] == chunks[i].content
  {
    seq(|chunks|, i requires 0 <= i < |chunks| => chunks[i].content)
  }

  function Metadatas(chunks: seq<Document>): (r: seq<Metadata>)
    ensures |r| == |chunks| && forall i :: 0 <= i < |chunks| ==> r[i] == chunks[i].metadata
  {
    seq(|chunks|, i requires 0 <= i < |chunks| => chunks[i].metadata)
  }

  /** Batch `i` of the texts zipped with batch `i` of the metadatas is the entries
      of the chunks it covers, which extend those of the batches before it. */
  lemma BatchStep(chunks: seq<Document>, i: nat)
    requires i < |Batches(Texts(chunks), BatchSize)|
    ensures var lo, hi := i * BatchSize, Min(i * BatchSize + BatchSize, |chunks|);
      && lo < hi <= |chunks|
      && i < |Batches(Metadatas(chunks), BatchSize)|
      && |Batches(Texts(chunks), BatchSize)[i]| == |Batches(Metadatas(chunks), BatchSize)[i]|
      && Zip(Batches(Texts(chunks), BatchSize)[i], Batches(Metadatas(chunks), BatchSize)[i]) == Entries(chunks[lo..hi])
      && Entries(chunks[..Min(i * BatchSize, |chunks|)]) + Entries(chunks[lo..hi])
           == Entries(chunks[..Min((i + 1) * BatchSize, |chunks|)])
  {
    var texts, metadatas := Texts(chunks), Metadatas(chunks);
    BatchesAligned(texts, metadatas, BatchSize);
    BatchAt(texts, BatchSize, i);
    BatchAt(metadatas, BatchSize, i);
    var lo, hi := i * BatchSize, Min(i * BatchSize + BatchSize, |chunks|);
    assert (i + 1) * BatchSize == i * BatchSize + BatchSize;
    assert chunks[..lo] + chunks[lo..hi] == chunks[..hi];
    EntriesAppend(chunks[..lo], chunks[lo..hi]);
  }

  lemma EntriesAppend(a: seq<Document>, b: seq<Document>)
    ensures Entries(a + b) == Entries(a) + Entries(b)
  {
  }

  /** The rebuild path of `get_vector_store`: gather, split (an opaque function of
      the documents), then build. `null` when nothing was gathered or nothing
      survived splitting. */
  method RebuildVectorStore(files: seq<DataFile>, split: seq<Document> -> seq<Document>)
    returns (store: VectorStore?)
    ensures store == null <==> Collected(files) == [] || split(Collected(files)) == []
    ensures store != null ==> fresh(store) && store.entries == Entries(split(Collected(files)))
  {
    var docs := LoadDocuments(files);
    if docs.None? {
      return null;
    }
    var chunks := split(docs.value);
    store := BuildIndex(chunks);
  }
}
