/**
 * Document selection during ingestion: walking the data folder, dispatching
 * each file on its lower-cased extension, stamping loaded documents with
 * their file's name and path, and the early return when nothing was loaded.
 * The folder walk, the format loaders, the splitter and the vector store are
 * parameters or a recorded log.
 */
module Ingestion {
  import opened Wrappers
  import opened Strings
  import opened Documents

  const ChunkSize: nat := 1000
  const ChunkOverlap: nat := 150
  const SupportedExtensions: set<string> := {".pdf", ".txt", ".docx", ".md", ".csv"}

  /** The format-specific loaders of the extension map. */
  datatype LoaderKind = PdfLoader | TextLoader | WordLoader | MarkdownLoader | CsvLoader

  /** The extension map: which loader reads a file with extension `ext`. */
  function LoaderFor(ext: string): (r: Option<LoaderKind>)
    ensures r.Some? <==> ext in SupportedExtensions
    ensures r == Some(PdfLoader) <==> ext == ".pdf"
    ensures r == Some(TextLoader) <==> ext == ".txt"
    ensures r == Some(WordLoader) <==> ext == ".docx"
    ensures r == Some(MarkdownLoader) <==> ext == ".md"
    ensures r == Some(CsvLoader) <==> ext == ".csv"
  {
    if ext == ".pdf" then Some(PdfLoader)
    else if ext == ".txt" then Some(TextLoader)
    else if ext == ".docx" then Some(WordLoader)
    else if ext == ".md" then Some(MarkdownLoader)
    else if ext == ".csv" then Some(CsvLoader)
    else None
  }

  /** One entry of the recursive folder walk: full path, file name, extension, and whether it is a file. */
  datatype Entry = Entry(path: string, name: string, suffix: string, isFile: bool)

  /** The data folder: its path, whether it is present, and its entries in walk order. */
  datatype DataDir = DataDir(path: string, present: bool, walk: seq<Entry>)

  /** A format loader: reads the file at a path into documents, or fails with a message. */
  type Loader = (LoaderKind, string) -> Result<seq<Doc>, string>

  datatype IngestError =
    | DataDirNotFound(message: string)
    | LoadFailed(path: string, message: string)

  /** The loader an entry is read with, if any: files only, on the lower-cased extension. */
  function Dispatch(e: Entry): Option<LoaderKind> {
    if !e.isFile then None else LoaderFor(Lower(e.suffix))
  }

  /** Extension matching ignores case: a file whose extension is a supported one in any letter case gets its loader. */
  lemma DispatchIgnoresCase(path: string, name: string, suffix: string, ext: string)
    requires ext in SupportedExtensions
    requires EqualIgnoringCase(suffix, ext)
    ensures Dispatch(Entry(path, name, suffix, true)) == LoaderFor(ext)
    ensures Dispatch(Entry(path, name, suffix, true)).Some?
  {
    LowerFoldsCase(suffix, ext);
  }

  /** A loaded document stamped with the name and full path of the file it came from. */
  function Stamp(d: Doc, e: Entry): Doc {
    Doc(d.content, d.meta.(source := Some(e.name), path := Some(e.path)))
  }

  /** Stamping keeps every document, its text and its page, and overwrites only source and path. */
  function StampAll(docs: seq<Doc>, e: Entry): (r: seq<Doc>)
    ensures |r| == |docs|
    ensures forall k :: 0 <= k < |r| ==>
              && r[k].content == docs[k].content
              && r[k].meta.page == docs[k].meta.page
              && r[k].meta.source == Some(e.name)
              && r[k].meta.path == Some(e.path)
  {
    seq(|docs|, k requires 0 <= k < |docs| => Stamp(docs[k], e))
  }

  /** The documents of the walked entries, entry by entry, stopping at the first loader failure. */
  function LoadWalk(walk: seq<Entry>, load: Loader): Result<seq<Doc>, IngestError> {
    if walk == [] then Success([])
    else
      var e := walk[|walk| - 1];
      match LoadWalk(walk[..|walk| - 1], load)
      case Failure(err) => Failure(err)
      case Success(docs) =>
        match Dispatch(e)
        case None => Success(docs)
        case Some(kind) =>
          match load(kind, e.path)
          case Failure(msg) => Failure(LoadFailed(e.path, msg))
          case Success(fileDocs) => Success(docs + StampAll(fileDocs, e))
  }

  /** What `load_documents` returns or raises for a data folder. */
  function LoadedDocuments(dir: DataDir, load: Loader): Result<seq<Doc>, IngestError> {
    if !dir.present then Failure(DataDirNotFound("Data folder not found: " + dir.path))
    else LoadWalk(dir.walk, load)
  }

  /** Once a loader has failed, the rest of the walk does not matter. */
  lemma {:induction false} LoadFailureFinal(walk: seq<Entry>, i: nat, load: Loader)
    requires i <= |walk|
    requires LoadWalk(walk[..i], load).Failure?
    ensures LoadWalk(walk, load) == LoadWalk(walk[..i], load)
  {
    if i < |walk| {
      var n := |walk| - 1;
      assert walk[..n][..i] == walk[..i];
      LoadFailureFinal(walk[..n], i, load);
    } else {
      assert walk[..i] == walk;
    }
  }

  method LoadDocuments(dir: DataDir, load: Loader) returns (r: Result<seq<Doc>, IngestError>)
    ensures r == LoadedDocuments(dir, load)
  {
    if !dir.present {
      return Failure(DataDirNotFound("Data folder not found: " + dir.path));
    }
    var walk := dir.walk;
    var docs: seq<Doc> := [];
    for i := 0 to |walk|
      invariant LoadWalk(walk[..i], load) == Success(docs)
    {
      var e := walk[i];
      assert walk[..i + 1][..i] == walk[..i];
      if !e.isFile {
        continue;
      }
      var ext := Lower(e.suffix);
      var kind := LoaderFor(ext);
      if kind.None? {
        continue;
      }
      var loaded := load(kind.value, e.path);
      if loaded.Failure? {
        LoadFailureFinal(walk, i + 1, load);
        return Failure(LoadFailed(e.path, loaded.error));
      }
      var fileDocs := loaded.value;
      for j := 0 to |fileDocs|
        invariant |fileDocs| == |loaded.value|
        invariant forall k :: 0 <= k < j ==> fileDocs[k] == Stamp(loaded.value[k], e)
        invariant forall k :: j <= k < |fileDocs| ==> fileDocs[k] == loaded.value[k]
      {
        fileDocs := fileDocs[j := Stamp(fileDocs[j], e)];
      }
      assert fileDocs == StampAll(loaded.value, e);
      docs := docs + fileDocs;
    }
    assert walk[..|walk|] == walk;
    r := Success(docs);
  }

  /** Every loaded document names a supported file of the walk as its source and path. */
  lemma {:induction false} LoadedDocumentsStamped(walk: seq<Entry>, load: Loader)
    requires LoadWalk(walk, load).Success?
    ensures forall k :: 0 <= k < |LoadWalk(walk, load).value| ==>
              exists i :: 0 <= i < |walk| && Dispatch(walk[i]).Some?
                && LoadWalk(walk, load).value[k].meta.source == Some(walk[i].name)
                && LoadWalk(walk, load).value[k].meta.path == Some(walk[i].path)
  {
    if walk != [] {
      var n := |walk| - 1;
      var prefix := walk[..n];
      LoadedDocumentsStamped(prefix, load);
      var before := LoadWalk(prefix, load).value;
      var docs := LoadWalk(walk, load).value;
      forall k | 0 <= k < |docs|
        ensures exists i :: 0 <= i < |walk| && Dispatch(walk[i]).Some?
                  && docs[k].meta.source == Some(walk[i].name)
                  && docs[k].meta.path == Some(walk[i].path)
      {
        if k < |before| {
          var i :| 0 <= i < n && Dispatch(prefix[i]).Some?
                   && before[k].meta.source == Some(prefix[i].name)
                   && before[k].meta.path == Some(prefix[i].path);
          assert walk[i] == prefix[i];
        } else {
          assert Dispatch(walk[n]).Some?;
        }
      }
    }
  }

  /** Walking two parts of a folder one after the other concatenates their documents in order. */
  lemma {:induction false} LoadWalkConcat(w1: seq<Entry>, w2: seq<Entry>, load: Loader)
    requires LoadWalk(w1, load).Success? && LoadWalk(w2, load).Success?
    ensures LoadWalk(w1 + w2, load) == Success(LoadWalk(w1, load).value + LoadWalk(w2, load).value)
  {
    if w2 == [] {
      assert w1 + w2 == w1;
      assert LoadWalk(w1, load).value + LoadWalk(w2, load).value == LoadWalk(w1, load).value;
    } else {
      var n := |w2| - 1;
      var p := w2[..n];
      var e := w2[n];
      assert (w1 + w2)[..|w1 + w2| - 1] == w1 + p;
      assert (w1 + w2)[|w1 + w2| - 1] == e;
      assert LoadWalk(p, load).Success?;
      LoadWalkConcat(w1, p, load);
      var a := LoadWalk(w1, load).value;
      var b := LoadWalk(p, load).value;
      if Dispatch(e).Some? {
        var fileDocs := load(Dispatch(e).value, e.path).value;
        assert a + b + StampAll(fileDocs, e) == a + (b + StampAll(fileDocs, e));
      }
    }
  }

  /** The entries the loaders are run on: files with a supported extension, in walk order. */
  function SupportedFiles(walk: seq<Entry>): (r: seq<Entry>)
    ensures forall e :: e in r <==> e in walk && Dispatch(e).Some?
  {
    if walk == [] then []
    else
      var e := walk[|walk| - 1];
      SupportedFiles(walk[..|walk| - 1]) + (if Dispatch(e).Some? then [e] else [])
  }

  /** Appending the same entry to two walks with the same result gives the same result. */
  lemma LoadWalkSnoc(w1: seq<Entry>, w2: seq<Entry>, e: Entry, load: Loader)
    requires LoadWalk(w1, load) == LoadWalk(w2, load)
    ensures LoadWalk(w1 + [e], load) == LoadWalk(w2 + [e], load)
  {
  }

  /** A folder or a file with an unsupported extension adds nothing to the walk's result. */
  lemma LoadWalkSkipped(w: seq<Entry>, e: Entry, load: Loader)
    requires Dispatch(e).None?
    ensures LoadWalk(w + [e], load) == LoadWalk(w, load)
  {
  }

  /** Folders and unsupported files contribute nothing: dropping them changes no result. */
  lemma {:induction false} LoadWalkSkipsUnsupported(walk: seq<Entry>, load: Loader)
    ensures LoadWalk(walk, load) == LoadWalk(SupportedFiles(walk), load)
  {
    if walk != [] {
      var n := |walk| - 1;
      var e := walk[n];
      assert walk == walk[..n] + [e];
      LoadWalkSkipsUnsupported(walk[..n], load);
      var s := SupportedFiles(walk[..n]);
      if Dispatch(e).Some? {
        assert SupportedFiles(walk) == s + [e];
        LoadWalkSnoc(walk[..n], s, e, load);
      } else {
        assert SupportedFiles(walk) == s;
        LoadWalkSkipped(walk[..n], e, load);
      }
    }
  }

  lemma {:induction false} NoSupportedFiles(walk: seq<Entry>)
    requires forall i :: 0 <= i < |walk| ==> Dispatch(walk[i]).None?
    ensures SupportedFiles(walk) == []
  {
    if walk != [] {
      NoSupportedFiles(walk[..|walk| - 1]);
    }
  }

  /** A folder with no supported file loads to no documents, without error. */
  lemma NoSupportedFileNoDocuments(dir: DataDir, load: Loader)
    requires dir.present
    requires forall i :: 0 <= i < |dir.walk| ==> Dispatch(dir.walk[i]).None?
    ensures LoadedDocuments(dir, load) == Success([])
  {
    LoadWalkSkipsUnsupported(dir.walk, load);
    NoSupportedFiles(dir.walk);
  }

  /**
   * The persisted vector store as the ingestion sees it: the batches of
   * chunks written to it, oldest first, and whether it was persisted.
   */
  class VectorStore {
    var batches: seq<seq<Doc>>
    var persisted: bool

    constructor ()
      ensures batches == [] && !persisted
    {
      batches := [];
      persisted := false;
    }

    /** `Chroma.from_documents`: embeds the chunks and writes them. */
    method FromDocuments(chunks: seq<Doc>)
      modifies this
      ensures batches == old(batches) + [chunks]
      ensures persisted == old(persisted)
    {
      batches := batches + [chunks];
    }

    method Persist()
      modifies this
      ensures persisted
      ensures batches == old(batches)
    {
      persisted := true;
    }
  }

  /** Which way `ingest` returned: nothing to store, or the number of documents and chunks stored. */
  datatype IngestOutcome = NoDocuments | Stored(documents: nat, chunks: nat)

  /** A text splitter configured with a chunk size and an overlap. */
  type Splitter = (seq<Doc>, nat, nat) -> seq<Doc>

  /** `ingest`: load, stop if nothing was loaded, else split, write and persist. */
  method Ingest(dir: DataDir, load: Loader, split: Splitter, store: VectorStore)
    returns (r: Result<IngestOutcome, IngestError>)
    modifies store
    ensures match LoadedDocuments(dir, load)
            case Failure(err) =>
              r == Failure(err) && unchanged(store)
            case Success(docs) =>
              if docs == [] then
                r == Success(NoDocuments) && unchanged(store)
              else
                var chunks := split(docs, ChunkSize, ChunkOverlap);
                && r == Success(Stored(|docs|, |chunks|))
                && store.batches == old(store.batches) + [chunks]
                && store.persisted
  {
    var loaded := LoadDocuments(dir, load);
    if loaded.Failure? {
      return Failure(loaded.error);
    }
    var documents := loaded.value;
    if documents == [] {
      return Success(NoDocuments);
    }
    var chunks := split(documents, ChunkSize, ChunkOverlap);
    store.FromDocuments(chunks);
    store.Persist();
    r := Success(Stored(|documents|, |chunks|));
  }
}
