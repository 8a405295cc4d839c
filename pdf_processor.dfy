/**
 * `PDFDatabaseManager` (pdf_processor.py): ingestion of PDF files into one vector index,
 * de-duplicated by the SHA-256 of each file's bytes.
 *
 * The two stores the manager writes are fields of the manager: `hashStore` is the JSON file
 * at `hash_store_path` (a map from hash to file path, None while the file does not exist)
 * and `vectorDb` is the FAISS index at `vector_db_path`, seen as the sequence of chunks it
 * holds (None while no index has been saved). The PDF files themselves are a map from path
 * to bytes. SHA-256, the PDF loaders and the text splitter are uninterpreted functions.
 */
module PdfProcessor {
  import opened Wrappers
  import opened Documents

  newtype byte = x: int | 0 <= x < 256

  /** The size of the blocks in which `calculate_file_hash` reads a file. */
  const BlockSize: nat := 4096

  /** The foreign code the manager calls. */
  datatype Capabilities = Capabilities(
    /** `hashlib.sha256(data).hexdigest()` */
    sha256: seq<byte> -> string,
    /** `RecursiveCharacterTextSplitter(config).split_documents(docs)` */
    split: Splitter,
    /** `DirectoryLoader(path, glob="*.pdf", loader_cls=PyPDFLoader).load()`: one document per page */
    loadDirectory: string -> seq<Document>,
    /** `PyPDFLoader(path).load()`: one document per page */
    loadPdf: string -> seq<Document>)

  /** How an ingestion call ends: it ran to the end, the file was already registered, or a file could not be opened. */
  datatype Outcome = Indexed | AlreadyIndexed | FileNotFound(path: string)

  // ---- Specification functions ----

  /** `load_existing_hashes()` on a store: a missing store is the empty registry. */
  function Loaded(store: Option<map<string, string>>): map<string, string>
  {
    if store.Some? then store.value else map[]
  }

  /** Every document's source file can be opened. */
  predicate AllPresent(files: map<string, seq<byte>>, docs: seq<Document>)
  {
    forall d :: d in docs ==> d.metadata.source in files
  }

  /** The hash `create_db_from_files` computes for a document: that of its source file's bytes. */
  function HashOf(files: map<string, seq<byte>>, sha: seq<byte> -> string, d: Document): string
    requires d.metadata.source in files
  {
    sha(files[d.metadata.source])
  }

  /**
   * The chunks of one document as `process_document` returns them: the splitter's chunks of
   * `[doc]`, the i-th tagged with chunk index i and otherwise unchanged.
   */
  function Tagged(chunks: seq<Document>): (r: seq<Document>)
    ensures |r| == |chunks|
    ensures forall i :: 0 <= i < |r| ==> r[i].metadata.chunkIndex == Some(i)
    ensures forall i :: 0 <= i < |r| ==>
      r[i].pageContent == chunks[i].pageContent && r[i].metadata.source == chunks[i].metadata.source
  {
    seq(|chunks|, i requires 0 <= i < |chunks| => chunks[i].(metadata := chunks[i].metadata.(chunkIndex := Some(i))))
  }

  /** The chunks of every document, document after document. */
  function ChunksOf(split: Splitter, docs: seq<Document>): seq<Document>
    decreases |docs|
  {
    if docs == [] then []
    else ChunksOf(split, docs[..|docs| - 1]) + Tagged(split(IngestSplitter, [docs[|docs| - 1]]))
  }

  /** The registry after registering, in order, every document whose hash `existing` lacks. */
  function Registered(existing: map<string, string>, docs: seq<Document>, files: map<string, seq<byte>>,
                      sha: seq<byte> -> string): map<string, string>
    requires AllPresent(files, docs)
    decreases |docs|
  {
    if docs == [] then existing
    else
      var d := docs[|docs| - 1];
      var m := Registered(existing, docs[..|docs| - 1], files, sha);
      if HashOf(files, sha, d) !in existing then m[HashOf(files, sha, d) := d.metadata.source] else m
  }

  /** The documents whose hash `existing` lacks, in order. */
  function FreshDocs(existing: map<string, string>, docs: seq<Document>, files: map<string, seq<byte>>,
                     sha: seq<byte> -> string): seq<Document>
    requires AllPresent(files, docs)
    decreases |docs|
  {
    if docs == [] then []
    else
      var d := docs[|docs| - 1];
      FreshDocs(existing, docs[..|docs| - 1], files, sha) + (if HashOf(files, sha, d) !in existing then [d] else [])
  }

  /** The index after adding `chunks`: nothing is written when there are none. */
  function UpdatedIndex(db: Option<seq<Document>>, chunks: seq<Document>): (r: Option<seq<Document>>)
    ensures chunks == [] ==> r == db
    ensures chunks != [] ==> r.Some? && r.value == (if db.Some? then db.value else []) + chunks
  {
    if chunks == [] then db
    else if db.Some? then Some(db.value + chunks)
    else Some(chunks)
  }

  // ---- The manager ----

  class PdfDatabaseManager {
    const pdfDataPath: string
    const vectorDbPath: string
    const hashStorePath: string
    /** The registry saved at `hashStorePath`, None while that file does not exist. */
    var hashStore: Option<map<string, string>>
    /** The chunks the index at `vectorDbPath` holds, None while no index has been saved. */
    var vectorDb: Option<seq<Document>>

    constructor(pdfDataPath: string, vectorDbPath: string, hashStorePath: string,
                hashStore: Option<map<string, string>>, vectorDb: Option<seq<Document>>)
      ensures this.pdfDataPath == pdfDataPath && this.vectorDbPath == vectorDbPath && this.hashStorePath == hashStorePath
      ensures this.hashStore == hashStore && this.vectorDb == vectorDb
    {
      this.pdfDataPath := pdfDataPath;
      this.vectorDbPath := vectorDbPath;
      this.hashStorePath := hashStorePath;
      this.hashStore := hashStore;
      this.vectorDb := vectorDb;
    }

    /**
     * `calculate_file_hash(path)`: the file is fed to the hasher in blocks of 4096 bytes, in
     * order, so the digest is that of the whole file; a missing file raises FileNotFoundError.
     */
    method CalculateFileHash(files: map<string, seq<byte>>, path: string, sha: seq<byte> -> string)
      returns (r: Option<string>)
      ensures path in files ==> r == Some(sha(files[path]))
      ensures path !in files ==> r == None
    {
      if path !in files {
        return None;
      }
      var data := files[path];
      var fed: seq<byte> := [];
      var pos := 0;
      while pos < |data|
        invariant pos <= |data| && fed == data[..pos]
        decreases |data| - pos
      {
        var next := if pos + BlockSize <= |data| then pos + BlockSize else |data|;
        var block := data[pos..next];
        assert data[..next] == data[..pos] + block;
        fed := fed + block;
        pos := next;
      }
      assert data[..pos] == data;
      r := Some(sha(fed));
    }

    /** `load_existing_hashes()`: the saved registry, or the empty one when none was saved. */
    function LoadExistingHashes(): (r: map<string, string>)
      reads this
      ensures hashStore.None? ==> r == map[]
      ensures hashStore.Some? ==> r == hashStore.value
    {
      Loaded(hashStore)
    }

    /** `save_hashes(hashes)`: overwrites the saved registry. */
    method SaveHashes(hashes: map<string, string>)
      modifies this
      ensures hashStore == Some(hashes) && vectorDb == old(vectorDb)
    {
      hashStore := Some(hashes);
    }

    /** `load_existing_db()`: the saved index, if there is one. */
    function LoadExistingDb(): (r: Option<seq<Document>>)
      reads this
      ensures r == vectorDb
    {
      vectorDb
    }

    /**
     * `process_document(doc)`: splits `[doc]` with 512-character chunks overlapping by 256 and
     * sets `chunk_index` of the i-th chunk to i.
     */
    method ProcessDocument(doc: Document, split: Splitter) returns (chunks: seq<Document>)
      ensures chunks == Tagged(split(IngestSplitter, [doc]))
      ensures forall i :: 0 <= i < |chunks| ==> chunks[i].metadata.chunkIndex == Some(i)
    {
      chunks := split(IngestSplitter, [doc]);
      ghost var original := chunks;
      for i := 0 to |chunks|
        invariant |chunks| == |original|
        invariant forall k :: 0 <= k < i ==> chunks[k] == Tagged(original)[k]
        invariant forall k :: i <= k < |chunks| ==> chunks[k] == original[k]
      {
        chunks := chunks[i := chunks[i].(metadata := chunks[i].metadata.(chunkIndex := Some(i)))];
      }
    }

    /** Adds chunks to the saved index, or saves a new index holding them; no chunks, no write. */
    method AddToIndex(chunks: seq<Document>)
      modifies this
      ensures vectorDb == UpdatedIndex(old(vectorDb), chunks) && hashStore == old(hashStore)
    {
      if chunks != [] {
        var existingDb := LoadExistingDb();
        if existingDb.Some? {
          vectorDb := Some(existingDb.value + chunks);
        } else {
          vectorDb := Some(chunks);
        }
      }
    }

    /**
     * `create_db_from_files()`: every page of the PDF folder whose file hash the saved registry
     * lacks is chunked, its chunks go to the index, its hash is registered with its path, and
     * the registry is saved, even when nothing was new. A file that cannot be opened stops the
     * call before anything is written.
     */
    method CreateDbFromFiles(files: map<string, seq<byte>>, caps: Capabilities) returns (r: Outcome)
      modifies this
      ensures var docs := caps.loadDirectory(pdfDataPath);
        r.FileNotFound? <==> !AllPresent(files, docs)
      ensures r.FileNotFound? ==> r.path !in files && hashStore == old(hashStore) && vectorDb == old(vectorDb)
      ensures !r.FileNotFound? ==> r == Indexed
      ensures var docs := caps.loadDirectory(pdfDataPath); var existing := Loaded(old(hashStore));
        r == Indexed ==>
          && AllPresent(files, docs)
          && hashStore == Some(Registered(existing, docs, files, caps.sha256))
          && vectorDb == UpdatedIndex(old(vectorDb), ChunksOf(caps.split, FreshDocs(existing, docs, files, caps.sha256)))
    {
      var documents := caps.loadDirectory(pdfDataPath);
      var existing := LoadExistingHashes();
      var newHashes := existing;
      var allChunks: seq<Document> := [];
      for i := 0 to |documents|
        invariant AllPresent(files, documents[..i])
        invariant newHashes == Registered(existing, documents[..i], files, caps.sha256)
        invariant allChunks == ChunksOf(caps.split, FreshDocs(existing, documents[..i], files, caps.sha256))
        invariant hashStore == old(hashStore) && vectorDb == old(vectorDb)
      {
        var doc := documents[i];
        var path := doc.metadata.source;
        var fileHash := CalculateFileHash(files, path, caps.sha256);
        if fileHash.None? {
          MissingSource(files, documents, i);
          return FileNotFound(path);
        }
        RegisterStep(existing, documents, i, files, caps.sha256);
        if fileHash.value !in existing {
          var chunks := ProcessDocument(doc, caps.split);
          ghost var before := FreshDocs(existing, documents[..i], files, caps.sha256);
          assert HashOf(files, caps.sha256, doc) == fileHash.value;
          assert FreshDocs(existing, documents[..i + 1], files, caps.sha256) == before + [doc];
          ChunksOfAppend(caps.split, before, doc);
          allChunks := allChunks + chunks;
          assert allChunks == ChunksOf(caps.split, before + [doc]);
          newHashes := newHashes[fileHash.value := path];
        } else {
          ghost var before := FreshDocs(existing, documents[..i], files, caps.sha256);
          assert HashOf(files, caps.sha256, doc) == fileHash.value;
          assert before + [] == before;
          assert FreshDocs(existing, documents[..i + 1], files, caps.sha256) == before;
        }
      }
      assert documents[..|documents|] == documents;
      AddToIndex(allChunks);
      SaveHashes(newHashes);
      r := Indexed;
    }

    /**
     * `is_pdf_exists(path)`: whether the file's hash is a key of the saved registry (never,
     * when no registry was saved); a file that cannot be opened raises FileNotFoundError.
     */
    method IsPdfExists(files: map<string, seq<byte>>, path: string, sha: seq<byte> -> string) returns (r: Option<bool>)
      ensures path !in files ==> r == None
      ensures path in files ==> r == Some(sha(files[path]) in Loaded(hashStore))
      ensures path in files && hashStore.None? ==> r == Some(false)
    {
      var fileHash := CalculateFileHash(files, path, sha);
      if fileHash.None? {
        return None;
      }
      var existing := LoadExistingHashes();
      r := Some(fileHash.value in existing);
    }

    /**
     * `update_db(path)`: a file whose hash is registered is left alone; otherwise every page
     * of it is chunked, the chunks go to the index, and `hash -> path` is registered and
     * saved, even when the file produced no chunks.
     */
    method UpdateDb(files: map<string, seq<byte>>, path: string, caps: Capabilities) returns (r: Outcome)
      modifies this
      ensures r.FileNotFound? <==> path !in files
      ensures r.FileNotFound? ==> r.path == path
      ensures r.FileNotFound? || r == AlreadyIndexed ==> hashStore == old(hashStore) && vectorDb == old(vectorDb)
      ensures path in files ==> (r == AlreadyIndexed <==> caps.sha256(files[path]) in Loaded(old(hashStore)))
      ensures r == Indexed ==>
        hashStore == Some(Loaded(old(hashStore))[caps.sha256(files[path]) := path]) &&
        vectorDb == UpdatedIndex(old(vectorDb), ChunksOf(caps.split, caps.loadPdf(path)))
    {
      var fileHash := CalculateFileHash(files, path, caps.sha256);
      if fileHash.None? {
        return FileNotFound(path);
      }
      var existingHashes := LoadExistingHashes();
      if fileHash.value in existingHashes {
        return AlreadyIndexed;
      }
      var documents := caps.loadPdf(path);
      var allChunks: seq<Document> := [];
      for i := 0 to |documents|
        invariant allChunks == ChunksOf(caps.split, documents[..i])
        invariant hashStore == old(hashStore) && vectorDb == old(vectorDb)
      {
        var chunks := ProcessDocument(documents[i], caps.split);
        ChunksOfAppend(caps.split, documents[..i], documents[i]);
        assert documents[..i + 1] == documents[..i] + [documents[i]];
        allChunks := allChunks + chunks;
      }
      assert documents[..|documents|] == documents;
      AddToIndex(allChunks);
      existingHashes := existingHashes[fileHash.value := path];
      SaveHashes(existingHashes);
      r := Indexed;
    }
  }

  // ---- Properties of the registry and of the chunks ----

  /** A document whose file is missing makes the whole folder fail. */
  lemma MissingSource(files: map<string, seq<byte>>, docs: seq<Document>, i: int)
    requires 0 <= i < |docs| && docs[i].metadata.source !in files
    ensures !AllPresent(files, docs)
  {
    assert docs[i] in docs;
  }

  /** One more document of the folder: the registry and the fresh documents grow as the loop does. */
  lemma RegisterStep(existing: map<string, string>, docs: seq<Document>, i: int,
                     files: map<string, seq<byte>>, sha: seq<byte> -> string)
    requires 0 <= i < |docs| && AllPresent(files, docs[..i]) && docs[i].metadata.source in files
    ensures AllPresent(files, docs[..i + 1])
    ensures var d := docs[i]; var m := Registered(existing, docs[..i], files, sha);
      Registered(existing, docs[..i + 1], files, sha) ==
        (if HashOf(files, sha, d) !in existing then m[HashOf(files, sha, d) := d.metadata.source] else m)
    ensures var d := docs[i];
      FreshDocs(existing, docs[..i + 1], files, sha) ==
        FreshDocs(existing, docs[..i], files, sha) + (if HashOf(files, sha, d) !in existing then [d] else [])
  {
    assert docs[..i + 1] == docs[..i] + [docs[i]];
    assert docs[..i + 1][..i] == docs[..i];
  }

  lemma ChunksOfAppend(split: Splitter, docs: seq<Document>, d: Document)
    ensures ChunksOf(split, docs + [d]) == ChunksOf(split, docs) + Tagged(split(IngestSplitter, [d]))
  {
    assert (docs + [d])[..|docs|] == docs;
  }

  /** Registering never changes or removes an entry that was loaded. */
  lemma {:induction false} RegisteredKeepsExisting(existing: map<string, string>, docs: seq<Document>,
                                                   files: map<string, seq<byte>>, sha: seq<byte> -> string)
    requires AllPresent(files, docs)
    ensures forall h :: h in existing ==>
      (h in Registered(existing, docs, files, sha) && Registered(existing, docs, files, sha)[h] == existing[h])
    decreases |docs|
  {
    if docs != [] {
      RegisteredKeepsExisting(existing, docs[..|docs| - 1], files, sha);
    }
  }

  /** The hashes of the documents of `docs` that `existing` lacks. */
  function NewHashes(existing: map<string, string>, docs: seq<Document>, files: map<string, seq<byte>>,
                     sha: seq<byte> -> string): set<string>
    requires AllPresent(files, docs)
  {
    set d | d in docs && HashOf(files, sha, d) !in existing :: HashOf(files, sha, d)
  }

  /** The registered keys are the loaded keys plus the hash of every document that was new. */
  lemma {:induction false} RegisteredKeys(existing: map<string, string>, docs: seq<Document>,
                                          files: map<string, seq<byte>>, sha: seq<byte> -> string)
    requires AllPresent(files, docs)
    ensures Registered(existing, docs, files, sha).Keys == existing.Keys + NewHashes(existing, docs, files, sha)
    decreases |docs|
  {
    if docs != [] {
      var init, d := docs[..|docs| - 1], docs[|docs| - 1];
      assert docs == init + [d];
      RegisteredKeys(existing, init, files, sha);
      assert forall x :: x in docs <==> x in init || x == d;
      assert NewHashes(existing, docs, files, sha) ==
        NewHashes(existing, init, files, sha) + (if HashOf(files, sha, d) !in existing then {HashOf(files, sha, d)} else {});
    }
  }

  /**
   * A new entry maps the hash to the path of the last document with that hash: when several
   * new files have the same bytes, the last one processed wins.
   */
  lemma RegisteredFromLast(existing: map<string, string>, docs: seq<Document>,
                            files: map<string, seq<byte>>, sha: seq<byte> -> string, h: string)
    requires AllPresent(files, docs)
    requires h in Registered(existing, docs, files, sha) && h !in existing
    ensures exists j ::
      (0 <= j < |docs| && HashOf(files, sha, docs[j]) == h &&
       Registered(existing, docs, files, sha)[h] == docs[j].metadata.source &&
       forall k :: j < k < |docs| ==> HashOf(files, sha, docs[k]) != h)
  {
    var j := LastWithHash(existing, docs, files, sha, h);
  }

  /** The position of the document whose path a new registry entry records. */
  lemma {:induction false} LastWithHash(existing: map<string, string>, docs: seq<Document>,
                                        files: map<string, seq<byte>>, sha: seq<byte> -> string, h: string)
    returns (j: nat)
    requires AllPresent(files, docs)
    requires h in Registered(existing, docs, files, sha) && h !in existing
    ensures j < |docs| && HashOf(files, sha, docs[j]) == h
    ensures Registered(existing, docs, files, sha)[h] == docs[j].metadata.source
    ensures forall k :: j < k < |docs| ==> HashOf(files, sha, docs[k]) != h
    decreases |docs|
  {
    var init, d := docs[..|docs| - 1], docs[|docs| - 1];
    if HashOf(files, sha, d) == h {
      j := |docs| - 1;
    } else {
      var i := LastWithHash(existing, init, files, sha, h);
      assert docs[i] == init[i];
      forall k | i < k < |docs|
        ensures HashOf(files, sha, docs[k]) != h
      {
        if k < |init| {
          assert docs[k] == init[k];
        }
      }
      j := i;
    }
  }

  /**
   * Chunking is decided against the loaded registry, not against the entries added during the
   * same call: a document is chunked exactly when its hash was absent at load time, so all
   * pages of a new file are chunked, and so are files with identical bytes.
   */
  lemma {:induction false} FreshDocsIff(existing: map<string, string>, docs: seq<Document>,
                                        files: map<string, seq<byte>>, sha: seq<byte> -> string, d: Document)
    requires AllPresent(files, docs)
    ensures d in FreshDocs(existing, docs, files, sha) <==> d in docs && HashOf(files, sha, d) !in existing
    decreases |docs|
  {
    if docs != [] {
      var init := docs[..|docs| - 1];
      assert docs == init + [docs[|docs| - 1]];
      FreshDocsIff(existing, init, files, sha, d);
    }
  }

  /** A chunk reaches the index exactly when it is a chunk of one of the documents. */
  lemma {:induction false} ChunksOfIff(split: Splitter, docs: seq<Document>, c: Document)
    ensures c in ChunksOf(split, docs) <==> exists d :: d in docs && c in Tagged(split(IngestSplitter, [d]))
    decreases |docs|
  {
    if docs != [] {
      var init, last := docs[..|docs| - 1], docs[|docs| - 1];
      assert docs == init + [last];
      ChunksOfIff(split, init, c);
      if c in Tagged(split(IngestSplitter, [last])) {
        assert last in docs;
      }
      if d :| d in docs && c in Tagged(split(IngestSplitter, [d])) {
        assert d in init || d == last;
      }
    }
  }

  /** Every document's hash is a key of the registry that registering them produces. */
  lemma {:induction false} AllRegistered(existing: map<string, string>, docs: seq<Document>,
                                         files: map<string, seq<byte>>, sha: seq<byte> -> string)
    requires AllPresent(files, docs)
    ensures forall d :: d in docs ==> HashOf(files, sha, d) in Registered(existing, docs, files, sha)
    decreases |docs|
  {
    if docs != [] {
      var init, last := docs[..|docs| - 1], docs[|docs| - 1];
      assert docs == init + [last];
      AllRegistered(existing, init, files, sha);
      RegisteredKeepsExisting(existing, init, files, sha);
      forall d | d in docs
        ensures HashOf(files, sha, d) in Registered(existing, docs, files, sha)
      {
        if d != last {
          assert d in init;
        }
      }
    }
  }

  /** Against a registry that already holds every hash, nothing is fresh and nothing is added. */
  lemma {:induction false} NothingFresh(known: map<string, string>, docs: seq<Document>,
                                        files: map<string, seq<byte>>, sha: seq<byte> -> string)
    requires AllPresent(files, docs)
    requires forall d :: d in docs ==> HashOf(files, sha, d) in known
    ensures FreshDocs(known, docs, files, sha) == []
    ensures Registered(known, docs, files, sha) == known
    decreases |docs|
  {
    if docs != [] {
      var init := docs[..|docs| - 1];
      assert docs == init + [docs[|docs| - 1]];
      NothingFresh(known, init, files, sha);
    }
  }

  /**
   * Running `create_db_from_files` a second time over the same folder changes nothing: the
   * registry stays as the first run saved it and no chunk is added to the index.
   */
  lemma RerunChangesNothing(existing: map<string, string>, docs: seq<Document>,
                            files: map<string, seq<byte>>, sha: seq<byte> -> string, split: Splitter,
                            db: Option<seq<Document>>)
    requires AllPresent(files, docs)
    ensures var saved := Registered(existing, docs, files, sha);
      Registered(saved, docs, files, sha) == saved &&
      UpdatedIndex(db, ChunksOf(split, FreshDocs(saved, docs, files, sha))) == db
  {
    AllRegistered(existing, docs, files, sha);
    NothingFresh(Registered(existing, docs, files, sha), docs, files, sha);
  }
}
