/**
 * The text side of `DocumentProcessor` (document_processor.py): `process_text` repeats the
 * two substitutions of `extract_text`, and `create_chunks` cleans every chunk the splitter
 * produces. The splitter is a parameter; the embedding model and the index writer are not
 * part of this module.
 */
module DocumentProcessor {
  import opened Text
  import opened Rewrite
  import opened Documents
  import PrepareVectorDb

  /**
   * `process_text(text)`: the two substitutions written out again in this file; it is the
   * same function as `extract_text`, so it inherits all of that function's guarantees.
   */
  function ProcessText(text: string): (r: string)
    ensures r == PrepareVectorDb.ExtractText(text)
    ensures !Contains(r, "\n\n\n")
    ensures |r| <= |text|
    ensures RemoveSpace(r) == RemoveSpace(text)
    ensures '\n' !in text ==> r == text
  {
    var collapsed := Sub(text, 0, PrepareVectorDb.NewlineRunAt);
    Sub(collapsed, 0, PrepareVectorDb.BrokenLineAt)
  }

  /**
   * `create_chunks(documents)`: the splitter runs with the separators, size and overlap of
   * document_processor.py; one cleaned string comes back per chunk, in the splitter's order,
   * free of `\n\n\n` and with exactly the chunk's non-whitespace characters.
   */
  function CreateChunks(documents: seq<Document>, split: Splitter): (r: seq<string>)
    ensures |r| == |split(IngestSplitter, documents)|
    ensures forall i :: 0 <= i < |r| ==> r[i] == ProcessText(split(IngestSplitter, documents)[i].pageContent)
    ensures forall i :: 0 <= i < |r| ==> !Contains(r[i], "\n\n\n")
    ensures forall i :: 0 <= i < |r| ==>
      RemoveSpace(r[i]) == RemoveSpace(split(IngestSplitter, documents)[i].pageContent)
  {
    var chunks := split(IngestSplitter, documents);
    seq(|chunks|, i requires 0 <= i < |chunks| => ProcessText(chunks[i].pageContent))
  }
}
