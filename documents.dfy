/**
 * The document records that LangChain's loaders and text splitter pass around, reduced to
 * the fields the core reads or writes.
 */
module Documents {
  import opened Wrappers

  /** `doc.metadata`: the source path set by the PDF loader and the chunk ordinal set at ingestion. */
  datatype Metadata = Metadata(source: string, chunkIndex: Option<nat>)

  /** A LangChain `Document`: a page or a chunk of one. */
  datatype Document = Document(pageContent: string, metadata: Metadata)

  /** The configuration handed to `RecursiveCharacterTextSplitter` (its length function is `len`). */
  datatype SplitterConfig = SplitterConfig(separators: seq<string>, chunkSize: nat, chunkOverlap: nat)

  /** The splitter used for ingestion and for the document processor: 512 characters, 256 of overlap. */
  const IngestSplitter := SplitterConfig(["\n\n", "\n", " ", ".", "!", "?", ""], 512, 256)

  /**
   * `RecursiveCharacterTextSplitter(config).split_documents(docs)`, a foreign library call
   * whose behaviour the core does not depend on beyond returning a list of documents.
   */
  type Splitter = (SplitterConfig, seq<Document>) -> seq<Document>
}
