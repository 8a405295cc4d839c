# Chat-with-PDF core, modelled in Dafny

Chat-with-PDF is a question-answering chatbot over PDF files. Its pages are chunked and put in a FAISS vector index. A question is answered either directly by a Gemini chat session or from the chunks most similar to it. This project models the logic the repository itself implements around the LangChain, FAISS and Gemini calls, and proves properties of it:

- **Ingestion registry** (`PdfProcessor`, pdf_processor.py). `PDFDatabaseManager` keeps a JSON registry that maps the SHA-256 of a file's bytes to its path, plus one vector index. Two loops feed the index: `create_db_from_files` over a folder and `update_db` over a single file.
  - Only documents whose hash is missing from the loaded registry are chunked.
  - Every chunk is tagged with its ordinal.
  - New chunks extend the index, or create it when there is none.
  - The registry is then saved.
  - The manager is a class. Its two stores are fields: `hashStore` (the registry file) and `vectorDb` (the index, as the sequence of chunks it holds).
  - Each method is proved against specification functions: `Registered`, `FreshDocs`, `ChunksOf`, `UpdatedIndex` and `Tagged`.
- **Text normalisation** (`PrepareVectorDb` and `DocumentProcessor`, prepare_vector_db.py and document_processor.py). `extract_text` and `process_text` run the same two `re.sub` calls:
  - first, runs of two or more newlines become a blank line;
  - then, a newline between two non-whitespace characters becomes a space.
  - `process_chunks` cleans a list of chunks in place.
  - `create_chunks` cleans every chunk the splitter returns.
- **Markdown stripping and end tokens** (`TextProcessor`, text_processor.py). `remove_markdown` is eight substitutions followed by `strip()`. `get_end_tokens` builds the set of stripped, non-empty lines of a file. `remove_stopwords` and `format_context` are identities.
- **Question router** (`BotMode`, botMode.py). `chatBotMode` holds a mode. It either chats directly, or asks the similarity search for two documents, expands the context of each one returned and extends the session's history before prompting the bot.
- **Token budget** (`Chat`, chat.py). `GeminiBot` counts tokens from the setup prompt on. Once the counter is over one million it refuses calls with the sentinel `"Out of tokens"`.

Shared pieces:

- `Text` holds Python's whitespace (`str.isspace`, regex `\s`), `strip`, `lstrip`, `rstrip`, `sep.join` and the lines of a text file.
- `Rewrite` holds `re.sub` as a left-to-right scan with a matcher per pattern. The scan tries the pattern at each position. Where it matches, it emits the replacement and resumes after the match. Otherwise it copies one character. Every pattern of the core is written as such a matcher. The matcher reproduces Python's backtracking result at that position: greedy and lazy repetitions, `.` not matching `\n`, and `^` under `re.MULTILINE`.
- `Documents` holds LangChain's `Document` and its metadata.
- `Wrappers` holds `Option`.

Foreign code is a parameter:

- SHA-256, the PDF loaders and the text splitter are fields of `PdfProcessor.Capabilities`;
- similarity search, `get_file_name`, `expand_context` and prompt rendering are fields of `BotMode.Services`;
- `count_tokens` and the chat session are `Chat.LanguageModel`;
- the PDF files are a map from path to bytes;
- the end-token file is its content, or None when it is missing.

## Notes on the code

- **One index.** All ingestion goes into a single FAISS index at `vector_db_path` (pdf_processor.py:13, 52-53, 80-86). The model's `vectorDb` field is that one index.
- **Identical bytes within one call.** Registry entries are keyed by hash, so files with identical bytes share one entry. Within one `create_db_from_files` call, every such file is still chunked and indexed. The test at pdf_processor.py:70 looks at `existing_hashes`, the registry as loaded, not at `new_hashes`. The entry records the path of the last such document (pdf_processor.py:72; `RegisteredFromLast`).
- **Unbounded history.** The `history_global` list is only ever appended to (botMode.py:35), and the newline-join of all of it is passed to the prompt template's `format` (botMode.py:36-37). The template shown in chat.py:47-65 has slots for `context` and `question` only, so that join does not reach the text sent to the bot.
- **Registry reads and writes.** `save_hashes` overwrites the file with a plain `json.dump` (pdf_processor.py:33-34). `load_existing_hashes` returns `{}` only when the file is missing (pdf_processor.py:26-29). A file that exists but does not parse makes `json.load` raise.

## Model

| member | source | states |
|---|---|---|
| Text.IsSpace | text_processor.py:25 | Python's whitespace set (`str.isspace`, used by `strip()` and by `\s`), written out character by character |
| Text.Strip | text_processor.py:25 | `str.strip()` as `rstrip` after `lstrip`; its meaning is stated by `Text.StripSpec` and `Text.StripKeepsWords` |
| Text.StripSpec | text_processor.py:25 | `strip()` returns a slice of its input that neither starts nor ends with whitespace and is surrounded by whitespace only |
| Text.StripKeepsWords | text_processor.py:25 | `strip()` deletes whitespace and nothing else: the non-whitespace characters survive in order |
| Text.StripIdentity | text_processor.py:30 | a text with no whitespace at either end is its own `strip()`, so stripping twice changes nothing |
| Text.Lines | text_processor.py:29-30 | the lines a text file yields when iterated, each keeping its `\n`; stated by `Text.LinesSpec` |
| Text.LinesSpec | text_processor.py:29-30 | the lines of a file are non-empty, hold `\n` only as their last character and concatenate back to the file |
| Text.LineInText | text_processor.py:29-30 | every line of a file occurs in the file's content |
| Text.Join | botMode.py:32 | `sep.join(xs)`; stated by `Text.JoinAppend`, `Text.JoinLength` and `Text.JoinContains` |
| Text.JoinAppend | botMode.py:35-36 | joining a list with one more element appends the separator (when the list was non-empty) and that element |
| Text.JoinLength | botMode.py:32 | a join is as long as the elements plus one separator between each two |
| Text.JoinContains | botMode.py:32 | every element of a join occurs in the joined text |
| Rewrite.Sub | prepare_vector_db.py:34-37 | `re.sub(pattern, repl, s)` scanned from position `i`: at each position the pattern is tried, a match is replaced and the scan resumes at its end, otherwise one character is copied; stated by the `Rewrite` lemmas below |
| Rewrite.SubUnchanged | text_processor.py:10-24 | `re.sub` returns the text unchanged when the pattern matches nowhere |
| Rewrite.SubCopies | text_processor.py:10-24 | a stretch where the pattern never matches is copied to the output as it is |
| Rewrite.OneMatch | text_processor.py:17 | a text with exactly one match becomes the text before it, the replacement and the text after it |
| Rewrite.SubShrinks | prepare_vector_db.py:34 | when no replacement is longer than what it replaces, `re.sub` does not lengthen the text |
| Rewrite.SubKeepsLength | prepare_vector_db.py:35-37 | when every replacement is as long as what it replaces, `re.sub` keeps the length |
| Rewrite.SubKeepsWords | prepare_vector_db.py:33-38 | when every replacement only changes whitespace, so does `re.sub` |
| Rewrite.CountRun | text_processor.py:15 | a greedy repetition of a character class takes every matching character from the position on and stops at the first one that does not match |
| Rewrite.CountRunIs | text_processor.py:15 | a run of exactly `n` class characters followed by a non-member is taken as `n` characters |
| Rewrite.LazyEndFound | text_processor.py:11-17 | where a lazy `.*?` stops, the closing pattern holds, and no earlier position on the way is a newline or a closing position |
| Rewrite.LazyEndExact | text_processor.py:11-17 | a lazy `.*?` stops exactly at the first closing position on the line |
| PrepareVectorDb.NewlineRunAt | prepare_vector_db.py:34 | the pattern `\n{2,}` at a position: the greedy run of newlines, when it has at least two, replaced by `\n\n` |
| PrepareVectorDb.BrokenLineAt | prepare_vector_db.py:35-37 | the pattern `(\S)\n(\S)` at a position, replaced by `\1 \2` |
| PrepareVectorDb.CollapseNewlines | prepare_vector_db.py:34 | the first substitution of `extract_text`; stated by `PrepareVectorDb.CollapseNoTriple` and `PrepareVectorDb.MaximalRun` |
| PrepareVectorDb.JoinBrokenLines | prepare_vector_db.py:35-37 | the second substitution of `extract_text`; stated by `PrepareVectorDb.JoinBrokenLinesSpec` |
| PrepareVectorDb.ExtractText | prepare_vector_db.py:33-38 | the result never contains `\n\n\n`, is never longer than the input, keeps the non-whitespace characters in order, and equals the input when the input has no newline |
| PrepareVectorDb.CollapseNoTriple | prepare_vector_db.py:34 | after the first substitution no three newlines are adjacent; a first character that is not a newline is kept at the front |
| PrepareVectorDb.MaximalRun | prepare_vector_db.py:34 | a maximal run of newlines becomes exactly `\n\n` when it holds two or more and stays a single `\n` otherwise; the text on either side is treated independently |
| PrepareVectorDb.CollapseShrinks | prepare_vector_db.py:34 | the first substitution never lengthens the text |
| PrepareVectorDb.CollapseKeepsWords | prepare_vector_db.py:34 | the first substitution deletes newlines only |
| PrepareVectorDb.CollapseWithoutNewline | prepare_vector_db.py:34 | a text without a newline passes the first substitution unchanged |
| PrepareVectorDb.CollapsePrefix | prepare_vector_db.py:34 | the first substitution of `p + q` is that of `p` followed by the substitution of the rest, unless a newline run crosses the boundary |
| PrepareVectorDb.CollapseSuffix | prepare_vector_db.py:34 | the first substitution of `p + q`, from a position inside `q` on, is that of `q` alone |
| PrepareVectorDb.JoinBrokenLinesSpec | prepare_vector_db.py:35-37 | the second substitution keeps the length; output position `k` is a space exactly when input `k` is a newline between two non-whitespace characters whose left neighbour was not used by a match two positions earlier; every other character is kept |
| PrepareVectorDb.JoinLeftToRight | prepare_vector_db.py:35-37 | matches are taken left to right without overlap: `"a\nb\nc"` becomes `"a b\nc"` |
| PrepareVectorDb.JoinKeepsLength | prepare_vector_db.py:35-37 | the second substitution keeps the length |
| PrepareVectorDb.JoinKeepsWords | prepare_vector_db.py:35-37 | the second substitution turns newlines into spaces and changes nothing else that is not whitespace |
| PrepareVectorDb.JoinWithoutNewline | prepare_vector_db.py:35-37 | a text without a newline passes the second substitution unchanged |
| PrepareVectorDb.JoinKeepsNoTriple | prepare_vector_db.py:35-37 | the second substitution creates no `\n\n\n` |
| PrepareVectorDb.Cleaned | prepare_vector_db.py:42 | a cleaned chunk has `extract_text` of its content and unchanged metadata |
| PrepareVectorDb.ProcessChunks | prepare_vector_db.py:40-43 | the same list comes back, and in place every chunk, at its position, has its content replaced by `extract_text` of it and its metadata untouched |
| DocumentProcessor.ProcessText | document_processor.py:15-19 | `process_text` is the same function as `extract_text`: no `\n\n\n`, never longer, same non-whitespace characters, identity without newlines |
| DocumentProcessor.CreateChunks | document_processor.py:21-29 | one string per splitter chunk, in splitter order; element `i` is `process_text` of chunk `i`'s content, so it holds no `\n\n\n` and keeps that chunk's non-whitespace characters |
| TextProcessor.StarAt | text_processor.py:11 | the pattern `\*{1,2}(.*?)\*{1,2}` at a position, as Python's backtracking finds it (two opening stars first, one given back when no closing star follows on the line), replaced by the group |
| TextProcessor.TildeAt | text_processor.py:13 | the pattern `~~(.*?)~~` at a position, with the lazy group ending at the first `~~` on the line, replaced by the group |
| TextProcessor.HeaderAt | text_processor.py:15 | the pattern `^#{1,6}\s` under `re.MULTILINE`; stated by `TextProcessor.HeaderAtIff` |
| TextProcessor.LinkAt | text_processor.py:17 | the pattern `\[(.*?)\]\(.*?\)`: the first `](` on the line whose target closes on the line, then the first `)`, replaced by the link text; stated by `TextProcessor.LinkMatch` |
| TextProcessor.BlockquoteAt | text_processor.py:19 | the pattern `^\s*>\s` under `re.MULTILINE`, whose `\s*` may run across blank lines; stated by `TextProcessor.QuoteSwallowsBlankLine` |
| TextProcessor.RuleAt | text_processor.py:21 | the pattern `^\s*[-*_]{3,}\s*$` under `re.MULTILINE`, the trailing `\s*` giving back whitespace until `$` holds |
| TextProcessor.ListAt | text_processor.py:23 | the pattern `^\s*[-*+]\s` under `re.MULTILINE`, replaced by nothing |
| TextProcessor.NumberedAt | text_processor.py:24 | the pattern `^\s*\d+\.\s` under `re.MULTILINE`; stated by `TextProcessor.NumberedAtIff` |
| TextProcessor.MarkdownStages | text_processor.py:10-24 | the eight substitutions of `remove_markdown` in source order, each applied to the previous one's output |
| TextProcessor.DollarBack | text_processor.py:21 | the trailing `\s*$` of a rule gives whitespace back until it stands before a newline or at the end of the text, and fails when no such position exists |
| TextProcessor.RemoveMarkdown | text_processor.py:4-25 | the result neither starts nor ends with whitespace and is the eight-stage substitution with only whitespace cut from its ends |
| TextProcessor.HeaderAtIff | text_processor.py:15 | the header pattern matches at a position exactly when a line starts there with one to six `#` and a whitespace character, and it deletes exactly that marker |
| TextProcessor.HeaderLineLosesMarker | text_processor.py:15 | a line that starts with a header marker loses the marker; the rest of the text is processed from just after it |
| TextProcessor.NumberedAtIff | text_processor.py:24 | the numbered-list pattern matches at a line start exactly when indentation, digits, `.` and a whitespace character follow, and it deletes exactly that marker |
| TextProcessor.NumberedMarkerMatches | text_processor.py:24 | such a marker is matched and replaced by nothing |
| TextProcessor.NumberedLineLosesMarker | text_processor.py:24 | a numbered line loses its marker in the stage output: the scan resumes just after the `.` and the whitespace character |
| TextProcessor.LinkMatch | text_processor.py:17 | a `[` whose text reaches the first `](` on the line, followed by the first `)`, matches up to that `)` and is replaced by the link text |
| TextProcessor.LinkStageReplaces | text_processor.py:17 | with no `[` before it, a one-line link `[t](u)`, with no `]` in `t` and no `)` in `u`, is replaced by `t`, and the text after it goes through the link stage on its own, so later links are replaced in turn |
| TextProcessor.LinkSuffix | text_processor.py:17 | from any position of the text after a link on, the link stage of the whole text equals the link stage of that later text alone: the pattern never looks back across the end of a replaced link |
| TextProcessor.LinkKeepsText | text_processor.py:4-25 | in otherwise plain text, `remove_markdown` turns such a link into its text `t` and strips the result |
| TextProcessor.PlainTextOnlyStripped | text_processor.py:4-25 | a text holding none of the characters the patterns need is only stripped |
| TextProcessor.StarIdle | text_processor.py:11 | without `*` the emphasis stage changes nothing |
| TextProcessor.TildeIdle | text_processor.py:13 | without `~` the strikethrough stage changes nothing |
| TextProcessor.HeaderIdle | text_processor.py:15 | without `#` the header stage changes nothing |
| TextProcessor.LinkIdle | text_processor.py:17 | without `[` the link stage changes nothing |
| TextProcessor.BlockquoteIdle | text_processor.py:19 | without markup characters the blockquote stage changes nothing |
| TextProcessor.TailStagesIdle | text_processor.py:21-24 | without markup characters the rule and list stages change nothing |
| TextProcessor.QuoteSwallowsBlankLine | text_processor.py:19 | the blockquote pattern's leading `\s*` also takes newlines, so the blank line before a quote goes with the `> ` marker: `"a\n\n> b"` becomes `"a\nb"` |
| TextProcessor.RemoveStopwords | text_processor.py:37-43 | the query comes back unchanged |
| TextProcessor.FormatContext | text_processor.py:45-51 | the context comes back unchanged |
| TextProcessor.EndTokens | text_processor.py:27-35 | a missing file gives the empty set; every token is non-empty and already stripped, and every non-blank line of the file gives its stripped form as a token |
| TextProcessor.StrippedTwice | text_processor.py:30 | the stripped lines are fixed points of `strip()` |
| TextProcessor.EndTokenInFile | text_processor.py:30 | every end token occurs in the file and holds no newline |
| TextProcessor.StrippedLineOneLine | text_processor.py:29-30 | a stripped line of a file holds no newline |
| PdfProcessor.Registered | pdf_processor.py:61-72 | the registry `new_hashes` after registering, document by document, every document whose hash the loaded registry lacks; stated by `PdfProcessor.RegisteredKeepsExisting`, `PdfProcessor.RegisteredKeys` and `PdfProcessor.RegisteredFromLast` |
| PdfProcessor.FreshDocs | pdf_processor.py:67-71 | the documents submitted for chunking, in order; stated by `PdfProcessor.FreshDocsIff` |
| PdfProcessor.ChunksOf | pdf_processor.py:64-76 | `all_chunks`: the tagged chunks of every document, document after document; stated by `PdfProcessor.ChunksOfIff` |
| PdfProcessor.Tagged | pdf_processor.py:44-48 | there is one chunk per splitter chunk; the `i`-th has chunk index `i` and keeps its content and source |
| PdfProcessor.UpdatedIndex | pdf_processor.py:78-88 | no chunks, no write; otherwise the chunks are appended to the saved index, or a new index holds exactly them |
| PdfProcessor.PdfDatabaseManager.constructor | pdf_processor.py:11-14 | the three paths are stored; the two stores start as they are found |
| PdfProcessor.PdfDatabaseManager.CalculateFileHash | pdf_processor.py:16-22 | the 4096-byte blocks, fed in order, concatenate to the whole file, so the digest is the hash of the file's bytes; a missing file gives no hash |
| PdfProcessor.PdfDatabaseManager.LoadExistingHashes | pdf_processor.py:24-29 | the saved registry, or the empty map when none was saved |
| PdfProcessor.PdfDatabaseManager.SaveHashes | pdf_processor.py:31-34 | the saved registry is replaced; the index is untouched |
| PdfProcessor.PdfDatabaseManager.LoadExistingDb | pdf_processor.py:50-54 | the saved index, if there is one |
| PdfProcessor.PdfDatabaseManager.ProcessDocument | pdf_processor.py:36-48 | the splitter's chunks of the one document, the `i`-th tagged with chunk index `i` |
| PdfProcessor.PdfDatabaseManager.AddToIndex | pdf_processor.py:78-88 | the index becomes `UpdatedIndex` of the chunks; the registry is untouched |
| PdfProcessor.PdfDatabaseManager.CreateDbFromFiles | pdf_processor.py:56-90 | a file that cannot be opened stops the call with nothing written; otherwise the registry saved holds every document registered in order, and the index gains the chunks of exactly the documents whose hash the loaded registry lacked |
| PdfProcessor.PdfDatabaseManager.IsPdfExists | pdf_processor.py:92-96 | true exactly when the file's hash is a key of the saved registry; false when none was saved; no answer for a missing file |
| PdfProcessor.PdfDatabaseManager.UpdateDb | pdf_processor.py:98-129 | a registered hash returns at once with both stores unchanged; otherwise every page's chunks go to the index, and the registry becomes the loaded one plus `hash -> path`, even when no chunk was produced |
| PdfProcessor.MissingSource | pdf_processor.py:67-69 | one document whose file is missing makes the whole folder fail |
| PdfProcessor.RegisterStep | pdf_processor.py:67-72 | one more document adds its hash to the registry and to the fresh documents exactly when the loaded registry lacks it |
| PdfProcessor.ChunksOfAppend | pdf_processor.py:74-76 | one more document appends its tagged chunks |
| PdfProcessor.RegisteredKeepsExisting | pdf_processor.py:61-72 | every loaded entry is kept with its value |
| PdfProcessor.RegisteredKeys | pdf_processor.py:61-72 | the saved keys are the loaded keys plus the hash of every document the loaded registry lacked |
| PdfProcessor.RegisteredFromLast | pdf_processor.py:72 | a new entry maps the hash to the path of the last document with that hash |
| PdfProcessor.LastWithHash | pdf_processor.py:72 | the position of that last document, which exists for each new entry |
| PdfProcessor.FreshDocsIff | pdf_processor.py:67-72 | a document is chunked exactly when its hash was absent at load time, so pages sharing one new hash are all chunked |
| PdfProcessor.ChunksOfIff | pdf_processor.py:64-76 | a chunk reaches the index exactly when it is a tagged chunk of one of the documents, whatever order they are collected in |
| PdfProcessor.AllRegistered | pdf_processor.py:67-72 | after registering, every document's hash is a key of the registry |
| PdfProcessor.NothingFresh | pdf_processor.py:61-90 | against a registry that holds every hash, nothing is chunked and nothing is added |
| PdfProcessor.RerunChangesNothing | pdf_processor.py:56-90 | a second run over the same folder saves the same registry and leaves the index as it was |
| Chat.Initial | chat.py:76-84 | the bot's state after `_setup`: the counter holds the setup prompt's token count and no message has been sent |
| Chat.Step | chat.py:87-100 | one call of `response`: refused with the sentinel and no change over the limit, otherwise the prefixed message is sent and the counter grows by the input's and the reply's token counts; `Chat.GeminiBot.Response` is proved against it |
| Chat.Run | chat.py:87-100 | a sequence of calls returns one text per input; that length is all `Run` itself promises, and what the calls do is stated by `CounterMonotone`, `StuckOverLimit`, `ServedPrefix` and `OvershootBounded` |
| Chat.GeminiBot.constructor | chat.py:68-84 | the counter starts at the token count of the setup prompt, and nothing has been sent |
| Chat.GeminiBot.Response | chat.py:87-100 | over the limit: the sentinel, nothing sent, counter unchanged; otherwise the prefixed input is sent, its reply returned, and the counter grows by the input's and the reply's token counts |
| Chat.CounterMonotone | chat.py:90-98 | over any sequence of calls the counter and the sent messages never decrease |
| Chat.StuckOverLimit | chat.py:92-93 | once over the limit, every further call returns the sentinel and changes nothing |
| Chat.ServedPrefix | chat.py:92-97 | the served calls are a prefix of the conversation: their inputs are sent, prefixed and in order, and every later call gets the sentinel |
| Chat.AdmittedCallOvershoots | chat.py:92-98 | a call admitted at exactly the limit can leave the counter above it, and the next call is refused |
| Chat.OvershootBounded | chat.py:90-98 | when no input of the conversation counts more than `bIn` tokens and no reply more than `bOut` (replies are capped by `max_output_tokens`, chat.py:24), a counter starting at most `bIn + bOut` above the limit stays at most that far above it |
| Chat.FirstCallServed | chat.py:83-97 | a fresh bot whose setup prompt fits the budget serves its first call |
| BotMode.SessionState.constructor | botMode.py:21-36 | the session holds the index the search reads (line 21) and the history log the router appends to (line 35), both taken as found |
| BotMode.ExpandedContexts | botMode.py:24-30 | the expanded context of each retrieved document, `expand_context(get_file_name(metadata), page_content)`, in retrieval order |
| BotMode.QueryContext | botMode.py:21-32 | the context of a pdf query: the newline-join of the expanded contexts of the documents the search returns for k=2; stated by `BotMode.ContextHoldsEachExpansion` |
| BotMode.ChatBotMode.constructor | botMode.py:11-12 | a new router starts in chat mode |
| BotMode.ChatBotMode.SetMode | botMode.py:14-15 | the mode is replaced and nothing else changes |
| BotMode.ChatBotMode.ProcessQuestion | botMode.py:17-40 | chat mode: the stripped reply, history untouched. pdf_query: the search is asked for two documents, one expanded context is made per returned document in order, the context is their newline-join, the history gains `question + context` at its end, the prompt receives the joined history, and the unstripped response comes back with the context. Any other mode: nothing, and nothing changes |
| BotMode.ContextHoldsEachExpansion | botMode.py:24-32 | there is one expanded context per retrieved document, and each occurs in the returned context |
| BotMode.HistoryEndsWithLatest | botMode.py:35-36 | the history text handed to the prompt ends with the entry just appended, after the earlier history and a newline |

## Left out

- PdfProcessor.PdfDatabaseManager.CreateDbFromFiles: chunks are collected in the order the documents are submitted. The source collects them with `as_completed`, whose order depends on thread timing. `ChunksOfIff` states which chunks reach the index independently of order.
- PdfProcessor.PdfDatabaseManager.UpdateDb: the same sequential fold over the pages replaces `as_completed` (pdf_processor.py:110-114).
- The thread pool itself is concurrency and is not modelled.
- A file that cannot be opened raises `FileNotFoundError` in the source. The model returns `None` or `Outcome.FileNotFound` instead, and nothing is written, as in the source.
- The PDF files are a map from path to bytes. `Capabilities.loadDirectory` gives the documents of the folder.
- JSON reading and writing of the registry is modelled as the `hashStore` field (pdf_processor.py:24-34). A store that exists but cannot be parsed is not modelled.
- FAISS `load_local`, `save_local`, `from_documents` and `add_documents` are modelled as the `vectorDb` field holding the chunks, so an index is the sequence of chunks it holds.
- Embedding is not modelled: embedding.py and `custom_embeddings` are not part of this model.
- SHA-256 is an uninterpreted function of the bytes.
- `RecursiveCharacterTextSplitter`, `PyPDFLoader` and `DirectoryLoader` are uninterpreted functions. Only their configuration (separators, 512, 256) is modelled.
- PrepareVectorDb.ProcessChunks: the chunks are values in an array. Aliasing between chunk objects, and other references to them, is not captured.
- Metadata other than `source` and `chunk_index` is not modelled.
- TextProcessor.NumberedAt: `\d` is the ASCII digits only. Python also accepts other Unicode decimal digits.
- Whitespace is Python's `str.isspace` set, written out character by character. This matches `\s` and `strip()` on `str`.
- TextProcessor.EndTokens: the file is read as text. Lines are split at `\n` only; the translation of `\r\n` and `\r` by Python's text mode is not modelled. Reading the file and its encoding are I/O.
- `remove_markdown` is modelled exactly, pattern by pattern. Its proved properties are the ones listed above; other regular-expression corner cases are covered by the model but not stated as lemmas.
- `ContextRetriever` (`get_file_name`, `expand_context`) is imported at botMode.py:5 from pdf_processor.py, which does not define it. It is not part of this model and stays abstract, as `Services`.
- The similarity search is the `similaritySearch` capability over the session's index.
- Chat.GeminiBot.Response, BotMode.ChatBotMode.ProcessQuestion: a `send_message`, `response.text` or `count_tokens` that raises (an API error, or a reply blocked under the safety settings at chat.py:27-44) is not modelled; the language model's calls are total here, so every admitted call returns a reply and advances the counter. In the source such a failure leaves `token_count` unchanged and returns no reply, while in pdf_query mode the entry already appended to `history_global` (botMode.py:35) stays there.
- The prompt template's `format` is the `renderPrompt` capability. The template in chat.py has slots for `context` and `question` only; the `history_global` argument it also receives is passed to the capability as given.
- The Gemini API, the API key, the generation and safety configuration and `start_chat` are provider plumbing.
- The chat session is `LanguageModel.reply`, a function of the messages sent so far and the new one.
- `count_tokens` is `LanguageModel.countTokens`, which yields natural numbers.
- The Streamlit session is reduced to `SessionState`, holding the index and `history_global`. The shown code never initialises `st.session_state.history_global`, so a session starts from any given history. app.py (the UI) is not part of this model.
- The module-level script code is not modelled: pdf_processor.py:132-157, prepare_vector_db.py:75, text_processor.py:53-55, chat.py:103-108, document_processor.py:44-51.
- `create_db_from_files` in prepare_vector_db.py (46-72) is not modelled. It is an older batch builder with its own splitter settings (1024, 64) and plain FAISS I/O around `process_chunks`.
- The `print` calls are output only and are not modelled.
- Other files are left out:
  - retriever.py;
  - test.py, a copy of `GeminiBot`;
  - `DocumentProcessor.__init__`, `create_vector_db` and `run` in document_processor.py, which are embedding and index I/O.
