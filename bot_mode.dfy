/**
 * The question router `chatBotMode` (botMode.py). It holds the current mode and answers a
 * question either by chatting directly with the bot or by retrieving context from the vector
 * index first. Similarity search, the file-name lookup, context expansion and prompt rendering
 * are capabilities; the shared bot and the session state are objects passed in.
 */
module BotMode {
  import opened Text
  import opened Documents
  import Chat

  const ChatMode: string := "chat"
  const PdfQueryMode: string := "pdf_query"

  /** How many documents a pdf query retrieves. */
  const RetrievedCount: nat := 2

  /** The services a pdf query relies on. */
  datatype Services = Services(
    similaritySearch: (seq<Document>, string, nat) -> seq<Document>,  // index, query, k
    fileName: Metadata -> string,                                     // `retriever.get_file_name`
    expandContext: (string, string) -> string,                        // `retriever.expand_context`
    renderPrompt: (string, string, string) -> string)                 // history, context, question

  /** What `process_question` returns: a chat reply, a (response, context) pair, or None. */
  datatype Answer = ChatReply(text: string) | PdfReply(response: string, context: string) | NoAnswer

  /**
   * The part of the web session the router reads and writes: the index the search runs over and
   * the history log. Both are set up outside the router, so a session starts from whatever they hold.
   */
  class SessionState {
    var vectorDb: seq<Document>
    var historyGlobal: seq<string>

    constructor (vectorDb: seq<Document>, historyGlobal: seq<string>)
      ensures this.vectorDb == vectorDb && this.historyGlobal == historyGlobal
    {
      this.vectorDb := vectorDb;
      this.historyGlobal := historyGlobal;
    }
  }

  /** The expanded context of each retrieved document, in retrieval order. */
  function ExpandedContexts(svc: Services, docs: seq<Document>): seq<string>
  {
    seq(|docs|, i requires 0 <= i < |docs| => svc.expandContext(svc.fileName(docs[i].metadata), docs[i].pageContent))
  }

  /** The context a pdf query puts in the prompt and returns: the expanded contexts, one per line. */
  function QueryContext(svc: Services, db: seq<Document>, question: string): string
  {
    Join("\n", ExpandedContexts(svc, svc.similaritySearch(db, question, RetrievedCount)))
  }

  class ChatBotMode {
    var mode: string

    /** A new router starts in chat mode. */
    constructor ()
      ensures mode == ChatMode
    {
      mode := ChatMode;
    }

    /** `set_mode`: replaces the mode and nothing else. */
    method SetMode(mode: string)
      modifies this
      ensures this.mode == mode
    {
      this.mode := mode;
    }

    /**
     * `process_question`. Chat mode returns the bot's reply stripped of surrounding whitespace
     * and leaves the history alone. Pdf-query mode retrieves two documents, expands each one's
     * context, appends question and context to the history, sends the rendered prompt and
     * returns the unstripped response with the context. Any other mode returns nothing and
     * changes nothing.
     */
    method ProcessQuestion(question: string, bot: Chat.GeminiBot, session: SessionState, svc: Services)
      returns (r: Answer)
      modifies bot, session
      ensures session.vectorDb == old(session.vectorDb)
      ensures mode == ChatMode ==>
        var t := Chat.Step(bot.model, old(bot.State()), question);
        bot.State() == t.next && r == ChatReply(Strip(t.text)) && session.historyGlobal == old(session.historyGlobal)
      ensures mode == PdfQueryMode ==>
        var context := QueryContext(svc, old(session.vectorDb), question);
        var prompt := svc.renderPrompt(Join("\n", session.historyGlobal), context, question);
        var t := Chat.Step(bot.model, old(bot.State()), prompt);
        session.historyGlobal == old(session.historyGlobal) + [question + context] &&
        bot.State() == t.next && r == PdfReply(t.text, context)
      ensures mode != ChatMode && mode != PdfQueryMode ==>
        r == NoAnswer && bot.State() == old(bot.State()) && session.historyGlobal == old(session.historyGlobal)
    {
      if mode == ChatMode {
        var reply := bot.Response(question);
        return ChatReply(Strip(reply));
      }
      if mode == PdfQueryMode {
        var docs := svc.similaritySearch(session.vectorDb, question, RetrievedCount);
        var expanded: seq<string> := [];
        for i := 0 to |docs|
          invariant expanded == ExpandedContexts(svc, docs[..i])
        {
          var name := svc.fileName(docs[i].metadata);
          expanded := expanded + [svc.expandContext(name, docs[i].pageContent)];
        }
        assert docs[..|docs|] == docs;
        var context := Join("\n", expanded);
        session.historyGlobal := session.historyGlobal + [question + context];
        var history := Join("\n", session.historyGlobal);
        var prompt := svc.renderPrompt(history, context, question);
        var response := bot.Response(prompt);
        return PdfReply(response, context);
      }
      return NoAnswer;
    }
  }

  /** One expanded context per retrieved document, and each one occurs in the returned context. */
  lemma ContextHoldsEachExpansion(svc: Services, db: seq<Document>, question: string, i: int)
    requires 0 <= i < |svc.similaritySearch(db, question, RetrievedCount)|
    ensures |ExpandedContexts(svc, svc.similaritySearch(db, question, RetrievedCount))| ==
      |svc.similaritySearch(db, question, RetrievedCount)|
    ensures Contains(QueryContext(svc, db, question),
      ExpandedContexts(svc, svc.similaritySearch(db, question, RetrievedCount))[i])
  {
    JoinContains("\n", ExpandedContexts(svc, svc.similaritySearch(db, question, RetrievedCount)), i);
  }

  /**
   * The history text handed to the prompt ends with the entry just appended, preceded by the
   * earlier history and a newline when there is any.
   */
  lemma HistoryEndsWithLatest(history: seq<string>, entry: string)
    ensures Join("\n", history + [entry]) ==
      if history == [] then entry else Join("\n", history) + "\n" + entry
    ensures var h := Join("\n", history + [entry]); |entry| <= |h| && h[|h| - |entry|..] == entry
  {
    JoinAppend("\n", history, entry);
  }
}
