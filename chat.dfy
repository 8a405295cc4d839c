/**
 * The token budget of `GeminiBot` (chat.py). The model's token counter and the chat session
 * are capabilities: `countTokens` gives `count_tokens(text).total_tokens`, and `reply` gives the
 * text the chat session answers to a message, given the messages it has been sent before.
 */
module Chat {
  /** A call is refused once the counter exceeds this many tokens. */
  const TokenLimit: nat := 1000000

  /** The sentinel returned instead of a reply when the budget is spent. */
  const OutOfTokens: string := "Out of tokens"

  /** The prompt whose token count starts the counter. */
  const SetupPrompt: string := "Ban là một công cụ chat, hãy trả lời các câu hỏi của người dùng"

  /** The fixed text put in front of every user message. */
  const QaPrefix: string := "Bạn là một hệ thống hỏi đáp, hãy giúp người dùng trả lời câu hỏi theo cú pháp câu hỏi - câu trả lời"

  /** The language model as the bot sees it. */
  datatype LanguageModel = LanguageModel(countTokens: string -> nat, reply: (seq<string>, string) -> string)

  /** The bot's state: the token counter and the messages sent to the chat session so far. */
  datatype BotState = BotState(tokenCount: nat, sent: seq<string>)

  /** The outcome of one call of `response`: the new state and the returned text. */
  datatype Turn = Turn(next: BotState, text: string)

  /** The state `_setup` leaves: the counter holds the setup prompt's tokens, nothing sent yet. */
  function Initial(model: LanguageModel): BotState
  {
    BotState(model.countTokens(SetupPrompt), [])
  }

  /** One call of `response(input)` from state `st`. */
  function Step(model: LanguageModel, st: BotState, input: string): Turn
  {
    if st.tokenCount > TokenLimit then Turn(st, OutOfTokens)
    else
      var message := QaPrefix + input;
      var text := model.reply(st.sent, message);
      Turn(BotState(st.tokenCount + model.countTokens(input) + model.countTokens(text), st.sent + [message]), text)
  }

  /** A sequence of calls: the final state and the text each call returned. */
  datatype Conversation = Conversation(last: BotState, texts: seq<string>)

  function Run(model: LanguageModel, st: BotState, inputs: seq<string>): (c: Conversation)
    ensures |c.texts| == |inputs|
    decreases |inputs|
  {
    if inputs == [] then Conversation(st, [])
    else
      var t := Step(model, st, inputs[0]);
      var rest := Run(model, t.next, inputs[1..]);
      Conversation(rest.last, [t.text] + rest.texts)
  }

  class GeminiBot {
    const model: LanguageModel
    var tokenCount: nat
    var sent: seq<string>

    function State(): BotState
      reads this
    {
      BotState(tokenCount, sent)
    }

    /** `__init__` and `_setup`: the counter starts at the setup prompt's token count. */
    constructor (model: LanguageModel)
      ensures this.model == model
      ensures tokenCount == model.countTokens(SetupPrompt) && sent == []
      ensures State() == Initial(model)
    {
      this.model := model;
      tokenCount := model.countTokens(SetupPrompt);
      sent := [];
    }

    /**
     * `response(user_input)`: refused with the sentinel, sending nothing, once the counter
     * exceeds the limit; otherwise the prefixed message is sent and the counter grows by the
     * tokens of the input (without the prefix) and of the reply.
     */
    method Response(userInput: string) returns (r: string)
      modifies this
      ensures old(tokenCount) > TokenLimit ==> r == OutOfTokens && tokenCount == old(tokenCount) && sent == old(sent)
      ensures old(tokenCount) <= TokenLimit ==>
        sent == old(sent) + [QaPrefix + userInput] &&
        r == model.reply(old(sent), QaPrefix + userInput) &&
        tokenCount == old(tokenCount) + model.countTokens(userInput) + model.countTokens(r)
      ensures Turn(State(), r) == Step(model, old(State()), userInput)
    {
      var inputTokens := model.countTokens(userInput);
      if tokenCount > TokenLimit {
        return OutOfTokens;
      }
      var message := QaPrefix + userInput;
      r := model.reply(sent, message);
      sent := sent + [message];
      tokenCount := tokenCount + inputTokens + model.countTokens(r);
    }
  }

  /** The counter never decreases over any sequence of calls. */
  lemma {:induction false} CounterMonotone(model: LanguageModel, st: BotState, inputs: seq<string>)
    ensures Run(model, st, inputs).last.tokenCount >= st.tokenCount
    ensures |Run(model, st, inputs).last.sent| >= |st.sent|
    decreases |inputs|
  {
    if inputs != [] {
      CounterMonotone(model, Step(model, st, inputs[0]).next, inputs[1..]);
    }
  }

  /** Once over the limit the bot is stuck: every further call returns the sentinel and changes nothing. */
  lemma {:induction false} StuckOverLimit(model: LanguageModel, st: BotState, inputs: seq<string>)
    requires st.tokenCount > TokenLimit
    ensures Run(model, st, inputs).last == st
    ensures forall i :: 0 <= i < |inputs| ==> Run(model, st, inputs).texts[i] == OutOfTokens
    decreases |inputs|
  {
    if inputs != [] {
      StuckOverLimit(model, st, inputs[1..]);
    }
  }

  /** The messages sent for the first `n` inputs, in order. */
  function Prefixed(inputs: seq<string>, n: nat): (r: seq<string>)
    requires n <= |inputs|
    ensures |r| == n && forall i :: 0 <= i < n ==> r[i] == QaPrefix + inputs[i]
  {
    seq(n, i requires 0 <= i < n => QaPrefix + inputs[i])
  }

  /**
   * The calls that are served form a prefix of the conversation: for some `n`, exactly the
   * first `n` inputs are sent, prefixed and in order, and every later call gets the sentinel.
   */
  lemma {:induction false} ServedPrefix(model: LanguageModel, st: BotState, inputs: seq<string>)
    ensures exists n ::
      (0 <= n <= |inputs| &&
       Run(model, st, inputs).last.sent == st.sent + Prefixed(inputs, n) &&
       forall i :: n <= i < |inputs| ==> Run(model, st, inputs).texts[i] == OutOfTokens)
    decreases |inputs|
  {
    if inputs == [] {
      assert st.sent + Prefixed(inputs, 0) == st.sent;
    } else if st.tokenCount > TokenLimit {
      StuckOverLimit(model, st, inputs);
      assert st.sent + Prefixed(inputs, 0) == st.sent;
    } else {
      var t := Step(model, st, inputs[0]);
      ServedPrefix(model, t.next, inputs[1..]);
      var m :| 0 <= m <= |inputs| - 1 &&
        Run(model, t.next, inputs[1..]).last.sent == t.next.sent + Prefixed(inputs[1..], m) &&
        forall i :: m <= i < |inputs| - 1 ==> Run(model, t.next, inputs[1..]).texts[i] == OutOfTokens;
      ServedStep(model, st, inputs, m);
    }
  }

  lemma PrefixedCons(sent: seq<string>, inputs: seq<string>, m: nat)
    requires inputs != [] && m <= |inputs| - 1
    ensures (sent + [QaPrefix + inputs[0]]) + Prefixed(inputs[1..], m) == sent + Prefixed(inputs, m + 1)
  {
    assert [QaPrefix + inputs[0]] + Prefixed(inputs[1..], m) == Prefixed(inputs, m + 1);
  }

  /** The inductive step of `ServedPrefix` for a served first call. */
  lemma ServedStep(model: LanguageModel, st: BotState, inputs: seq<string>, m: nat)
    requires inputs != [] && st.tokenCount <= TokenLimit && m <= |inputs| - 1
    requires Run(model, Step(model, st, inputs[0]).next, inputs[1..]).last.sent ==
      Step(model, st, inputs[0]).next.sent + Prefixed(inputs[1..], m)
    requires forall i :: m <= i < |inputs| - 1 ==>
      Run(model, Step(model, st, inputs[0]).next, inputs[1..]).texts[i] == OutOfTokens
    ensures Run(model, st, inputs).last.sent == st.sent + Prefixed(inputs, m + 1)
    ensures forall i :: m + 1 <= i < |inputs| ==> Run(model, st, inputs).texts[i] == OutOfTokens
  {
    var t := Step(model, st, inputs[0]);
    var rest := Run(model, t.next, inputs[1..]);
    var c := Run(model, st, inputs);
    assert c.last == rest.last && c.texts == [t.text] + rest.texts;
    assert t.next.sent == st.sent + [QaPrefix + inputs[0]];
    PrefixedCons(st.sent, inputs, m);
    forall i | m + 1 <= i < |inputs|
      ensures c.texts[i] == OutOfTokens
    {
      assert c.texts[i] == rest.texts[i - 1];
    }
  }

  /**
   * The guard looks at the counter from before the call, so a call admitted at the limit can
   * leave the counter above it, and the next call is then refused.
   */
  lemma AdmittedCallOvershoots(model: LanguageModel, st: BotState, input: string, next: string)
    requires st.tokenCount == TokenLimit && model.countTokens(input) > 0
    ensures Step(model, st, input).text == model.reply(st.sent, QaPrefix + input)
    ensures Step(model, st, input).next.tokenCount > TokenLimit
    ensures Step(model, Step(model, st, input).next, next).text == OutOfTokens
  {
  }

  /**
   * The overshoot is at most one call's worth. When no input of the conversation counts more
   * than `bIn` tokens and no reply counts more than `bOut` (the reply length is capped by
   * `max_output_tokens`), a counter that starts at most `bIn + bOut` above the limit stays at
   * most that far above it: a call is admitted only at or below the limit and adds at most
   * `bIn + bOut`, and a refused call adds nothing.
   */
  lemma {:induction false} OvershootBounded(model: LanguageModel, st: BotState, inputs: seq<string>, bIn: nat, bOut: nat)
    requires forall k :: 0 <= k < |inputs| ==> model.countTokens(inputs[k]) <= bIn
    requires forall h, m :: model.countTokens(model.reply(h, m)) <= bOut
    requires st.tokenCount <= TokenLimit + bIn + bOut
    ensures Run(model, st, inputs).last.tokenCount <= TokenLimit + bIn + bOut
    decreases |inputs|
  {
    if inputs != [] {
      var t := Step(model, st, inputs[0]);
      assert model.countTokens(inputs[0]) <= bIn;
      assert model.countTokens(model.reply(st.sent, QaPrefix + inputs[0])) <= bOut;
      var rest := inputs[1..];
      assert forall k :: 0 <= k < |rest| ==> rest[k] == inputs[k + 1];
      OvershootBounded(model, t.next, rest, bIn, bOut);
    }
  }

  /** A fresh bot is within budget as long as the setup prompt fits it, so its first call is served. */
  lemma FirstCallServed(model: LanguageModel, input: string)
    requires model.countTokens(SetupPrompt) <= TokenLimit
    ensures Step(model, Initial(model), input).next.sent == [QaPrefix + input]
    ensures Step(model, Initial(model), input).text == model.reply([], QaPrefix + input)
  {
  }
}
