/**
 * The `POST` handler of `src/app/api/smartchat/route.ts`: a request must name
 * a conversation thread by `id`; the user's message is sent to a one-node
 * LangGraph workflow whose checkpointer keeps each thread's history, and the
 * reply is the content of the newest message in the returned state that looks
 * like a model reply. Reading the body happens before the `try`, so a body
 * that cannot be read escapes the handler.
 */
module SmartChat {
  import opened Http

  const MissingId: string := "Please provide an id"
  const ProcessFailed: string := "Failed to process the request"

  /** `response_metadata.tokenUsage`; only its presence matters here. */
  datatype TokenUsage = TokenUsage(promptTokens: int, completionTokens: int, totalTokens: int)

  /** `response_metadata`: `finish_reason` is a string, `null` or absent. */
  datatype Metadata = Metadata(tokenUsage: Js<TokenUsage>, finishReason: Js<string>)

  /** A message object of the returned state. */
  datatype StateMessage = StateMessage(content: string, responseMetadata: Js<Metadata>)

  /** The heuristic of the scan: metadata present, token usage present, and a
      `finish_reason` that is not `undefined` (a `null` one counts). */
  predicate LooksLikeReply(m: StateMessage) {
    && m.responseMetadata.Val?
    && m.responseMetadata.value.tokenUsage.Val?
    && !m.responseMetadata.value.finishReason.Undefined?
  }

  /** An element the scan passes over: an object that fails the heuristic.
      A `null` or `undefined` element is not passed over: reading its
      metadata throws. */
  predicate Skipped(e: Js<StateMessage>) {
    e.Val? && !LooksLikeReply(e.value)
  }

  /** How the scan over `response.messages` ends. */
  datatype ScanEnd =
    | Reply(index: nat)      // `break` at this index
    | NoReply                // the loop ran out: the reply is `null`
    | Crash(index: nat)      // a `null`/`undefined` element was read at this index

  /** The loop `for (i = n - 1; i >= 0; i--)`, over the first `n` elements. */
  function ScanBack(msgs: seq<Js<StateMessage>>, n: nat): (r: ScanEnd)
    requires n <= |msgs|
    ensures r.Reply? ==> r.index < n && msgs[r.index].Val? && LooksLikeReply(msgs[r.index].value)
    ensures r.Crash? ==> r.index < n && !msgs[r.index].Val?
    ensures !r.NoReply? ==> forall j :: r.index < j < n ==> Skipped(msgs[j])
    ensures r.NoReply? <==> forall j :: 0 <= j < n ==> Skipped(msgs[j])
  {
    if n == 0 then NoReply
    else if !msgs[n - 1].Val? then Crash(n - 1)
    else if LooksLikeReply(msgs[n - 1].value) then Reply(n - 1)
    else ScanBack(msgs, n - 1)
  }

  /** The state the graph returns, or the error its invocation threw. */
  datatype GraphResult = Threw(error: string) | Returned(messages: seq<Js<StateMessage>>)

  /** The graph input `{messages: input}` with the thread it runs on. */
  datatype Invocation = Invocation(messages: seq<ChatMessage>, threadId: string)

  /** What the handler returned, and the invocation it made, if any. */
  datatype Handled = Handled(response: Response, invoked: Option<Invocation>)

  /** The response for a graph result, inside the handler's `try`. */
  function Answer(result: GraphResult): (r: Response)
    ensures r.Response? && (r.status == 200 || r.status == 500)
    ensures r.status == 200 <==> result.Returned? && !ScanBack(result.messages, |result.messages|).Crash?
    ensures r.status == 500 ==> r.body == ErrorBody(ProcessFailed, None)
    ensures r.status == 200 ==> r.body.MessageBody?
    ensures r.status == 200 && r.body.message.None? ==>
              forall j :: 0 <= j < |result.messages| ==> Skipped(result.messages[j])
    ensures r.status == 200 && r.body.message.Some? ==>
              exists j :: 0 <= j < |result.messages| && result.messages[j].Val?
                       && LooksLikeReply(result.messages[j].value)
                       && r.body.message.value == result.messages[j].value.content
                       && forall k :: j < k < |result.messages| ==> Skipped(result.messages[k])
  {
    match result
    case Threw(_) => Response(500, ErrorBody(ProcessFailed, None))
    case Returned(msgs) =>
      match ScanBack(msgs, |msgs|)
      case Reply(i) => Response(200, MessageBody(Some(msgs[i].value.content)))
      case NoReply => Response(200, MessageBody(None))
      case Crash(_) => Response(500, ErrorBody(ProcessFailed, None))
  }

  /** `POST(req)`, with the compiled workflow as the function `graph`. */
  function Post(req: Request, graph: Invocation -> GraphResult): (h: Handled)
    ensures req.Malformed? ==> h.response.Uncaught? && h.invoked.None?
    ensures req.Body? && !Truthy(req.id) ==>
              h.response == Response(400, ErrorBody(MissingId, None)) && h.invoked.None?
    ensures h.invoked.Some? <==> req.Body? && Truthy(req.id)
    ensures h.invoked.Some? ==>
              && h.invoked.value.messages == [ChatMessage("user", OrElse(req.message, DefaultPrompt))]
              && h.invoked.value.threadId == req.id.value
              && h.response == Answer(graph(h.invoked.value))
    ensures h.invoked.Some? && Truthy(req.message) ==> h.invoked.value.messages[0].content == req.message.value
    ensures h.invoked.Some? && !Truthy(req.message) ==> h.invoked.value.messages[0].content == DefaultPrompt
  {
    match req
    case Malformed(reason) => Handled(Uncaught(reason), None)
    case Body(message, id) =>
      if !Truthy(id) then Handled(Response(400, ErrorBody(MissingId, None)), None)
      else
        var input := Invocation([ChatMessage("user", OrElse(message, DefaultPrompt))], id.value);
        Handled(Answer(graph(input)), Some(input))
  }

  /** The thread's older history is irrelevant: once the newest messages
      hold one the scan stops at, putting any messages in front of them leaves
      the outcome the same, up to the shift of its index. */
  lemma {:induction false} OlderMessagesIrrelevant(msgs: seq<Js<StateMessage>>, tail: seq<Js<StateMessage>>)
    requires exists j :: 0 <= j < |tail| && !Skipped(tail[j])
    ensures ScanBack(msgs + tail, |msgs + tail|) == Shift(ScanBack(tail, |tail|), |msgs|)
  {
    ScanBackSuffix(msgs, tail, |tail|);
  }

  /** A scan end moved `k` positions to the right. */
  function Shift(e: ScanEnd, k: nat): (r: ScanEnd)
    ensures r.Reply? == e.Reply? && r.Crash? == e.Crash? && r.NoReply? == e.NoReply?
    ensures !e.NoReply? ==> r.index == e.index + k
  {
    match e
    case Reply(i) => Reply(i + k)
    case Crash(i) => Crash(i + k)
    case NoReply => NoReply
  }

  lemma {:induction false} ScanBackSuffix(msgs: seq<Js<StateMessage>>, tail: seq<Js<StateMessage>>, n: nat)
    requires n <= |tail|
    requires exists j :: 0 <= j < n && !Skipped(tail[j])
    ensures ScanBack(msgs + tail, |msgs| + n) == Shift(ScanBack(tail, n), |msgs|)
  {
    var all := msgs + tail;
    assert all[|msgs| + n - 1] == tail[n - 1];
    if Skipped(tail[n - 1]) {
      var j :| 0 <= j < n && !Skipped(tail[j]);
      assert j < n - 1;
      ScanBackSuffix(msgs, tail, n - 1);
    }
  }
}
