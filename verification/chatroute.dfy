/**
 * The `POST` handler of `src/app/api/chat/route.js`: one request to the Groq
 * chat-completion API carrying the user's message, answered with the first
 * choice's content. Everything the handler does, reading the body included,
 * sits inside one `try`, so every failure becomes a 500 response.
 */
module ChatRoute {
  import opened Http

  const Model: string := "llama-3.3-70b-versatile"
  const NoResponse: string := "No response from model"
  const FetchFailed: string := "Failed to fetch completion"

  /** The argument of `groq.chat.completions.create`. */
  datatype CompletionRequest = CompletionRequest(messages: seq<ChatMessage>, model: string)

  datatype ChoiceMessage = ChoiceMessage(content: Js<string>)
  datatype Choice = Choice(message: Js<ChoiceMessage>)

  /** A completion's `choices` array; an element may itself be `null`. */
  datatype Completion = Completion(choices: seq<Js<Choice>>)

  /** What the awaited completion call does: it rejects with an error (whose
      `message` may be absent) or it resolves to a completion. */
  datatype CompletionResult = Rejected(message: Option<string>) | Created(completion: Completion)

  /** `getGroqChatCompletion(content)`: the request it sends. */
  function CompletionFor(content: string): (r: CompletionRequest)
    ensures |r.messages| == 1 && r.messages[0].role == "user" && r.messages[0].content == content
    ensures r.model == Model
  {
    CompletionRequest([ChatMessage("user", content)], Model)
  }

  /** `choices[0]?.message?.content`, with `undefined` for an empty array. */
  function FirstContent(c: Completion): Js<string> {
    if |c.choices| == 0 then Undefined
    else match c.choices[0]
      case Val(choice) =>
        (match choice.message
         case Val(m) => m.content
         case _ => Undefined)
      case _ => Undefined
  }

  /** The completion's first choice is an object whose message is an object
      whose content is a non-empty string. */
  predicate HasContent(c: Completion) {
    && |c.choices| > 0
    && c.choices[0].Val?
    && c.choices[0].value.message.Val?
    && Truthy(c.choices[0].value.message.value.content)
  }

  /** The reply text: the first choice's content when it is a non-empty string,
      and the fixed notice otherwise. It is never empty. */
  function ReplyText(c: Completion): (r: string)
    ensures r != []
    ensures HasContent(c) ==> Val(r) == c.choices[0].value.message.value.content
    ensures !HasContent(c) ==> r == NoResponse
  {
    OrElse(FirstContent(c), NoResponse)
  }

  /** What the handler returned, and the completion request it sent, if any. */
  datatype Handled = Handled(response: Response, sent: Option<CompletionRequest>)

  /** `POST(req)`, with the Groq client as the function `groq`. */
  function Post(req: Request, groq: CompletionRequest -> CompletionResult): (h: Handled)
    ensures h.response.Response?
    ensures req.Malformed? <==> h.sent.None?
    ensures h.sent.Some? ==> h.sent == Some(CompletionFor(OrElse(req.message, DefaultPrompt)))
    ensures req.Body? && Truthy(req.message) ==> h.sent.value.messages[0].content == req.message.value
    ensures req.Body? && !Truthy(req.message) ==> h.sent.value.messages[0].content == DefaultPrompt
    ensures h.response.status == 200 <==> h.sent.Some? && groq(h.sent.value).Created?
    ensures h.response.status == 200 ==>
              h.response.body == MessageBody(Some(ReplyText(groq(h.sent.value).completion)))
    ensures h.response.status != 200 ==> h.response.status == 500 && h.response.body.ErrorBody?
    ensures h.response.status != 200 ==> h.response.body.error == FetchFailed
    ensures req.Malformed? ==> h.response.body.details == Some(req.reason)
    ensures h.sent.Some? && groq(h.sent.value).Rejected? ==> h.response.body.details == groq(h.sent.value).message
  {
    match req
    case Malformed(reason) =>
      Handled(Response(500, ErrorBody(FetchFailed, Some(reason))), None)
    case Body(message, _) =>
      var sent := CompletionFor(OrElse(message, DefaultPrompt));
      match groq(sent)
      case Rejected(details) => Handled(Response(500, ErrorBody(FetchFailed, details)), Some(sent))
      case Created(completion) => Handled(Response(200, MessageBody(Some(ReplyText(completion)))), Some(sent))
  }
}
