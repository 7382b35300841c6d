/**
 * JavaScript and JSON value shapes shared by the chat routes and the page:
 * a field that may be undefined or null, JavaScript truthiness of string
 * fields, the `field || fallback` idiom, and the JSON responses the routes send.
 */
module Http {

  datatype Option<+T> = None | Some(value: T)

  /** The value read from `obj.field`: undefined when absent, `null`, or a value. */
  datatype Js<+T> = Undefined | Null | Val(value: T)

  /** JavaScript truthiness of a string-valued field: undefined, null and "" are falsy. */
  predicate Truthy(f: Js<string>) {
    f.Val? && f.value != ""
  }

  /** `f || fallback` for a string-valued field. */
  function OrElse(f: Js<string>, fallback: string): (r: string)
    ensures fallback != [] ==> r != []
    ensures f.Val? && f.value != [] ==> r == f.value
    ensures f.Undefined? || f.Null? || f == Val("") ==> r == fallback
  {
    if Truthy(f) then f.value else fallback
  }

  /** The prompt both chat routes use when the request carries no message. */
  const DefaultPrompt: string := "Explain the importance of fast language models"

  /** A request body after `await req.json()`, as the routes read it: either
      reading it threw, with the error's message (malformed JSON, or a JSON
      `null` body whose `.message` throws), or the two fields the routes read.
      A body that is some other non-object JSON value (a number, a string, an
      array) has neither field: it reads as `Body(Undefined, Undefined)`. */
  datatype Request = Malformed(reason: string) | Body(message: Js<string>, id: Js<string>)

  /** One entry of the `messages` array sent to a language model. */
  datatype ChatMessage = ChatMessage(role: string, content: string)

  /** The JSON body of a response: `{message}` (where `message` may be `null`)
      or `{error, details?}`. */
  datatype ResponseBody =
    | MessageBody(message: Option<string>)
    | ErrorBody(error: string, details: Option<string>)

  /** What a route handler produces: a response with a status, or an exception
      that escapes the handler and is left to the hosting framework. */
  datatype Response = Response(status: int, body: ResponseBody) | Uncaught(reason: string)
}
