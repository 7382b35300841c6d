# Caretaker AI chat: reply formatting, chat routes and conversation

A Dafny model of the core of a small Next.js health-advice chat application:

- **Reply formatting** (`formatMessageContent` and `renderInlineFormatting` in
  `src/app/page.js`). A model reply is cut into fenced code blocks and text.
  Each text line becomes a bullet item, a numbered item, a line break or a
  paragraph. Item and paragraph text is cut into plain, bold and inline-code
  tokens. Each regular-expression scan is modelled as an explicit
  leftmost-match scanner, and each is proved against a declarative
  description of what the pattern matches.
- **The chat route** (`POST` in `src/app/api/chat/route.js`). It sends one
  user message to a Groq chat completion and answers with the first choice's
  content.
- **The smartchat route** (`POST` in `src/app/api/smartchat/route.ts`). It
  needs a thread `id` and invokes a LangGraph workflow on that thread. It
  answers with the content of the newest state message that looks like a
  model reply.
- **The page's conversation** (`handleSend` in `src/app/page.js`). It
  appends the user's turn, clears the input and posts the message. When a
  reply arrives it appends the assistant's turn.

Modules:

| module | file | models |
|---|---|---|
| `Http` | `http.dfy` | JavaScript field values (`undefined`, `null`, a value), truthiness, `x \|\| fallback`, request bodies and JSON responses |
| `Text` | `text.dfy` | the JavaScript whitespace set (shared by `trim` and `\s`), `\d`, `String.prototype.trim` |
| `Fences` | `fences.dfy` | the code-fence splitter |
| `Lines` | `lines.dfy` | `split(/\r?\n/)` and the line classifier |
| `Inline` | `inline.dfy` | the bold / inline-code tokenizer |
| `Render` | `render.dfy` | `formatMessageContent` as a list of blocks |
| `ChatRoute` | `chatroute.dfy` | the chat route's `POST` and `getGroqChatCompletion` |
| `SmartChat` | `smartchat.dfy` | the smartchat route's `POST` and its backward reply scan |
| `Conversation` | `conversation.dfy` | `handleSend`, runs of sends, and the page talking to the chat route |

Outside effects are parameters of the model:

- The Groq client is a function from completion request to result.
- The compiled LangGraph workflow is a function from invocation to result.
- The network outcome of the page's `fetch` is a value.

Every call records what was sent, so the contracts can state it.

`trim` and the regular expressions' `\s` use the full JavaScript whitespace set, not only ASCII whitespace. That set includes no-break space, the Unicode space separators, the line and paragraph separators and the byte-order mark. `\d` is ASCII digits only.

Behaviour worth noting, as the code has it:

- **Empty message.** An empty `message` in a request body is also replaced
  by the default prompt, because the code uses `||`.
- **Unreadable body on smartchat.** Here `await req.json()` runs before the
  `try`, so an unreadable body makes the handler throw. It is modelled as
  `Uncaught` and is not a JSON error response. The chat route reads its
  body inside the `try` and answers 500.
- **`finish_reason: null`.** The smartchat scan counts a `null`
  `finish_reason` as present, because `typeof null` is `"object"`.

## Model

| member | source | states |
|---|---|---|
| Http.OrElse | src/app/api/chat/route.js:23-24 | the or-operator with a fallback on a string field: a non-empty string is kept; `undefined`, `null` and the empty string all give the fallback |
| Text.Trim | src/app/page.js:38 | the trimmed line is empty exactly when the line is all JavaScript whitespace; otherwise it starts and ends with non-whitespace; only whitespace was removed on either side |
| Fences.SplitChunks | src/app/page.js:10-25 | the chunks of a reply have the splitter's shapes, re-fencing the code chunks gives back the reply, there are no chunks exactly for the empty reply, and the reply is cut at the leftmost matches |
| Fences.SplitWellFormed | src/app/page.js:15-25 | text chunks are non-empty and hold no fenced pair; only the last one may hold an unclosed fence; code chunks hold no fence; no two text chunks are adjacent; and the chunks are cut at the leftmost matches |
| Fences.SplitLeftmost | src/app/page.js:10-25 | over positions of the split text: each chunk is the text at its position; no match of the code-block pattern starts at any index inside a text chunk; each code chunk closes at the first fence after its opening fence; and the chunks use up the text |
| Fences.SplitRoundTrip | src/app/page.js:15-25 | concatenating the text chunks and the code chunks wrapped in their fences, in order, gives back the split text: nothing is lost or reordered |
| Fences.SplitWithoutPair | src/app/page.js:15-25 | a text with no opening fence followed by a closing fence is kept whole, as one text chunk |
| Lines.SplitLines | src/app/page.js:35 | there is one line more than the text has `\n` characters, and no line holds a `\n` |
| Lines.SplitLinesRoundTrip | src/app/page.js:35 | joining the lines with `\n` gives the text with each `\r\n` turned into `\n`, so the split drops only separators |
| Lines.ClassifyLine | src/app/page.js:38-64 | a list item's text is non-empty and trimmed; a paragraph keeps the whole untrimmed line; a line is a line break exactly when it is all whitespace |
| Lines.ClassifyOrder | src/app/page.js:38-58 | a line is a bullet exactly when the bullet pattern matches the trimmed line; it is numbered exactly when only the number pattern matches; it is a paragraph exactly when it is not blank and neither pattern matches |
| Lines.BulletOnTrimmed | src/app/page.js:39 | on a trimmed line, `^\s*[-*]\s+` matches exactly when the line starts with `-` or `*` followed by whitespace |
| Lines.NumberedOnTrimmed | src/app/page.js:40 | on a trimmed line, `^\s*\d+\.\s+` matches exactly when the maximal run of leading digits is non-empty and is followed by a dot and whitespace |
| Lines.ItemText | src/app/page.js:43-50 | a list item's text is what the marker replacement leaves: the trimmed line is a marker prefix (bullet, or digits and a dot, then whitespace) followed by the text |
| Inline.MatchAt | src/app/page.js:74-91 | a match at a position is a bold span `**…**` with no `*` inside, or a code span with no backtick inside, and its value is the span without delimiters; no match means no span of the pattern starts there |
| Inline.Tokenize | src/app/page.js:73-98 | the tokens of a line are well-formed; re-wrapping them in their delimiters gives back the line; there are none exactly for the empty line; and over positions of the line, each plain token covers only indices where no match starts, while each bold or code token is the match starting at its position |
| Inline.ScanWellFormed | src/app/page.js:79-98 | plain, bold and code values are non-empty; bold values hold no `*`; code values hold no backtick; no two plain tokens are adjacent |
| Inline.ScanRoundTrip | src/app/page.js:79-98 | concatenating the tokens with bold re-wrapped in `**` and code in backticks gives back the scanned text |
| Inline.ScanPlainsHaveNoSpan | src/app/page.js:74-98 | the scan misses nothing: no match of the inline pattern starts at any index a plain token covers, every other token is the match at its position, and so no plain token contains a complete bold or inline-code span |
| Inline.ScanLeftmost | src/app/page.js:79-94 | the scan takes the leftmost match every time: the tokens meet the positional description from the scan's start |
| Inline.LeftmostUnique | src/app/page.js:79-98 | two token lists that both meet the positional description, with non-empty plain tokens and no two adjacent, are equal; so the source allows exactly one tokenization of a line |
| Inline.TokenizePlainsHaveNoSpan | src/app/page.js:73-98 | in a tokenized line no match starts at any index a plain token covers, so no plain token contains text the inline pattern matches |
| Render.RenderLine | src/app/page.js:37-64 | a line renders as a line break exactly when it is blank, as a list item exactly when the classifier makes it one, with the classifier's marker, and as a paragraph exactly when the classifier makes it one, so it never renders as a code block; a paragraph's tokens spell the whole line; an item's tokens spell the item text; items and paragraphs have well-formed, non-empty token lists that meet the leftmost-match description of the inline tokenizer on the line (paragraph) or the item text (item), which by Inline.LeftmostUnique is exactly one token list |
| Render.RenderLineTokens | src/app/page.js:42-61 | a paragraph renders to the one token list that `renderInlineFormatting` of the line allows, and a list item to the one it allows for the item text: any other well-formed list meeting the leftmost-match description is equal to it |
| Render.RenderLines | src/app/page.js:37 | a text chunk renders one block per line, in order |
| Render.FormatMessage | src/app/page.js:9-68 | an empty reply renders nothing; no code block holds a fence; every list item and paragraph has at least one well-formed token |
| Render.RenderChunksOk | src/app/page.js:27-67 | chunks whose code holds no fence render to blocks with those shapes |
| Render.TrimKeepsNoFence | src/app/page.js:31 | trimming a code block cannot create a fence in it |
| Render.NoClosedFenceRendersLines | src/app/page.js:9-67 | a non-empty reply with no opening and closing fence renders line by line, as a single text chunk |
| ChatRoute.CompletionFor | src/app/api/chat/route.js:56-66 | the completion request holds exactly one message, a user message with the given content, for the `llama-3.3-70b-versatile` model |
| ChatRoute.ReplyText | src/app/api/chat/route.js:29 | the reply is never empty; it is the first choice's content when that is a non-empty string, and "No response from model" otherwise, including for no choices or a `null` choice or message |
| ChatRoute.Post | src/app/api/chat/route.js:20-54 | the handler always answers. A completion is requested exactly when the body could be read. It carries the message when that is a non-empty string, and the default prompt otherwise, including for an empty message. The status is 200 exactly when the completion was created, and the body then holds the reply text. Every failure is a 500 "Failed to fetch completion" whose details are the parse error or the rejection's message |
| SmartChat.ScanBack | src/app/api/smartchat/route.ts:108-120 | the scan stops at the newest message that has metadata, token usage and a defined `finish_reason`, with every newer message being an object that fails the test. It crashes at a `null` or `undefined` element it reaches first. It finds nothing exactly when every message is an object that fails the test |
| SmartChat.Answer | src/app/api/smartchat/route.ts:95-149 | the status is 200 exactly when the graph returned and the scan did not crash. A 200 carries the newest reply's content, or `null` when no message qualifies. Every other outcome is a 500 "Failed to process the request" |
| SmartChat.Post | src/app/api/smartchat/route.ts:68-150 | an unreadable body escapes the handler. A falsy `id` gets a 400 "Please provide an id" and no graph call. Otherwise the graph is called exactly once, on the `id` thread, with one user message. That message holds the request's message when it is a non-empty string, and the default prompt otherwise, including for an empty message |
| SmartChat.OlderMessagesIrrelevant | src/app/api/smartchat/route.ts:108-120 | once the newest messages contain one the scan stops at, older thread history in front of them does not change the outcome |
| SmartChat.ScanBackSuffix | src/app/api/smartchat/route.ts:109-119 | when the first `n` of the newer messages include one the scan stops at, scanning them behind any history gives the outcome of scanning them alone, shifted by the history's length |
| Conversation.HandleSend | src/app/page.js:124-151 | a blank input changes nothing and sends nothing. Otherwise the old turns stay as they were and the user's turn is appended. The input is cleared and exactly the typed text is sent. An assistant turn follows exactly when a reply arrived, holding the reply's message, or "No response from API" when that is falsy |
| Conversation.SendPreservesWellFormed | src/app/page.js:124-151 | one send keeps the conversation's shape: non-blank user turns, and non-empty assistant turns each right after a user turn |
| Conversation.SessionWellFormed | src/app/page.js:124-151 | any run of sends, with any typed text and any outcomes, keeps that shape |
| Conversation.RepliesNeverOutnumber | src/app/page.js:128-147 | a well-formed conversation never has more assistant turns than user turns, and it has strictly fewer while its last turn is a user turn |
| Conversation.ClientOutcome | src/app/page.js:131-144 | the page reads a reply exactly from the responses with a status from 200 to 299; `data.message` is the body's message, `null` for a `null` message, and `undefined` for an error body |
| Conversation.ChatRequest | src/app/page.js:135 | the posted body has no `id`, and the route reads back exactly the typed text as its `message` |
| Conversation.ChatRouteExchange | src/app/page.js:131-147 | the page sends the typed text itself to the completion. A created completion appends the user turn and then the chat route's reply text, so the page's own fallback never shows. A rejected completion appends only the user turn |

## Left out

- The voice route (`src/app/api/voice/route.js`), the login page, `test.js` and both `OPTIONS` handlers (CORS preflight) are not part of this model.
- There is no code for microphone capture, silence detection or a per-thread mutex, so none is modelled.
- React rendering is not modelled: keys, class names and JSX. Blocks and tokens stand in for the elements.
- `console.log` and `console.error` calls are not modelled.
- Response headers are not modelled (`Content-Type` and `Access-Control-Allow-Origin`): they are constant on every response. A response is its status and JSON body.
- The Groq client, the LangGraph workflow, its `MemorySaver` checkpointer, the system prompt and the `ChatGroq` model are not modelled; each backend is a function parameter. Thread memory is therefore not modelled: each invocation's result is whatever the parameter returns.
- The two `setConversation` updates in `handleSend` are asynchronous. A second send can interleave between them; the model runs each send to completion first.
- Request fields are modelled as strings, `null` or absent. A JSON `null` body throws when its field is read, and it is modelled as an unreadable body. Any other non-object body (a number, a string, an array) reads as a body with neither field. Non-string field values are not modelled, such as a numeric `id` or a numeric `content`, and neither is their truthiness.
- In smartchat, a state whose `messages` is `null` or missing throws when its length is read. It is modelled as a thrown invocation (`Threw`), like a graph that throws. A non-array object `messages` has no length, so the loop does not run and the reply is `null`; it is modelled as an empty message list.
- In the chat route, a completion whose `choices` is `null` or missing throws when `choices[0]` is read, and it is modelled as a rejected completion. A non-array object `choices` yields `undefined` at index 0, and it is modelled as an empty choice list.
- Strings are sequences of Unicode scalar values. JavaScript strings are UTF-16 code units, so lone surrogates are not modelled.
- `Render.FormatMessage` does not state how many blocks a reply renders to: one per code chunk plus one per line of each text chunk. It states only the shape of each block.
