/**
 * The conversation kept by the chat page of `src/app/page.js`: `handleSend`
 * appends the user's turn, clears the input box, posts the message to the
 * chat route and, when an answer arrives, appends the assistant's turn. The
 * two state updates and the awaited request are modelled as one step whose
 * network outcome is a parameter.
 */
module Conversation {
  import opened Http
  import opened Text
  import ChatRoute

  datatype Role = User | Assistant

  datatype Turn = Turn(role: Role, content: string)

  /** The page's two pieces of state: `conversation` and `userMessage`. */
  datatype ChatState = ChatState(conversation: seq<Turn>, input: string)

  /** How the request of `handleSend` ends: it fails (the fetch throws, the
      status is outside 200-299, or the body is not JSON), or it yields `data`
      whose `message` field is then read. */
  datatype Outcome = Failed | Replied(message: Js<string>)

  /** The state after `handleSend`, and the message it posted, if any. */
  datatype SendStep = SendStep(next: ChatState, request: Option<string>)

  const NoApiResponse: string := "No response from API"

  function Last<T>(s: seq<T>): T
    requires s != []
  {
    s[|s| - 1]
  }

  /** `handleSend()` with the current state and the outcome of its request. */
  function HandleSend(st: ChatState, outcome: Outcome): (r: SendStep)
    ensures AllSpace(st.input) ==> r.next == st && r.request.None?
    ensures !AllSpace(st.input) ==>
              && r.request == Some(st.input)
              && r.next.input == []
              && |r.next.conversation| == |st.conversation| + (if outcome.Replied? then 2 else 1)
              && r.next.conversation[..|st.conversation|] == st.conversation
              && r.next.conversation[|st.conversation|] == Turn(User, st.input)
    ensures !AllSpace(st.input) && outcome.Replied? ==>
              && Last(r.next.conversation).role == Assistant
              && Last(r.next.conversation).content != []
              && (Truthy(outcome.message) ==> Last(r.next.conversation).content == outcome.message.value)
              && (!Truthy(outcome.message) ==> Last(r.next.conversation).content == NoApiResponse)
  {
    if Trim(st.input) == [] then SendStep(st, None)
    else
      var withUser := st.conversation + [Turn(User, st.input)];
      var conversation :=
        match outcome
        case Failed => withUser
        case Replied(m) => withUser + [Turn(Assistant, OrElse(m, NoApiResponse))];
      SendStep(ChatState(conversation, []), Some(st.input))
  }

  /** The shape every conversation built by `handleSend` has: user turns are
      not blank, and every assistant turn is non-empty and answers the user
      turn right before it. */
  ghost predicate WellFormed(ts: seq<Turn>) {
    forall i :: 0 <= i < |ts| ==> TurnOk(ts, i)
  }

  predicate TurnOk(ts: seq<Turn>, i: nat)
    requires i < |ts|
  {
    && (ts[i].role == User ==> !AllSpace(ts[i].content))
    && (ts[i].role == Assistant ==> ts[i].content != [] && 0 < i && ts[i - 1].role == User)
  }

  lemma SendPreservesWellFormed(st: ChatState, outcome: Outcome)
    requires WellFormed(st.conversation)
    ensures WellFormed(HandleSend(st, outcome).next.conversation)
  {
    if !AllSpace(st.input) {
      var withUser := st.conversation + [Turn(User, st.input)];
      AppendWellFormed(st.conversation, Turn(User, st.input));
      if outcome.Replied? {
        AppendWellFormed(withUser, Turn(Assistant, OrElse(outcome.message, NoApiResponse)));
      }
    }
  }

  /** A turn may be appended when it is a non-blank user turn or a non-empty
      assistant turn answering a user turn. */
  lemma AppendWellFormed(ts: seq<Turn>, t: Turn)
    requires WellFormed(ts)
    requires t.role == User ==> !AllSpace(t.content)
    requires t.role == Assistant ==> t.content != [] && ts != [] && Last(ts).role == User
    ensures WellFormed(ts + [t])
  {
    var all := ts + [t];
    forall i | 0 <= i < |all| ensures TurnOk(all, i) {
      if i < |ts| {
        assert TurnOk(ts, i);
        assert all[i] == ts[i];
        if 0 < i { assert all[i - 1] == ts[i - 1]; }
      } else {
        assert all[i] == t;
        if 0 < i { assert all[i - 1] == Last(ts); }
      }
    }
  }

  /** Dropping the last turn keeps the shape. */
  lemma InitWellFormed(ts: seq<Turn>)
    requires WellFormed(ts) && ts != []
    ensures WellFormed(ts[..|ts| - 1])
  {
    var init := ts[..|ts| - 1];
    forall i | 0 <= i < |init| ensures TurnOk(init, i) {
      assert TurnOk(ts, i);
      assert init[i] == ts[i];
      if 0 < i { assert init[i - 1] == ts[i - 1]; }
    }
  }

  /** The user types `typed` into the input box and presses send; the
      request ends with `outcome`. */
  datatype Event = Event(typed: string, outcome: Outcome)

  /** The state after a run of events, one `handleSend` each. */
  function Session(st: ChatState, events: seq<Event>): ChatState
    decreases |events|
  {
    if events == [] then st
    else Session(HandleSend(st.(input := events[0].typed), events[0].outcome).next, events[1..])
  }

  /** However the user types and however the requests end, the conversation
      keeps its shape. */
  lemma {:induction false} SessionWellFormed(st: ChatState, events: seq<Event>)
    requires WellFormed(st.conversation)
    ensures WellFormed(Session(st, events).conversation)
    decreases |events|
  {
    if events != [] {
      var typed := st.(input := events[0].typed);
      SendPreservesWellFormed(typed, events[0].outcome);
      SessionWellFormed(HandleSend(typed, events[0].outcome).next, events[1..]);
    }
  }

  /** The number of turns with the given role. */
  function Count(ts: seq<Turn>, role: Role): nat {
    if ts == [] then 0
    else Count(ts[..|ts| - 1], role) + (if Last(ts).role == role then 1 else 0)
  }

  /** In a well-formed conversation there are never more assistant turns than
      user turns, and strictly fewer while the last turn is still unanswered. */
  lemma {:induction false} RepliesNeverOutnumber(ts: seq<Turn>)
    requires WellFormed(ts)
    ensures Count(ts, Assistant) <= Count(ts, User)
    ensures ts != [] && Last(ts).role == User ==> Count(ts, Assistant) < Count(ts, User)
  {
    if ts != [] {
      var init := ts[..|ts| - 1];
      InitWellFormed(ts);
      RepliesNeverOutnumber(init);
      if Last(ts).role == Assistant {
        assert TurnOk(ts, |ts| - 1);
        assert Last(init) == ts[|ts| - 2];
      }
    }
  }

  /** The body `JSON.stringify({message})` the page posts, as the chat route reads it. */
  function ChatRequest(message: string): (r: Request)
    ensures r.Body? && r.id.Undefined?
    ensures message != [] ==> Truthy(r.message) && r.message.value == message
    ensures message == [] ==> r.message == Val("")
  {
    Body(Val(message), Undefined)
  }

  /** What the page makes of the chat route's answer: `response.ok` holds for
      statuses 200 to 299, and `data.message` is missing from an error body.
      An exception escaping the route reaches the page as a failed request. */
  function ClientOutcome(resp: Response): (o: Outcome)
    ensures o.Replied? <==> resp.Response? && 200 <= resp.status < 300
    ensures o.Replied? && resp.body.MessageBody? && resp.body.message.Some? ==> o.message == Val(resp.body.message.value)
    ensures o.Replied? && resp.body.MessageBody? && resp.body.message.None? ==> o.message == Null
    ensures o.Replied? && resp.body.ErrorBody? ==> o.message == Undefined
  {
    match resp
    case Uncaught(_) => Failed
    case Response(status, body) =>
      if !(200 <= status < 300) then Failed
      else match body
        case MessageBody(Some(m)) => Replied(Val(m))
        case MessageBody(None) => Replied(Null)
        case ErrorBody(_, _) => Replied(Undefined)
  }

  /** The page talking to the chat route: the completion request carries the
      typed text itself (never the route's default prompt), a created
      completion shows up as the route's reply text (never the page's own
      fallback), and a rejected one leaves only the user's turn. */
  lemma ChatRouteExchange(st: ChatState, groq: ChatRoute.CompletionRequest -> ChatRoute.CompletionResult)
    requires !AllSpace(st.input)
    ensures ChatRoute.Post(ChatRequest(st.input), groq).sent == Some(ChatRoute.CompletionFor(st.input))
    ensures var sent := ChatRoute.CompletionFor(st.input);
            var answer := ChatRoute.Post(ChatRequest(st.input), groq).response;
            var next := HandleSend(st, ClientOutcome(answer)).next;
            && (groq(sent).Created? ==>
                  next.conversation == st.conversation + [Turn(User, st.input), Turn(Assistant, ChatRoute.ReplyText(groq(sent).completion))])
            && (groq(sent).Rejected? ==> next.conversation == st.conversation + [Turn(User, st.input)])
  {
    assert st.input != [];
  }
}
