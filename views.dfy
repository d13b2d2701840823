/**
 * `views.py` and the request serializer it uses: the chat endpoint, the
 * memory listing and the chat history. HTTP responses are modelled by their
 * status and the data they carry.
 */
module Views {
  import opened Base
  import opened Strings
  import opened Models
  import opened Embeddings
  import opened VectorSearch
  import opened Llm

  // ---------------------------------------------------------------- request validation

  /** The `message` entry of the request body: missing, JSON `null`, or a string. */
  datatype Field = Absent | Null | Text(text: string)

  /** The ways `ChatRequestSerializer` rejects `message`. */
  datatype FieldError = Required | NotNull | Blank | TooLong | NullCharacter

  const MaxMessageLength: nat := 2000

  function ErrorText(e: FieldError): string
  {
    match e
    case Required => "This field is required."
    case NotNull => "This field may not be null."
    case Blank => "This field may not be blank."
    case TooLong => "Ensure this field has no more than 2000 characters."
    case NullCharacter => "Null characters are not allowed."
  }

  /**
   * `ChatRequestSerializer`: `message` is a required `CharField` with
   * `max_length=2000` and the framework's defaults (blank not allowed,
   * whitespace trimmed, null characters refused). A blank message is refused
   * before the length and character checks; those two are both reported.
   */
  function ValidateMessage(f: Field): (r: Result<string, seq<FieldError>>)
    ensures r.Success? <==>
              f.Text? && Strip(f.text) != [] && |Strip(f.text)| <= MaxMessageLength && '\0' !in Strip(f.text)
    ensures r.Success? ==> r.value == Strip(f.text)
    ensures r.Failure? ==> r.error != []
  {
    match f
    case Absent => Failure([Required])
    case Null => Failure([NotNull])
    case Text(t) =>
      var value := Strip(t);
      if value == [] then Failure([Blank])
      else
        var errors := (if |value| > MaxMessageLength then [TooLong] else [])
                      + (if '\0' in value then [NullCharacter] else []);
        if errors == [] then Success(value) else Failure(errors)
  }

  /** A validated message validates again to itself. */
  lemma ValidateIdempotent(f: Field)
    ensures ValidateMessage(f).Success? ==> ValidateMessage(Text(ValidateMessage(f).value)) == ValidateMessage(f)
  {
    if f.Text? {
      StripStripped(f.text);
    }
  }

  // ---------------------------------------------------------------- POST /api/chat/

  /** The responses of `chat`. */
  datatype Response = Ok(reply: Reply) | BadRequest(errors: seq<FieldError>) | ServerError(error: string)

  function Status(r: Response): nat
  {
    match r
    case Ok(_) => 200
    case BadRequest(_) => 400
    case ServerError(_) => 500
  }

  /** The response for what `generate_response` returned or raised. */
  function Respond(r: Result<Reply, ChatError>): (resp: Response)
    ensures Status(resp) == 200 <==> r.Success?
    ensures r.Success? ==> resp == Ok(r.value)
    ensures r.Failure? ==> resp == ServerError(ErrorMessage(r.error))
  {
    match r
    case Success(reply) => Ok(reply)
    case Failure(e) => ServerError(ErrorMessage(e))
  }

  /**
   * `chat`: an invalid message is answered with 400 and nothing else happens;
   * a valid one is passed, trimmed, to `generate_response`, whose reply is
   * answered with 200 and whose error with 500 and the error's text.
   */
  method Chat(check: IngestCheck, store: MemoryStore, embedder: Embedder,
              settingsKey: string, envKey: Option<string>, resume: Option<string>, data: Field,
              complete: (string, string) -> Result<string, string>, norm: Vector -> real)
    returns (resp: Response, ghost ready: Snapshot)
    requires store.Valid()
    modifies check, store, embedder
    ensures store.Valid()
    ensures Status(resp) == 400 <==> ValidateMessage(data).Failure?
    ensures ValidateMessage(data).Failure? ==>
              resp == BadRequest(ValidateMessage(data).error) && unchanged(check) && unchanged(store) && unchanged(embedder)
    ensures ValidateMessage(data).Success? && ApiKey(settingsKey, envKey).None? ==>
              resp == ServerError(MissingKeyText) && unchanged(check) && unchanged(store) && unchanged(embedder)
    ensures ValidateMessage(data).Success? && ApiKey(settingsKey, envKey).Some? ==>
              && Consistent(ready)
              && IngestedFrom(old(check.checked), old(StateOf(store, embedder)), resume, check.checked, ready)
              && var e := ExchangeFrom(ready, ValidateMessage(data).value, complete, norm);
                 resp == Respond(e.result) && StateOf(store, embedder) == e.after
    ensures resp.Ok? ==>
              && |resp.reply.relevantKnowledge| <= KnowledgeLimit
              && forall c :: c in resp.reply.relevantKnowledge ==>
                   exists x :: x in store.records && x.kind == Knowledge && x.content == c
  {
    ready := StateOf(store, embedder);
    var validated := ValidateMessage(data);
    if validated.Failure? {
      return BadRequest(validated.error), ready;
    }
    var result;
    result, ready := GenerateResponse(check, store, embedder, settingsKey, envKey, resume, validated.value, complete, norm);
    resp := Respond(result);
    if result.Success? {
      ReplyKnowledge(ready, validated.value, complete, norm);
    }
  }

  /** The knowledge sent back with an answer comes from knowledge records still in the store after the exchange. */
  lemma ReplyKnowledge(s: Snapshot, message: string, complete: (string, string) -> Result<string, string>,
                       norm: Vector -> real)
    requires Consistent(s)
    ensures var e := ExchangeFrom(s, message, complete, norm);
            e.result.Success? ==>
              && |e.result.value.relevantKnowledge| <= KnowledgeLimit
              && forall c :: c in e.result.value.relevantKnowledge ==>
                   exists x :: x in e.after.records && x.kind == Knowledge && x.content == c
  {
    var e := ExchangeFrom(s, message, complete, norm);
    ExchangeKnowledge(s, message, complete, norm);
    ExchangeRecords(s, message, complete, norm);
    if e.result.Success? {
      forall c | c in e.result.value.relevantKnowledge
        ensures exists x :: x in e.after.records && x.kind == Knowledge && x.content == c
      {
        var x :| x in s.records && x.kind == Knowledge && x.content == c;
        assert x in OfKind(s.records, Knowledge);
        assert x in OfKind(e.after.records, Knowledge);
      }
    }
  }

  // ---------------------------------------------------------------- GET /api/memory/

  const MemoryPageSize: nat := 50

  /** One entry of `MemorySerializer`: `id`, `content`, `type` and `created_at`. */
  datatype MemoryItem = MemoryItem(id: nat, content: string, kind: string, createdAt: nat)

  function Serialize(r: Record): MemoryItem
  {
    MemoryItem(r.id, r.content, TypeName(r.kind), r.createdAt)
  }

  function SerializeAll(rs: seq<Record>): (items: seq<MemoryItem>)
    ensures |items| == |rs|
    ensures forall i :: 0 <= i < |rs| ==> items[i] == Serialize(rs[i])
  {
    if rs == [] then [] else [Serialize(rs[0])] + SerializeAll(rs[1..])
  }

  /** `get_memory`: the fifty newest records of either type, newest first. */
  function GetMemory(records: seq<Record>): seq<MemoryItem>
  {
    SerializeAll(Newest(records, None, MemoryPageSize))
  }

  /**
   * The listing holds fifty records, or all of them when there are fewer,
   * newest first, each a record of the store, and every record it leaves out
   * is older than every record it shows.
   */
  lemma MemoryPage(records: seq<Record>)
    requires Ascending(records)
    ensures var items := GetMemory(records);
            && |items| == Min(MemoryPageSize, |records|)
            && (forall i, j :: 0 <= i < j < |items| ==> items[i].createdAt > items[j].createdAt)
            && (forall i :: 0 <= i < |items| ==> exists x :: x in records && items[i] == Serialize(x))
            && (forall i, x :: 0 <= i < |items| && x in records && Serialize(x) !in items ==> x.createdAt < items[i].createdAt)
  {
    var shown := Newest(records, None, MemoryPageSize);
    var items := GetMemory(records);
    NewestListing(records, None, MemoryPageSize);
    assert Matching(records, None) == records;
    forall i | 0 <= i < |items| ensures exists x :: x in records && items[i] == Serialize(x) {
      assert shown[i] in shown;
    }
    forall i, x | 0 <= i < |items| && x in records && Serialize(x) !in items
      ensures x.createdAt < items[i].createdAt
    {
      assert shown[i] in shown;
    }
  }

  // ---------------------------------------------------------------- GET /api/chat/history/

  /** One entry of the chat history: the text without its speaker prefix and who said it. */
  datatype ChatMessage = ChatMessage(text: string, isUser: bool, createdAt: nat)

  const UserPrefix := "User: "
  const AssistantPrefix := "Assistant: "

  /** The history entry a memory record yields: none unless its content starts with a speaker prefix. */
  function Turn(r: Record): (m: seq<ChatMessage>)
    ensures |m| <= 1
  {
    if UserPrefix <= r.content then [ChatMessage(ReplaceFirst(r.content, UserPrefix, ""), true, r.createdAt)]
    else if AssistantPrefix <= r.content then [ChatMessage(ReplaceFirst(r.content, AssistantPrefix, ""), false, r.createdAt)]
    else []
  }

  /** The history entries of a sequence of records, in order. */
  function History(rs: seq<Record>): (h: seq<ChatMessage>)
    ensures |h| <= |rs|
  {
    FlatMapBounded(Turn, rs);
    FlatMap(Turn, rs)
  }

  /** A stored question reads back as the user's message, verbatim. */
  lemma UserTurn(r: Record, message: string)
    requires r.content == UserPrefix + message
    ensures Turn(r) == [ChatMessage(message, true, r.createdAt)]
  {
    assert UserPrefix <= r.content;
    assert r.content[|UserPrefix|..] == message;
    assert ReplaceFirst(r.content, UserPrefix, "") == "" + message == message;
  }

  /** A stored answer reads back as the assistant's message, verbatim. */
  lemma AssistantTurn(r: Record, reply: string)
    requires r.content == AssistantPrefix + reply
    ensures Turn(r) == [ChatMessage(reply, false, r.createdAt)]
  {
    assert r.content[0] == 'A';
    assert !(UserPrefix <= r.content);
    assert AssistantPrefix <= r.content;
    assert r.content[|AssistantPrefix|..] == reply;
    assert ReplaceFirst(r.content, AssistantPrefix, "") == "" + reply == reply;
  }

  lemma HistoryAppend(a: seq<Record>, b: seq<Record>)
    ensures History(a + b) == History(a) + History(b)
  {
    FlatMapAppend(Turn, a, b);
  }

  lemma HistoryOne(r: Record)
    ensures History([r]) == Turn(r)
  {
    FlatMapOne(Turn, r);
  }

  /** One turn of `get_chat_history`'s loop keeps the messages equal to the history of the records seen. */
  lemma HistoryStep(rs: seq<Record>, i: nat, before: seq<ChatMessage>, after: seq<ChatMessage>)
    requires i < |rs|
    requires before == History(rs[..i])
    requires after == before + Turn(rs[i])
    ensures after == History(rs[..i + 1])
  {
    assert rs[..i + 1] == rs[..i] + [rs[i]];
    HistoryAppend(rs[..i], [rs[i]]);
    HistoryOne(rs[i]);
  }

  /** `get_chat_history`: the memory records in creation order, each that starts with a speaker prefix as a message. */
  method ChatHistory(store: MemoryStore) returns (messages: seq<ChatMessage>)
    ensures messages == History(OfKind(store.records, Memory))
  {
    var memories := OfKind(store.records, Memory);
    messages := [];
    var i := 0;
    while i < |memories|
      invariant 0 <= i <= |memories|
      invariant messages == History(memories[..i])
    {
      var memory := memories[i];
      ghost var before := messages;
      if UserPrefix <= memory.content {
        messages := messages + [ChatMessage(ReplaceFirst(memory.content, UserPrefix, ""), true, memory.createdAt)];
      } else if AssistantPrefix <= memory.content {
        messages := messages + [ChatMessage(ReplaceFirst(memory.content, AssistantPrefix, ""), false, memory.createdAt)];
      }
      HistoryStep(memories, i, before, messages);
      i := i + 1;
    }
    assert memories[..|memories|] == memories;
  }

  /** The history entries an exchange adds: the question, then the answer, each when it was stored. */
  function ExchangeMessages(s: Snapshot, message: string, e: Exchange): seq<ChatMessage>
  {
    var asked := if ReplyAt(s.replies, 0).Some? then [ChatMessage(message, true, s.clock)] else [];
    asked + if e.result.Success? && ReplyAt(s.replies, 3).Some?
            then [ChatMessage(e.result.value.response, false, s.clock + |asked|)] else []
  }

  /**
   * After an exchange the chat history is the earlier history followed by the
   * question as the user's message and the answer as the assistant's, each
   * present when it was stored.
   */
  lemma HistoryAfterExchange(s: Snapshot, message: string, complete: (string, string) -> Result<string, string>,
                             norm: Vector -> real)
    requires Consistent(s)
    ensures var e := ExchangeFrom(s, message, complete, norm);
            History(OfKind(e.after.records, Memory)) == History(OfKind(s.records, Memory)) + ExchangeMessages(s, message, e)
  {
    var e := ExchangeFrom(s, message, complete, norm);
    ExchangeTurns(s, message, ContextFor(s, message, norm).knowledge, complete(SystemPrompt, PromptFor(s, message, norm)));
  }

  lemma ExchangeTurns(s: Snapshot, message: string, knowledge: seq<string>, completion: Result<string, string>)
    requires Consistent(s)
    ensures var e := Conclude(Searched(s, message), knowledge, completion);
            History(OfKind(e.after.records, Memory)) == History(OfKind(s.records, Memory)) + ExchangeMessages(s, message, e)
  {
    var e := Conclude(Searched(s, message), knowledge, completion);
    var added := TurnRecords(s, message, e);
    TurnState(s, message, knowledge, completion);
    OfKindAppend(s.records, added, Memory);
    OfKindAll(added, Memory);
    HistoryAppend(OfKind(s.records, Memory), added);
    TurnHistory(s, message, e);
  }

  lemma TurnHistory(s: Snapshot, message: string, e: Exchange)
    ensures History(TurnRecords(s, message, e)) == ExchangeMessages(s, message, e)
  {
    var user := Remembered(ReplyAt(s.replies, 0), s.nextId, s.clock, "User: " + message);
    if user != [] {
      UserTurn(user[0], message);
      HistoryOne(user[0]);
    }
    if e.result.Success? {
      var answer := Remembered(ReplyAt(s.replies, 3), s.nextId + |user|, s.clock + |user|, "Assistant: " + e.result.value.response);
      HistoryAppend(user, answer);
      if answer != [] {
        AssistantTurn(answer[0], e.result.value.response);
        HistoryOne(answer[0]);
      }
    }
  }
}
