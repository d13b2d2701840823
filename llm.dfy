/**
 * `services/llm.py`: the once-per-process check that the résumé is in the
 * knowledge base, and `generate_response`, which stores the question, gathers
 * context, asks the chat-completion service and stores its answer.
 *
 * The chat-completion service is a function parameter `complete(system, user)`
 * that yields the reply text or the text of the error it raised; the
 * embedding service is the scripted `Embedder`.
 */
module Llm {
  import opened Base
  import opened Strings
  import opened Models
  import opened Embeddings
  import opened Ingest
  import opened VectorSearch

  /** How many knowledge and memory records `generate_response` asks for. */
  const KnowledgeLimit: nat := 10
  const MemoryLimit: nat := 3

  // ---------------------------------------------------------------- API key

  /**
   * The key `generate_response` uses: the settings value when it is not empty,
   * else the environment variable (`None` when unset, read as `""`); `None`
   * when both are empty.
   */
  function ApiKey(settingsKey: string, envKey: Option<string>): (key: Option<string>)
    ensures key.Some? ==> key.value != []
    ensures key.None? <==> settingsKey == [] && (envKey.None? || envKey.value == [])
    ensures settingsKey != [] ==> key == Some(settingsKey)
    ensures settingsKey == [] && key.Some? ==> key == envKey
  {
    if settingsKey != [] then Some(settingsKey)
    else if envKey.Some? && envKey.value != [] then envKey
    else None
  }

  /** The two ways `generate_response` raises. */
  datatype ChatError = MissingApiKey | GenerationFailed(detail: string)

  // Long messages are written as a short head plus the rest, so that the
  // verifier can read their first characters when telling texts apart.
  const MissingKeyText := "OPENAI_API_KEY" + " not set in environment variables. Please check your .env file."
  const GenerationPrefix := "Error generating response: "

  /**
   * `str(e)` of the raised exception. The completion error keeps the service's
   * own message after a fixed prefix, which the missing-key message lacks.
   */
  function ErrorMessage(e: ChatError): (m: string)
    ensures e.GenerationFailed? ==> GenerationPrefix <= m && m[|GenerationPrefix|..] == e.detail
    ensures e.MissingApiKey? ==> !(GenerationPrefix <= m)
  {
    match e
    case MissingApiKey =>
      assert MissingKeyText[0] != GenerationPrefix[0];
      MissingKeyText
    case GenerationFailed(detail) => GenerationPrefix + detail
  }

  // ---------------------------------------------------------------- prompt

  /** `[f"{i+1}. {k}" for i, k in enumerate(items)]`, numbering from `first`. */
  function Numbered(items: seq<string>, first: nat): (lines: seq<string>)
    ensures |lines| == |items|
    decreases |items|
  {
    if items == [] then [] else [NumberedLine(first, items[0])] + Numbered(items[1..], first + 1)
  }

  /** `f"{n}. {item}"`. */
  function NumberedLine(n: nat, item: string): string
  {
    DecimalString(n) + ". " + item
  }

  /** Line `i` carries the number `first + i` and then item `i`. */
  lemma {:induction false} NumberedAt(items: seq<string>, first: nat, i: nat)
    requires i < |items|
    ensures Numbered(items, first)[i] == NumberedLine(first + i, items[i])
    decreases i
  {
    if i > 0 {
      NumberedAt(items[1..], first + 1, i - 1);
    }
  }

  /** The decimal digits a string starts with. */
  function LeadingDigits(s: string): (d: string)
    ensures d <= s
    decreases |s|
  {
    if s != [] && '0' <= s[0] <= '9' then [s[0]] + LeadingDigits(s[1..]) else []
  }

  lemma {:induction false} LeadingDigitsOf(d: string, rest: string)
    requires forall c :: c in d ==> '0' <= c <= '9'
    requires rest != [] && !('0' <= rest[0] <= '9')
    ensures LeadingDigits(d + rest) == d
    decreases |d|
  {
    if d != [] {
      assert (d + rest)[1..] == d[1..] + rest;
      assert forall c :: c in d[1..] ==> c in d;
      assert d[0] in d && (d + rest)[0] == d[0];
      LeadingDigitsOf(d[1..], rest);
      assert d == [d[0]] + d[1..];
    } else {
      assert d + rest == rest;
    }
  }

  /** Reading the number in front of knowledge line `i` gives `i + 1`: the listing is numbered from one. */
  lemma ItemNumber(items: seq<string>, i: nat)
    requires i < |items|
    ensures DigitsValue(LeadingDigits(Numbered(items, 1)[i])) == i + 1
  {
    NumberedAt(items, 1, i);
    LineNumber(1 + i, items[i]);
  }

  lemma LineNumber(n: nat, item: string)
    ensures DigitsValue(LeadingDigits(NumberedLine(n, item))) == n
  {
    var number := DecimalString(n);
    assert NumberedLine(n, item) == number + (". " + item);
    LeadingDigitsOf(number, ". " + item);
    DecimalRoundTrip(n);
  }

  /** `"- " + m` for each memory line. */
  function Bulleted(items: seq<string>): (lines: seq<string>)
    ensures |lines| == |items|
    decreases |items|
  {
    if items == [] then [] else ["- " + items[0]] + Bulleted(items[1..])
  }

  /** `knowledge_text`: the numbered knowledge lines separated by blank lines. */
  function FormatKnowledge(items: seq<string>): string
  {
    Join(Numbered(items, 1), "\n\n")
  }

  /** `memory_text`: the memory lines as a bulleted list. */
  function FormatMemory(items: seq<string>): string
  {
    Join(Bulleted(items), "\n")
  }

  // Split like `MissingKeyText`, for the same reason.
  const NoKnowledge := "No knowledge " + "base found. Please note that the resume data may not be loaded."
  const NoMemory := "No previous " + "conversation context."

  /** A prompt section: its text, or the placeholder when the text is empty. */
  function Section(text: string, placeholder: string): string
  {
    if text == [] then placeholder else text
  }

  /** The knowledge section shows the placeholder exactly when there is no knowledge to show. */
  lemma KnowledgePlaceholder(items: seq<string>)
    ensures Section(FormatKnowledge(items), NoKnowledge) == NoKnowledge <==> items == []
  {
    if items != [] {
      var first := Numbered(items, 1)[0];
      assert first == DecimalString(1) + ". " + items[0];
      assert first[0] == DecimalString(1)[0];
      assert first <= FormatKnowledge(items);
      assert NoKnowledge[0] == 'N';
    }
  }

  /** The memory section shows the placeholder exactly when there is no memory to show. */
  lemma MemoryPlaceholder(items: seq<string>)
    ensures Section(FormatMemory(items), NoMemory) == NoMemory <==> items == []
  {
    if items != [] {
      var first := Bulleted(items)[0];
      assert first[0] == '-';
      assert first <= FormatMemory(items);
      assert NoMemory[0] == 'N';
    }
  }

  const SystemPrompt :=
    "You are a personal AI assistant that answers questions about Lind Geci based on their professional CV/resume. \n"
    + "Your primary source of information is the KNOWLEDGE BASE below which contains detailed information from the CV.\n"
    + "Always prioritize information from the KNOWLEDGE BASE when answering questions.\n"
    + "Answer questions accurately, helpfully, and in a professional manner based on the CV data provided."

  const PromptOpening :=
    "Answer the user's question about Lind Geci using the following CV/resume information:\n\n"
    + "=== CV/RESUME KNOWLEDGE BASE ===\n"
  const MemoryHeading := "\n\n=== PREVIOUS CONVERSATION CONTEXT ===\n"
  const QuestionHeading := "\n\n=== USER QUESTION ===\n"
  const PromptClosing :=
    "\n\nProvide a comprehensive and accurate answer based primarily on the CV/resume knowledge base above. "
    + "If you cannot find specific information, acknowledge that politely but provide what you can from the available information."

  /** The opening of `user_prompt` up to and including the knowledge section. */
  function KnowledgePart(knowledgeText: string): string
  {
    PromptOpening + Section(knowledgeText, NoKnowledge)
  }

  /** The conversation section of `user_prompt` between its heading and the question heading. */
  function ConversationPart(memoryText: string): string
  {
    MemoryHeading + Section(memoryText, NoMemory) + QuestionHeading
  }

  /** `user_prompt`: the knowledge, the conversation so far and the question, under fixed headings. */
  function UserPrompt(knowledgeText: string, memoryText: string, message: string): string
  {
    KnowledgePart(knowledgeText) + ConversationPart(memoryText) + message + PromptClosing
  }

  // ---------------------------------------------------------------- one exchange

  /** The store's table and counters together with the embedding script. */
  datatype Snapshot = Snapshot(records: seq<Record>, nextId: nat, clock: nat, replies: seq<Option<Vector>>)

  function StateOf(store: MemoryStore, embedder: Embedder): Snapshot
    reads store, embedder
  {
    Snapshot(store.records, store.nextId, store.clock, embedder.replies)
  }

  /** What `MemoryStore.Valid` demands of the table and counters. */
  predicate Consistent(s: Snapshot)
  {
    && Ascending(s.records)
    && forall x :: x in s.records ==> x.id < s.nextId && x.createdAt < s.clock
  }

  /** The record a best-effort store adds: one memory record with its embedding, or none when embedding failed. */
  function Remembered(reply: Option<Vector>, id: nat, time: nat, content: string): (added: seq<Record>)
    ensures |added| <= 1
  {
    if reply.Some? then [Record(id, content, Some(Encoded(reply.value)), Memory, time)] else []
  }

  /** The state after embedding `content` and, when that succeeds, storing it as a memory. */
  function AfterStore(s: Snapshot, content: string): Snapshot
  {
    var added := Remembered(NextReply(s.replies), s.nextId, s.clock, content);
    Snapshot(s.records + added, s.nextId + |added|, s.clock + |added|, LaterReplies(s.replies))
  }

  /** A best-effort store keeps the table in creation order and the counters ahead of it. */
  lemma AfterStoreConsistent(s: Snapshot, content: string)
    requires Consistent(s)
    ensures Consistent(AfterStore(s, content))
  {
    var added := Remembered(NextReply(s.replies), s.nextId, s.clock, content);
    var rs := s.records + added;
    if added != [] {
      forall i, j | 0 <= i < j < |rs| ensures Before(rs[i], rs[j]) {
        if j < |s.records| {
          assert rs[i] == s.records[i] && rs[j] == s.records[j];
        } else {
          assert rs[i] in s.records;
        }
      }
    } else {
      assert rs == s.records;
    }
  }

  /** The reply `generate_response` returns. */
  datatype Reply = Reply(response: string, relevantKnowledge: seq<string>)

  /** What one exchange yields and the state it leaves. */
  datatype Exchange = Exchange(result: Result<Reply, ChatError>, after: Snapshot)

  /** The state once the question has been (best-effort) stored. */
  function Asked(s: Snapshot, message: string): Snapshot
  {
    AfterStore(s, "User: " + message)
  }

  /** The context gathered for the question, searched over the table that already holds it. */
  function ContextFor(s: Snapshot, message: string, norm: Vector -> real): Context
  {
    var asked := Asked(s, message);
    RelevantContext(asked.records, ReplyAt(asked.replies, 0), ReplyAt(asked.replies, 1), KnowledgeLimit, MemoryLimit, norm)
  }

  /** The prompt sent to the chat-completion service. */
  function PromptFor(s: Snapshot, message: string, norm: Vector -> real): string
  {
    var ctx := ContextFor(s, message, norm);
    UserPrompt(FormatKnowledge(ctx.knowledge), FormatMemory(ctx.memory), message)
  }

  /**
   * `generate_response` from storing the question on: the question is stored,
   * the context gathered, the service asked; on an answer, the answer is
   * stored and returned with the knowledge used; on a service error, that
   * error is raised, wrapped.
   */
  function ExchangeFrom(s: Snapshot, message: string, complete: (string, string) -> Result<string, string>,
                        norm: Vector -> real): Exchange
  {
    Conclude(Searched(s, message), ContextFor(s, message, norm).knowledge, complete(SystemPrompt, PromptFor(s, message, norm)))
  }

  /** The state once the question is stored and both searches have embedded it. */
  function Searched(s: Snapshot, message: string): Snapshot
  {
    var asked := Asked(s, message);
    asked.(replies := Drop(asked.replies, 2))
  }

  /** How an exchange ends, given the state after the searches, the knowledge found and the service's outcome. */
  function Conclude(searched: Snapshot, knowledge: seq<string>, completion: Result<string, string>): Exchange
  {
    if completion.Failure? then Exchange(Failure(GenerationFailed(completion.error)), searched)
    else Exchange(Success(Reply(completion.value, knowledge)), AfterStore(searched, "Assistant: " + completion.value))
  }

  /** The conversation lines one exchange stores. */
  function TurnLines(s: Snapshot, message: string, e: Exchange): seq<string>
  {
    (if ReplyAt(s.replies, 0).Some? then ["User: " + message] else [])
      + (if e.result.Success? && ReplyAt(s.replies, 3).Some? then ["Assistant: " + e.result.value.response] else [])
  }

  lemma RememberedMemory(reply: Option<Vector>, id: nat, time: nat, content: string)
    ensures forall x :: x in Remembered(reply, id, time, content) ==> x.kind == Memory
    ensures Contents(Remembered(reply, id, time, content)) == if reply.Some? then [content] else []
  {
  }

  /**
   * An exchange only appends: the question and then the answer, each stored
   * when its embedding succeeded, both as memory records; the knowledge base
   * is untouched; the table stays in creation order; and the exchange uses
   * three embedding calls, four when the service answers.
   */
  lemma ExchangeRecords(s: Snapshot, message: string, complete: (string, string) -> Result<string, string>,
                        norm: Vector -> real)
    requires Consistent(s)
    ensures var e := ExchangeFrom(s, message, complete, norm);
            && Consistent(e.after)
            && e.after.records[..|s.records|] == s.records
            && (forall x :: x in e.after.records[|s.records|..] ==> x.kind == Memory)
            && Contents(e.after.records[|s.records|..]) == TurnLines(s, message, e)
            && OfKind(e.after.records, Knowledge) == OfKind(s.records, Knowledge)
            && e.after.replies == Drop(s.replies, if e.result.Success? then 4 else 3)
  {
    ConcludeRecords(s, message, ContextFor(s, message, norm).knowledge, complete(SystemPrompt, PromptFor(s, message, norm)));
  }

  lemma ConcludeRecords(s: Snapshot, message: string, knowledge: seq<string>, completion: Result<string, string>)
    requires Consistent(s)
    ensures var e := Conclude(Searched(s, message), knowledge, completion);
            && Consistent(e.after)
            && e.after.records[..|s.records|] == s.records
            && (forall x :: x in e.after.records[|s.records|..] ==> x.kind == Memory)
            && Contents(e.after.records[|s.records|..]) == TurnLines(s, message, e)
            && OfKind(e.after.records, Knowledge) == OfKind(s.records, Knowledge)
            && e.after.replies == Drop(s.replies, if e.result.Success? then 4 else 3)
  {
    var e := Conclude(Searched(s, message), knowledge, completion);
    var added := TurnRecords(s, message, e);
    TurnState(s, message, knowledge, completion);
    KnowledgeKept(s.records, added);
  }

  /** The records an exchange appends: the question's, then the answer's, each when its embedding succeeded. */
  function TurnRecords(s: Snapshot, message: string, e: Exchange): seq<Record>
  {
    var user := Remembered(ReplyAt(s.replies, 0), s.nextId, s.clock, "User: " + message);
    if e.result.Failure? then user
    else user + Remembered(ReplyAt(s.replies, 3), s.nextId + |user|, s.clock + |user|, "Assistant: " + e.result.value.response)
  }

  lemma TurnState(s: Snapshot, message: string, knowledge: seq<string>, completion: Result<string, string>)
    requires Consistent(s)
    ensures var e := Conclude(Searched(s, message), knowledge, completion);
            var added := TurnRecords(s, message, e);
            && Consistent(e.after)
            && e.after.records == s.records + added
            && (forall x :: x in added ==> x.kind == Memory)
            && Contents(added) == TurnLines(s, message, e)
            && e.after.replies == Drop(s.replies, if e.result.Success? then 4 else 3)
  {
    var searched := Searched(s, message);
    var user := Remembered(ReplyAt(s.replies, 0), s.nextId, s.clock, "User: " + message);
    SearchedState(s, message);
    if completion.Success? {
      var line := "Assistant: " + completion.value;
      var answer := Remembered(ReplyAt(s.replies, 3), searched.nextId, searched.clock, line);
      AnsweredState(s.replies, searched, line);
      ContentsJoin(user, answer);
      assert s.records + user + answer == s.records + (user + answer);
    }
  }

  /** After the question is stored and both searches ran: the question's record, if any, is appended and three replies are used. */
  lemma SearchedState(s: Snapshot, message: string)
    requires Consistent(s)
    ensures var t := Searched(s, message);
            var user := Remembered(ReplyAt(s.replies, 0), s.nextId, s.clock, "User: " + message);
            && Consistent(t)
            && t.records == s.records + user
            && t.replies == Drop(s.replies, 3)
            && (forall x :: x in user ==> x.kind == Memory)
            && Contents(user) == if ReplyAt(s.replies, 0).Some? then ["User: " + message] else []
  {
    AfterStoreConsistent(s, "User: " + message);
    DropZero(s.replies);
    DropStep(s.replies, 0);
    DropDrop(s.replies, 1, 2);
    RememberedMemory(ReplyAt(s.replies, 0), s.nextId, s.clock, "User: " + message);
  }

  /** Storing the answer uses reply 3 of the script and appends at most one memory record. */
  lemma AnsweredState(replies: seq<Option<Vector>>, t: Snapshot, line: string)
    requires Consistent(t) && t.replies == Drop(replies, 3)
    ensures var u := AfterStore(t, line);
            var answer := Remembered(ReplyAt(replies, 3), t.nextId, t.clock, line);
            && Consistent(u)
            && u.records == t.records + answer
            && u.replies == Drop(replies, 4)
            && (forall x :: x in answer ==> x.kind == Memory)
            && Contents(answer) == if ReplyAt(replies, 3).Some? then [line] else []
  {
    AfterStoreConsistent(t, line);
    DropStep(replies, 3);
    RememberedMemory(ReplyAt(replies, 3), t.nextId, t.clock, line);
  }

  /** Records appended after `base` are the suffix; when they are all memories the knowledge is that of `base`. */
  lemma KnowledgeKept(base: seq<Record>, added: seq<Record>)
    requires forall x :: x in added ==> x.kind == Memory
    ensures (base + added)[..|base|] == base && (base + added)[|base|..] == added
    ensures OfKind(base + added, Knowledge) == OfKind(base, Knowledge)
  {
    OfKindAppend(base, added, Knowledge);
    OfKindNone(added, Knowledge);
    assert (base + added)[..|base|] == base;
    assert (base + added)[|base|..] == added;
  }

  lemma ContentsJoin(a: seq<Record>, b: seq<Record>)
    requires |b| <= 1
    ensures Contents(a + b) == Contents(a) + Contents(b)
  {
    if b != [] {
      assert b == [b[0]];
      ContentsAppend(a, b[0]);
    } else {
      assert a + b == a;
    }
  }

  /**
   * The knowledge returned with an answer is the content of at most ten
   * knowledge records of the store, and it is empty exactly when the store
   * holds no knowledge record.
   */
  lemma ExchangeKnowledge(s: Snapshot, message: string, complete: (string, string) -> Result<string, string>,
                          norm: Vector -> real)
    requires Consistent(s)
    ensures var e := ExchangeFrom(s, message, complete, norm);
            e.result.Success? ==>
              var k := e.result.value.relevantKnowledge;
              && |k| <= KnowledgeLimit
              && (forall c :: c in k ==> exists x :: x in s.records && x.kind == Knowledge && x.content == c)
              && (k == [] <==> OfKind(s.records, Knowledge) == [])
  {
    ContextKnowledge(s, message, norm);
  }

  lemma ContextKnowledge(s: Snapshot, message: string, norm: Vector -> real)
    requires Consistent(s)
    ensures var k := ContextFor(s, message, norm).knowledge;
            && |k| <= KnowledgeLimit
            && (forall c :: c in k ==> exists x :: x in s.records && x.kind == Knowledge && x.content == c)
            && (k == [] <==> OfKind(s.records, Knowledge) == [])
  {
    var asked := Asked(s, message);
    AskedRecords(s, message);
    ContextShape(asked.records, ReplyAt(asked.replies, 0), ReplyAt(asked.replies, 1), KnowledgeLimit, MemoryLimit, norm);
    var k := ContextFor(s, message, norm).knowledge;
    forall c | c in k ensures exists x :: x in s.records && x.kind == Knowledge && x.content == c {
      var x :| x in asked.records && x.kind == Knowledge && x.content == c;
      assert x in OfKind(asked.records, Knowledge);
    }
    if k != [] {
      assert k[0] in k;
    }
  }

  /**
   * The conversation context is empty exactly when the store held no memory
   * and the question itself could not be stored.
   */
  lemma ContextMemory(s: Snapshot, message: string, norm: Vector -> real)
    requires Consistent(s)
    ensures ContextFor(s, message, norm).memory == [] <==> OfKind(s.records, Memory) == [] && ReplyAt(s.replies, 0).None?
  {
    var asked := Asked(s, message);
    var m := ContextFor(s, message, norm).memory;
    AskedRecords(s, message);
    ContextShape(asked.records, ReplyAt(asked.replies, 0), ReplyAt(asked.replies, 1), KnowledgeLimit, MemoryLimit, norm);
    if m != [] {
      assert m[0] in m;
      var x :| x in asked.records && x.kind == Memory && x.content == m[0];
      assert x in OfKind(asked.records, Memory);
    }
  }

  /** Storing the question adds a memory record, or nothing, at the end of the table. */
  lemma AskedRecords(s: Snapshot, message: string)
    requires Consistent(s)
    ensures var asked := Asked(s, message);
            && Ascending(asked.records)
            && OfKind(asked.records, Knowledge) == OfKind(s.records, Knowledge)
            && OfKind(asked.records, Memory) == OfKind(s.records, Memory) + Remembered(ReplyAt(s.replies, 0), s.nextId, s.clock, "User: " + message)
  {
    AfterStoreConsistent(s, "User: " + message);
    var user := Remembered(NextReply(s.replies), s.nextId, s.clock, "User: " + message);
    RememberedMemory(NextReply(s.replies), s.nextId, s.clock, "User: " + message);
    OfKindAppend(s.records, user, Knowledge);
    OfKindNone(user, Knowledge);
    OfKindAppend(s.records, user, Memory);
    OfKindAll(user, Memory);
  }

  /**
   * The prompt says no knowledge base was found exactly when the store holds
   * no knowledge record, and says there is no previous conversation exactly
   * when the store held no memory and the question itself could not be stored.
   */
  lemma PromptPlaceholders(s: Snapshot, message: string, norm: Vector -> real)
    requires Consistent(s)
    ensures var ctx := ContextFor(s, message, norm);
            && (Section(FormatKnowledge(ctx.knowledge), NoKnowledge) == NoKnowledge <==> OfKind(s.records, Knowledge) == [])
            && (Section(FormatMemory(ctx.memory), NoMemory) == NoMemory
                <==> OfKind(s.records, Memory) == [] && ReplyAt(s.replies, 0).None?)
  {
    var ctx := ContextFor(s, message, norm);
    ContextKnowledge(s, message, norm);
    ContextMemory(s, message, norm);
    KnowledgePlaceholder(ctx.knowledge);
    MemoryPlaceholder(ctx.memory);
  }

  /**
   * What `_ensure_resume_ingested` leaves, given the cached flag and the state
   * before it: the flag it caches and the state the exchange then starts from.
   * A cached flag is reused and changes nothing; an existing knowledge base is
   * reported and changes nothing; otherwise the flag records whether ingesting
   * succeeded, and a successful ingestion replaces the knowledge by the
   * accepted chunks. Memory records are kept in every case.
   */
  predicate IngestedFrom(cached: Option<bool>, before: Snapshot, resume: Option<string>,
                         checked: Option<bool>, ready: Snapshot)
  {
    && OfKind(ready.records, Memory) == OfKind(before.records, Memory)
    && (cached.Some? ==> checked == cached && ready == before)
    && (cached.None? && OfKind(before.records, Knowledge) != [] ==> checked == Some(true) && ready == before)
    && (cached.None? && OfKind(before.records, Knowledge) == [] ==>
          && checked == Some(Prepare(resume).Success?)
          && (Prepare(resume).Failure? ==> ready == before)
          && (Prepare(resume).Success? ==>
                var created := Ingested(Prepare(resume).value, before.replies, before.nextId, before.clock);
                && ready.records == WithoutKind(before.records, Knowledge) + created
                && ready.nextId == before.nextId + |created| && ready.clock == before.clock + |created|
                && Contents(OfKind(ready.records, Knowledge)) == Accepted(Prepare(resume).value, before.replies)
                && ready.replies == Drop(before.replies, |Prepare(resume).value|)))
  }

  // ---------------------------------------------------------------- methods

  /** The module-level `_resume_ingested_check`: `None` until the first check. */
  class IngestCheck {
    var checked: Option<bool>

    constructor ()
      ensures checked == None
    {
      checked := None;
    }
  }

  /**
   * `_ensure_resume_ingested`: the cached answer when there is one; otherwise
   * true when the knowledge base is not empty, and otherwise whether ingesting
   * the résumé succeeded. The answer is cached either way.
   */
  method EnsureResumeIngested(check: IngestCheck, store: MemoryStore, embedder: Embedder, resume: Option<string>)
    returns (ingested: bool)
    requires store.Valid()
    modifies check, store, embedder
    ensures store.Valid()
    ensures check.checked == Some(ingested)
    ensures OfKind(store.records, Memory) == OfKind(old(store.records), Memory)
    ensures old(check.checked).Some? ==>
              ingested == old(check.checked).value && unchanged(store) && unchanged(embedder)
    ensures old(check.checked).None? && OfKind(old(store.records), Knowledge) != [] ==>
              ingested && unchanged(store) && unchanged(embedder)
    ensures old(check.checked).None? && OfKind(old(store.records), Knowledge) == [] ==>
              && (ingested <==> Prepare(resume).Success?)
              && (!ingested ==> unchanged(store) && unchanged(embedder))
              && (ingested ==>
                    var created := Ingested(Prepare(resume).value, old(embedder.replies), old(store.nextId), old(store.clock));
                    && store.records == WithoutKind(old(store.records), Knowledge) + created
                    && store.nextId == old(store.nextId) + |created| && store.clock == old(store.clock) + |created|
                    && Contents(OfKind(store.records, Knowledge)) == Accepted(Prepare(resume).value, old(embedder.replies))
                    && embedder.replies == Drop(old(embedder.replies), |Prepare(resume).value|))
  {
    if check.checked.Some? {
      return check.checked.value;
    }
    ingested := |OfKind(store.records, Knowledge)| > 0;
    check.checked := Some(ingested);
    if !ingested {
      var outcome := IngestResume(store, embedder, resume);
      ingested := outcome.Pass?;
      check.checked := Some(ingested);
    }
  }

  /** Embed `content` and, when that succeeds, store it as a memory; an embedding failure is swallowed. */
  method StoreTurn(store: MemoryStore, embedder: Embedder, content: string)
    requires store.Valid()
    modifies store, embedder
    ensures store.Valid()
    ensures StateOf(store, embedder) == AfterStore(old(StateOf(store, embedder)), content)
  {
    var v := embedder.Embed(content);
    if v.Some? {
      var r := store.Create(content, Some(Encoded(v.value)), Memory);
    }
  }

  /** The part of `generate_response` after the key check and the ingestion check. */
  method Answer(store: MemoryStore, embedder: Embedder, message: string,
                complete: (string, string) -> Result<string, string>, norm: Vector -> real)
    returns (r: Result<Reply, ChatError>)
    requires store.Valid()
    modifies store, embedder
    ensures store.Valid()
    ensures var e := ExchangeFrom(old(StateOf(store, embedder)), message, complete, norm);
            r == e.result && StateOf(store, embedder) == e.after
  {
    StoreTurn(store, embedder, "User: " + message);
    var ctx := GetRelevantContext(store, embedder, message, KnowledgeLimit, MemoryLimit, norm);
    var completion := complete(SystemPrompt, UserPrompt(FormatKnowledge(ctx.knowledge), FormatMemory(ctx.memory), message));
    if completion.Failure? {
      return Failure(GenerationFailed(completion.error));
    }
    StoreTurn(store, embedder, "Assistant: " + completion.value);
    r := Success(Reply(completion.value, ctx.knowledge));
  }

  /**
   * `generate_response(message)`: fails with the missing-key error before
   * touching anything when no key is configured; otherwise makes sure the
   * résumé was ingested and then runs the exchange from the state `ready`
   * that check leaves.
   */
  method GenerateResponse(check: IngestCheck, store: MemoryStore, embedder: Embedder,
                          settingsKey: string, envKey: Option<string>, resume: Option<string>, message: string,
                          complete: (string, string) -> Result<string, string>, norm: Vector -> real)
    returns (r: Result<Reply, ChatError>, ghost ready: Snapshot)
    requires store.Valid()
    modifies check, store, embedder
    ensures store.Valid()
    ensures ApiKey(settingsKey, envKey).None? ==>
              r == Failure(MissingApiKey) && unchanged(check) && unchanged(store) && unchanged(embedder)
    ensures ApiKey(settingsKey, envKey).Some? ==>
              && Consistent(ready)
              && IngestedFrom(old(check.checked), old(StateOf(store, embedder)), resume, check.checked, ready)
              && var e := ExchangeFrom(ready, message, complete, norm);
                 r == e.result && StateOf(store, embedder) == e.after
  {
    ready := StateOf(store, embedder);
    if ApiKey(settingsKey, envKey).None? {
      return Failure(MissingApiKey), ready;
    }
    var ingested := EnsureResumeIngested(check, store, embedder, resume);
    ready := StateOf(store, embedder);
    r := Answer(store, embedder, message, complete, norm);
  }
}
