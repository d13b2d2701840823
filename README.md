# Retrieval core of a personal résumé chat bot, in Dafny

The system is a Django service that answers questions about one person's
CV. It keeps a single table, `assistant_memory`, whose rows are either
*knowledge* (chunks of the résumé) or *memory* (the user's questions and
the assistant's answers, stored as `User: …` / `Assistant: …`). Each row
may carry an embedding vector, stored as JSON text.

This project models the retrieval core and proves properties of it:

- `models.dfy` (module `Models`) holds the row, its two types, `__str__`, the
  listings the ORM produces and a `MemoryStore` class. The class holds the
  table in creation order, an id counter and a clock that stands in for
  `auto_now_add`.
- `ingest.dfy` (module `Ingest`) holds `clean_text`, `chunk_text` and
  `ingest_resume`. The first two are loops with their invariants, proved
  against specification functions. `ingest_resume` replaces the knowledge
  rows with one row per chunk whose embedding succeeded.
- `vector_search.dfy` (module `VectorSearch`) holds `cosine_similarity`,
  `search_similar_memories` and `get_relevant_context`. The ranking is
  proved sorted, a permutation of the scored rows and stable. Results are
  proved to be the top `limit` rows of the requested type, and the
  fallback to the newest rows is modelled.
- `llm.dfy` (module `Llm`) holds the API-key lookup, the once-per-process
  résumé check, the exact prompt text and `generate_response` as one
  exchange. The exchange stores the question, retrieves context, calls the
  completion and stores the answer.
- `views.dfy` (module `Views`) holds the three JSON endpoints: request
  validation and status codes for `POST /api/chat/`, the 50 newest rows for
  `GET /api/memory/`, and the parsed chat history for
  `GET /api/chat/history/`.
- `embeddings.dfy` (module `Embeddings`) holds the embedding service,
  modelled as a scripted `Embedder`. Each call consumes one outcome from a
  queue, and an exhausted queue means failure. Every property therefore
  holds whichever embedding calls fail.
- `strings.dfy` and `base.dfy` hold Python's `str.strip`, `split`, `join`,
  `replace(…, 1)` and `str(int)`, plus small sequence utilities.

The chat completion is a function parameter
`complete(system, user): Result<string, string>`. `np.linalg.norm` is a
parameter `norm` too. The search and the context retrieval accept any `norm`.
Only the lemmas about the similarity value (`VectorSearch.CosineGuard`,
`VectorSearch.NormZero`) assume that it is Euclidean on the vectors
involved, that is `norm(v) >= 0` and `norm(v) * norm(v) == Dot(v, v)`.

Two things become visible only through the proofs:

- `ingest_resume`'s "No chunks generated" error can never be raised
  (`Ingest.PrepareSucceeds`).
- The history endpoint returns exactly the old history plus the new question
  and answer after every exchange (`Views.HistoryAfterExchange`). Either
  message is missing when its embedding failed, because `generate_response`
  stores a message only together with its embedding.

## Model

Source paths are relative to the repository root.

| member | source | states |
|---|---|---|
| Models.ParseType | personal-chat-bot/chatbot-personal/backend/assistant/models.py:7-10 | documents the declared choices only (the source never parses a type name): exactly the two choice names are accepted, and each reads back as its choice |
| Models.Display | personal-chat-bot/chatbot-personal/backend/assistant/models.py:23-24 | `__str__` is the type name, `": "`, a prefix of at most 50 characters of the content, then `"..."`, even for short content |
| Models.UniqueIds | personal-chat-bot/chatbot-personal/backend/assistant/models.py:12 | in a table kept in creation order, no two rows share an id |
| Models.OfKind | personal-chat-bot/chatbot-personal/backend/assistant/services/llm.py:20 | `filter(type=t)` keeps exactly the rows of type `t` and no more rows than there were |
| Models.WithoutKind | personal-chat-bot/chatbot-personal/backend/assistant/services/ingest_resume.py:87 | after deleting every row of type `t`, exactly the rows of other types remain |
| Models.Matching | personal-chat-bot/chatbot-personal/backend/assistant/services/vector_search.py:61 | the queryset holds exactly the rows of the requested type, or every row when no type is given |
| Models.NewestListing | personal-chat-bot/chatbot-personal/backend/assistant/models.py:21 | a listing in the default `-created_at` order cut to `limit` runs newest first, has `min(limit, matching rows)` entries, holds only matching rows, and every matching row left out is older than every row shown |
| Models.DeleteKeepsOtherKind | personal-chat-bot/chatbot-personal/backend/assistant/services/ingest_resume.py:87 | deleting one type leaves the listing of the other type exactly as it was |
| Models.MemoryStore.Create | personal-chat-bot/chatbot-personal/backend/assistant/models.py:12-17 | `objects.create` appends one row with the next id and the current time, and the table stays ordered with unique ids |
| Models.MemoryStore.DeleteType | personal-chat-bot/chatbot-personal/backend/assistant/services/ingest_resume.py:87 | `filter(type=t).delete()` leaves exactly the rows of other types, in their order |
| Strings.StripBlank | personal-chat-bot/chatbot-personal/backend/assistant/services/ingest_resume.py:74 | `strip()` gives the empty string exactly when the text is all Python whitespace |
| Strings.StripShape | personal-chat-bot/chatbot-personal/backend/assistant/services/ingest_resume.py:26 | a stripped text is no longer than its input and neither starts nor ends with whitespace |
| Strings.StripInfix | personal-chat-bot/chatbot-personal/backend/assistant/services/ingest_resume.py:26 | `strip()` removes only whitespace, and only from the ends: the result is a slice `s[i..j]` with all whitespace before `i` and from `j` on |
| Strings.StripStripped | personal-chat-bot/chatbot-personal/backend/assistant/services/ingest_resume.py:51 | stripping is idempotent |
| Strings.SplitJoin | personal-chat-bot/chatbot-personal/backend/assistant/services/ingest_resume.py:47 | joining the pieces of `split(sep)` with `sep` gives back the text |
| Strings.DecimalRoundTrip | personal-chat-bot/chatbot-personal/backend/assistant/services/llm.py:82 | the decimal digits written for a number read back as that number |
| Ingest.WindowStarts | personal-chat-bot/chatbot-personal/backend/assistant/services/ingest_resume.py:22-31 | the loop's `start` values begin at the first position and stay inside the text, and there are none exactly when the text is already exhausted |
| Ingest.Chunks | personal-chat-bot/chatbot-personal/backend/assistant/services/ingest_resume.py:21-33 | the chunks `chunk_text` returns, by definition: every window `text[start:start+size]` of the start sequence, stripped, with the blank ones dropped, in order; its properties are proved by `Ingest.ChunksWellFormed`, `Ingest.WindowsCover`, `Ingest.ConsecutiveWindowsShare` and `Ingest.ChunksExist` |
| Ingest.ChunkText | personal-chat-bot/chatbot-personal/backend/assistant/services/ingest_resume.py:9-33 | the loop returns the specification's chunks (each window stripped, blank ones dropped), and none for an empty text |
| Ingest.ChunksFromAll | personal-chat-bot/chatbot-personal/backend/assistant/services/ingest_resume.py:24-31 | the loop's accumulator, started empty, ends as the stripped non-blank windows |
| Ingest.ChunksWellFormed | personal-chat-bot/chatbot-personal/backend/assistant/services/ingest_resume.py:26-29 | every chunk is non-empty, at most `chunk_size` long, and has no leading or trailing whitespace |
| Ingest.WindowsCover | personal-chat-bot/chatbot-personal/backend/assistant/services/ingest_resume.py:24-31 | every position of the text lies in some window |
| Ingest.ConsecutiveWindowsShare | personal-chat-bot/chatbot-personal/backend/assistant/services/ingest_resume.py:25-31 | for consecutive entries of the start sequence of `chunk_text`, the next start is `size - overlap` further on, and when the `i`-th window is full its last `overlap` characters are the first `overlap` of the next window |
| Ingest.WindowsShare | personal-chat-bot/chatbot-personal/backend/assistant/services/ingest_resume.py:25-31 | a full window and the window `size - overlap` further on share `overlap` characters: the tail of the first is the head of the second |
| Ingest.DefaultWindowsOf1200 | personal-chat-bot/chatbot-personal/backend/assistant/services/ingest_resume.py:9 | with the defaults 500/50, a 1200-character text is cut at 0, 450 and 900 |
| Ingest.ChunksExist | personal-chat-bot/chatbot-personal/backend/assistant/services/ingest_resume.py:24-29 | a text starting with a non-space character yields at least one chunk |
| Ingest.CleanText | personal-chat-bot/chatbot-personal/backend/assistant/services/ingest_resume.py:36-55 | the loop keeps exactly the stripped non-blank lines, in order, joined by single spaces |
| Ingest.Clean | personal-chat-bot/chatbot-personal/backend/assistant/services/ingest_resume.py:47-55 | what `clean_text` returns, by definition: the lines of `split('\n')`, each stripped, blank ones dropped, joined with single spaces; `Ingest.CleanShape` proves what it guarantees |
| Ingest.CleanShape | personal-chat-bot/chatbot-personal/backend/assistant/services/ingest_resume.py:47-55 | the cleaned text has no line break, is empty exactly when the input is blank, and otherwise starts with a non-space character |
| Ingest.StrippedEmpty | personal-chat-bot/chatbot-personal/backend/assistant/services/ingest_resume.py:50-53 | no line is kept exactly when every line is blank |
| Ingest.PrepareSucceeds | personal-chat-bot/chatbot-personal/backend/assistant/services/ingest_resume.py:67-84 | the checks before deletion pass exactly when the file exists and is not blank, so the "no chunks" error is unreachable |
| Ingest.Prepare | personal-chat-bot/chatbot-personal/backend/assistant/services/ingest_resume.py:67-84 | the checks `ingest_resume` makes before the delete, by definition: a missing file, a blank text, or no chunks fail with their own error, and otherwise the chunks of the cleaned text are returned; `Ingest.PrepareSucceeds` characterizes when it succeeds |
| Ingest.AcceptedAll | personal-chat-bot/chatbot-personal/backend/assistant/services/ingest_resume.py:91-100 | when every embedding succeeds, every chunk is stored |
| Ingest.AcceptedSkipsOne | personal-chat-bot/chatbot-personal/backend/assistant/services/ingest_resume.py:102-104 | a chunk whose embedding fails is skipped and the rest are stored in order |
| Ingest.Ingested | personal-chat-bot/chatbot-personal/backend/assistant/services/ingest_resume.py:91-104 | the knowledge rows the loop creates, by definition: for each chunk in turn, a row with the chunk, the vector its embedding returned, the next id and the current time, or none when the embedding failed; it has at most one row per chunk |
| Ingest.IngestedContents | personal-chat-bot/chatbot-personal/backend/assistant/services/ingest_resume.py:91-104 | the created rows hold exactly the accepted chunks, in order |
| Ingest.IngestedShape | personal-chat-bot/chatbot-personal/backend/assistant/services/ingest_resume.py:91-104 | every created row is a knowledge row with an encoded vector, and the ids and creation times count up by one from the first ones |
| Ingest.ReplaceKnowledge | personal-chat-bot/chatbot-personal/backend/assistant/services/ingest_resume.py:87-104 | after the delete and the inserts, the memory rows are untouched and the knowledge rows are exactly the inserted ones |
| Ingest.StoreChunk | personal-chat-bot/chatbot-personal/backend/assistant/services/ingest_resume.py:92-104 | one iteration embeds the chunk once; when that succeeds it appends exactly one knowledge row holding the chunk, the returned vector, the next id and the current time, and otherwise the table and counters are unchanged |
| Ingest.StoreChunks | personal-chat-bot/chatbot-personal/backend/assistant/services/ingest_resume.py:91-104 | the loop makes one embedding call per chunk and appends exactly `Ingested(chunks, replies, nextId, clock)`: one knowledge row per chunk whose embedding succeeded, in order, with its vector and consecutive ids and times; the counters advance by the number of rows |
| Ingest.ReplaceKnowledgeRecords | personal-chat-bot/chatbot-personal/backend/assistant/services/ingest_resume.py:86-104 | the new table is the old one without its knowledge rows followed by `Ingested(chunks, ...)`, so memory rows are unchanged and the knowledge rows are exactly the accepted chunks with their vectors; the counters advance by the number of rows |
| Ingest.IngestResume | personal-chat-bot/chatbot-personal/backend/assistant/services/ingest_resume.py:58-106 | a missing or blank résumé raises with the store and embedder untouched; otherwise the new table is the old one without knowledge rows followed by the rows `Ingested` gives for the chunks, with their vectors, ids and times, and memory is kept |
| VectorSearch.DotSymmetric | personal-chat-bot/chatbot-personal/backend/assistant/services/vector_search.py:26 | the dot product is symmetric |
| VectorSearch.Cosine | personal-chat-bot/chatbot-personal/backend/assistant/services/vector_search.py:11-37 | `cosine_similarity`, by definition: 0 when either norm is 0, otherwise the dot product over the product of the norms; `VectorSearch.CosineGuard` and `VectorSearch.CosineSymmetric` state its properties |
| VectorSearch.DotSelf | personal-chat-bot/chatbot-personal/backend/assistant/services/vector_search.py:26-30 | a vector's dot product with itself is non-negative and zero exactly for the zero vector |
| VectorSearch.CosineGuard | personal-chat-bot/chatbot-personal/backend/assistant/services/vector_search.py:11-37 | the similarity is 0 when either vector is zero, and otherwise times the product of the norms it gives back the dot product |
| VectorSearch.CosineSymmetric | personal-chat-bot/chatbot-personal/backend/assistant/services/vector_search.py:11-37 | the similarity does not depend on argument order |
| VectorSearch.CandidatesExact | personal-chat-bot/chatbot-personal/backend/assistant/services/vector_search.py:64-79 | the collected pairs are exactly the scorable rows, each with its own score |
| VectorSearch.ScoreEach | personal-chat-bot/chatbot-personal/backend/assistant/services/vector_search.py:64-79 | the scoring loop yields the specification's candidate list |
| VectorSearch.SortPermutation | personal-chat-bot/chatbot-personal/backend/assistant/services/vector_search.py:82 | sorting keeps exactly the same pairs |
| VectorSearch.SortDescending | personal-chat-bot/chatbot-personal/backend/assistant/services/vector_search.py:82 | sorting puts the highest score first |
| VectorSearch.SortStable | personal-chat-bot/chatbot-personal/backend/assistant/services/vector_search.py:82 | pairs with equal scores keep their relative order, as in Python's stable `list.sort` |
| VectorSearch.SearchSound | personal-chat-bot/chatbot-personal/backend/assistant/services/vector_search.py:40-85 | every result is a scorable row of the requested type, and there are `min(limit, scorable rows)` results |
| VectorSearch.Search | personal-chat-bot/chatbot-personal/backend/assistant/services/vector_search.py:40-85 | `search_similar_memories` given the outcome of embedding the query: `[]` when that failed, otherwise the records of the first `limit` entries of the stably sorted scores of the queryset; `VectorSearch.SearchSound`, `VectorSearch.SearchTop` and `VectorSearch.SearchComplete` state what it returns |
| VectorSearch.SearchTop | personal-chat-bot/chatbot-personal/backend/assistant/services/vector_search.py:82-85 | results are in descending score order, and no row left out scores higher than one returned |
| VectorSearch.SearchTiesKeepOrder | personal-chat-bot/chatbot-personal/backend/assistant/services/vector_search.py:61-82 | rows with equal scores stay in queryset order, newest first |
| VectorSearch.SearchComplete | personal-chat-bot/chatbot-personal/backend/assistant/services/vector_search.py:64-85 | when the limit leaves room, every scorable row of the type is returned |
| VectorSearch.SearchSimilar | personal-chat-bot/chatbot-personal/backend/assistant/services/vector_search.py:40-85 | the method makes one embedding call, returns the specification's ranking, and returns `[]` when that call fails |
| VectorSearch.FallbackSound | personal-chat-bot/chatbot-personal/backend/assistant/services/vector_search.py:114-122 | search results or the fallback's newest rows are of the requested type and at most `limit`, and are non-empty when the type has rows and `limit > 0` |
| VectorSearch.RelevantContext | personal-chat-bot/chatbot-personal/backend/assistant/services/vector_search.py:88-127 | `get_relevant_context` given the two query-embedding outcomes: the contents of each search's results, or of the newest `limit` records of the type when that search found nothing; `VectorSearch.ContextShape` states what it returns |
| VectorSearch.ContextShape | personal-chat-bot/chatbot-personal/backend/assistant/services/vector_search.py:88-127 | the context holds at most 10/3 contents of existing knowledge/memory rows, and each part is non-empty whenever its type has rows |
| VectorSearch.GetRelevantContext | personal-chat-bot/chatbot-personal/backend/assistant/services/vector_search.py:88-127 | the method makes two embedding calls, one per search, and returns the specification's context |
| Llm.ApiKey | personal-chat-bot/chatbot-personal/backend/assistant/services/llm.py:51-58 | the settings key wins when non-empty, else the environment's; there is no key exactly when both are empty; a chosen key is never empty |
| Llm.ErrorMessage | personal-chat-bot/chatbot-personal/backend/assistant/services/llm.py:58-134 | the missing-key message is line 58's text; a completion failure's message (line 134) is the fixed prefix followed by the service's own message, which can be read back from it; the missing-key message lacks that prefix |
| Llm.ItemNumber | personal-chat-bot/chatbot-personal/backend/assistant/services/llm.py:82 | the `i`-th knowledge line starts with the decimal number `i + 1` |
| Llm.FormatKnowledge | personal-chat-bot/chatbot-personal/backend/assistant/services/llm.py:82 | `knowledge_text`, by definition: the items as `"<i+1>. <item>"` lines joined by blank lines; `Llm.ItemNumber` and `Llm.KnowledgePlaceholder` state its properties |
| Llm.FormatMemory | personal-chat-bot/chatbot-personal/backend/assistant/services/llm.py:83 | `memory_text`, by definition: the items as `"- <item>"` lines joined by line breaks; `Llm.MemoryPlaceholder` states its property |
| Llm.KnowledgePlaceholder | personal-chat-bot/chatbot-personal/backend/assistant/services/llm.py:82-93 | the knowledge section shows the "No knowledge base found" placeholder exactly when no knowledge was retrieved |
| Llm.MemoryPlaceholder | personal-chat-bot/chatbot-personal/backend/assistant/services/llm.py:83-96 | the memory section shows the "No previous conversation context" placeholder exactly when no memory was retrieved |
| Llm.UserPrompt | personal-chat-bot/chatbot-personal/backend/assistant/services/llm.py:90-101 | the user prompt, by definition: the fixed heading, the knowledge section or its placeholder, the conversation heading, the memory section or its placeholder, the question heading, the question, and the fixed closing instruction; `Llm.PromptPlaceholders` states when each placeholder appears |
| Llm.AfterStoreConsistent | personal-chat-bot/chatbot-personal/backend/assistant/services/llm.py:66-76 | a best-effort store keeps the table ordered and the counters ahead of it |
| Llm.AskedRecords | personal-chat-bot/chatbot-personal/backend/assistant/services/llm.py:66-76 | storing the question leaves the knowledge rows alone and appends at most the `User:` row to the memory rows |
| Llm.ContextKnowledge | personal-chat-bot/chatbot-personal/backend/assistant/services/llm.py:79 | the retrieved knowledge has at most 10 items, each the content of a stored knowledge row, and is empty exactly when there is no knowledge |
| Llm.ContextMemory | personal-chat-bot/chatbot-personal/backend/assistant/services/llm.py:66-79 | retrieved memory is empty exactly when there was no memory and the question could not be stored |
| Llm.PromptPlaceholders | personal-chat-bot/chatbot-personal/backend/assistant/services/llm.py:79-96 | each placeholder appears in the prompt exactly when the store has no row of its type (memory also counts the question just stored) |
| Llm.ExchangeRecords | personal-chat-bot/chatbot-personal/backend/assistant/services/llm.py:63-134 | an exchange only appends memory rows, whose contents are `User: message` and, on success, `Assistant: answer`, each when its embedding succeeded; knowledge is untouched; 3 or 4 embedding calls are made |
| Llm.ExchangeFrom | personal-chat-bot/chatbot-personal/backend/assistant/services/llm.py:65-134 | one exchange after the key and résumé checks, by definition: store the question, retrieve the context with limits 10 and 3, build the prompts, call the completion, and on success store the answer and return it with the retrieved knowledge; `Llm.ExchangeRecords`, `Llm.ExchangeKnowledge` and `Views.HistoryAfterExchange` state what it does to the store |
| Llm.ExchangeKnowledge | personal-chat-bot/chatbot-personal/backend/assistant/services/llm.py:129-132 | a successful reply's `relevant_knowledge` has at most 10 items, each a stored knowledge content, and is empty exactly when there is no knowledge |
| Llm.EnsureResumeIngested | personal-chat-bot/chatbot-personal/backend/assistant/services/llm.py:10-36 | the cached answer is reused untouched; otherwise the answer is true when knowledge exists, with nothing changed, else whether ingestion succeeded, and on success the table is the old one without knowledge rows plus the rows `Ingested` gives; the answer is cached and memory rows are never touched |
| Llm.StoreTurn | personal-chat-bot/chatbot-personal/backend/assistant/services/llm.py:66-76 | storing a turn embeds the content once and appends the memory row only when the embedding succeeded |
| Embeddings.Embedder.Embed | personal-chat-bot/chatbot-personal/backend/assistant/services/embeddings.py:6-34 | each call to the embedding service consumes exactly one scripted outcome, either a vector or `None` for the exception it raises |
| Llm.Answer | personal-chat-bot/chatbot-personal/backend/assistant/services/llm.py:65-134 | the method's result and final state are those of the specification's exchange |
| Llm.GenerateResponse | personal-chat-bot/chatbot-personal/backend/assistant/services/llm.py:39-134 | a missing key raises with nothing changed; otherwise the résumé check runs from the current state (a cached flag is reused and changes nothing, existing knowledge changes nothing, otherwise the flag records whether ingestion succeeded, and a successful ingestion leaves the old table without knowledge rows plus the rows `Ingested` gives for the chunks, with their vectors, ids and times; memory is always kept), and the result and final state are those of the exchange from the state that check leaves |
| Views.ValidateMessage | personal-chat-bot/chatbot-personal/backend/assistant/serializers.py:6 | a message is accepted exactly when it is a string whose stripped form is non-empty, at most 2000 characters and free of NUL; the validated value is the stripped text; a rejection carries at least one error |
| Views.ValidateIdempotent | personal-chat-bot/chatbot-personal/backend/assistant/serializers.py:6 | validating an already validated message accepts it unchanged |
| Views.Respond | personal-chat-bot/chatbot-personal/backend/assistant/views.py:29-37 | the status is 200 exactly when `generate_response` returns; the body is its result, or `{'error': str(e)}` with status 500 |
| Views.Chat | personal-chat-bot/chatbot-personal/backend/assistant/views.py:15-37 | status 400 exactly when validation fails, with nothing changed; a missing key gives 500 with nothing changed; otherwise the résumé check runs from the current state exactly as in `Llm.GenerateResponse`, and the response and final state are those of the exchange on the validated message from the state that check leaves; a 200 reply's knowledge comes from stored knowledge rows |
| Views.ReplyKnowledge | personal-chat-bot/chatbot-personal/backend/assistant/views.py:30-32 | a 200 reply's `relevant_knowledge` has at most 10 items, each the content of a knowledge row still in the store |
| Views.SerializeAll | personal-chat-bot/chatbot-personal/backend/assistant/views.py:47 | serializing many rows serializes each in place |
| Views.GetMemory | personal-chat-bot/chatbot-personal/backend/assistant/views.py:46-47 | the `memories` list, by definition: all records in `-created_at` order, cut to 50, each serialized; `Views.MemoryPage` states what it returns |
| Views.MemoryPage | personal-chat-bot/chatbot-personal/backend/assistant/views.py:40-48 | the page has `min(50, rows)` items, newest first, each a serialized row, and every row left out is older than every row shown |
| Views.UserTurn | personal-chat-bot/chatbot-personal/backend/assistant/views.py:64-69 | a `User: m` row reads back as the user's message `m` |
| Views.Turn | personal-chat-bot/chatbot-personal/backend/assistant/views.py:63-75 | the history entry of one record: at most one message, the user's for a `User: ` prefix, otherwise the assistant's for an `Assistant: ` prefix, otherwise none; `Views.UserTurn` and `Views.AssistantTurn` show it inverts how `generate_response` stores turns |
| Views.History | personal-chat-bot/chatbot-personal/backend/assistant/views.py:61-75 | the messages of a list of records, at most one entry per record, in record order; `Views.HistoryAppend` shows it distributes over concatenation |
| Views.AssistantTurn | personal-chat-bot/chatbot-personal/backend/assistant/views.py:70-75 | an `Assistant: a` row reads back as the assistant's message `a` |
| Views.HistoryAppend | personal-chat-bot/chatbot-personal/backend/assistant/views.py:62-75 | the history of consecutive rows is the concatenation of their histories |
| Views.ChatHistory | personal-chat-bot/chatbot-personal/backend/assistant/views.py:51-77 | the loop yields the specification's history of the memory rows in creation order |
| Views.HistoryAfterExchange | personal-chat-bot/chatbot-personal/backend/assistant/views.py:57-75 | after an exchange the history is the previous history, then the question as a user message and, on success, the answer as an assistant message, each present when it was stored |

## Left out

- The OpenAI embedding and chat-completion calls. `services/embeddings.py` is modelled only as a script of outcomes in `Embeddings.Embedder`, and the completion is the parameter `complete`. Model name, temperature and `max_tokens` do not appear.
- Floating point: vectors are sequences of reals and `np.linalg.norm` is the parameter `norm`, so rounding in the similarity score is not modelled.
- JSON: `json.dumps`/`json.loads` of embeddings become `StoredVector`. Any text that does not decode to a list of numbers is `Malformed` and skipped. A stored JSON number is also modelled as skipped, but in the source `np.dot` accepts it and gives an array score, and `similarities.sort` then raises outside the `try`. On such a row the search raises, which the model does not capture.
- Database failures: `objects.create` and `delete` always succeed. Only embedding failures drive the best-effort branches.
- `print` logging, and `created_at.isoformat()` (timestamps stay as the clock value).
- Reading `resume.txt`: its content is the input `resume`, and `None` means the file does not exist. Encoding errors while reading are not modelled.
- `settings.py` and `.env` loading: the settings key and the environment variable are passed in as values.
- `chat_view` (template rendering), `urls.py`, `admin.py`, the management command, migrations and the pass-through `ChatResponseSerializer`.
- Concurrency between requests, and the process lifetime of `_resume_ingested_check`, which is the field of one `Llm.IngestCheck` object.
- Non-string JSON values for `message` cannot be represented: a `Field` is absent, `null` or a string. DRF's `CharField` would accept numbers (converted to text) and reject booleans, lists and objects. Python strings with lone surrogates cannot be written as Dafny strings.
- Ingest.ChunkText: requires `overlap < chunk_size` or an empty text. On a non-empty text the Python loop would not end otherwise; the only call uses 500/50. A negative `chunk_size`, whose slices Python would count from the end, is excluded by `size: nat`.
- VectorSearch.SearchSimilar: `list.sort(reverse=True)` is the library sort, modelled as a stable insertion sort function rather than a loop. A negative `limit`, which Python slicing would read from the end, is excluded by `nat`.
- Llm.GenerateResponse: a completion whose message content is `None` is not modelled; `complete` always yields a string or an error.
