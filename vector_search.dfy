/**
 * Similarity search over the stored embeddings: cosine similarity with its
 * zero-norm guard, the ranking `search_similar_memories` builds (score every
 * record whose embedding can be read, sort highest first, keep the top
 * `limit`), and the context `get_relevant_context` assembles, falling back to
 * the newest records of a type when a search finds nothing.
 */
module VectorSearch {
  import opened Base
  import opened Models
  import opened Embeddings

  /** `np.dot` of two vectors of the same length. */
  function Dot(a: Vector, b: Vector): real
    requires |a| == |b|
  {
    if a == [] then 0.0 else a[0] * b[0] + Dot(a[1..], b[1..])
  }

  lemma {:induction false} DotSymmetric(a: Vector, b: Vector)
    requires |a| == |b|
    ensures Dot(a, b) == Dot(b, a)
  {
    if a != [] {
      DotSymmetric(a[1..], b[1..]);
    }
  }

  /** Every component is zero. */
  predicate IsZero(v: Vector)
  {
    forall i :: 0 <= i < |v| ==> v[i] == 0.0
  }

  /** A vector's dot product with itself is never negative, and is zero exactly for the zero vector. */
  lemma {:induction false} DotSelf(v: Vector)
    ensures Dot(v, v) >= 0.0
    ensures Dot(v, v) == 0.0 <==> IsZero(v)
  {
    if v != [] {
      DotSelf(v[1..]);
      SquareSign(v[0], v[0] * v[0]);
      SumZero(v[0] * v[0], Dot(v[1..], v[1..]));
      ZeroCons(v);
    }
  }

  /** A non-empty vector is zero exactly when its head is zero and its tail is zero. */
  lemma ZeroCons(v: Vector)
    requires v != []
    ensures IsZero(v) <==> v[0] == 0.0 && IsZero(v[1..])
  {
    if v[0] == 0.0 && IsZero(v[1..]) {
      forall i | 0 <= i < |v| ensures v[i] == 0.0 {
        if i > 0 { assert v[i] == v[1..][i - 1]; }
      }
    }
  }

  /** A square `p` of `x` is never negative, and is zero exactly when `x` is. */
  lemma SquareSign(x: real, p: real)
    requires p == x * x
    ensures p >= 0.0
    ensures p == 0.0 <==> x == 0.0
  {
    if x < 0.0 {
      SquarePositive(-x, p);
    } else if x > 0.0 {
      SquarePositive(x, p);
    }
  }

  lemma SquarePositive(y: real, p: real)
    requires y > 0.0 && p == y * y
    ensures p > 0.0
  {
    calc {
      p;
    ==
      y * y;
    >
      0.0;
    }
  }

  /** A sum of two non-negative terms is zero exactly when both are. */
  lemma SumZero(p: real, d: real)
    requires p >= 0.0 && d >= 0.0
    ensures p + d >= 0.0
    ensures p + d == 0.0 <==> p == 0.0 && d == 0.0
  {
  }

  /** `norm` behaves as `np.linalg.norm` on `v`: the non-negative square root of `Dot(v, v)`. */
  predicate EuclideanOn(norm: Vector -> real, v: Vector)
  {
    norm(v) >= 0.0 && norm(v) * norm(v) == Dot(v, v)
  }

  /**
   * `cosine_similarity(a, b)`, with `np.linalg.norm` given as `norm`: zero when
   * either norm is zero, otherwise the dot product over the product of the norms.
   */
  function Cosine(a: Vector, b: Vector, norm: Vector -> real): real
    requires |a| == |b|
  {
    if norm(a) == 0.0 || norm(b) == 0.0 then 0.0 else Dot(a, b) / (norm(a) * norm(b))
  }

  /**
   * With a Euclidean norm the guard fires exactly on zero vectors: the score
   * is 0.0 when either vector is all zeros, and otherwise it scales back to the
   * dot product.
   */
  lemma CosineGuard(a: Vector, b: Vector, norm: Vector -> real)
    requires |a| == |b|
    requires EuclideanOn(norm, a) && EuclideanOn(norm, b)
    ensures IsZero(a) || IsZero(b) ==> Cosine(a, b, norm) == 0.0
    ensures !IsZero(a) && !IsZero(b) ==> Cosine(a, b, norm) * (norm(a) * norm(b)) == Dot(a, b)
  {
    NormZero(norm, a);
    NormZero(norm, b);
    if !IsZero(a) && !IsZero(b) {
      DivideBack(Dot(a, b), norm(a), norm(b));
    }
  }

  /** A Euclidean norm is zero exactly on the zero vector. */
  lemma NormZero(norm: Vector -> real, v: Vector)
    requires EuclideanOn(norm, v)
    ensures norm(v) == 0.0 <==> IsZero(v)
  {
    DotSelf(v);
    SquareSign(norm(v), norm(v) * norm(v));
  }

  lemma DivideBack(d: real, m: real, n: real)
    requires m != 0.0 && n != 0.0
    ensures m * n != 0.0
    ensures (d / (m * n)) * (m * n) == d
  {
    SquareSign(m, m * m);
    SquareSign(n, n * n);
    assert (m * n) * (m * n) == (m * m) * (n * n);
  }



  /** The score does not depend on which vector is the query. */
  lemma CosineSymmetric(a: Vector, b: Vector, norm: Vector -> real)
    requires |a| == |b|
    ensures Cosine(a, b, norm) == Cosine(b, a, norm)
  {
    DotSymmetric(a, b);
    assert norm(a) * norm(b) == norm(b) * norm(a);
  }

  /** An entry of `similarities`: a score and the record it belongs to. */
  datatype Scored = Scored(score: real, record: Record)

  /**
   * The score `search_similar_memories` gives a record, or `None` when it skips
   * the record: no embedding (null or empty text), text that does not decode to
   * a vector, or a vector whose length differs from the query's, on which
   * `np.dot` raises `ValueError`.
   */
  function ScoreOf(x: Record, query: Vector, norm: Vector -> real): Option<real>
  {
    if !HasEmbedding(x) then None
    else
      match Decode(x.embedding.value)
      case None => None
      case Some(v) => if |v| != |query| then None else Some(Cosine(query, v, norm))
  }

  /** The entry a record adds to `similarities`: none when it is skipped. */
  function EntryOf(x: Record, query: Vector, norm: Vector -> real): seq<Scored>
  {
    match ScoreOf(x, query, norm)
    case None => []
    case Some(s) => [Scored(s, x)]
  }

  /** The loop body's case analysis: a record is scored when it has an embedding that decodes to a vector of the query's length. */
  lemma EntryOfCases(x: Record, query: Vector, norm: Vector -> real)
    ensures !HasEmbedding(x) ==> EntryOf(x, query, norm) == []
    ensures HasEmbedding(x) ==>
              var stored := Decode(x.embedding.value);
              EntryOf(x, query, norm)
              == if stored.Some? && |stored.value| == |query| then [Scored(Cosine(query, stored.value, norm), x)] else []
  {
  }

  /** `similarities` after the loop has run over `rs`. */
  function Candidates(rs: seq<Record>, query: Vector, norm: Vector -> real): (cs: seq<Scored>)
    ensures |cs| <= |rs|
  {
    if rs == [] then []
    else
      var last := |rs| - 1;
      Candidates(rs[..last], query, norm) + EntryOf(rs[last], query, norm)
  }

  lemma CandidatesSnoc(rs: seq<Record>, i: nat, query: Vector, norm: Vector -> real)
    requires i < |rs|
    ensures Candidates(rs[..i + 1], query, norm) == Candidates(rs[..i], query, norm) + EntryOf(rs[i], query, norm)
  {
    assert rs[..i + 1][..i] == rs[..i];
  }

  /**
   * The entries are exactly the scorable records: every entry carries its
   * record's score, and every record with a score has its entry.
   */
  lemma {:induction false} CandidatesExact(rs: seq<Record>, query: Vector, norm: Vector -> real)
    ensures forall c :: c in Candidates(rs, query, norm) ==>
              c.record in rs && ScoreOf(c.record, query, norm) == Some(c.score)
    ensures forall x :: x in rs && ScoreOf(x, query, norm).Some? ==>
              Scored(ScoreOf(x, query, norm).value, x) in Candidates(rs, query, norm)
  {
    if rs != [] {
      var last := |rs| - 1;
      var init := rs[..last];
      CandidatesExact(init, query, norm);
      assert rs == init + [rs[last]];
      forall x | x in rs && ScoreOf(x, query, norm).Some?
        ensures Scored(ScoreOf(x, query, norm).value, x) in Candidates(rs, query, norm)
      {
        if x != rs[last] { assert x in init; }
      }
    }
  }

  /** Highest score first. */
  predicate Descending(s: seq<Scored>)
  {
    forall i, j :: 0 <= i < j < |s| ==> s[i].score >= s[j].score
  }

  /** Inserts `x` before the first entry that does not score higher, so before any equal ones. */
  function Insert(x: Scored, s: seq<Scored>): seq<Scored>
  {
    if s == [] || x.score >= s[0].score then [x] + s else [s[0]] + Insert(x, s[1..])
  }

  /** `similarities.sort(key=score, reverse=True)`: Python's stable sort, highest score first. */
  function SortDesc(s: seq<Scored>): seq<Scored>
  {
    if s == [] then [] else Insert(s[0], SortDesc(s[1..]))
  }

  lemma {:induction false} InsertPermutation(x: Scored, s: seq<Scored>)
    ensures multiset(Insert(x, s)) == multiset(s) + multiset{x}
  {
    if s != [] && x.score < s[0].score {
      InsertPermutation(x, s[1..]);
      assert s == [s[0]] + s[1..];
    }
  }

  /** The sort only reorders: the sorted list holds the same entries, each as often. */
  lemma {:induction false} SortPermutation(s: seq<Scored>)
    ensures multiset(SortDesc(s)) == multiset(s)
    ensures |SortDesc(s)| == |s|
  {
    if s != [] {
      SortPermutation(s[1..]);
      InsertPermutation(s[0], SortDesc(s[1..]));
      assert s == [s[0]] + s[1..];
    }
    assert |multiset(SortDesc(s))| == |multiset(s)|;
  }

  lemma {:induction false} InsertDescending(x: Scored, s: seq<Scored>)
    requires Descending(s)
    ensures Descending(Insert(x, s))
    ensures Insert(x, s)[0] == x || (s != [] && Insert(x, s)[0] == s[0])
  {
    if s != [] && x.score < s[0].score {
      var tail := s[1..];
      InsertDescending(x, tail);
      var r := Insert(x, s);
      var rest := Insert(x, tail);
      assert r == [s[0]] + rest;
      assert rest[0].score <= s[0].score by {
        if rest[0] != x { assert rest[0] == s[1]; }
      }
      forall i, j | 0 <= i < j < |r| ensures r[i].score >= r[j].score {
        if i == 0 {
          assert r[j] == rest[j - 1];
          assert rest[0].score >= rest[j - 1].score;
        } else {
          assert r[i] == rest[i - 1] && r[j] == rest[j - 1];
        }
      }
    }
  }

  /** The sort leaves the entries highest score first. */
  lemma {:induction false} SortDescending(s: seq<Scored>)
    ensures Descending(SortDesc(s))
  {
    if s != [] {
      SortDescending(s[1..]);
      InsertDescending(s[0], SortDesc(s[1..]));
    }
  }

  /** The entries with score `k`, in order. */
  function WithScore(s: seq<Scored>, k: real): seq<Scored>
  {
    if s == [] then []
    else (if s[0].score == k then [s[0]] else []) + WithScore(s[1..], k)
  }

  lemma {:induction false} InsertWithScore(x: Scored, s: seq<Scored>, k: real)
    requires Descending(s)
    ensures WithScore(Insert(x, s), k) == (if x.score == k then [x] else []) + WithScore(s, k)
  {
    if s != [] && x.score < s[0].score {
      var tail := s[1..];
      assert Descending(tail) by {
        forall i, j | 0 <= i < j < |tail| ensures tail[i].score >= tail[j].score {
          assert tail[i] == s[i + 1] && tail[j] == s[j + 1];
        }
      }
      InsertWithScore(x, tail, k);
      var r := [s[0]] + Insert(x, tail);
      assert r[0] == s[0] && r[1..] == Insert(x, tail);
      var mine := if x.score == k then [x] else [];
      var first := if s[0].score == k then [s[0]] else [];
      assert mine == [] || first == [];
      calc {
        WithScore(Insert(x, s), k);
        first + WithScore(Insert(x, tail), k);
        first + (mine + WithScore(tail, k));
        mine + (first + WithScore(tail, k));
        mine + WithScore(s, k);
      }
    } else {
      var r := [x] + s;
      assert r[0] == x && r[1..] == s;
    }
  }

  /** The sort is stable: the entries of any one score keep the order they had. */
  lemma {:induction false} SortStable(s: seq<Scored>, k: real)
    ensures WithScore(SortDesc(s), k) == WithScore(s, k)
  {
    if s != [] {
      SortStable(s[1..], k);
      SortDescending(s[1..]);
      InsertWithScore(s[0], SortDesc(s[1..]), k);
    }
  }

  /** `[memory for _, memory in entries]`. */
  function RecordsOf(s: seq<Scored>): (rs: seq<Record>)
    ensures |rs| == |s|
  {
    if s == [] then [] else [s[0].record] + RecordsOf(s[1..])
  }

  lemma {:induction false} RecordsOfAt(s: seq<Scored>, i: nat)
    requires i < |s|
    ensures RecordsOf(s)[i] == s[i].record
  {
    if i > 0 {
      RecordsOfAt(s[1..], i - 1);
    }
  }

  /** The records `search_similar_memories` iterates over: `filter(type=...)` or `all()`, newest first. */
  function Queryset(records: seq<Record>, filter: Option<MemoryType>): seq<Record>
  {
    Reverse(Matching(records, filter))
  }

  /** The ranked entries of a search whose query embedding is `query`, before truncation. */
  function Ranking(records: seq<Record>, query: Vector, filter: Option<MemoryType>, norm: Vector -> real): seq<Scored>
  {
    SortDesc(Candidates(Queryset(records, filter), query, norm))
  }

  /**
   * What `search_similar_memories` returns, given the outcome of embedding the
   * query: `None` when that raised, and then the result is empty.
   */
  function Search(records: seq<Record>, query: Option<Vector>, limit: nat, filter: Option<MemoryType>, norm: Vector -> real): seq<Record>
  {
    if query.None? then [] else RecordsOf(Take(Ranking(records, query.value, filter, norm), limit))
  }

  /**
   * Every result is a record of the requested type (any type without a filter)
   * whose embedding decodes to a vector of the query's length; the result has
   * `min(limit, number of such records)` entries and is empty when the query
   * could not be embedded.
   */
  lemma SearchSound(records: seq<Record>, query: Vector, limit: nat, filter: Option<MemoryType>, norm: Vector -> real)
    ensures |Search(records, Some(query), limit, filter, norm)|
            == Min(limit, |Candidates(Queryset(records, filter), query, norm)|)
    ensures forall x :: x in Search(records, Some(query), limit, filter, norm) ==>
              x in records && Matches(x, filter) && ScoreOf(x, query, norm).Some?
  {
    var ranked := Ranking(records, query, filter, norm);
    var kept := Take(ranked, limit);
    SortPermutation(Candidates(Queryset(records, filter), query, norm));
    RankedSound(records, query, filter, norm);
    forall x | x in RecordsOf(kept) ensures x in records && Matches(x, filter) && ScoreOf(x, query, norm).Some? {
      var c := RecordsOfFrom(kept, x);
      assert c in ranked;
    }
  }

  /** Every ranked entry is a scorable record of the requested type, with its score. */
  lemma RankedSound(records: seq<Record>, query: Vector, filter: Option<MemoryType>, norm: Vector -> real)
    ensures forall c :: c in Ranking(records, query, filter, norm) ==>
              c.record in records && Matches(c.record, filter) && ScoreOf(c.record, query, norm) == Some(c.score)
  {
    var qs := Queryset(records, filter);
    var cs := Candidates(qs, query, norm);
    CandidatesExact(qs, query, norm);
    SortPermutation(cs);
    forall c | c in SortDesc(cs)
      ensures c.record in records && Matches(c.record, filter) && ScoreOf(c.record, query, norm) == Some(c.score)
    {
      assert c in multiset(SortDesc(cs));
      assert c in cs;
      ReverseMembership(Matching(records, filter), c.record);
    }
  }

  lemma {:induction false} RecordsOfFrom(s: seq<Scored>, x: Record) returns (c: Scored)
    requires x in RecordsOf(s)
    ensures c in s && c.record == x
  {
    if s[0].record == x {
      c := s[0];
    } else {
      c := RecordsOfFrom(s[1..], x);
    }
  }

  /**
   * The results are the top `limit` of the ranking: they are listed highest
   * score first, and no ranked entry left out scores higher than one kept.
   */
  lemma SearchTop(records: seq<Record>, query: Vector, limit: nat, filter: Option<MemoryType>, norm: Vector -> real)
    ensures Descending(Take(Ranking(records, query, filter, norm), limit))
    ensures RecordsOf(Take(Ranking(records, query, filter, norm), limit)) == Search(records, Some(query), limit, filter, norm)
    ensures var ranked := Ranking(records, query, filter, norm);
            forall c, d :: c in Take(ranked, limit) && d in ranked && d !in Take(ranked, limit) ==> d.score <= c.score
  {
    var ranked := Ranking(records, query, filter, norm);
    var kept := Take(ranked, limit);
    SortDescending(Candidates(Queryset(records, filter), query, norm));
    forall c, d | c in kept && d in ranked && d !in kept ensures d.score <= c.score {
      var i :| 0 <= i < |kept| && kept[i] == c;
      var j :| 0 <= j < |ranked| && ranked[j] == d;
      assert ranked[i] == c;
    }
  }

  /**
   * Entries with equal scores stay in queryset order, newest first: the
   * ranking lists the entries of each score exactly as the loop found them.
   */
  lemma SearchTiesKeepOrder(records: seq<Record>, query: Vector, filter: Option<MemoryType>, norm: Vector -> real, k: real)
    ensures WithScore(Ranking(records, query, filter, norm), k)
         == WithScore(Candidates(Queryset(records, filter), query, norm), k)
  {
    SortStable(Candidates(Queryset(records, filter), query, norm), k);
  }

  /**
   * A record that can be scored is left out only when the result is full: with
   * room for every candidate, every scorable record of the requested type is
   * returned.
   */
  lemma SearchComplete(records: seq<Record>, query: Vector, limit: nat, filter: Option<MemoryType>, norm: Vector -> real, x: Record)
    requires x in records && Matches(x, filter) && ScoreOf(x, query, norm).Some?
    requires |Candidates(Queryset(records, filter), query, norm)| <= limit
    ensures x in Search(records, Some(query), limit, filter, norm)
  {
    var cs := Candidates(Queryset(records, filter), query, norm);
    var ranked := Ranking(records, query, filter, norm);
    var c := Scored(ScoreOf(x, query, norm).value, x);
    assert c in ranked by {
      RankedHas(records, query, filter, norm, x);
    }
    assert Take(ranked, limit) == ranked by {
      SortPermutation(cs);
    }
    RecordsOfHas(ranked, c);
  }

  /** Every scorable record of the queryset is ranked. */
  lemma RankedHas(records: seq<Record>, query: Vector, filter: Option<MemoryType>, norm: Vector -> real, x: Record)
    requires x in records && Matches(x, filter) && ScoreOf(x, query, norm).Some?
    ensures Scored(ScoreOf(x, query, norm).value, x) in Ranking(records, query, filter, norm)
  {
    var qs := Queryset(records, filter);
    var cs := Candidates(qs, query, norm);
    ReverseMembership(Matching(records, filter), x);
    CandidatesExact(qs, query, norm);
    SortPermutation(cs);
    var c := Scored(ScoreOf(x, query, norm).value, x);
    assert c in multiset(cs);
  }

  lemma {:induction false} RecordsOfHas(s: seq<Scored>, c: Scored)
    requires c in s
    ensures c.record in RecordsOf(s)
  {
    if s[0] != c {
      RecordsOfHas(s[1..], c);
    }
  }

  /**
   * The loop of `search_similar_memories`: each record with an embedding that
   * decodes to a vector of the query's length is scored and appended; the
   * others are skipped and the loop goes on.
   */
  method ScoreEach(queryset: seq<Record>, query: Vector, norm: Vector -> real) returns (similarities: seq<Scored>)
    ensures similarities == Candidates(queryset, query, norm)
  {
    similarities := [];
    for i := 0 to |queryset|
      invariant similarities == Candidates(queryset[..i], query, norm)
    {
      CandidatesSnoc(queryset, i, query, norm);
      var memory := queryset[i];
      EntryOfCases(memory, query, norm);
      if HasEmbedding(memory) {
        var stored := Decode(memory.embedding.value);
        if stored.Some? && |stored.value| == |query| {
          similarities := similarities + [Scored(Cosine(query, stored.value, norm), memory)];
        }
      }
    }
    assert queryset[..|queryset|] == queryset;
  }

  /**
   * `search_similar_memories(query_text, limit, memory_type)`: embed the query,
   * score every record of the queryset that has a readable embedding, sort the
   * scores highest first and return the records of the top `limit`.
   */
  method SearchSimilar(store: MemoryStore, embedder: Embedder, query: string, limit: nat,
                       filter: Option<MemoryType>, norm: Vector -> real)
    returns (results: seq<Record>)
    modifies embedder
    ensures embedder.replies == LaterReplies(old(embedder.replies))
    ensures results == Search(store.records, NextReply(old(embedder.replies)), limit, filter, norm)
    ensures NextReply(old(embedder.replies)).None? ==> results == []
  {
    var q := embedder.Embed(query);
    if q.None? {
      return [];
    }
    var queryset := Queryset(store.records, filter);
    var similarities := ScoreEach(queryset, q.value, norm);
    similarities := SortDesc(similarities);
    results := RecordsOf(Take(similarities, limit));
  }

  /** The dictionary `get_relevant_context` returns: the contents of the chosen records. */
  datatype Context = Context(knowledge: seq<string>, memory: seq<string>)

  /** A search's results, or the `limit` newest records of the type when the search found nothing. */
  function WithFallback(records: seq<Record>, found: seq<Record>, t: MemoryType, limit: nat): seq<Record>
  {
    if found == [] then Newest(records, Some(t), limit) else found
  }

  /**
   * `get_relevant_context`, given the outcomes of embedding the query for the
   * knowledge search and for the memory search.
   */
  function RelevantContext(records: seq<Record>, knowledgeQuery: Option<Vector>, memoryQuery: Option<Vector>,
                           knowledgeLimit: nat, memoryLimit: nat, norm: Vector -> real): Context
  {
    var knowledge := Search(records, knowledgeQuery, knowledgeLimit, Some(Knowledge), norm);
    var memory := Search(records, memoryQuery, memoryLimit, Some(Memory), norm);
    Context(Contents(WithFallback(records, knowledge, Knowledge, knowledgeLimit)),
            Contents(WithFallback(records, memory, Memory, memoryLimit)))
  }

  /**
   * Whether found by the search or by the fallback, the chosen records are of
   * the requested type and at most `limit` many; and when the store holds a
   * record of the type and `limit` is positive, at least one is chosen.
   */
  lemma FallbackSound(records: seq<Record>, query: Option<Vector>, t: MemoryType, limit: nat, norm: Vector -> real)
    requires Ascending(records)
    ensures var chosen := WithFallback(records, Search(records, query, limit, Some(t), norm), t, limit);
            && |chosen| <= limit
            && (forall x :: x in chosen ==> x in records && x.kind == t)
            && (limit > 0 && OfKind(records, t) != [] ==> chosen != [])
  {
    var found := Search(records, query, limit, Some(t), norm);
    if query.Some? {
      SearchSound(records, query.value, limit, Some(t), norm);
    }
    if found == [] {
      NewestListing(records, Some(t), limit);
    }
  }

  /**
   * The context holds the contents of at most `knowledgeLimit` knowledge
   * records and at most `memoryLimit` memory records, each part falling back
   * on its own, and a part is empty only when the store has no record of its
   * type or its limit is zero.
   */
  lemma ContextShape(records: seq<Record>, knowledgeQuery: Option<Vector>, memoryQuery: Option<Vector>,
                     knowledgeLimit: nat, memoryLimit: nat, norm: Vector -> real)
    requires Ascending(records)
    ensures var ctx := RelevantContext(records, knowledgeQuery, memoryQuery, knowledgeLimit, memoryLimit, norm);
            && |ctx.knowledge| <= knowledgeLimit && |ctx.memory| <= memoryLimit
            && (forall s :: s in ctx.knowledge ==> exists x :: x in records && x.kind == Knowledge && x.content == s)
            && (forall s :: s in ctx.memory ==> exists x :: x in records && x.kind == Memory && x.content == s)
            && (knowledgeLimit > 0 && OfKind(records, Knowledge) != [] ==> ctx.knowledge != [])
            && (memoryLimit > 0 && OfKind(records, Memory) != [] ==> ctx.memory != [])
  {
    FallbackSound(records, knowledgeQuery, Knowledge, knowledgeLimit, norm);
    FallbackSound(records, memoryQuery, Memory, memoryLimit, norm);
    var k := WithFallback(records, Search(records, knowledgeQuery, knowledgeLimit, Some(Knowledge), norm), Knowledge, knowledgeLimit);
    var m := WithFallback(records, Search(records, memoryQuery, memoryLimit, Some(Memory), norm), Memory, memoryLimit);
    ContentsFrom(k);
    ContentsFrom(m);
  }

  /** Each content string comes from one of the records. */
  lemma {:induction false} ContentsFrom(rs: seq<Record>)
    ensures forall s :: s in Contents(rs) ==> exists x :: x in rs && x.content == s
  {
    if rs != [] {
      ContentsFrom(rs[1..]);
      assert forall x :: x in rs[1..] ==> x in rs;
    }
  }

  /**
   * `get_relevant_context(query, knowledge_limit, memory_limit)`: a knowledge
   * search and a memory search, each embedding the query afresh, each falling
   * back to the newest records of its type when it finds nothing.
   */
  method GetRelevantContext(store: MemoryStore, embedder: Embedder, query: string,
                            knowledgeLimit: nat, memoryLimit: nat, norm: Vector -> real)
    returns (ctx: Context)
    modifies embedder
    ensures embedder.replies == Drop(old(embedder.replies), 2)
    ensures ctx == RelevantContext(store.records, ReplyAt(old(embedder.replies), 0), ReplyAt(old(embedder.replies), 1),
                                   knowledgeLimit, memoryLimit, norm)
  {
    ghost var replies := embedder.replies;
    DropZero(replies);
    DropStep(replies, 0);
    DropStep(replies, 1);
    var knowledgeResults := SearchSimilar(store, embedder, query, knowledgeLimit, Some(Knowledge), norm);
    var memoryResults := SearchSimilar(store, embedder, query, memoryLimit, Some(Memory), norm);
    if knowledgeResults == [] {
      knowledgeResults := Newest(store.records, Some(Knowledge), knowledgeLimit);
    }
    if memoryResults == [] {
      memoryResults := Newest(store.records, Some(Memory), memoryLimit);
    }
    ctx := Context(Contents(knowledgeResults), Contents(memoryResults));
  }
}
