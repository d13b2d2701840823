/**
 * The `AssistantMemory` record and the store that holds the records.
 *
 * The store keeps its records in creation order; `createdAt` is a counter that
 * the store advances on every insertion, standing in for `auto_now_add`.
 * Listings the source leaves to the model's default ordering (newest first)
 * are the reversal of that order.
 */
module Models {
  import opened Base
  import opened Strings

  /** An embedding vector. The floats of the source are modelled as reals. */
  type Vector = seq<real>

  /** The two choices of the `type` field. */
  datatype MemoryType = Knowledge | Memory

  /** The text stored in the `type` column for each choice. */
  function TypeName(t: MemoryType): string
  {
    match t
    case Knowledge => "knowledge"
    case Memory => "memory"
  }

  /** Reading a `type` column back: exactly the two declared choices are accepted. */
  function ParseType(s: string): (r: Option<MemoryType>)
    ensures r.Some? ==> TypeName(r.value) == s
    ensures forall t :: s == TypeName(t) ==> r == Some(t)
  {
    if s == "knowledge" then Some(Knowledge)
    else if s == "memory" then Some(Memory)
    else None
  }

  /**
   * The text of the `embedding` column: the JSON encoding of a vector, or any
   * other text, which does not decode to a vector.
   */
  datatype StoredVector = Encoded(values: Vector) | Malformed(text: string)

  /** One row of the `assistant_memory` table; `embedding` is nullable. */
  datatype Record = Record(
    id: nat,
    content: string,
    embedding: Option<StoredVector>,
    kind: MemoryType,
    createdAt: nat)

  /** `if memory.embedding:` holds: the column is not null and its text is not empty. */
  predicate HasEmbedding(r: Record)
  {
    r.embedding.Some? && r.embedding.value != Malformed([])
  }

  /** `json.loads` of the stored text, when it yields a list of numbers. */
  function Decode(s: StoredVector): Option<Vector>
  {
    match s
    case Encoded(v) => Some(v)
    case Malformed(_) => None
  }

  /**
   * `__str__`: the type, `": "`, the first (at most) 50 characters of the
   * content and then `"..."`, which is appended even to short content.
   */
  function Display(r: Record): (s: string)
    ensures TypeName(r.kind) + ": " <= s
    ensures |s| == |TypeName(r.kind)| + 2 + Min(50, |r.content|) + 3
    ensures s[|s| - 3..] == "..."
    ensures s[|TypeName(r.kind)| + 2..|s| - 3] <= r.content
  {
    var shown := if |r.content| <= 50 then r.content else r.content[..50];
    TypeName(r.kind) + ": " + shown + "..."
  }

  /** The contents of a sequence of records: `[item.content for item in results]`. */
  function Contents(rs: seq<Record>): (cs: seq<string>)
    ensures |cs| == |rs|
  {
    if rs == [] then [] else [rs[0].content] + Contents(rs[1..])
  }

  /** `filter(type=t)`: the records of type `t`, in the order they are stored. */
  function OfKind(rs: seq<Record>, t: MemoryType): (r: seq<Record>)
    ensures |r| <= |rs|
    ensures forall x {:trigger x in r} :: x in r <==> x in rs && x.kind == t
  {
    if rs == [] then []
    else (if rs[0].kind == t then [rs[0]] else []) + OfKind(rs[1..], t)
  }

  /** What `filter(type=t).delete()` leaves: every record not of type `t`, order kept. */
  function WithoutKind(rs: seq<Record>, t: MemoryType): (r: seq<Record>)
    ensures |r| <= |rs|
    ensures forall x {:trigger x in r} :: x in r <==> x in rs && x.kind != t
  {
    if rs == [] then []
    else (if rs[0].kind != t then [rs[0]] else []) + WithoutKind(rs[1..], t)
  }

  /** A type filter that may be absent: `filter(type=t)` when given, `all()` otherwise. */
  predicate Matches(r: Record, filter: Option<MemoryType>)
  {
    filter.None? || r.kind == filter.value
  }

  function Matching(rs: seq<Record>, filter: Option<MemoryType>): (r: seq<Record>)
    ensures forall x {:trigger x in r} :: x in r <==> x in rs && Matches(x, filter)
  {
    if filter.None? then rs else OfKind(rs, filter.value)
  }

  /** `a` was created before `b`, and received a smaller id. */
  predicate Before(a: Record, b: Record)
  {
    a.id < b.id && a.createdAt < b.createdAt
  }

  /** Records listed in creation order: ids and creation times strictly increase. */
  predicate Ascending(rs: seq<Record>)
  {
    forall i, j :: 0 <= i < j < |rs| ==> Before(rs[i], rs[j])
  }

  /** Records listed newest first: `ordering = ['-created_at']`. */
  predicate NewestFirst(rs: seq<Record>)
  {
    forall i, j :: 0 <= i < j < |rs| ==> rs[i].createdAt > rs[j].createdAt
  }

  /** `filter(...).order_by('-created_at')[:limit]`: the `limit` newest matching records. */
  function Newest(rs: seq<Record>, filter: Option<MemoryType>, limit: nat): seq<Record>
  {
    Take(Reverse(Matching(rs, filter)), limit)
  }

  /** No two records of a store in creation order share an id. */
  lemma UniqueIds(rs: seq<Record>)
    requires Ascending(rs)
    ensures forall i, j :: 0 <= i < |rs| && 0 <= j < |rs| && i != j ==> rs[i].id != rs[j].id
  {
  }

  lemma AscendingCons(x: Record, rs: seq<Record>)
    requires Ascending(rs)
    requires forall y :: y in rs ==> Before(x, y)
    ensures Ascending([x] + rs)
  {
    var s := [x] + rs;
    forall i, j | 0 <= i < j < |s| ensures Before(s[i], s[j]) {
      assert s[j] == rs[j - 1];
      if i > 0 { assert s[i] == rs[i - 1]; }
    }
  }

  /** Every record after the first of an ascending sequence was created after the first. */
  lemma AscendingHead(rs: seq<Record>)
    requires Ascending(rs) && rs != []
    ensures forall y :: y in rs[1..] ==> Before(rs[0], y)
  {
    forall y | y in rs[1..] ensures Before(rs[0], y) {
      var j :| 0 <= j < |rs[1..]| && rs[1..][j] == y;
      assert rs[j + 1] == y;
    }
  }

  /** Keeping the records of one type preserves creation order. */
  lemma {:induction false} OfKindAscending(rs: seq<Record>, t: MemoryType)
    requires Ascending(rs)
    ensures Ascending(OfKind(rs, t))
  {
    if rs != [] {
      OfKindAscending(rs[1..], t);
      if rs[0].kind == t {
        AscendingHead(rs);
        AscendingCons(rs[0], OfKind(rs[1..], t));
      }
    }
  }

  /** Deleting the records of one type preserves creation order. */
  lemma {:induction false} WithoutKindAscending(rs: seq<Record>, t: MemoryType)
    requires Ascending(rs)
    ensures Ascending(WithoutKind(rs, t))
  {
    if rs != [] {
      WithoutKindAscending(rs[1..], t);
      if rs[0].kind != t {
        AscendingHead(rs);
        AscendingCons(rs[0], WithoutKind(rs[1..], t));
      }
    }
  }

  lemma MatchingAscending(rs: seq<Record>, filter: Option<MemoryType>)
    requires Ascending(rs)
    ensures Ascending(Matching(rs, filter))
  {
    if filter.Some? { OfKindAscending(rs, filter.value); }
  }

  /** Reversing records in creation order lists them newest first. */
  lemma ReverseNewestFirst(rs: seq<Record>)
    requires Ascending(rs)
    ensures NewestFirst(Reverse(rs))
  {
    var r := Reverse(rs);
    forall i, j | 0 <= i < j < |r| ensures r[i].createdAt > r[j].createdAt {
      ReverseAt(rs, i);
      ReverseAt(rs, j);
    }
  }

  /** A prefix of a newest-first listing is newest first. */
  lemma TakeNewestFirst(rs: seq<Record>, limit: nat)
    requires NewestFirst(rs)
    ensures NewestFirst(Take(rs, limit))
  {
    var n := Take(rs, limit);
    forall i, j | 0 <= i < j < |n| ensures n[i].createdAt > n[j].createdAt {
      assert n[i] == rs[i] && n[j] == rs[j];
    }
  }

  /** In a newest-first listing, whatever falls beyond a prefix is older than all of the prefix. */
  lemma TakeKeepsNewest(rs: seq<Record>, limit: nat)
    requires NewestFirst(rs)
    ensures forall x, y :: x in Take(rs, limit) && y in rs && y !in Take(rs, limit) ==> y.createdAt < x.createdAt
  {
    var n := Take(rs, limit);
    forall x, y | x in n && y in rs && y !in n ensures y.createdAt < x.createdAt {
      var i :| 0 <= i < |n| && n[i] == x;
      var j :| 0 <= j < |rs| && rs[j] == y;
      assert rs[i] == x;
      assert j >= |n|;
    }
  }

  /**
   * The default-ordered listing of a store: newest first, of the requested
   * type, as many as `limit` allows, and no matching record left out is newer
   * than one listed.
   */
  lemma NewestListing(rs: seq<Record>, filter: Option<MemoryType>, limit: nat)
    requires Ascending(rs)
    ensures NewestFirst(Newest(rs, filter, limit))
    ensures |Newest(rs, filter, limit)| == Min(limit, |Matching(rs, filter)|)
    ensures forall x :: x in Newest(rs, filter, limit) ==> x in rs && Matches(x, filter)
    ensures forall x, y :: x in Newest(rs, filter, limit) && y in Matching(rs, filter) && y !in Newest(rs, filter, limit)
                           ==> y.createdAt < x.createdAt
  {
    var m := Matching(rs, filter);
    var r := Reverse(m);
    var n := Newest(rs, filter, limit);
    MatchingAscending(rs, filter);
    ReverseNewestFirst(m);
    TakeNewestFirst(r, limit);
    TakeKeepsNewest(r, limit);
    forall x | x in n ensures x in rs && Matches(x, filter) {
      ReverseMembership(m, x);
    }
    forall y | y in m ensures y in r {
      ReverseMembership(m, y);
    }
  }

  /** Filtering by type distributes over concatenation. */
  lemma {:induction false} OfKindAppend(a: seq<Record>, b: seq<Record>, t: MemoryType)
    ensures OfKind(a + b, t) == OfKind(a, t) + OfKind(b, t)
  {
    if a == [] {
      assert a + b == b;
    } else {
      var head := if a[0].kind == t then [a[0]] else [];
      assert (a + b)[0] == a[0];
      assert (a + b)[1..] == a[1..] + b;
      calc {
        OfKind(a + b, t);
        head + OfKind(a[1..] + b, t);
        { OfKindAppend(a[1..], b, t); }
        head + (OfKind(a[1..], t) + OfKind(b, t));
        (head + OfKind(a[1..], t)) + OfKind(b, t);
        OfKind(a, t) + OfKind(b, t);
      }
    }
  }

  /** When every record has type `t`, filtering by `t` keeps them all. */
  lemma {:induction false} OfKindAll(rs: seq<Record>, t: MemoryType)
    requires forall x :: x in rs ==> x.kind == t
    ensures OfKind(rs, t) == rs
  {
    if rs != [] {
      assert rs[0] in rs;
      assert forall x :: x in rs[1..] ==> x in rs;
      OfKindAll(rs[1..], t);
      assert [rs[0]] + rs[1..] == rs;
    }
  }

  /** When no record has type `t`, filtering by `t` keeps none. */
  lemma {:induction false} OfKindNone(rs: seq<Record>, t: MemoryType)
    requires forall x :: x in rs ==> x.kind != t
    ensures OfKind(rs, t) == []
  {
    if rs != [] {
      assert rs[0] in rs;
      assert forall x :: x in rs[1..] ==> x in rs;
      OfKindNone(rs[1..], t);
    }
  }

  /** Deleting one type leaves the records of every other type exactly as they were. */
  lemma {:induction false} DeleteKeepsOtherKind(rs: seq<Record>, deleted: MemoryType, t: MemoryType)
    requires deleted != t
    ensures OfKind(WithoutKind(rs, deleted), t) == OfKind(rs, t)
  {
    if rs != [] {
      DeleteKeepsOtherKind(rs[1..], deleted, t);
      var head := if rs[0].kind != deleted then [rs[0]] else [];
      OfKindAppend(head, WithoutKind(rs[1..], deleted), t);
    }
  }

  /**
   * The record table. Records are kept in creation order; `nextId` and `clock`
   * are the next primary key and the next creation time to hand out.
   */
  class MemoryStore {
    var records: seq<Record>
    var nextId: nat
    var clock: nat

    ghost predicate Valid()
      reads this
    {
      && Ascending(records)
      && forall x :: x in records ==> x.id < nextId && x.createdAt < clock
    }

    constructor ()
      ensures Valid() && records == []
    {
      records, nextId, clock := [], 0, 0;
    }

    /** `AssistantMemory.objects.create(...)`: a fresh id and the current time are assigned. */
    method Create(content: string, embedding: Option<StoredVector>, kind: MemoryType) returns (r: Record)
      requires Valid()
      modifies this
      ensures Valid()
      ensures r == Record(old(nextId), content, embedding, kind, old(clock))
      ensures records == old(records) + [r]
      ensures nextId == old(nextId) + 1 && clock == old(clock) + 1
    {
      r := Record(nextId, content, embedding, kind, clock);
      records := records + [r];
      nextId, clock := nextId + 1, clock + 1;
    }

    /** `AssistantMemory.objects.filter(type=t).delete()`. */
    method DeleteType(t: MemoryType)
      requires Valid()
      modifies this`records
      ensures Valid()
      ensures records == WithoutKind(old(records), t)
    {
      WithoutKindAscending(records, t);
      records := WithoutKind(records, t);
    }
  }
}
