/**
 * Résumé ingestion: normalising the text, cutting it into overlapping
 * windows, and replacing the knowledge records with one record per chunk
 * whose embedding could be computed.
 */
module Ingest {
  import opened Base
  import opened Strings
  import opened Models
  import opened Embeddings

  /** The default window width and overlap `ingest_resume` uses. */
  const ChunkSize: nat := 500
  const ChunkOverlap: int := 50

  /**
   * The values `start` takes in `chunk_text`'s loop, from `from` on: each step
   * advances by `size - overlap`, which is positive exactly when
   * `overlap < size`; otherwise the loop would never end.
   */
  function WindowStarts(n: nat, size: nat, overlap: int, from: nat): (starts: seq<nat>)
    requires overlap < size
    ensures starts != [] <==> from < n
    ensures starts != [] ==> starts[0] == from
    ensures forall i :: 0 <= i < |starts| ==> from <= starts[i] < n
    decreases n - from
  {
    if from >= n then [] else [from] + WindowStarts(n, size, overlap, from + size - overlap)
  }

  /** `text[start:start + size]`: both bounds clipped at the end of the text, as Python slicing does. */
  function Window(text: string, start: nat, size: nat): (w: string)
    ensures |w| <= size
  {
    text[Min(start, |text|)..Min(start + size, |text|)]
  }
  /**
   * Each part stripped, with the parts that strip to nothing dropped: what
   * both `chunk_text` (over its windows) and `clean_text` (over its lines)
   * keep.
   */
  function Stripped(parts: seq<string>): (kept: seq<string>)
    ensures |kept| <= |parts|
  {
    if parts == [] then []
    else
      var piece := Strip(parts[0]);
      (if piece == [] then [] else [piece]) + Stripped(parts[1..])
  }

  /** Stripping the parts from `i` on: the `i`-th contributes its stripped text unless that is blank. */
  lemma StrippedStep(parts: seq<string>, i: nat)
    requires i < |parts|
    ensures var piece := Strip(parts[i]);
            Stripped(parts[i..]) == (if piece == [] then [] else [piece]) + Stripped(parts[i + 1..])
  {
    assert parts[i..][1..] == parts[i + 1..];
  }

  /** One turn of a loop that keeps the stripped non-blank parts, as an accumulator `done`. */
  lemma StrippedCons(part: string, rest: seq<string>, piece: string, done: seq<string>)
    requires piece == Strip(part)
    ensures done + Stripped([part] + rest) == (if piece == [] then done else done + [piece]) + Stripped(rest)
  {
    var parts := [part] + rest;
    assert parts[0] == part && parts[1..] == rest;
    if piece != [] {
      assert Stripped(parts) == [piece] + Stripped(rest);
      assert done + ([piece] + Stripped(rest)) == (done + [piece]) + Stripped(rest);
    } else {
      assert Stripped(parts) == Stripped(rest);
    }
  }

  /** One turn of a loop over `parts` keeping the stripped non-blank ones: the accumulator moves past part `i`. */
  lemma KeepStep(parts: seq<string>, i: nat, piece: string, done: seq<string>, kept: seq<string>)
    requires i < |parts| && piece == Strip(parts[i])
    requires kept == if piece == [] then done else done + [piece]
    requires done + Stripped(parts[i..]) == Stripped(parts)
    ensures kept + Stripped(parts[i + 1..]) == Stripped(parts)
  {
    StrippedStep(parts, i);
    StrippedCons(parts[i], parts[i + 1..], piece, done);
    assert parts[i..] == [parts[i]] + parts[i + 1..];
  }

  /** Kept parts are non-empty and neither start nor end with whitespace. */
  lemma {:induction false} StrippedShape(parts: seq<string>)
    ensures forall p :: p in Stripped(parts) ==> p != [] && !IsSpace(p[0]) && !IsSpace(p[|p| - 1])
  {
    if parts != [] {
      StrippedShape(parts[1..]);
      StripShape(parts[0]);
    }
  }

  /** A character found in no part is in no kept part. */
  lemma {:induction false} StrippedAvoids(parts: seq<string>, c: char)
    requires forall p :: p in parts ==> c !in p
    ensures forall p :: p in Stripped(parts) ==> c !in p
  {
    if parts != [] {
      assert forall p :: p in parts[1..] ==> p in parts;
      StrippedAvoids(parts[1..], c);
      StripWithin(parts[0], c);
    }
  }

  /** Kept parts are no longer than the longest part. */
  lemma {:induction false} StrippedBounded(parts: seq<string>, size: nat)
    requires forall p :: p in parts ==> |p| <= size
    ensures forall p :: p in Stripped(parts) ==> |p| <= size
  {
    if parts != [] {
      assert forall p :: p in parts[1..] ==> p in parts;
      StrippedBounded(parts[1..], size);
      StripShape(parts[0]);
    }
  }

  /** Nothing is kept exactly when every part is blank. */
  lemma {:induction false} StrippedEmpty(parts: seq<string>)
    ensures Stripped(parts) == [] <==> forall p :: p in parts ==> AllSpace(p)
  {
    if parts != [] {
      StrippedEmpty(parts[1..]);
      StripBlank(parts[0]);
      assert forall p :: p in parts ==> p == parts[0] || p in parts[1..];
    }
  }

  /** The windows `text[start:start + size]` at the given starts. */
  function Windows(text: string, size: nat, starts: seq<nat>): (ws: seq<string>)
    ensures |ws| == |starts|
  {
    if starts == [] then [] else [Window(text, starts[0], size)] + Windows(text, size, starts[1..])
  }

  /** What `chunk_text(text, size, overlap)` returns. */
  function Chunks(text: string, size: nat, overlap: int): seq<string>
    requires overlap < size
  {
    Stripped(Windows(text, size, WindowStarts(|text|, size, overlap, 0)))
  }

  lemma WindowStartsTail(n: nat, size: nat, overlap: int, from: nat, next: nat)
    requires overlap < size && from < n && next == from + size - overlap
    ensures WindowStarts(n, size, overlap, from)[1..] == WindowStarts(n, size, overlap, next)
  {
  }

  /** The windows from `start` on are the one at `start` followed by those from the next start. */
  lemma WindowsStep(text: string, size: nat, overlap: int, start: nat, next: nat)
    requires overlap < size && start < |text| && next == start + size - overlap
    ensures Windows(text, size, WindowStarts(|text|, size, overlap, start))
         == [Window(text, start, size)] + Windows(text, size, WindowStarts(|text|, size, overlap, next))
  {
    WindowStartsTail(|text|, size, overlap, start, next);
  }

  /**
   * `done` followed by the chunks of the windows from `start` on: the list
   * `chunk_text`'s loop holds at the end when it holds `done` on reaching
   * `start`.
   */
  function ChunksFrom(text: string, size: nat, overlap: int, start: nat, done: seq<string>): seq<string>
    requires overlap < size
    decreases |text| - start
  {
    if start >= |text| then done
    else
      var piece := Strip(Window(text, start, size));
      ChunksFrom(text, size, overlap, start + size - overlap, if piece == [] then done else done + [piece])
  }

  /** One turn of `chunk_text`'s loop: the window at `start` adds its stripped text unless that is blank. */
  lemma ChunkStep(text: string, size: nat, overlap: int, start: nat, next: nat, piece: string, done: seq<string>, kept: seq<string>, all: seq<string>)
    requires overlap < size && start < |text| && next == start + size - overlap
    requires piece == Strip(Window(text, start, size))
    requires kept == if piece == [] then done else done + [piece]
    requires ChunksFrom(text, size, overlap, start, done) == all
    ensures ChunksFrom(text, size, overlap, next, kept) == all
  {
  }

  /** If the accumulator agrees with the declarative list from the next start on, it does from `start` on. */
  lemma ChunksFromStep(text: string, size: nat, overlap: int, start: nat, next: nat, piece: string, done: seq<string>, kept: seq<string>)
    requires overlap < size && start < |text| && next == start + size - overlap
    requires piece == Strip(Window(text, start, size))
    requires kept == if piece == [] then done else done + [piece]
    requires ChunksFrom(text, size, overlap, next, kept)
          == kept + Stripped(Windows(text, size, WindowStarts(|text|, size, overlap, next)))
    ensures ChunksFrom(text, size, overlap, start, done)
         == done + Stripped(Windows(text, size, WindowStarts(|text|, size, overlap, start)))
  {
    var rest := Windows(text, size, WindowStarts(|text|, size, overlap, next));
    StrippedCons(Window(text, start, size), rest, piece, done);
    WindowsStep(text, size, overlap, start, next);
  }

  /** The loop's accumulated list agrees with the declarative one: `done` and then the stripped windows. */
  lemma {:induction false} ChunksFromWindows(text: string, size: nat, overlap: int, start: nat, done: seq<string>)
    requires overlap < size
    ensures ChunksFrom(text, size, overlap, start, done)
         == done + Stripped(Windows(text, size, WindowStarts(|text|, size, overlap, start)))
    decreases |text| - start
  {
    if start >= |text| {
      assert done + [] == done;
    } else {
      var next := start + size - overlap;
      var piece := Strip(Window(text, start, size));
      var kept := if piece == [] then done else done + [piece];
      ChunksFromWindows(text, size, overlap, next, kept);
      ChunksFromStep(text, size, overlap, start, next, piece, done, kept);
    }
  }

  lemma ChunksFromAll(text: string, size: nat, overlap: int)
    requires overlap < size
    ensures ChunksFrom(text, size, overlap, 0, []) == Chunks(text, size, overlap)
  {
    ChunksFromWindows(text, size, overlap, 0, []);
    assert [] + Chunks(text, size, overlap) == Chunks(text, size, overlap);
  }

  /**
   * `chunk_text`: the window loop, advancing `start` to `end - overlap`. On a
   * non-empty text the loop only ends when `overlap < size`; an empty text
   * gives no chunks whatever the parameters.
   */
  method ChunkText(text: string, size: nat, overlap: int) returns (chunks: seq<string>)
    requires overlap < size || text == []
    ensures overlap < size ==> chunks == ChunksFrom(text, size, overlap, 0, [])
    ensures text == [] ==> chunks == []
  {
    chunks := [];
    var start: nat := 0;
    ghost var all := if overlap < size then ChunksFrom(text, size, overlap, 0, []) else [];
    while start < |text|
      invariant overlap < size ==> ChunksFrom(text, size, overlap, start, chunks) == all
      invariant text == [] ==> chunks == []
      decreases |text| - start
    {
      var end := start + size;
      var piece := Strip(Window(text, start, size));
      ghost var from, before := start, chunks;
      if piece != [] {
        chunks := chunks + [piece];
      }
      start := end - overlap;
      ChunkStep(text, size, overlap, from, start, piece, before, chunks, all);
    }
  }

  /** A chunk is non-empty, at most `size` long, and neither starts nor ends with whitespace. */
  predicate WellFormedChunk(c: string, size: nat)
  {
    c != [] && |c| <= size && !IsSpace(c[0]) && !IsSpace(c[|c| - 1])
  }

  /** Every chunk is well formed. */
  lemma ChunksWellFormed(text: string, size: nat, overlap: int)
    requires overlap < size
    ensures forall c :: c in Chunks(text, size, overlap) ==> WellFormedChunk(c, size)
  {
    var ws := Windows(text, size, WindowStarts(|text|, size, overlap, 0));
    WindowsBounded(text, size, WindowStarts(|text|, size, overlap, 0));
    StrippedBounded(ws, size);
    StrippedShape(ws);
  }

  lemma {:induction false} WindowsBounded(text: string, size: nat, starts: seq<nat>)
    ensures forall w :: w in Windows(text, size, starts) ==> |w| <= size
  {
    if starts != [] {
      WindowsBounded(text, size, starts[1..]);
    }
  }

  /** Consecutive values of `start` differ by `size - overlap`. */
  lemma WindowStep(n: nat, size: nat, overlap: int, from: nat, i: nat)
    requires overlap < size
    requires i + 1 < |WindowStarts(n, size, overlap, from)|
    ensures WindowStarts(n, size, overlap, from)[i + 1] == WindowStarts(n, size, overlap, from)[i] + (size - overlap)
    decreases n - from
  {
    if i > 0 {
      WindowStep(n, size, overlap, from + size - overlap, i - 1);
    }
  }

  /** With `0 <= overlap < size`, every position of the text lies inside some window. */
  lemma {:induction false} WindowsCover(n: nat, size: nat, overlap: int, from: nat, p: nat)
    requires 0 <= overlap < size
    requires from <= p < n
    ensures exists i :: 0 <= i < |WindowStarts(n, size, overlap, from)|
                        && WindowStarts(n, size, overlap, from)[i] <= p < WindowStarts(n, size, overlap, from)[i] + size
    decreases n - from
  {
    var ws := WindowStarts(n, size, overlap, from);
    if p >= from + size {
      var next := from + size - overlap;
      WindowsCover(n, size, overlap, next, p);
      var rest := WindowStarts(n, size, overlap, next);
      var i :| 0 <= i < |rest| && rest[i] <= p < rest[i] + size;
      assert ws[i + 1] == rest[i];
    }
  }

  /**
   * Consecutive chunks of `chunk_text` overlap by `overlap` characters: when
   * the `i`-th window is full and another follows, the last `overlap`
   * characters of the `i`-th window are the first `overlap` of the next.
   */
  lemma ConsecutiveWindowsShare(text: string, size: nat, overlap: int, i: nat)
    requires 0 <= overlap < size
    requires i + 1 < |WindowStarts(|text|, size, overlap, 0)|
    requires WindowStarts(|text|, size, overlap, 0)[i] + size <= |text|
    ensures var starts := WindowStarts(|text|, size, overlap, 0);
            && starts[i + 1] == starts[i] + (size - overlap)
            && Window(text, starts[i], size)[size - overlap..] == Window(text, starts[i + 1], size)[..overlap]
  {
    var starts := WindowStarts(|text|, size, overlap, 0);
    WindowStep(|text|, size, overlap, 0, i);
    WindowsShare(text, size, overlap, starts[i]);
  }

  lemma WindowsShare(text: string, size: nat, overlap: int, start: nat)
    requires 0 <= overlap < size
    requires start + size <= |text|
    ensures Window(text, start, size)[size - overlap..] == Window(text, start + (size - overlap), size)[..overlap]
  {
    var next := start + (size - overlap);
    var shared := text[next..start + size];
    assert Window(text, start, size) == text[start..start + size];
    assert Window(text, start, size)[size - overlap..] == shared;
    assert Window(text, next, size)[..overlap] == shared;
  }

  /** The worked case: 1200 characters with the defaults give windows at 0, 450 and 900. */
  lemma DefaultWindowsOf1200()
    ensures WindowStarts(1200, ChunkSize, ChunkOverlap, 0) == [0, 450, 900]
  {
    assert WindowStarts(1200, 500, 50, 1350) == [];
    assert WindowStarts(1200, 500, 50, 900) == [900];
    assert WindowStarts(1200, 500, 50, 450) == [450, 900];
  }

  /** A text that starts with a non-space character yields at least one chunk. */
  lemma ChunksExist(text: string, size: nat, overlap: int)
    requires overlap < size && 0 < size
    requires text != [] && !IsSpace(text[0])
    ensures Chunks(text, size, overlap) != []
  {
    var starts := WindowStarts(|text|, size, overlap, 0);
    var ws := Windows(text, size, starts);
    var w := Window(text, 0, size);
    assert w[0] == text[0];
    assert ws[0] == w;
    assert !AllSpace(w);
    StrippedEmpty(ws);
  }

  /** What `clean_text(text)` returns. */
  function Clean(text: string): string
  {
    Join(Stripped(Split(text, '\n')), " ")
  }

  /** `clean_text`: strip each line, keep the non-blank ones, join them with single spaces. */
  method CleanText(text: string) returns (cleaned: string)
    ensures cleaned == Clean(text)
  {
    var lines := Split(text, '\n');
    var kept: seq<string> := [];
    for i := 0 to |lines|
      invariant kept + Stripped(lines[i..]) == Stripped(lines)
    {
      var line := Strip(lines[i]);
      ghost var before := kept;
      if line != [] {
        kept := kept + [line];
      }
      KeepStep(lines, i, line, before, kept);
    }
    assert lines[|lines|..] == [];
    assert kept == Stripped(lines);
    cleaned := Join(kept, " ");
  }


  /**
   * The cleaned text is one line: it holds no line break, it is empty exactly
   * when the input is blank, and it starts with a non-space character.
   */
  lemma CleanShape(text: string)
    ensures '\n' !in Clean(text)
    ensures Clean(text) == [] <==> AllSpace(text)
    ensures Clean(text) != [] ==> !IsSpace(Clean(text)[0])
  {
    var lines := Split(text, '\n');
    var kept := Stripped(lines);
    StrippedShape(lines);
    StrippedAvoids(lines, '\n');
    JoinAvoids(kept, " ", '\n');
    StrippedEmpty(lines);
    SplitAllSpace(text, '\n');
    if kept != [] {
      assert kept[0] in kept;
      assert kept[0][0] == Clean(text)[0];
    }
  }

  /** The ways `ingest_resume` can fail before touching the store. */
  datatype IngestError = ResumeMissing | ResumeEmpty | NoChunks

  /**
   * The checks `ingest_resume` makes before deleting anything, and the chunks it
   * then stores. `resume` is the content of `resume.txt`, `None` when the file
   * does not exist.
   */
  function Prepare(resume: Option<string>): Result<seq<string>, IngestError>
  {
    if resume.None? then Failure(ResumeMissing)
    else if Strip(resume.value) == [] then Failure(ResumeEmpty)
    else
      var chunks := Chunks(Clean(resume.value), ChunkSize, ChunkOverlap);
      if chunks == [] then Failure(NoChunks) else Success(chunks)
  }

  /**
   * Preparation succeeds exactly when the file exists and is not blank: the
   * "no chunks generated" error cannot be raised, because a non-blank text
   * cleans to a text that starts with a non-space character.
   */
  lemma PrepareSucceeds(resume: Option<string>)
    ensures Prepare(resume).Success? <==> resume.Some? && !AllSpace(resume.value)
    ensures Prepare(resume) != Failure(NoChunks)
  {
    if resume.Some? {
      StripBlank(resume.value);
    }
    if resume.Some? && !AllSpace(resume.value) {
      CleanShape(resume.value);
      ChunksExist(Clean(resume.value), ChunkSize, ChunkOverlap);
    }
  }

  /** The chunks whose embedding succeeded, the `i`-th chunk meeting the `i`-th reply. */
  function Accepted(chunks: seq<string>, replies: seq<Option<Vector>>): (kept: seq<string>)
    ensures |kept| <= |chunks|
    decreases |chunks|
  {
    if chunks == [] then []
    else
      var last := |chunks| - 1;
      Accepted(chunks[..last], replies) + (if ReplyAt(replies, last).Some? then [chunks[last]] else [])
  }

  /** When every embedding succeeds, every chunk is stored. */
  lemma {:induction false} AcceptedAll(chunks: seq<string>, replies: seq<Option<Vector>>)
    requires forall i :: 0 <= i < |chunks| ==> ReplyAt(replies, i).Some?
    ensures Accepted(chunks, replies) == chunks
    decreases |chunks|
  {
    if chunks != [] {
      var last := |chunks| - 1;
      AcceptedAll(chunks[..last], replies);
      assert chunks[..last] + [chunks[last]] == chunks;
    }
  }

  /** A failed embedding skips only its own chunk: the others are all stored, in order. */
  lemma {:induction false} AcceptedSkipsOne(chunks: seq<string>, replies: seq<Option<Vector>>, k: nat)
    requires k < |chunks|
    requires ReplyAt(replies, k).None?
    requires forall i :: 0 <= i < |chunks| && i != k ==> ReplyAt(replies, i).Some?
    ensures Accepted(chunks, replies) == chunks[..k] + chunks[k + 1..]
    decreases |chunks|
  {
    var last := |chunks| - 1;
    var init := chunks[..last];
    if k == last {
      AcceptedAll(init, replies);
      assert chunks[k + 1..] == [];
      assert init + [] == chunks[..k] + chunks[k + 1..];
    } else {
      AcceptedSkipsOne(init, replies, k);
      assert init[..k] == chunks[..k];
      assert init[k + 1..] + [chunks[last]] == chunks[k + 1..];
      assert (init[..k] + init[k + 1..]) + [chunks[last]] == chunks[..k] + (init[k + 1..] + [chunks[last]]);
    }
  }

  /** Taking one more chunk adds it when its reply is a vector. */
  lemma AcceptedSnoc(chunks: seq<string>, i: nat, replies: seq<Option<Vector>>)
    requires i < |chunks|
    ensures Accepted(chunks[..i + 1], replies)
         == Accepted(chunks[..i], replies) + (if ReplyAt(replies, i).Some? then [chunks[i]] else [])
  {
    assert chunks[..i + 1][..i] == chunks[..i];
  }

  /**
   * The replacement `ingest_resume` makes: with the knowledge records deleted
   * and only knowledge records added, the memory records are those from
   * before and the knowledge records are exactly the added ones.
   */
  lemma ReplaceKnowledge(before: seq<Record>, added: seq<Record>)
    requires forall x :: x in added ==> x.kind == Knowledge
    ensures OfKind(WithoutKind(before, Knowledge) + added, Memory) == OfKind(before, Memory)
    ensures OfKind(WithoutKind(before, Knowledge) + added, Knowledge) == added
  {
    var base := WithoutKind(before, Knowledge);
    OfKindNone(base, Knowledge);
    OfKindNone(added, Memory);
    OfKindAll(added, Knowledge);
    OfKindAppend(base, added, Memory);
    OfKindAppend(base, added, Knowledge);
    DeleteKeepsOtherKind(before, Knowledge, Memory);
    assert OfKind(base, Memory) + [] == OfKind(base, Memory);
    assert [] + added == added;
  }

  /**
   * The knowledge record one turn of the loop creates for `chunk`: the chunk
   * with its embedding, the next id and the current time; none when the
   * embedding call failed.
   */
  function StoredAs(reply: Option<Vector>, id: nat, time: nat, chunk: string): (rs: seq<Record>)
    ensures |rs| <= 1
  {
    if reply.Some? then [Record(id, chunk, Some(Encoded(reply.value)), Knowledge, time)] else []
  }

  /**
   * The knowledge records the loop creates for `chunks`, the `i`-th chunk
   * meeting the `i`-th reply, with ids from `firstId` and creation times from
   * `firstClock` on, one step per record created.
   */
  function Ingested(chunks: seq<string>, replies: seq<Option<Vector>>, firstId: nat, firstClock: nat): (rs: seq<Record>)
    ensures |rs| <= |chunks|
    decreases |chunks|
  {
    if chunks == [] then []
    else
      var last := |chunks| - 1;
      var earlier := Ingested(chunks[..last], replies, firstId, firstClock);
      earlier + StoredAs(ReplyAt(replies, last), firstId + |earlier|, firstClock + |earlier|, chunks[last])
  }

  lemma IngestedSnoc(chunks: seq<string>, i: nat, replies: seq<Option<Vector>>, firstId: nat, firstClock: nat)
    requires i < |chunks|
    ensures var earlier := Ingested(chunks[..i], replies, firstId, firstClock);
            Ingested(chunks[..i + 1], replies, firstId, firstClock)
            == earlier + StoredAs(ReplyAt(replies, i), firstId + |earlier|, firstClock + |earlier|, chunks[i])
  {
    assert chunks[..i + 1][..i] == chunks[..i];
  }

  /** The created records hold exactly the accepted chunks, in order. */
  lemma {:induction false} IngestedContents(chunks: seq<string>, replies: seq<Option<Vector>>, firstId: nat, firstClock: nat)
    ensures Contents(Ingested(chunks, replies, firstId, firstClock)) == Accepted(chunks, replies)
    decreases |chunks|
  {
    if chunks != [] {
      var last := |chunks| - 1;
      var earlier := Ingested(chunks[..last], replies, firstId, firstClock);
      var one := StoredAs(ReplyAt(replies, last), firstId + |earlier|, firstClock + |earlier|, chunks[last]);
      assert Ingested(chunks, replies, firstId, firstClock) == earlier + one;
      assert Accepted(chunks, replies)
             == Accepted(chunks[..last], replies) + (if ReplyAt(replies, last).Some? then [chunks[last]] else []);
      IngestedContents(chunks[..last], replies, firstId, firstClock);
      if ReplyAt(replies, last).Some? {
        var x := one[0];
        assert one == [x] && x.content == chunks[last];
        ContentsAppend(earlier, x);
      } else {
        assert earlier + one == earlier;
      }
    }
  }

  /**
   * Each created record is a knowledge record holding the vector its
   * embedding call returned, and ids and creation times count up from the
   * first ones, one per record.
   */
  lemma {:induction false} IngestedShape(chunks: seq<string>, replies: seq<Option<Vector>>, firstId: nat, firstClock: nat)
    ensures var rs := Ingested(chunks, replies, firstId, firstClock);
            && (forall k :: 0 <= k < |rs| ==> rs[k].id == firstId + k && rs[k].createdAt == firstClock + k)
            && (forall x :: x in rs ==> x.kind == Knowledge && x.embedding.Some? && x.embedding.value.Encoded? && x.id >= firstId)
    decreases |chunks|
  {
    if chunks != [] {
      var last := |chunks| - 1;
      var earlier := Ingested(chunks[..last], replies, firstId, firstClock);
      var one := StoredAs(ReplyAt(replies, last), firstId + |earlier|, firstClock + |earlier|, chunks[last]);
      var rs := earlier + one;
      assert Ingested(chunks, replies, firstId, firstClock) == rs;
      IngestedShape(chunks[..last], replies, firstId, firstClock);
      forall k | 0 <= k < |rs| ensures rs[k].id == firstId + k && rs[k].createdAt == firstClock + k {
        if k < |earlier| {
          assert rs[k] == earlier[k];
        } else {
          assert rs[k] == one[0];
        }
      }
      forall x | x in rs ensures x.kind == Knowledge && x.embedding.Some? && x.embedding.value.Encoded? && x.id >= firstId {
        if x !in earlier {
          assert x in one;
        }
      }
    }
  }

  /** A knowledge record created by this ingestion, with its embedding stored. */
  predicate StoredChunk(x: Record, firstId: nat)
  {
    x.kind == Knowledge && x.id >= firstId && x.embedding.Some? && x.embedding.value.Encoded?
  }

  lemma {:induction false} ContentsAppend(rs: seq<Record>, x: Record)
    ensures Contents(rs + [x]) == Contents(rs) + [x.content]
  {
    if rs != [] {
      assert (rs + [x])[1..] == rs[1..] + [x];
      ContentsAppend(rs[1..], x);
    }
  }

  /**
   * One turn of the loop: the records created so far grow by the record this
   * chunk's embedding call allowed, and the table by the same record.
   */
  lemma IngestStep(chunks: seq<string>, i: nat, replies: seq<Option<Vector>>, firstId: nat, firstClock: nat,
                   base: seq<Record>, prior: seq<Record>, records: seq<Record>,
                   before: seq<Record>, created: seq<Record>, added: seq<Record>)
    requires i < |chunks|
    requires before == Ingested(chunks[..i], replies, firstId, firstClock)
    requires prior == base + before
    requires created == StoredAs(ReplyAt(replies, i), firstId + |before|, firstClock + |before|, chunks[i])
    requires records == prior + created && added == before + created
    ensures added == Ingested(chunks[..i + 1], replies, firstId, firstClock)
    ensures records == base + added
  {
    IngestedSnoc(chunks, i, replies, firstId, firstClock);
  }

  /**
   * One turn of `ingest_resume`'s loop: the chunk is embedded and, when that
   * succeeds, stored as a knowledge record; when it fails nothing is stored.
   */
  method StoreChunk(store: MemoryStore, embedder: Embedder, chunk: string) returns (stored: Option<Record>)
    requires store.Valid()
    modifies store, embedder
    ensures store.Valid()
    ensures embedder.replies == LaterReplies(old(embedder.replies))
    ensures stored.Some? <==> NextReply(old(embedder.replies)).Some?
    ensures stored.None? ==> store.records == old(store.records) && store.nextId == old(store.nextId)
    ensures stored.Some? ==>
              && store.records == old(store.records) + [stored.value]
              && stored.value.content == chunk
              && StoredChunk(stored.value, old(store.nextId))
              && store.nextId == old(store.nextId) + 1
    ensures var created := StoredAs(NextReply(old(embedder.replies)), old(store.nextId), old(store.clock), chunk);
            && created == (if stored.Some? then [stored.value] else [])
            && store.records == old(store.records) + created
            && store.nextId == old(store.nextId) + |created| && store.clock == old(store.clock) + |created|
  {
    var v := embedder.Embed(chunk);
    if v.Some? {
      var rec := store.Create(chunk, Some(Encoded(v.value)), Knowledge);
      stored := Some(rec);
    } else {
      stored := None;
    }
  }

  /**
   * The loop of `ingest_resume`: each chunk is embedded in turn and, when that
   * succeeds, stored as a knowledge record; a failed embedding skips its chunk.
   */
  method StoreChunks(store: MemoryStore, embedder: Embedder, chunks: seq<string>) returns (ghost added: seq<Record>)
    requires store.Valid()
    modifies store, embedder
    ensures store.Valid()
    ensures store.records == old(store.records) + added
    ensures forall x :: x in added ==> StoredChunk(x, old(store.nextId))
    ensures Contents(added) == Accepted(chunks, old(embedder.replies))
    ensures embedder.replies == Drop(old(embedder.replies), |chunks|)
    ensures added == Ingested(chunks, old(embedder.replies), old(store.nextId), old(store.clock))
    ensures store.nextId == old(store.nextId) + |added| && store.clock == old(store.clock) + |added|
  {
    ghost var base := store.records;
    ghost var replies0 := embedder.replies;
    ghost var firstId := store.nextId;
    ghost var firstClock := store.clock;
    added := [];
    for i := 0 to |chunks|
      invariant store.Valid()
      invariant store.records == base + added
      invariant embedder.replies == Drop(replies0, i)
      invariant added == Ingested(chunks[..i], replies0, firstId, firstClock)
      invariant store.nextId == firstId + |added| && store.clock == firstClock + |added|
    {
      DropStep(replies0, i);
      ghost var prior, before := store.records, added;
      ghost var created := StoredAs(ReplyAt(replies0, i), store.nextId, store.clock, chunks[i]);
      var stored := StoreChunk(store, embedder, chunks[i]);
      added := before + created;
      IngestStep(chunks, i, replies0, firstId, firstClock, base, prior, store.records, before, created, added);
    }
    assert chunks[..|chunks|] == chunks;
    IngestedContents(chunks, replies0, firstId, firstClock);
    IngestedShape(chunks, replies0, firstId, firstClock);
  }

  /**
   * The writes of `ingest_resume`: every knowledge record is deleted, then the
   * chunks are embedded and stored; memory records stay as they were.
   */
  method ReplaceKnowledgeRecords(store: MemoryStore, embedder: Embedder, chunks: seq<string>)
    requires store.Valid()
    modifies store, embedder
    ensures store.Valid()
    ensures OfKind(store.records, Memory) == OfKind(old(store.records), Memory)
    ensures Contents(OfKind(store.records, Knowledge)) == Accepted(chunks, old(embedder.replies))
    ensures forall x :: x in OfKind(store.records, Knowledge) ==> StoredChunk(x, old(store.nextId))
    ensures embedder.replies == Drop(old(embedder.replies), |chunks|)
    ensures var created := Ingested(chunks, old(embedder.replies), old(store.nextId), old(store.clock));
            && store.records == WithoutKind(old(store.records), Knowledge) + created
            && store.nextId == old(store.nextId) + |created| && store.clock == old(store.clock) + |created|
  {
    store.DeleteType(Knowledge);
    ghost var added := StoreChunks(store, embedder, chunks);
    ReplaceKnowledge(old(store.records), added);
  }

  /**
   * `ingest_resume`: on a missing or blank résumé nothing changes; otherwise
   * every knowledge record is deleted and one knowledge record is created per
   * chunk whose embedding succeeds, while memory records stay as they were.
   */
  method IngestResume(store: MemoryStore, embedder: Embedder, resume: Option<string>) returns (r: Outcome<IngestError>)
    requires store.Valid()
    modifies store, embedder
    ensures store.Valid()
    ensures r.Fail? <==> Prepare(resume).Failure?
    ensures r.Fail? ==> r.error == Prepare(resume).error && unchanged(store) && unchanged(embedder)
    ensures r.Pass? ==>
              var chunks := Prepare(resume).value;
              && OfKind(store.records, Memory) == OfKind(old(store.records), Memory)
              && Contents(OfKind(store.records, Knowledge)) == Accepted(chunks, old(embedder.replies))
              && (forall x :: x in OfKind(store.records, Knowledge) ==> StoredChunk(x, old(store.nextId)))
              && embedder.replies == Drop(old(embedder.replies), |chunks|)
              && var created := Ingested(chunks, old(embedder.replies), old(store.nextId), old(store.clock));
                 && store.records == WithoutKind(old(store.records), Knowledge) + created
                 && store.nextId == old(store.nextId) + |created| && store.clock == old(store.clock) + |created|
  {
    if resume.None? {
      return Fail(ResumeMissing);
    }
    if Strip(resume.value) == [] {
      return Fail(ResumeEmpty);
    }
    var cleaned := CleanText(resume.value);
    var chunks := ChunkText(cleaned, ChunkSize, ChunkOverlap);
    ChunksFromAll(cleaned, ChunkSize, ChunkOverlap);
    assert Prepare(resume) == if chunks == [] then Failure(NoChunks) else Success(chunks);
    if chunks == [] {
      return Fail(NoChunks);
    }
    ReplaceKnowledgeRecords(store, embedder, chunks);
    r := Pass;
  }
}
