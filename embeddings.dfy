/**
 * `get_embedding`, a call to an external embedding service that either
 * returns a vector or raises. The service is modelled by a script of
 * outcomes, one per call, so that every property proved about its callers
 * holds whatever the service answers and whenever it fails.
 */
module Embeddings {
  import opened Base
  import opened Models

  /** The outcome of the next call; a script that has run out fails. */
  function NextReply(replies: seq<Option<Vector>>): Option<Vector>
  {
    if replies == [] then None else replies[0]
  }

  /** The script after one call. */
  function LaterReplies(replies: seq<Option<Vector>>): (rest: seq<Option<Vector>>)
    ensures |rest| == if replies == [] then 0 else |replies| - 1
  {
    if replies == [] then [] else replies[1..]
  }

  /** The script after `k` calls. */
  function Drop(replies: seq<Option<Vector>>, k: nat): seq<Option<Vector>>
  {
    if k >= |replies| then [] else replies[k..]
  }

  /** The outcome of the call numbered `k` (from 0): a failure once the script is exhausted. */
  function ReplyAt(replies: seq<Option<Vector>>, k: nat): Option<Vector>
  {
    if k < |replies| then replies[k] else None
  }

  /** After `k` calls, the next call meets reply `k`, and then the script has lost `k + 1` replies. */
  lemma DropStep(replies: seq<Option<Vector>>, k: nat)
    ensures NextReply(Drop(replies, k)) == ReplyAt(replies, k)
    ensures LaterReplies(Drop(replies, k)) == Drop(replies, k + 1)
  {
    if k < |replies| {
      assert replies[k..][1..] == replies[k + 1..];
    }
  }

  lemma DropZero(replies: seq<Option<Vector>>)
    ensures Drop(replies, 0) == replies
  {
    assert replies[0..] == replies;
  }

  /** `b` calls after `a` calls are `a + b` calls: they meet the same replies and leave the same script. */
  lemma DropDrop(replies: seq<Option<Vector>>, a: nat, b: nat)
    ensures Drop(Drop(replies, a), b) == Drop(replies, a + b)
    ensures forall k: nat :: ReplyAt(Drop(replies, a), k) == ReplyAt(replies, a + k)
  {
    if a + b < |replies| {
      assert replies[a..][b..] == replies[a + b..];
    }
  }

  class Embedder {
    var replies: seq<Option<Vector>>

    constructor (replies: seq<Option<Vector>>)
      ensures this.replies == replies
    {
      this.replies := replies;
    }

    /** `get_embedding(text)`: `None` stands for the exception it raises. */
    method Embed(text: string) returns (v: Option<Vector>)
      modifies this
      ensures v == NextReply(old(replies))
      ensures replies == LaterReplies(old(replies))
    {
      v := NextReply(replies);
      replies := LaterReplies(replies);
    }
  }
}
