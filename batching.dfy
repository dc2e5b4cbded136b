/**
 * How cleanPoolComplete cuts a pool's ids into PoolRemoveFilesMessage
 * batches: consecutive runs of at most `limit` ids.
 */
module Batching {

  /** The batches concatenated, first to last. */
  function Flatten<T>(bs: seq<seq<T>>): seq<T> {
    if bs == [] then [] else bs[0] + Flatten(bs[1..])
  }

  /** The batch size cleanPoolComplete works with: a limit of 0 flushes after every id. */
  function BatchLimit(processAtOnce: int): (n: nat)
    ensures n > 0
    ensures processAtOnce > 0 ==> n == processAtOnce
    ensures processAtOnce <= 0 ==> n == 1
  {
    if processAtOnce <= 0 then 1 else processAtOnce
  }

  /** `ids` in consecutive batches of `limit`, the last one possibly shorter. */
  function Batches<T>(ids: seq<T>, limit: nat): (bs: seq<seq<T>>)
    requires limit > 0
    ensures bs == [] <==> ids == []
    ensures forall b :: b in bs ==> 0 < |b| <= limit
    decreases |ids|
  {
    if ids == [] then []
    else if |ids| <= limit then [ids]
    else [ids[..limit]] + Batches(ids[limit..], limit)
  }

  /** The batches are the ids, cut up without loss, reordering or repetition. */
  lemma {:induction false} BatchesFlatten<T>(ids: seq<T>, limit: nat)
    requires limit > 0
    ensures Flatten(Batches(ids, limit)) == ids
    decreases |ids|
  {
    if ids != [] && |ids| > limit {
      var bs := Batches(ids, limit);
      assert bs[1..] == Batches(ids[limit..], limit);
      BatchesFlatten(ids[limit..], limit);
      assert ids == ids[..limit] + ids[limit..];
    }
  }

  /** Every batch but the last is full. */
  lemma {:induction false} BatchesFull<T>(ids: seq<T>, limit: nat)
    requires limit > 0
    ensures forall k :: 0 <= k < |Batches(ids, limit)| - 1 ==> |Batches(ids, limit)[k]| == limit
    decreases |ids|
  {
    if ids != [] && |ids| > limit {
      var bs := Batches(ids, limit);
      var tail := Batches(ids[limit..], limit);
      assert bs == [ids[..limit]] + tail;
      BatchesFull(ids[limit..], limit);
      forall k | 0 <= k < |bs| - 1
        ensures |bs[k]| == limit
      {
        if k > 0 {
          assert bs[k] == tail[k - 1];
        }
      }
    }
  }

  /**
   * Full batches followed by a last, non-empty run of at most `limit` ids
   * are exactly the batches of their concatenation.
   */
  lemma {:induction false} BatchesOfFull<T>(bs: seq<seq<T>>, last: seq<T>, limit: nat)
    requires limit > 0
    requires forall b :: b in bs ==> |b| == limit
    requires 0 < |last| <= limit
    ensures Batches(Flatten(bs) + last, limit) == bs + [last]
    decreases |bs|
  {
    if bs != [] {
      var x := Flatten(bs) + last;
      assert x == bs[0] + (Flatten(bs[1..]) + last);
      assert x[..limit] == bs[0];
      assert x[limit..] == Flatten(bs[1..]) + last;
      BatchesOfFull(bs[1..], last, limit);
      assert |x| > limit;
      calc {
        Batches(x, limit);
        [x[..limit]] + Batches(x[limit..], limit);
        [bs[0]] + (bs[1..] + [last]);
        { assert bs == [bs[0]] + bs[1..]; }
        bs + [last];
      }
    } else {
      assert Flatten(bs) + last == last;
    }
  }

  /** Appending a batch appends its ids. */
  lemma {:induction false} FlattenAppend<T>(bs: seq<seq<T>>, b: seq<T>)
    ensures Flatten(bs + [b]) == Flatten(bs) + b
    decreases |bs|
  {
    if bs == [] {
      assert [b][1..] == [];
    } else {
      assert (bs + [b])[1..] == bs[1..] + [b];
      FlattenAppend(bs[1..], b);
    }
  }
}
