/**
 * Reconciling the trash table and the black list with the replies of the
 * pools to PoolRemoveFilesMessage, batch by batch and pool by pool.
 */
module PoolCleaning {
  import opened Sequences
  import opened TrashTable
  import opened PoolBlackList
  import opened Batching

  /** The error object of a reply: a String[] of ids, or anything else (null included). */
  datatype ErrorObject = StringArray(items: seq<PnfsId>) | OtherObject

  /** What the pool stub yields for one PoolRemoveFilesMessage. */
  datatype PoolReply =
    | Replied(returnCode: int, errorObject: ErrorObject)
    | SendFailed  // CacheException from the stub: timeout, no route, ...

  /**
   * The oracle for the pools: replies(p, k) is the reply of pool p to the
   * k-th batch sent to it in one cleanPoolComplete.
   */
  type Replies = (Location, nat) -> PoolReply

  predicate RemovedAll(reply: PoolReply) {
    reply.Replied? && reply.returnCode == 0
  }

  predicate RemovedSome(reply: PoolReply) {
    reply.Replied? && reply.returnCode == 1 && reply.errorObject.StringArray?
  }

  /** Any other reply is turned into a CacheException. */
  predicate Failed(reply: PoolReply) {
    !RemovedAll(reply) && !RemovedSome(reply)
  }

  /** The ids of `batch` whose rows are deleted after `reply`. */
  function Confirmed(batch: seq<PnfsId>, reply: PoolReply): (c: set<PnfsId>)
    ensures c <= Elements(batch)
    ensures Failed(reply) ==> c == {}
  {
    if RemovedAll(reply) then Elements(batch)
    else if RemovedSome(reply) then Elements(Without(batch, Elements(reply.errorObject.items)))
    else {}
  }

  /** The two pieces of state the cleaner keeps. */
  datatype State = State(trash: Table, blackList: BlackList)

  /** The effect of one batch sent to `pool`. */
  function Reconcile(st: State, pool: Location, batch: seq<PnfsId>, reply: PoolReply, now: int): State {
    if Failed(reply) then State(st.trash, MarkFailed(st.blackList, pool, now))
    else State(st.trash - DiskRowsOf(st.trash, pool, Confirmed(batch, reply)), st.blackList)
  }

  /**
   * Return code 0 deletes exactly the (pool, id, itype=1) rows of the batch;
   * return code 1 with a String[] deletes those of batch minus that list;
   * anything else deletes nothing and lists the pool at `now`.
   */
  lemma ReplyEffect(st: State, pool: Location, batch: seq<PnfsId>, reply: PoolReply, now: int)
    ensures var r := Reconcile(st, pool, batch, reply, now);
      && r.trash <= st.trash
      && (reply.Replied? && reply.returnCode == 0 ==>
            r.blackList == st.blackList &&
            forall row :: row in st.trash ==>
              (row !in r.trash <==> row.ilocation == pool && row.itype == DISK && row.ipnfsid in batch))
      && (reply.Replied? && reply.returnCode == 1 && reply.errorObject.StringArray? ==>
            r.blackList == st.blackList &&
            forall row :: row in st.trash ==>
              (row !in r.trash <==> row.ilocation == pool && row.itype == DISK && row.ipnfsid in batch
                                    && row.ipnfsid !in reply.errorObject.items))
      && (!(reply.Replied? && reply.returnCode in {0, 1}) || (reply.returnCode == 1 && !reply.errorObject.StringArray?) ==>
            r.trash == st.trash && pool in r.blackList && r.blackList[pool] == now &&
            forall q :: q != pool ==> (q in r.blackList <==> q in st.blackList) && (q in r.blackList ==> r.blackList[q] == st.blackList[q]))
  {
  }

  /** The batches of one cleanPoolComplete, sent in order; replies(pool, k) answers the k-th. */
  function SendBatches(st: State, pool: Location, batches: seq<seq<PnfsId>>, replies: Replies, now: int): State
    decreases |batches|
  {
    if batches == [] then st
    else
      var k := |batches| - 1;
      Reconcile(SendBatches(st, pool, batches[..k], replies, now), pool, batches[k], replies(pool, k), now)
  }

  /**
   * Over all batches: rows of other pools and other itypes stay; a row of
   * the pool goes exactly when some batch's reply confirms its id; the pool
   * is listed at `now` exactly when some reply failed, even if later ones
   * succeeded, and nothing else on the list changes.
   */
  lemma {:induction false} SendBatchesEffect(st: State, pool: Location, batches: seq<seq<PnfsId>>, replies: Replies, now: int)
    ensures var r := SendBatches(st, pool, batches, replies, now);
      && r.trash <= st.trash
      && (forall row :: row in st.trash && !(row.ilocation == pool && row.itype == DISK) ==> row in r.trash)
      && (forall row :: row in st.trash && row.ilocation == pool && row.itype == DISK ==>
            (row !in r.trash <==> exists k :: 0 <= k < |batches| && row.ipnfsid in Confirmed(batches[k], replies(pool, k))))
      && r.blackList == if exists k :: 0 <= k < |batches| && Failed(replies(pool, k))
                        then st.blackList[pool := now] else st.blackList
    decreases |batches|
  {
    if batches != [] {
      var n := |batches| - 1;
      var prefix := batches[..n];
      SendBatchesEffect(st, pool, prefix, replies, now);
      assert forall k :: 0 <= k < n ==> prefix[k] == batches[k];
    }
  }

  /** Two states that agree on one pool's disk rows and black-list entry. */
  predicate SameAt(a: State, b: State, p: Location) {
    && PoolDiskRows(a.trash, p) == PoolDiskRows(b.trash, p)
    && (p in a.blackList <==> p in b.blackList)
    && (p in a.blackList ==> a.blackList[p] == b.blackList[p])
  }

  /** Cleaning a pool leaves every other pool as it was. */
  lemma SendBatchesElsewhere(st: State, pool: Location, batches: seq<seq<PnfsId>>, replies: Replies, now: int, q: Location)
    requires q != pool
    ensures SameAt(SendBatches(st, pool, batches, replies, now), st, q)
  {
    var r := SendBatches(st, pool, batches, replies, now);
    SendBatchesEffect(st, pool, batches, replies, now);
    assert PoolDiskRows(r.trash, q) == PoolDiskRows(st.trash, q);
  }

  /** What cleaning does to a pool depends only on that pool's rows and entry. */
  lemma {:induction false} SendBatchesCongruent(a: State, b: State, pool: Location, batches: seq<seq<PnfsId>>, replies: Replies, now: int)
    requires SameAt(a, b, pool)
    ensures SameAt(SendBatches(a, pool, batches, replies, now), SendBatches(b, pool, batches, replies, now), pool)
    decreases |batches|
  {
    if batches != [] {
      var n := |batches| - 1;
      var a' := SendBatches(a, pool, batches[..n], replies, now);
      var b' := SendBatches(b, pool, batches[..n], replies, now);
      SendBatchesCongruent(a, b, pool, batches[..n], replies, now);
      var c := Confirmed(batches[n], replies(pool, n));
      assert PoolDiskRows(a'.trash - DiskRowsOf(a'.trash, pool, c), pool)
          == PoolDiskRows(b'.trash - DiskRowsOf(b'.trash, pool, c), pool) by {
        forall row
          ensures row in PoolDiskRows(a'.trash - DiskRowsOf(a'.trash, pool, c), pool)
              <==> row in PoolDiskRows(a'.trash, pool) && row.ipnfsid !in c
        {}
        forall row
          ensures row in PoolDiskRows(b'.trash - DiskRowsOf(b'.trash, pool, c), pool)
              <==> row in PoolDiskRows(b'.trash, pool) && row.ipnfsid !in c
        {}
      }
    }
  }

  /** The answer recorded for the i-th pool of runDelete (empty when it was skipped). */
  function RunDeleteSpec(st: State, pools: seq<Location>, answers: seq<seq<Row>>, limit: nat, replies: Replies, now: int): State
    requires limit > 0
    requires |answers| == |pools|
    decreases |pools|
  {
    if pools == [] then st
    else
      var k := |pools| - 1;
      var prev := RunDeleteSpec(st, pools[..k], answers[..k], limit, replies, now);
      var p := pools[k];
      if p in prev.blackList then prev
      else SendBatches(prev, p, Batches(Ids(answers[k]), limit), replies, now)
  }

  /** A pool runDelete is not given is left as it was. */
  lemma {:induction false} RunDeleteElsewhere(st: State, pools: seq<Location>, answers: seq<seq<Row>>, limit: nat, replies: Replies, now: int, q: Location)
    requires limit > 0
    requires |answers| == |pools|
    requires q !in pools
    ensures SameAt(RunDeleteSpec(st, pools, answers, limit, replies, now), st, q)
    decreases |pools|
  {
    if pools != [] {
      var k := |pools| - 1;
      RunDeleteElsewhere(st, pools[..k], answers[..k], limit, replies, now, q);
      var prev := RunDeleteSpec(st, pools[..k], answers[..k], limit, replies, now);
      if pools[k] !in prev.blackList {
        SendBatchesElsewhere(prev, pools[k], Batches(Ids(answers[k]), limit), replies, now, q);
      }
    }
  }

  /**
   * Pools are independent: each pool of the list ends as if it alone had
   * been cleaned from the initial state, and a pool listed at the start
   * is skipped: no request goes to it and its rows stay.
   */
  lemma {:induction false} RunDeleteAt(st: State, pools: seq<Location>, answers: seq<seq<Row>>, limit: nat, replies: Replies, now: int, i: nat)
    requires limit > 0
    requires |answers| == |pools|
    requires Distinct(pools)
    requires i < |pools|
    ensures var p := pools[i];
      SameAt(RunDeleteSpec(st, pools, answers, limit, replies, now),
             if p in st.blackList then st else SendBatches(st, p, Batches(Ids(answers[i]), limit), replies, now),
             p)
    decreases |pools|
  {
    var k := |pools| - 1;
    var p := pools[i];
    var prev := RunDeleteSpec(st, pools[..k], answers[..k], limit, replies, now);
    var alone := if p in st.blackList then st else SendBatches(st, p, Batches(Ids(answers[i]), limit), replies, now);
    if i < k {
      RunDeleteAt(st, pools[..k], answers[..k], limit, replies, now, i);
      assert SameAt(prev, alone, p);
      if pools[k] !in prev.blackList {
        SendBatchesElsewhere(prev, pools[k], Batches(Ids(answers[k]), limit), replies, now, p);
      }
    } else {
      assert p !in pools[..k];
      RunDeleteElsewhere(st, pools[..k], answers[..k], limit, replies, now, p);
      if p !in st.blackList {
        SendBatchesCongruent(prev, st, p, Batches(Ids(answers[i]), limit), replies, now);
      }
    }
  }

  /** runDelete only deletes rows, and only itype=1 rows. */
  lemma {:induction false} RunDeleteKeepsNonDisk(st: State, pools: seq<Location>, answers: seq<seq<Row>>, limit: nat, replies: Replies, now: int)
    requires limit > 0
    requires |answers| == |pools|
    ensures var r := RunDeleteSpec(st, pools, answers, limit, replies, now);
      r.trash <= st.trash && forall row :: row in st.trash && row.itype != DISK ==> row in r.trash
    decreases |pools|
  {
    if pools != [] {
      var k := |pools| - 1;
      RunDeleteKeepsNonDisk(st, pools[..k], answers[..k], limit, replies, now);
      var prev := RunDeleteSpec(st, pools[..k], answers[..k], limit, replies, now);
      if pools[k] !in prev.blackList {
        SendBatchesEffect(prev, pools[k], Batches(Ids(answers[k]), limit), replies, now);
      }
    }
  }
}
