/**
 * Telling the delete-notification targets that a file is gone, and
 * dropping its itype=2 rows only once every target has acknowledged.
 */
module DeleteNotification {
  import opened Sequences
  import opened TrashTable

  /**
   * The oracle for the targets: acks(i, j) is whether the j-th target
   * acknowledges the notification about the i-th candidate of a run.
   */
  type Acks = (nat, nat) -> bool

  /** The first target, from `from` on, that does not acknowledge candidate i; n when all do. */
  function FirstNack(acks: Acks, i: nat, n: nat, from: nat): (k: nat)
    requires from <= n
    ensures from <= k <= n
    ensures forall j :: from <= j < k ==> acks(i, j)
    ensures k < n ==> !acks(i, k)
    decreases n - from
  {
    if from == n || !acks(i, from) then from else FirstNack(acks, i, n, from + 1)
  }

  /** Every one of the n targets acknowledged candidate i. */
  predicate AllAcked(acks: Acks, i: nat, n: nat) {
    FirstNack(acks, i, n, 0) == n
  }

  /**
   * The messages sent about candidate i: the targets in their configured
   * order, up to and including the first one that fails.
   */
  function Contacted(id: PnfsId, targets: seq<Location>, acks: Acks, i: nat): (sent: seq<(Location, PnfsId)>)
    ensures |sent| <= |targets|
    ensures forall j :: 0 <= j < |sent| ==> sent[j] == (targets[j], id)
    ensures forall j :: 0 <= j < |sent| - 1 ==> acks(i, j)
    ensures |sent| < |targets| ==> 0 < |sent| && !acks(i, |sent| - 1)
    ensures AllAcked(acks, i, |targets|) <==> |sent| == |targets| && forall j :: 0 <= j < |sent| ==> acks(i, j)
  {
    var k := FirstNack(acks, i, |targets|, 0);
    var m := if k < |targets| then k + 1 else k;
    seq(m, j requires 0 <= j < m => (targets[j], id))
  }

  /** The table after the notifications about candidate i. */
  function NotifyOne(t: Table, id: PnfsId, n: nat, acks: Acks, i: nat): Table {
    if AllAcked(acks, i, n) then t - NotifyRowsOf(t, id) else t
  }

  /** The table after runNotification's loop over the candidate ids. */
  function NotifyAll(t: Table, ids: seq<PnfsId>, n: nat, acks: Acks): Table
    decreases |ids|
  {
    if ids == [] then t
    else
      var k := |ids| - 1;
      NotifyOne(NotifyAll(t, ids[..k], n, acks), ids[k], n, acks, k)
  }

  /** The messages of runNotification's loop, in the order they are sent. */
  function SentAll(ids: seq<PnfsId>, targets: seq<Location>, acks: Acks): seq<(Location, PnfsId)>
    decreases |ids|
  {
    if ids == [] then []
    else
      var k := |ids| - 1;
      SentAll(ids[..k], targets, acks) + Contacted(ids[k], targets, acks, k)
  }

  /** The candidates are exactly the ids with an itype=2 row and no row of any other itype. */
  lemma CandidateIds(t: Table, id: PnfsId)
    ensures (exists r :: r in NotifyCandidateRows(t) && r.ipnfsid == id)
        <==> (exists r :: r in t && r.ipnfsid == id && r.itype == NOTIFY) && !HasOtherRow(t, id)
  {
  }

  /**
   * A row goes exactly when it is an itype=2 row of a candidate whose
   * targets all acknowledged; a failure on one candidate keeps only that
   * candidate's rows, and rows of any other itype never change.
   */
  lemma {:induction false} NotifyAllEffect(t: Table, ids: seq<PnfsId>, n: nat, acks: Acks)
    ensures forall r :: r in NotifyAll(t, ids, n, acks) <==>
      r in t && !(r.itype == NOTIFY && exists i :: 0 <= i < |ids| && ids[i] == r.ipnfsid && AllAcked(acks, i, n))
    decreases |ids|
  {
    if ids != [] {
      var k := |ids| - 1;
      NotifyAllEffect(t, ids[..k], n, acks);
      assert forall i :: 0 <= i < k ==> ids[..k][i] == ids[i];
    }
  }

  /** Every candidate is offered to the first target, whatever happened to the candidates before it. */
  lemma {:induction false} EveryCandidateTried(ids: seq<PnfsId>, targets: seq<Location>, acks: Acks, i: nat)
    requires i < |ids| && targets != []
    ensures (targets[0], ids[i]) in SentAll(ids, targets, acks)
    decreases |ids|
  {
    var k := |ids| - 1;
    var c := Contacted(ids[k], targets, acks, k);
    if i < k {
      EveryCandidateTried(ids[..k], targets, acks, i);
    } else {
      assert c[0] == (targets[0], ids[i]);
    }
  }
}
