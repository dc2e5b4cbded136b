/**
 * The cleaner cell: its state (the trash table, the black list, the
 * settings), the sweep run() performs, the callbacks and the admin commands.
 */
module Cleaner {
  import opened Wrappers
  import opened Sequences
  import opened TrashTable
  import opened PoolBlackList
  import opened Batching
  import opened PoolCleaning
  import opened DeleteNotification
  import opened TapeCleaning

  /**
   * The reply of an admin command: the value now in force, an empty reply,
   * why the command was refused, or the DataIntegrityViolationException an
   * invalid tape URI raises.
   */
  datatype AdminReply = Reported(value: int) | Done | IllegalArgument | HsmCleanerDisabled | InvalidUri

  /** The reply of "clean pool". */
  datatype CleanPoolReply = Cleaned(batches: seq<seq<PnfsId>>) | NotAvailable | BatchSizeRejected

  /**
   * How run() ends: normally, on a DataAccessException (an invalid tape
   * URI), or on a RuntimeException (a negative batch size).
   */
  datatype RunOutcome = Completed | DatabaseFailure | Bug

  class ChimeraCleaner {
    var trash: Table
    var blackList: BlackList
    var refreshInterval: int
    var refreshUnit: TimeUnit
    var recoverTimer: int
    var recoverUnit: TimeUnit
    var processAtOnce: int
    var hsmCleanerEnabled: bool
    var hsmCleanerRequest: int
    const notificationTargets: seq<Location>
    /** The tape URIs handed to the request tracker, in order. */
    var submitted: seq<Location>

    constructor (trash: Table, refreshInterval: int, refreshUnit: TimeUnit, recoverTimer: int, recoverUnit: TimeUnit,
                 processAtOnce: int, hsmCleanerEnabled: bool, hsmCleanerRequest: int, notificationTargets: seq<Location>)
      ensures this.trash == trash && blackList == map[] && submitted == []
      ensures this.refreshInterval == refreshInterval && this.refreshUnit == refreshUnit
      ensures this.recoverTimer == recoverTimer && this.recoverUnit == recoverUnit
      ensures this.processAtOnce == processAtOnce && this.hsmCleanerEnabled == hsmCleanerEnabled
      ensures this.hsmCleanerRequest == hsmCleanerRequest && this.notificationTargets == notificationTargets
    {
      this.trash := trash;
      blackList := map[];
      this.refreshInterval := refreshInterval;
      this.refreshUnit := refreshUnit;
      this.recoverTimer := recoverTimer;
      this.recoverUnit := recoverUnit;
      this.processAtOnce := processAtOnce;
      this.hsmCleanerEnabled := hsmCleanerEnabled;
      this.hsmCleanerRequest := hsmCleanerRequest;
      this.notificationTargets := notificationTargets;
      submitted := [];
    }

    /** The trash table and the black list together. */
    function Snapshot(): State
      reads this
    {
      State(trash, blackList)
    }

    /** getPoolList: the distinct pools that hold itype=1 rows. */
    method GetPoolList() returns (pools: seq<Location>)
      ensures IsAnswer(pools, DiskPools(trash))
    {
      pools := Select(DiskPools(trash));
    }

    /** removeFiles: one DELETE per id of the list. */
    method RemoveFiles(pool: Location, files: seq<PnfsId>)
      modifies this`trash
      ensures trash == old(trash) - DiskRowsOf(old(trash), pool, Elements(files))
    {
      for i := 0 to |files|
        invariant trash == old(trash) - DiskRowsOf(old(trash), pool, Elements(files[..i]))
      {
        assert Elements(files[..i + 1]) == Elements(files[..i]) + {files[i]} by {
          assert files[..i + 1] == files[..i] + [files[i]];
        }
        trash := trash - DiskRowsOf(trash, pool, {files[i]});
      }
      assert files[..|files|] == files;
    }

    /** sendRemoveToPoolCleaner: send one batch and reconcile the reply. */
    method SendRemoveToPoolCleaner(pool: Location, files: seq<PnfsId>, reply: PoolReply, now: int)
      modifies this`trash, this`blackList
      ensures Snapshot() == Reconcile(old(Snapshot()), pool, files, reply, now)
    {
      if reply.Replied? && reply.returnCode == 0 {
        RemoveFiles(pool, files);
      } else if reply.Replied? && reply.returnCode == 1 && reply.errorObject.StringArray? {
        var removed := Without(files, Elements(reply.errorObject.items));
        RemoveFiles(pool, removed);
      } else {
        blackList := blackList[pool := now];
      }
    }

    /**
     * cleanPoolComplete: stream the pool's itype=1 ids in iatime order and
     * send them in batches; a failed batch does not stop the later ones.
     * A negative batch size makes the ArrayList constructor throw first.
     */
    method CleanPoolComplete(pool: Location, replies: Replies, now: int)
      returns (ok: bool, rows: seq<Row>, batches: seq<seq<PnfsId>>)
      modifies this`trash, this`blackList
      ensures ok <==> processAtOnce >= 0
      ensures !ok ==> Snapshot() == old(Snapshot()) && batches == []
      ensures ok ==> IsAnswer(rows, PoolDiskRows(old(trash), pool)) && SortedByAtime(rows)
      ensures ok ==> batches == Batches(Ids(rows), BatchLimit(processAtOnce))
      ensures ok ==> Snapshot() == SendBatches(old(Snapshot()), pool, batches, replies, now)
    {
      batches := [];
      if processAtOnce < 0 {
        ok, rows := false, [];
        return;
      }
      ok := true;
      rows := SelectByAtime(PoolDiskRows(trash, pool));
      var limit := BatchLimit(processAtOnce);
      var files: seq<PnfsId> := [];
      ghost var ids := Ids(rows);
      ghost var s0 := Snapshot();
      for i := 0 to |rows|
        invariant Flatten(batches) + files == ids[..i]
        invariant |files| < limit
        invariant i < |rows| ==> forall b :: b in batches ==> |b| == limit
        invariant i == |rows| ==> files == [] && batches == Batches(ids, limit)
        invariant Snapshot() == SendBatches(s0, pool, batches, replies, now)
      {
        assert ids[..i + 1] == ids[..i] + [rows[i].ipnfsid];
        files := files + [rows[i].ipnfsid];
        if |files| >= processAtOnce || i == |rows| - 1 {
          SendRemoveToPoolCleaner(pool, files, replies(pool, |batches|), now);
          if i == |rows| - 1 {
            assert ids[..i + 1] == ids;
            BatchesOfFull(batches, files, limit);
          }
          FlattenAppend(batches, files);
          assert (batches + [files])[..|batches|] == batches;
          batches := batches + [files];
          files := [];
        }
      }
    }

    /**
     * runDelete: clean every pool of the list that is not on the black list
     * when its turn comes.
     */
    method RunDelete(pools: seq<Location>, replies: Replies, now: int)
      returns (ok: bool, cleaned: seq<Location>, ghost answers: seq<seq<Row>>)
      requires Distinct(pools)
      modifies this`trash, this`blackList
      ensures ok <==> processAtOnce >= 0 || forall p :: p in pools ==> p in old(blackList)
      ensures !ok ==> Snapshot() == old(Snapshot())
      ensures |answers| == |pools|
      ensures forall p :: p in cleaned ==> p in pools && p !in old(blackList)
      ensures ok ==> forall p :: p in pools && p !in old(blackList) ==> p in cleaned
      ensures ok ==> forall i :: 0 <= i < |pools| && pools[i] !in old(blackList) ==>
                       IsAnswer(answers[i], PoolDiskRows(old(trash), pools[i])) && SortedByAtime(answers[i])
      ensures ok ==> Snapshot() == RunDeleteSpec(old(Snapshot()), pools, answers, BatchLimit(processAtOnce), replies, now)
    {
      ok, cleaned, answers := true, [], [];
      var limit := BatchLimit(processAtOnce);
      ghost var s0 := Snapshot();
      for i := 0 to |pools|
        invariant |answers| == i
        invariant Snapshot() == RunDeleteSpec(s0, pools[..i], answers, limit, replies, now)
        invariant processAtOnce < 0 ==> Snapshot() == s0 && forall p :: p in pools[..i] ==> p in s0.blackList
        invariant forall p :: p in cleaned <==> p in pools[..i] && p !in s0.blackList
        invariant forall j :: 0 <= j < i && pools[j] !in s0.blackList ==>
                    IsAnswer(answers[j], PoolDiskRows(s0.trash, pools[j])) && SortedByAtime(answers[j])
      {
        var pool := pools[i];
        assert pool !in pools[..i];
        RunDeleteElsewhere(s0, pools[..i], answers, limit, replies, now, pool);
        assert pools[..i + 1][..i] == pools[..i];
        ghost var prev := Snapshot();
        if pool !in blackList {
          var done, rows, batches := CleanPoolComplete(pool, replies, now);
          if !done {
            ok := false;
            answers := answers + seq(|pools| - i, _ => []);
            return;
          }
          assert (answers + [rows])[..i] == answers;
          answers := answers + [rows];
          cleaned := cleaned + [pool];
        } else {
          assert (answers + [[]])[..i] == answers;
          answers := answers + [[]];
        }
      }
      assert pools[..|pools|] == pools;
    }

    /** The reaping loop of run(): drop every entry whose recover window has passed. */
    method ReapBlackList(now: int)
      modifies this`blackList
      ensures blackList == Reaped(old(blackList), recoverTimer, recoverUnit, now)
    {
      var pending := blackList.Keys;
      while pending != {}
        invariant pending <= old(blackList).Keys
        invariant forall p :: p in pending ==> p in blackList && blackList[p] == old(blackList)[p]
        invariant forall p :: p in blackList ==> p in old(blackList) && blackList[p] == old(blackList)[p]
        invariant forall p :: p in old(blackList) && p !in pending ==>
                    (p in blackList <==> !Recovers(old(blackList)[p], recoverTimer, recoverUnit, now))
        decreases pending
      {
        var pool :| pool in pending;
        if Recovers(blackList[pool], recoverTimer, recoverUnit, now) {
          blackList := blackList - {pool};
        }
        pending := pending - {pool};
      }
    }

    /** sendDeleteNotifications: tell every target in order; stop at the first failure. */
    method SendDeleteNotifications(id: PnfsId, acks: Acks, i: nat) returns (ok: bool, sent: seq<(Location, PnfsId)>)
      modifies this`trash
      ensures ok == AllAcked(acks, i, |notificationTargets|)
      ensures sent == Contacted(id, notificationTargets, acks, i)
      ensures trash == NotifyOne(old(trash), id, |notificationTargets|, acks, i)
    {
      sent := [];
      for j := 0 to |notificationTargets|
        invariant |sent| == j
        invariant forall k :: 0 <= k < j ==> sent[k] == (notificationTargets[k], id) && acks(i, k)
      {
        sent := sent + [(notificationTargets[j], id)];
        if !acks(i, j) {
          ok := false;
          return;
        }
      }
      trash := trash - NotifyRowsOf(trash, id);
      ok := true;
    }

    /** runNotification: notify about every candidate; a failure only skips its own candidate. */
    method RunNotification(acks: Acks) returns (sent: seq<(Location, PnfsId)>, rows: seq<Row>)
      modifies this`trash
      ensures IsAnswer(rows, NotifyCandidateRows(old(trash)))
      ensures trash == NotifyAll(old(trash), Ids(rows), |notificationTargets|, acks)
      ensures sent == SentAll(Ids(rows), notificationTargets, acks)
    {
      rows := Select(NotifyCandidateRows(trash));
      var ids := Ids(rows);
      sent := [];
      for i := 0 to |ids|
        invariant trash == NotifyAll(old(trash), ids[..i], |notificationTargets|, acks)
        invariant sent == SentAll(ids[..i], notificationTargets, acks)
      {
        assert ids[..i + 1][..i] == ids[..i];
        var ok, s := SendDeleteNotifications(ids[i], acks, i);
        sent := sent + s;
      }
      assert ids[..|ids|] == ids;
    }

    /**
     * runDeleteHSM: submit the location of every itype=0 row; a location
     * that is not a URI aborts the sweep.
     */
    method RunDeleteHsm(uriValid: Location -> bool) returns (ok: bool, rows: seq<Row>)
      modifies this`submitted
      ensures IsAnswer(rows, TapeRows(trash))
      ensures ok <==> FirstInvalid(rows, uriValid, 0) == |rows|
      ensures submitted == old(submitted) + Locations(rows[..FirstInvalid(rows, uriValid, 0)])
    {
      rows := Select(TapeRows(trash));
      for i := 0 to |rows|
        invariant FirstInvalid(rows, uriValid, 0) >= i
        invariant submitted == old(submitted) + Locations(rows[..i])
      {
        if !uriValid(rows[i].ilocation) {
          ok := false;
          return;
        }
        assert Locations(rows[..i + 1]) == Locations(rows[..i]) + [rows[i].ilocation];
        submitted := submitted + [rows[i].ilocation];
      }
      ok := true;
    }

    /** onSuccess: the tracker deleted the file at `uri` from tape. */
    method OnSuccess(uri: Location)
      modifies this`trash
      ensures trash == DeleteTapeLocation(old(trash), uri)
    {
      trash := trash - TapeRowsAt(trash, uri);
    }

    /** onFailure: the entry stays for the next sweep. */
    method OnFailure(uri: Location)
      ensures unchanged(this)
    {
    }

    /** messageArrived(PoolManagerPoolUpMessage). */
    method PoolUp(pool: Location, mode: PoolMode, now: int)
      modifies this`blackList
      ensures blackList == OnPoolUp(old(blackList), pool, mode, now)
    {
      if mode.enabled {
        blackList := blackList - {pool};
      }
      if mode.disabled && pool !in blackList {
        blackList := blackList[pool := now];
      }
    }

    /**
     * The disk phase of run(): reap the black list, drop the listed pools
     * from the pools of the table, and runDelete over the rest.
     */
    method SweepPools(now: int, replies: Replies)
      returns (ok: bool, swept: seq<Location>, ghost answers: seq<seq<Row>>)
      modifies this`trash, this`blackList
      ensures Distinct(swept)
      ensures forall p :: p in swept <==>
                p in DiskPools(old(trash)) && p !in Reaped(old(blackList), recoverTimer, recoverUnit, now)
      ensures forall p :: p !in swept ==>
                SameAt(Snapshot(), State(old(trash), Reaped(old(blackList), recoverTimer, recoverUnit, now)), p)
      ensures trash <= old(trash)
      ensures forall row :: row in old(trash) && row.itype != DISK ==> row in trash
      ensures ok <==> !(processAtOnce < 0 && swept != [])
      ensures !ok ==> Snapshot() == State(old(trash), Reaped(old(blackList), recoverTimer, recoverUnit, now))
      ensures |answers| == |swept|
      ensures ok ==> forall i :: 0 <= i < |swept| ==>
                IsAnswer(answers[i], PoolDiskRows(old(trash), swept[i])) && SortedByAtime(answers[i])
      ensures ok ==> Snapshot() == RunDeleteSpec(State(old(trash), Reaped(old(blackList), recoverTimer, recoverUnit, now)),
                                                swept, answers, BatchLimit(processAtOnce), replies, now)
    {
      var pools := GetPoolList();
      if |blackList| > 0 {
        ReapBlackList(now);
        pools := Without(pools, blackList.Keys);
      }
      swept := pools;
      ok := true;
      answers := [];
      ghost var s1 := Snapshot();
      assert s1.blackList == Reaped(old(blackList), recoverTimer, recoverUnit, now);
      assert forall p :: p in pools ==> p !in s1.blackList;
      if pools != [] {
        var cleaned;
        ok, cleaned, answers := RunDelete(pools, replies, now);
        if ok {
          var limit := BatchLimit(processAtOnce);
          RunDeleteKeepsNonDisk(s1, pools, answers, limit, replies, now);
          forall p | p !in pools
            ensures SameAt(Snapshot(), s1, p)
          {
            RunDeleteElsewhere(s1, pools, answers, limit, replies, now, p);
          }
        }
      }
    }

    /**
     * run(): the disk phase, then the tape locations when the HSM cleaner
     * is on, then the notifications. An exception in one phase skips the
     * phases after it.
     */
    method Run(now: int, replies: Replies, uriValid: Location -> bool, acks: Acks)
      returns (outcome: RunOutcome, swept: seq<Location>, sent: seq<(Location, PnfsId)>,
               ghost answers: seq<seq<Row>>, ghost tapeRows: seq<Row>, ghost candidates: seq<Row>)
      modifies this`trash, this`blackList, this`submitted
      ensures Distinct(swept)
      ensures forall p :: p in swept <==>
                p in DiskPools(old(trash)) && p !in Reaped(old(blackList), recoverTimer, recoverUnit, now)
      ensures forall p :: p !in swept ==>
                SameAt(Snapshot(), State(old(trash), Reaped(old(blackList), recoverTimer, recoverUnit, now)), p)
      ensures trash <= old(trash)
      ensures TapeRows(trash) == TapeRows(old(trash))
      ensures outcome == Bug <==> processAtOnce < 0 && swept != []
      ensures outcome == Bug ==> Snapshot() == State(old(trash), Reaped(old(blackList), recoverTimer, recoverUnit, now))
      ensures outcome == DatabaseFailure <==>
                !(processAtOnce < 0 && swept != []) && hsmCleanerEnabled &&
                exists r :: r in TapeRows(old(trash)) && !uriValid(r.ilocation)
      ensures outcome != Completed ==> NotifyRows(trash) == NotifyRows(old(trash))
      // the disk phase, and the notifications after it
      ensures |answers| == |swept|
      ensures outcome != Bug ==> forall i :: 0 <= i < |swept| ==>
                IsAnswer(answers[i], PoolDiskRows(old(trash), swept[i])) && SortedByAtime(answers[i])
      ensures outcome != Bug ==>
                var d := RunDeleteSpec(State(old(trash), Reaped(old(blackList), recoverTimer, recoverUnit, now)),
                                       swept, answers, BatchLimit(processAtOnce), replies, now);
                && blackList == d.blackList
                && (outcome == DatabaseFailure ==> trash == d.trash)
                && (outcome == Completed ==>
                      IsAnswer(candidates, NotifyCandidateRows(d.trash)) &&
                      trash == NotifyAll(d.trash, Ids(candidates), |notificationTargets|, acks))
      ensures sent == if outcome == Completed then SentAll(Ids(candidates), notificationTargets, acks) else []
      // the tape phase
      ensures outcome == Bug || !hsmCleanerEnabled ==> submitted == old(submitted)
      ensures outcome != Bug && hsmCleanerEnabled ==>
                IsAnswer(tapeRows, TapeRows(old(trash))) &&
                submitted == old(submitted) + Locations(tapeRows[..FirstInvalid(tapeRows, uriValid, 0)])
    {
      var ok;
      ok, swept, answers := SweepPools(now, replies);
      sent, tapeRows, candidates := [], [], [];
      if !ok {
        return Bug, swept, sent, answers, tapeRows, candidates;
      }
      ghost var s2 := Snapshot();
      assert TapeRows(s2.trash) == TapeRows(old(trash));
      assert NotifyRows(s2.trash) == NotifyRows(old(trash));
      if hsmCleanerEnabled {
        var hsmOk;
        hsmOk, tapeRows := RunDeleteHsm(uriValid);
        HsmVerdict(tapeRows, TapeRows(s2.trash), uriValid);
        if !hsmOk {
          return DatabaseFailure, swept, sent, answers, tapeRows, candidates;
        }
      }
      sent, candidates := RunNotification(acks);
      NotifyAllEffect(s2.trash, Ids(candidates), |notificationTargets|, acks);
      assert TapeRows(trash) == TapeRows(s2.trash);
      forall p
        ensures SameAt(Snapshot(), s2, p)
      {
        assert PoolDiskRows(trash, p) == PoolDiskRows(s2.trash, p);
      }
      outcome := Completed;
    }

    /** "rundelete": runDelete over the pools of the table, without reaping the black list. */
    method RunDeleteCommand(replies: Replies, now: int)
      returns (ok: bool, cleaned: seq<Location>, pools: seq<Location>, ghost answers: seq<seq<Row>>)
      modifies this`trash, this`blackList
      ensures IsAnswer(pools, DiskPools(old(trash)))
      ensures ok <==> processAtOnce >= 0 || DiskPools(old(trash)) <= old(blackList).Keys
      ensures ok ==> forall p :: p in cleaned <==> p in DiskPools(old(trash)) && p !in old(blackList)
      ensures !ok ==> Snapshot() == old(Snapshot())
      ensures |answers| == |pools|
      ensures ok ==> forall i :: 0 <= i < |pools| && pools[i] !in old(blackList) ==>
                       IsAnswer(answers[i], PoolDiskRows(old(trash), pools[i])) && SortedByAtime(answers[i])
      ensures ok ==> Snapshot() == RunDeleteSpec(old(Snapshot()), pools, answers, BatchLimit(processAtOnce), replies, now)
    {
      pools := GetPoolList();
      ok, cleaned, answers := RunDelete(pools, replies, now);
    }

    /** "clean pool <pool>": cleanPoolComplete unless the pool is on the black list. */
    method CleanPool(pool: Location, replies: Replies, now: int) returns (reply: CleanPoolReply, rows: seq<Row>)
      modifies this`trash, this`blackList
      ensures pool in old(blackList) ==> reply == NotAvailable && Snapshot() == old(Snapshot())
      ensures pool !in old(blackList) && processAtOnce < 0 ==> reply == BatchSizeRejected && Snapshot() == old(Snapshot())
      ensures pool !in old(blackList) && processAtOnce >= 0 ==>
                && reply.Cleaned?
                && IsAnswer(rows, PoolDiskRows(old(trash), pool)) && SortedByAtime(rows)
                && reply.batches == Batches(Ids(rows), BatchLimit(processAtOnce))
                && Snapshot() == SendBatches(old(Snapshot()), pool, reply.batches, replies, now)
    {
      rows := [];
      if pool in blackList {
        return NotAvailable, rows;
      }
      var ok, batches;
      ok, rows, batches := CleanPoolComplete(pool, replies, now);
      reply := if ok then Cleaned(batches) else BatchSizeRejected;
    }

    /** "rundelete hsm": an invalid tape URI leaves the command with its exception. */
    method RunDeleteHsmCommand(uriValid: Location -> bool) returns (reply: AdminReply, rows: seq<Row>)
      modifies this`submitted
      ensures !hsmCleanerEnabled ==> reply == HsmCleanerDisabled && submitted == old(submitted)
      ensures hsmCleanerEnabled ==> IsAnswer(rows, TapeRows(trash))
      ensures hsmCleanerEnabled ==> submitted == old(submitted) + Locations(rows[..FirstInvalid(rows, uriValid, 0)])
      ensures hsmCleanerEnabled ==>
                if exists r :: r in TapeRows(trash) && !uriValid(r.ilocation) then reply == InvalidUri else reply == Done
    {
      rows := [];
      if !hsmCleanerEnabled {
        return HsmCleanerDisabled, rows;
      }
      var ok;
      ok, rows := RunDeleteHsm(uriValid);
      HsmVerdict(rows, TapeRows(trash), uriValid);
      reply := if ok then Done else InvalidUri;
    }

    /** "remove from blacklist <pool>". */
    method RemoveFromBlacklist(pool: Location) returns (wasListed: bool)
      modifies this`blackList
      ensures wasListed == (pool in old(blackList))
      ensures blackList == old(blackList) - {pool}
    {
      wasListed := pool in blackList;
      blackList := blackList - {pool};
    }

    /** "set refresh [<seconds>]": at least 5 seconds, stored in seconds. */
    method SetRefresh(arg: Option<int>) returns (reply: AdminReply)
      modifies this`refreshInterval, this`refreshUnit
      ensures arg.Some? && arg.value < 5 ==>
                reply == IllegalArgument && refreshInterval == old(refreshInterval) && refreshUnit == old(refreshUnit)
      ensures arg.Some? && arg.value >= 5 ==>
                reply == Reported(arg.value) && refreshInterval == arg.value && refreshUnit == Seconds
      ensures arg.None? ==>
                reply == Reported(refreshInterval) && refreshInterval == old(refreshInterval) && refreshUnit == old(refreshUnit)
    {
      if arg.Some? {
        if arg.value < 5 {
          return IllegalArgument;
        }
        refreshInterval, refreshUnit := arg.value, Seconds;
      }
      reply := Reported(refreshInterval);
    }

    /** "set processedAtOnce <n>": n must be positive. */
    method SetProcessedAtOnce(arg: int) returns (reply: AdminReply)
      modifies this`processAtOnce
      ensures arg <= 0 ==> reply == IllegalArgument && processAtOnce == old(processAtOnce)
      ensures arg > 0 ==> reply == Reported(arg) && processAtOnce == arg
    {
      if arg <= 0 {
        return IllegalArgument;
      }
      processAtOnce := arg;
      reply := Reported(processAtOnce);
    }

    /** "hsm set MaxFilesPerRequest <n>": only 0 is refused. */
    method HsmSetMaxFilesPerRequest(arg: int) returns (reply: AdminReply)
      modifies this`hsmCleanerRequest
      ensures !hsmCleanerEnabled ==> reply == HsmCleanerDisabled && hsmCleanerRequest == old(hsmCleanerRequest)
      ensures hsmCleanerEnabled && arg == 0 ==> reply == IllegalArgument && hsmCleanerRequest == old(hsmCleanerRequest)
      ensures hsmCleanerEnabled && arg != 0 ==> reply == Reported(arg) && hsmCleanerRequest == arg
    {
      if !hsmCleanerEnabled {
        return HsmCleanerDisabled;
      }
      if arg == 0 {
        return IllegalArgument;
      }
      hsmCleanerRequest := arg;
      reply := Reported(hsmCleanerRequest);
    }
  }
}
