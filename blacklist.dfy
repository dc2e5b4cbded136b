/**
 * The pool black list: pool name -> the time (epoch milliseconds) it was
 * listed. Pools on it receive no remove requests.
 */
module PoolBlackList {

  type BlackList = map<string, int>

  /** java.util.concurrent.TimeUnit. */
  datatype TimeUnit = Nanoseconds | Microseconds | Milliseconds | Seconds | Minutes | Hours | Days

  /** TimeUnit.toMillis for a non-negative duration (truncating below a millisecond). */
  function ToMillis(d: nat, unit: TimeUnit): nat {
    match unit
    case Nanoseconds => d / 1_000_000
    case Microseconds => d / 1000
    case Milliseconds => d
    case Seconds => d * 1000
    case Minutes => d * 60_000
    case Hours => d * 3_600_000
    case Days => d * 86_400_000
  }

  /** The test of the reaping loop: stamp non-zero, recover timer on, recover window exceeded. */
  predicate Recovers(stamp: int, recoverTimer: int, unit: TimeUnit, now: int) {
    stamp != 0 && recoverTimer > 0 && now - stamp > ToMillis(recoverTimer, unit)
  }

  /** The black list after the reaping loop of run(). */
  function Reaped(bl: BlackList, recoverTimer: int, unit: TimeUnit, now: int): (r: BlackList)
    ensures r.Keys <= bl.Keys
    ensures forall p :: p in r ==> r[p] == bl[p]
  {
    map p | p in bl && !Recovers(bl[p], recoverTimer, unit, now) :: bl[p]
  }

  /** A failed remove request: put, which overwrites an earlier time. */
  function MarkFailed(bl: BlackList, pool: string, now: int): BlackList {
    bl[pool := now]
  }

  /** A disabled pool: putIfAbsent, which keeps an earlier time. */
  function MarkDisabled(bl: BlackList, pool: string, now: int): BlackList {
    if pool in bl then bl else bl[pool := now]
  }

  /** The mode flags a PoolManagerPoolUpMessage carries. */
  datatype PoolMode = PoolMode(enabled: bool, disabled: bool)

  /** The black list after a pool up/down message. */
  function OnPoolUp(bl: BlackList, pool: string, mode: PoolMode, now: int): BlackList {
    var b := if mode.enabled then bl - {pool} else bl;
    if mode.disabled then MarkDisabled(b, pool, now) else b
  }

  /** With the recover timer off, nothing leaves the list by reaping. */
  lemma NoRecoveryWithoutTimer(bl: BlackList, recoverTimer: int, unit: TimeUnit, now: int)
    requires recoverTimer <= 0
    ensures Reaped(bl, recoverTimer, unit, now) == bl
  {
  }

  /** A pool listed with time 0 never leaves the list by reaping. */
  lemma ZeroStampStays(bl: BlackList, pool: string, recoverTimer: int, unit: TimeUnit, now: int)
    requires pool in bl && bl[pool] == 0
    ensures pool in Reaped(bl, recoverTimer, unit, now)
  {
  }

  /** An entry leaves only when all three conditions hold; every other entry stays with its time. */
  lemma ReapedExactly(bl: BlackList, recoverTimer: int, unit: TimeUnit, now: int, pool: string)
    requires pool in bl
    ensures pool !in Reaped(bl, recoverTimer, unit, now) <==>
              bl[pool] != 0 && recoverTimer > 0 && now - bl[pool] > ToMillis(recoverTimer, unit)
  {
  }

  /** Reaping twice at the same time changes nothing more. */
  lemma ReapedIdempotent(bl: BlackList, recoverTimer: int, unit: TimeUnit, now: int)
    ensures Reaped(Reaped(bl, recoverTimer, unit, now), recoverTimer, unit, now) == Reaped(bl, recoverTimer, unit, now)
  {
  }

  /**
   * Disabled twice: the first time is kept, so recovery is measured from
   * the first listing.
   */
  lemma DisabledIsSticky(bl: BlackList, pool: string, t1: int, t2: int, recoverTimer: int, unit: TimeUnit, now: int)
    requires pool !in bl
    ensures var b := MarkDisabled(MarkDisabled(bl, pool, t1), pool, t2);
      && b[pool] == t1
      && (pool !in Reaped(b, recoverTimer, unit, now) <==> Recovers(t1, recoverTimer, unit, now))
  {
  }

  /**
   * Failed twice: the second time replaces the first, so recovery is
   * measured from the latest failure.
   */
  lemma FailureOverwrites(bl: BlackList, pool: string, t1: int, t2: int, recoverTimer: int, unit: TimeUnit, now: int)
    ensures var b := MarkFailed(MarkFailed(bl, pool, t1), pool, t2);
      && b[pool] == t2
      && (pool !in Reaped(b, recoverTimer, unit, now) <==> Recovers(t2, recoverTimer, unit, now))
  {
  }

  /** Up/down messages: enabled clears the entry, disabled adds one only when absent, other pools keep theirs. */
  lemma PoolUpEffect(bl: BlackList, pool: string, mode: PoolMode, now: int)
    ensures var b := OnPoolUp(bl, pool, mode, now);
      && (mode.enabled && !mode.disabled ==> pool !in b)
      && (mode.disabled && !mode.enabled && pool in bl ==> pool in b && b[pool] == bl[pool])
      && (mode.disabled && pool !in bl ==> pool in b && b[pool] == now)
      && (!mode.enabled && !mode.disabled ==> b == bl)
      && (forall q :: q != pool ==> (q in b <==> q in bl) && (q in b ==> b[q] == bl[q]))
  {
  }
}
