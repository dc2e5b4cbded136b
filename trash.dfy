/**
 * The trash table t_locationinfo_trash: one row per location of a deleted
 * file that still has to be cleaned, the selections the cleaner runs over
 * it, and the order in which the database may hand their rows back.
 */
module TrashTable {
  import opened Sequences

  type PnfsId = string
  type Location = string

  /** itype codes of the trash table. */
  const TAPE: int := 0
  const DISK: int := 1
  const NOTIFY: int := 2

  /** A row (ipnfsid, ilocation, itype, iatime). */
  datatype Row = Row(ipnfsid: PnfsId, ilocation: Location, itype: int, iatime: int)

  type Table = set<Row>

  /** SELECT DISTINCT ilocation ... WHERE itype=1 */
  function DiskPools(t: Table): set<Location> {
    set r | r in t && r.itype == DISK :: r.ilocation
  }

  /** The rows selected by ilocation=? AND itype=1 for one pool. */
  function PoolDiskRows(t: Table, pool: Location): set<Row> {
    set r | r in t && r.ilocation == pool && r.itype == DISK
  }

  /** The rows deleted by DELETE ... WHERE ilocation=? AND ipnfsid=? AND itype=1, over every id. */
  function DiskRowsOf(t: Table, pool: Location, ids: set<PnfsId>): set<Row> {
    set r | r in t && r.ilocation == pool && r.itype == DISK && r.ipnfsid in ids
  }

  /** SELECT ilocation ... WHERE itype=0 */
  function TapeRows(t: Table): set<Row> {
    set r | r in t && r.itype == TAPE
  }

  /** The rows deleted by DELETE ... WHERE ilocation=? AND itype=0 */
  function TapeRowsAt(t: Table, uri: Location): set<Row> {
    set r | r in t && r.ilocation == uri && r.itype == TAPE
  }

  /** All rows with itype=2. */
  function NotifyRows(t: Table): set<Row> {
    set r | r in t && r.itype == NOTIFY
  }

  /** The rows deleted by DELETE ... WHERE ipnfsid=? AND itype=2 */
  function NotifyRowsOf(t: Table, id: PnfsId): set<Row> {
    set r | r in t && r.ipnfsid == id && r.itype == NOTIFY
  }

  /** Whether `id` still has a row of an itype other than 2. */
  predicate HasOtherRow(t: Table, id: PnfsId) {
    exists r :: r in t && r.ipnfsid == id && r.itype != NOTIFY
  }

  /** The rows of the notification query: itype=2 AND NOT EXISTS a row of the same id with itype <> 2. */
  function NotifyCandidateRows(t: Table): set<Row> {
    set r | r in t && r.itype == NOTIFY && !HasOtherRow(t, r.ipnfsid)
  }

  /** The ipnfsid column of a result. */
  function Ids(rows: seq<Row>): seq<PnfsId> {
    seq(|rows|, i requires 0 <= i < |rows| => rows[i].ipnfsid)
  }

  /** The ilocation column of a result. */
  function Locations(rows: seq<Row>): seq<Location> {
    seq(|rows|, i requires 0 <= i < |rows| => rows[i].ilocation)
  }

  /** `rows` is an answer the database may give to a query that selects `matching`. */
  predicate IsAnswer<T(==)>(rows: seq<T>, matching: set<T>) {
    Distinct(rows) && Elements(rows) == matching
  }

  /** The order ORDER BY iatime asks for. */
  predicate SortedByAtime(rows: seq<Row>) {
    forall i, j :: 0 <= i < j < |rows| ==> rows[i].iatime <= rows[j].iatime
  }

  /** The database answering a query without ORDER BY: the selected values in some order. */
  method Select<T(==)>(matching: set<T>) returns (rows: seq<T>)
    ensures IsAnswer(rows, matching)
  {
    rows := [];
    var rest := matching;
    while rest != {}
      invariant Distinct(rows)
      invariant Elements(rows) !! rest
      invariant Elements(rows) + rest == matching
      decreases rest
    {
      var r :| r in rest;
      rows := rows + [r];
      rest := rest - {r};
    }
  }

  predicate IsEarliest(r: Row, s: set<Row>) {
    r in s && forall x :: x in s ==> r.iatime <= x.iatime
  }

  /** Every non-empty set of rows has a row with the least iatime. */
  lemma {:induction false} EarliestExists(s: set<Row>)
    requires s != {}
    ensures exists r :: IsEarliest(r, s)
  {
    var x :| x in s;
    if s == {x} {
      assert IsEarliest(x, s);
    } else {
      EarliestExists(s - {x});
      var m :| IsEarliest(m, s - {x});
      if x.iatime < m.iatime {
        assert IsEarliest(x, s);
      } else {
        assert IsEarliest(m, s);
      }
    }
  }

  /**
   * The database answering a query with ORDER BY iatime: the selected rows,
   * earliest first; rows with equal iatime come in any order.
   */
  method SelectByAtime(matching: set<Row>) returns (rows: seq<Row>)
    ensures IsAnswer(rows, matching)
    ensures SortedByAtime(rows)
  {
    rows := [];
    var rest := matching;
    while rest != {}
      invariant Distinct(rows)
      invariant Elements(rows) !! rest
      invariant Elements(rows) + rest == matching
      invariant SortedByAtime(rows)
      invariant forall i, x :: 0 <= i < |rows| && x in rest ==> rows[i].iatime <= x.iatime
      decreases rest
    {
      EarliestExists(rest);
      var r :| IsEarliest(r, rest);
      rows := rows + [r];
      rest := rest - {r};
    }
  }
}
