/** The tape (HSM) side: submitting itype=0 locations and the tracker's callbacks. */
module TapeCleaning {
  import opened Sequences
  import opened TrashTable

  /** The first row, from `from` on, whose location does not parse as a URI; |rows| when all do. */
  function FirstInvalid(rows: seq<Row>, uriValid: Location -> bool, from: nat): (k: nat)
    requires from <= |rows|
    ensures from <= k <= |rows|
    ensures forall j :: from <= j < k ==> uriValid(rows[j].ilocation)
    ensures k < |rows| ==> !uriValid(rows[k].ilocation)
    decreases |rows| - from
  {
    if from == |rows| || !uriValid(rows[from].ilocation) then from
    else FirstInvalid(rows, uriValid, from + 1)
  }

  /** The table after onSuccess(uri): DELETE ... WHERE ilocation=uri AND itype=0. */
  function DeleteTapeLocation(t: Table, uri: Location): (r: Table)
    ensures r <= t
    ensures TapeRowsAt(r, uri) == {}
    ensures forall row :: row in t && !(row.ilocation == uri && row.itype == TAPE) ==> row in r
  {
    t - TapeRowsAt(t, uri)
  }

  /** A second success callback for the same URI has no further effect. */
  lemma OnSuccessIdempotent(t: Table, uri: Location)
    ensures DeleteTapeLocation(DeleteTapeLocation(t, uri), uri) == DeleteTapeLocation(t, uri)
  {
  }

  /** The tape sweep stops early exactly when some selected location does not parse. */
  lemma HsmVerdict(rows: seq<Row>, matching: set<Row>, uriValid: Location -> bool)
    requires IsAnswer(rows, matching)
    ensures FirstInvalid(rows, uriValid, 0) < |rows| <==> exists r :: r in matching && !uriValid(r.ilocation)
  {
    var k := FirstInvalid(rows, uriValid, 0);
    if k < |rows| {
      assert rows[k] in Elements(rows);
    } else {
      forall r | r in matching
        ensures uriValid(r.ilocation)
      {
        assert r in Elements(rows);
        var j :| 0 <= j < |rows| && rows[j] == r;
      }
    }
  }
}
