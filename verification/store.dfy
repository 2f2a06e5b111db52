/** The record store as the restore jobs see it: each table name maps to its
    rows, a table the map lacks has no rows. The only bulk delete the code
    issues is `.delete().neq("id", 0)`, and inserts append the rows sent. */
module Store {
  import opened Wrappers
  import opened Js

  type Db = map<string, seq<Record>>

  function Rows(db: Db, t: string): seq<Record> {
    if t in db then db[t] else []
  }

  /** A row the filter `id <> 0` selects. SQL's comparison with a null id is
      unknown, so rows whose id is null (or absent) are not selected; an id of
      0 is the number 0, the text "0" or false, which is what "0" casts to. */
  predicate MatchesNeqIdZero(r: Record) {
    var id: Option<Value> := Lookup(r, "id");
    match id
    case None => false
    case Some(Null) => false
    case Some(Num(n)) => n != 0
    case Some(Str(s)) => s != "0"
    case Some(Bool(b)) => b
  }

  /** The rows `.delete().neq("id", 0)` leaves behind, in their order. */
  function SurvivingRows(rows: seq<Record>): seq<Record>
    decreases |rows|
  {
    if |rows| == 0 then []
    else (if MatchesNeqIdZero(rows[0]) then [] else [rows[0]]) + SurvivingRows(rows[1..])
  }

  /** The rows of table `t` after `.delete().neq("id", 0)`; the code never
      looks at the delete's result, so a failed delete leaves every row. */
  function AfterDelete(db: Db, t: string, failed: bool): seq<Record> {
    if failed then Rows(db, t) else SurvivingRows(Rows(db, t))
  }

  /** The delete keeps exactly the rows whose id is 0 or null, distributes
      over concatenation, and deleting twice deletes nothing more. */
  lemma {:induction false} SurvivingRowsSpec(rows: seq<Record>)
    ensures forall r | r in SurvivingRows(rows) :: r in rows && !MatchesNeqIdZero(r)
    ensures forall r | r in rows && !MatchesNeqIdZero(r) :: r in SurvivingRows(rows)
    ensures |SurvivingRows(rows)| <= |rows|
    ensures SurvivingRows(SurvivingRows(rows)) == SurvivingRows(rows)
    decreases |rows|
  {
    if |rows| > 0 {
      SurvivingRowsSpec(rows[1..]);
      SurvivingRowsAppend(if MatchesNeqIdZero(rows[0]) then [] else [rows[0]], SurvivingRows(rows[1..]));
      assert rows == [rows[0]] + rows[1..];
      if !MatchesNeqIdZero(rows[0]) {
        assert SurvivingRows([rows[0]]) == [rows[0]] by {
          assert [rows[0]][1..] == [];
        }
      }
    }
  }

  lemma {:induction false} SurvivingRowsAppend(a: seq<Record>, b: seq<Record>)
    ensures SurvivingRows(a + b) == SurvivingRows(a) + SurvivingRows(b)
    decreases |a|
  {
    if |a| == 0 {
      assert a + b == b;
    } else {
      assert (a + b)[0] == a[0] && (a + b)[1..] == a[1..] + b;
      SurvivingRowsAppend(a[1..], b);
    }
  }

  /** The delete removes every row exactly when no row has an id of 0 or null. */
  lemma {:induction false} SurvivingRowsEmpty(rows: seq<Record>)
    ensures SurvivingRows(rows) == [] <==> forall i | 0 <= i < |rows| :: MatchesNeqIdZero(rows[i])
    decreases |rows|
  {
    if |rows| > 0 {
      SurvivingRowsEmpty(rows[1..]);
      if forall i | 0 <= i < |rows[1..]| :: MatchesNeqIdZero(rows[1..][i]) {
        if MatchesNeqIdZero(rows[0]) {
          forall i | 0 <= i < |rows|
            ensures MatchesNeqIdZero(rows[i])
          {
            if i > 0 {
              assert rows[i] == rows[1..][i - 1];
            }
          }
        }
      } else {
        var i :| 0 <= i < |rows[1..]| && !MatchesNeqIdZero(rows[1..][i]);
        assert !MatchesNeqIdZero(rows[i + 1]);
      }
    }
  }
}
