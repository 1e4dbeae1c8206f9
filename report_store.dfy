/** The Report table and its repository: the score formula, the append of
    one exchange, the deletion of a dynamic's reports, and the three
    listings with their NOT_FOUND rules. */
module ReportStore {
  import opened Common
  import opened Enums
  import opened Queries
  import opened DynamicStore
  import opened Formaters

  // ----- the score ------------------------------------------------------------

  /** Python `int(x)` on a float: truncation toward zero. */
  function Truncate(x: real): (i: int)
    ensures 0.0 <= x ==> 0 <= i && i as real <= x < i as real + 1.0
    ensures x < 0.0 ==> i <= 0 && i as real - 1.0 < x <= i as real
  {
    if x >= 0.0 then x.Floor else -((-x).Floor)
  }

  /** `int((similarity * weight) / 100)`, and no score without a similarity. */
  function Score(similarity: Option<real>, weight: int): (score: Option<int>)
    ensures score.None? <==> similarity.None?
  {
    match similarity
    case None => None
    case Some(s) => Some(Truncate((s * weight as real) / 100.0))
  }

  /** For a similarity in [0, 100] and a positive weight the score lies in
      [0, weight], and a perfect match scores the whole weight. */
  lemma ScoreBounds(similarity: real, weight: int)
    requires 0.0 <= similarity <= 100.0 && weight >= 1
    ensures 0 <= Score(Some(similarity), weight).value <= weight
    ensures similarity == 100.0 ==> Score(Some(similarity), weight).value == weight
    ensures similarity == 0.0 ==> Score(Some(similarity), weight).value == 0
  {
    var x := (similarity * weight as real) / 100.0;
    assert x <= weight as real by {
      assert similarity * weight as real <= 100.0 * weight as real;
    }
    assert 0.0 <= x;
  }

  /** A higher similarity never scores lower under the same weight. */
  lemma ScoreMonotone(a: real, b: real, weight: int)
    requires 0.0 <= a <= b && weight >= 0
    ensures Score(Some(a), weight).value <= Score(Some(b), weight).value
  {
    var x := (a * weight as real) / 100.0;
    var y := (b * weight as real) / 100.0;
    assert a * weight as real <= b * weight as real;
    assert x <= y;
    assert x.Floor as real <= x;
  }

  // ----- the table ------------------------------------------------------------

  /** The ids of `rows` increase strictly and stay below `next`. */
  predicate IdsBelow(rows: seq<Report>, next: nat)
  {
    && (forall i :: 0 <= i < |rows| ==> rows[i].id < next)
    && (forall i, j :: 0 <= i < j < |rows| ==> rows[i].id < rows[j].id)
  }

  /** Stored exchanges are retrieves or uploads; "all" only labels output. */
  predicate NoAggregateLabel(rows: seq<Report>)
  {
    forall i :: 0 <= i < |rows| ==> rows[i].operation != All
  }

  /** The Report table: its rows in insertion order and the next
      AUTOINCREMENT id, which deletions never give back. */
  class ReportTable {
    var rows: seq<Report>
    var nextId: nat

    ghost predicate Valid()
      reads this
    {
      IdsBelow(rows, nextId)
    }

    constructor ()
      ensures Valid() && rows == [] && nextId == 1
    {
      rows := [];
      nextId := 1;
    }

    /** `add_report`: the dynamic's weight is read first (NOT_FOUND stops
        the request); then one row is appended with the score derived from
        the similarity and `now` as its timestamp. */
    method AddReport(dynamics: DynamicTable, dynamic: string, code: string, operation: Operation,
                     fileType: FileType, now: real, similarity: Option<real>)
      returns (r: Result<()>)
      requires Valid()
      modifies this
      ensures Valid()
      ensures r.Ok? <==> WeightOf(dynamics.rows, dynamic).Ok?
      ensures r.Err? ==> r.error == NotFound && rows == old(rows) && nextId == old(nextId)
      ensures r.Ok? ==>
        rows == old(rows) + [Report(old(nextId), dynamic, code, operation, fileType, now,
                                    similarity, Score(similarity, WeightOf(dynamics.rows, dynamic).value))]
        && nextId == old(nextId) + 1
    {
      var weight := dynamics.GetWeight(dynamic);
      if weight.Err? {
        return Err(weight.error);
      }
      var score := Score(similarity, weight.value);
      rows := rows + [Report(nextId, dynamic, code, operation, fileType, now, similarity, score)];
      nextId := nextId + 1;
      r := Ok(());
    }

    /** `clean_reports`: DELETE_REPORTS for one dynamic. */
    method CleanReports(dynamic: string)
      requires Valid()
      modifies this
      ensures Valid()
      ensures rows == DeleteReports(old(rows), dynamic) && nextId == old(nextId)
    {
      KeptIdsBelow(rows, nextId, dynamic);
      rows := DeleteReports(rows, dynamic);
    }
  }

  /** Deleting rows keeps the ids increasing and below the next id. */
  lemma {:induction false} KeptIdsBelow(rows: seq<Report>, next: nat, dynamic: string)
    requires IdsBelow(rows, next)
    ensures IdsBelow(DeleteReports(rows, dynamic), next)
  {
    if |rows| > 0 {
      var tail := rows[1..];
      assert IdsBelow(tail, next) by {
        assert forall i :: 0 <= i < |tail| ==> tail[i] == rows[i + 1];
      }
      KeptIdsBelow(tail, next, dynamic);
      if rows[0].dynamic != dynamic {
        var rest := DeleteReports(tail, dynamic);
        forall x | x in rest
          ensures rows[0].id < x.id
        {
          var k :| 0 <= k < |tail| && tail[k] == x;
          assert rows[k + 1] == x;
        }
        IdsBelowCons(rows[0], rest, next);
      }
    }
  }

  /** A row whose id is below the next id and below every later id can
      head a table whose ids are in order. */
  lemma IdsBelowCons(head: Report, rest: seq<Report>, next: nat)
    requires head.id < next && IdsBelow(rest, next)
    requires forall x :: x in rest ==> head.id < x.id
    ensures IdsBelow([head] + rest, next)
  {
    var all := [head] + rest;
    forall i, j | 0 <= i < j < |all|
      ensures all[i].id < all[j].id
    {
      assert all[j] == rest[j - 1];
      if i > 0 { assert all[i] == rest[i - 1]; }
      else { assert rest[j - 1] in rest; }
    }
  }

  // ----- the listings -----------------------------------------------------------

  /** One entry of `get_dynamic_reports` (`format_dynamic_report`): the
      row without its dynamic.  The timestamp stays a number here. */
  datatype DynamicEntry = DynamicEntry(
    id: nat, code: string, operation: Operation, fileType: FileType,
    timestamp: real, similarity: Option<real>, score: Option<int>)

  function EntryOf(x: Report): DynamicEntry
  {
    DynamicEntry(x.id, x.code, x.operation, x.fileType, x.timestamp, x.similarity, x.score)
  }

  /** An entry keeps every column of its row but the dynamic: two rows give
      the same entry exactly when they differ at most in their dynamic. */
  lemma EntryOfForgetsDynamic(x: Report, y: Report)
    ensures EntryOf(x) == EntryOf(y) <==> x.(dynamic := y.dynamic) == y
  {
  }

  /** The body of a listing: how many entries, and the entries. */
  datatype Listing<T> = Listing(count: nat, entries: seq<T>)

  /** `get_dynamic_reports`: NOT_FOUND when the dynamic has no row,
      otherwise one entry per row in timestamp order and their count. */
  function GetDynamicReports(rows: seq<Report>, dynamic: string): (r: Result<Listing<DynamicEntry>>)
    ensures r.Err? <==> forall x :: x in rows ==> x.dynamic != dynamic
    ensures r.Err? ==> r.error == NotFound
    ensures r.Ok? ==>
      var sel := SelectDynamicReport(rows, dynamic);
      && r.value.count == |r.value.entries| == |RowsOf(rows, dynamic)|
      && (forall i :: 0 <= i < |sel| ==> r.value.entries[i] == EntryOf(sel[i]))
      && (forall i, j :: 0 <= i < j < |sel| ==>
            r.value.entries[i].timestamp <= r.value.entries[j].timestamp)
  {
    var sel := SelectDynamicReport(rows, dynamic);
    if |sel| == 0 then
      Err(NotFound)
    else
      assert sel[0] in sel;
      assert |multiset(sel)| == |multiset(RowsOf(rows, dynamic))|;
      var entries := seq(|sel|, i requires 0 <= i < |sel| => EntryOf(sel[i]));
      Ok(Listing(|entries|, entries))
  }

  /** `get_file_report`: NOT_FOUND unless the file was exchanged, and also
      when its latest timestamp is 0.0, which the truth test rejects. */
  function GetFileReport(rows: seq<Report>, dynamic: string, code: string, fileType: FileType)
    : (r: Result<real>)
    ensures r.Err? <==> (forall x :: x in rows ==> !IsFileRow(x, dynamic, code, fileType))
                        || SelectFileReport(rows, dynamic, code, fileType) == Some(0.0)
    ensures r.Err? ==> r.error == NotFound
    ensures r.Ok? ==>
      (exists x :: x in rows && IsFileRow(x, dynamic, code, fileType) && x.timestamp == r.value)
      && forall x :: x in rows && IsFileRow(x, dynamic, code, fileType) ==> x.timestamp <= r.value
  {
    match SelectFileReport(rows, dynamic, code, fileType)
    case None => Err(NotFound)
    case Some(last) => if last == 0.0 then Err(NotFound) else Ok(last)
  }

  /** The aggregate rows `get_operation_reports` reads: every operation
      relabelled "all" for ALL, one operation's groups otherwise. */
  function OperationGroups(rows: seq<Report>, dynamic: string, operation: Operation)
    : (groups: seq<GroupRow>)
    ensures forall i :: 0 <= i < |groups| ==> groups[i].operation == operation
    ensures forall i :: 0 <= i < |groups| ==> groups[i].firstTimestamp <= groups[i].lastTimestamp
    ensures operation == All ==> |groups| == |Codes(RowsOf(rows, dynamic))|
    ensures operation == All ==>
      var all := SelectOperationsReport(rows, dynamic);
      |groups| == |all| && forall i :: 0 <= i < |groups| ==> groups[i] == SetOperationToAll(all[i])
    ensures operation != All ==> groups == SelectOperationReport(rows, dynamic, operation)
  {
    if operation == All then
      var g := SelectOperationsReport(rows, dynamic);
      seq(|g|, i requires 0 <= i < |g| => SetOperationToAll(g[i]))
    else
      SelectOperationReport(rows, dynamic, operation)
  }

  /** The rows a listing of `operation` reads: the dynamic's rows, and for
      a single operation only the rows of that operation. */
  predicate Selected(x: Report, dynamic: string, operation: Operation)
  {
    x.dynamic == dynamic && (operation == All || x.operation == operation)
  }

  /** A selected row of one code: a member of that code's group. */
  predicate InGroup(x: Report, dynamic: string, operation: Operation, code: string)
  {
    Selected(x, dynamic, operation) && x.code == code
  }

  function Selection(rows: seq<Report>, dynamic: string, operation: Operation): (sel: seq<Report>)
    ensures forall x :: x in sel <==> x in rows && Selected(x, dynamic, operation)
  {
    if operation == All then RowsOf(rows, dynamic) else RowsOfOperation(rows, dynamic, operation)
  }

  /** Each listed group stands for one code among the selected rows and
      reports their count, their earliest and latest timestamps, and their
      largest similarity and score, NULLs ignored. */
  lemma OperationGroupMeaning(rows: seq<Report>, dynamic: string, operation: Operation, i: int)
    requires 0 <= i < |OperationGroups(rows, dynamic, operation)|
    ensures var g := OperationGroups(rows, dynamic, operation)[i];
      var sel := Selection(rows, dynamic, operation);
      && g.operation == operation
      && g.code in Codes(sel)
      && g.totalExchanges == |RowsOfCode(sel, g.code)|
      && (exists x :: x in rows && InGroup(x, dynamic, operation, g.code) && x.timestamp == g.firstTimestamp)
      && (exists x :: x in rows && InGroup(x, dynamic, operation, g.code) && x.timestamp == g.lastTimestamp)
      && (forall x :: x in rows && InGroup(x, dynamic, operation, g.code) ==>
            g.firstTimestamp <= x.timestamp <= g.lastTimestamp)
      && (g.maxSimilarity.None? <==>
            forall x :: x in rows && InGroup(x, dynamic, operation, g.code) ==> x.similarity.None?)
      && (forall x :: x in rows && InGroup(x, dynamic, operation, g.code) && x.similarity.Some? ==>
            x.similarity.value <= g.maxSimilarity.value)
      && (g.maxScore.None? <==>
            forall x :: x in rows && InGroup(x, dynamic, operation, g.code) ==> x.score.None?)
      && (forall x :: x in rows && InGroup(x, dynamic, operation, g.code) && x.score.Some? ==>
            x.score.value <= g.maxScore.value)
  {
    var sel := Selection(rows, dynamic, operation);
    var code := Codes(sel)[i];
    var h := Group(sel, code);
    assert OperationGroups(rows, dynamic, operation)[i] == h.(operation := operation);
    GroupMeaning(sel, code);
  }

  /** `get_operation_reports`: NOT_FOUND when there is no group, otherwise
      one formatted entry per group and their count. */
  function GetOperationReports(rows: seq<Report>, dynamic: string, operation: Operation)
    : (r: Result<Listing<OperationEntry>>)
    ensures r.Err? <==> |OperationGroups(rows, dynamic, operation)| == 0
    ensures r.Err? ==> r.error == NotFound
    ensures r.Ok? ==>
      var groups := OperationGroups(rows, dynamic, operation);
      && r.value.count == |r.value.entries| == |groups|
      && forall i :: 0 <= i < |groups| ==>
           r.value.entries[i] == FormatOperationReport(groups[i])
           && r.value.entries[i].operation == operation
  {
    var groups := OperationGroups(rows, dynamic, operation);
    if |groups| == 0 then Err(NotFound)
    else
      var entries := seq(|groups|, i requires 0 <= i < |groups| => FormatOperationReport(groups[i]));
      Ok(Listing(|entries|, entries))
  }

  /** The aggregate listing is empty exactly when the dynamic (and, for a
      single operation, that operation) has no row. */
  lemma OperationReportsNotFound(rows: seq<Report>, dynamic: string, operation: Operation)
    ensures GetOperationReports(rows, dynamic, operation).Err? <==>
      if operation == All then forall x :: x in rows ==> x.dynamic != dynamic
      else forall x :: x in rows ==> !(x.dynamic == dynamic && x.operation == operation)
  {
    var sel := if operation == All then RowsOf(rows, dynamic) else RowsOfOperation(rows, dynamic, operation);
    CodesEmpty(sel);
  }

  /** A selection has no code exactly when it has no row. */
  lemma CodesEmpty(rows: seq<Report>)
    ensures |Codes(rows)| == 0 <==> |rows| == 0
  {
    if |rows| > 0 {
      assert rows[0].code in Codes(rows);
    }
  }

  /** Deleting one dynamic's reports empties its listing and leaves every
      other dynamic's listing as it was. */
  lemma CleanReportsEffect(rows: seq<Report>, dynamic: string, other: string)
    requires other != dynamic
    ensures GetDynamicReports(DeleteReports(rows, dynamic), dynamic) == Err(NotFound)
    ensures GetDynamicReports(DeleteReports(rows, dynamic), other) == GetDynamicReports(rows, other)
  {
    DeleteReportsKeepsOthers(rows, dynamic, other);
    var kept := DeleteReports(rows, dynamic);
    assert SelectDynamicReport(kept, other) == SelectDynamicReport(rows, other);
  }
}
