/** The meaning of the statements on the Report table: rows, the rows of
    one dynamic, the deletion by dynamic, the ordered listing, the latest
    exchange of one file, and the per-code aggregates (COUNT, MIN, MAX with
    NULLs ignored).  The table itself is `ReportStore.ReportTable`. */
module Queries {
  import opened Common
  import opened Enums

  /** One row of the Report table.  `id` is the AUTOINCREMENT key;
      `similarity` and `score` are the nullable columns. */
  datatype Report = Report(
    id: nat,
    dynamic: string,
    code: string,
    operation: Operation,
    fileType: FileType,
    timestamp: real,
    similarity: Option<real>,
    score: Option<int>)

  /** One row of the GROUP BY code statements. */
  datatype GroupRow = GroupRow(
    code: string,
    operation: Operation,
    totalExchanges: nat,
    firstTimestamp: real,
    lastTimestamp: real,
    maxSimilarity: Option<real>,
    maxScore: Option<int>)

  // ----- WHERE filters ------------------------------------------------------

  /** `WHERE dynamic=?`, keeping the table's order. */
  function RowsOf(rows: seq<Report>, dynamic: string): (sel: seq<Report>)
    ensures forall x :: x in sel <==> x in rows && x.dynamic == dynamic
    ensures |sel| <= |rows|
    ensures |sel| == 0 <==> forall x :: x in rows ==> x.dynamic != dynamic
  {
    if |rows| == 0 then []
    else if rows[0].dynamic == dynamic then [rows[0]] + RowsOf(rows[1..], dynamic)
    else RowsOf(rows[1..], dynamic)
  }

  /** DELETE_REPORTS: what is left of the table once the rows of `dynamic`
      are deleted. */
  function DeleteReports(rows: seq<Report>, dynamic: string): (kept: seq<Report>)
    ensures forall x :: x in kept <==> x in rows && x.dynamic != dynamic
    ensures |kept| <= |rows|
  {
    if |rows| == 0 then []
    else if rows[0].dynamic == dynamic then DeleteReports(rows[1..], dynamic)
    else [rows[0]] + DeleteReports(rows[1..], dynamic)
  }

  /** `WHERE dynamic=? AND operation=?`. */
  function RowsOfOperation(rows: seq<Report>, dynamic: string, op: Operation): (sel: seq<Report>)
    ensures forall x :: x in sel <==> x in rows && x.dynamic == dynamic && x.operation == op
  {
    if |rows| == 0 then []
    else if rows[0].dynamic == dynamic && rows[0].operation == op then
      [rows[0]] + RowsOfOperation(rows[1..], dynamic, op)
    else RowsOfOperation(rows[1..], dynamic, op)
  }

  /** The rows of one group of `GROUP BY code`. */
  function RowsOfCode(rows: seq<Report>, code: string): (sel: seq<Report>)
    ensures forall x :: x in sel <==> x in rows && x.code == code
    ensures |sel| <= |rows|
  {
    if |rows| == 0 then []
    else if rows[0].code == code then [rows[0]] + RowsOfCode(rows[1..], code)
    else RowsOfCode(rows[1..], code)
  }

  /** Deleting a dynamic's reports splits the table in two: the rows that
      go are exactly the rows of that dynamic, every other row stays. */
  lemma {:induction false} DeleteReportsPartition(rows: seq<Report>, dynamic: string)
    ensures multiset(rows) == multiset(RowsOf(rows, dynamic)) + multiset(DeleteReports(rows, dynamic))
  {
    if |rows| > 0 {
      DeleteReportsPartition(rows[1..], dynamic);
      assert rows == [rows[0]] + rows[1..];
    }
  }

  /** Rows of other dynamics keep their order when a dynamic is deleted. */
  lemma {:induction false} DeleteReportsKeepsOthers(rows: seq<Report>, dynamic: string, other: string)
    requires other != dynamic
    ensures RowsOf(DeleteReports(rows, dynamic), other) == RowsOf(rows, other)
  {
    if |rows| > 0 {
      DeleteReportsKeepsOthers(rows[1..], dynamic, other);
      if rows[0].dynamic != dynamic {
        assert ([rows[0]] + DeleteReports(rows[1..], dynamic))[1..] == DeleteReports(rows[1..], dynamic);
      }
    }
  }

  // ----- SELECT_DYNAMIC_REPORT: ORDER BY timestamp ASC -----------------------

  predicate SortedByTime(rows: seq<Report>)
  {
    forall i, j :: 0 <= i < j < |rows| ==> rows[i].timestamp <= rows[j].timestamp
  }

  function InsertByTime(x: Report, rows: seq<Report>): (r: seq<Report>)
    requires SortedByTime(rows)
    ensures SortedByTime(r)
    ensures multiset(r) == multiset(rows) + multiset{x}
  {
    if |rows| == 0 then [x]
    else if x.timestamp <= rows[0].timestamp then [x] + rows
    else
      var tail := InsertByTime(x, rows[1..]);
      assert rows == [rows[0]] + rows[1..];
      InsertedStaysAbove(rows[0], x, rows[1..], tail);
      [rows[0]] + tail
  }

  /** Every row of an insertion into the rows after `head` is no earlier
      than `head`, so `head` may lead the result. */
  lemma InsertedStaysAbove(head: Report, x: Report, rest: seq<Report>, tail: seq<Report>)
    requires head.timestamp < x.timestamp
    requires forall y :: y in rest ==> head.timestamp <= y.timestamp
    requires SortedByTime(tail)
    requires multiset(tail) == multiset(rest) + multiset{x}
    ensures SortedByTime([head] + tail)
  {
    forall y | y in tail
      ensures head.timestamp <= y.timestamp
    {
      assert y in multiset(tail);
      if y != x {
        assert y in multiset(rest);
      }
    }
    var r := [head] + tail;
    forall i, j | 0 <= i < j < |r|
      ensures r[i].timestamp <= r[j].timestamp
    {
      assert r[j] == tail[j - 1];
      if i > 0 {
        assert r[i] == tail[i - 1];
      }
    }
  }

  /** Ascending timestamps; among equal timestamps the table order is kept
      (SQL leaves that order open). */
  function SortByTime(rows: seq<Report>): (r: seq<Report>)
    ensures SortedByTime(r)
    ensures multiset(r) == multiset(rows)
  {
    if |rows| == 0 then []
    else
      assert rows == [rows[0]] + rows[1..];
      InsertByTime(rows[0], SortByTime(rows[1..]))
  }

  /** SELECT_DYNAMIC_REPORT: the rows of one dynamic, oldest first. */
  function SelectDynamicReport(rows: seq<Report>, dynamic: string): (r: seq<Report>)
    ensures SortedByTime(r)
    ensures multiset(r) == multiset(RowsOf(rows, dynamic))
    ensures forall x :: x in r <==> x in rows && x.dynamic == dynamic
  {
    var sel := RowsOf(rows, dynamic);
    var r := SortByTime(sel);
    assert forall x :: x in r <==> x in multiset(sel);
    r
  }

  // ----- SELECT_FILE_REPORT: MAX(timestamp) ----------------------------------

  predicate IsFileRow(x: Report, dynamic: string, code: string, fileType: FileType)
  {
    x.dynamic == dynamic && x.code == code && x.fileType == fileType
  }

  /** SELECT_FILE_REPORT: the latest timestamp of one file, NULL when the
      file was never exchanged. */
  function SelectFileReport(rows: seq<Report>, dynamic: string, code: string, fileType: FileType)
    : (last: Option<real>)
    ensures last.None? <==> forall x :: x in rows ==> !IsFileRow(x, dynamic, code, fileType)
    ensures last.Some? ==>
      (exists x :: x in rows && IsFileRow(x, dynamic, code, fileType) && x.timestamp == last.value)
    ensures last.Some? ==>
      forall x :: x in rows && IsFileRow(x, dynamic, code, fileType) ==> x.timestamp <= last.value
  {
    if |rows| == 0 then None
    else
      var rest := SelectFileReport(rows[1..], dynamic, code, fileType);
      assert forall x :: x in rows <==> x == rows[0] || x in rows[1..];
      if !IsFileRow(rows[0], dynamic, code, fileType) then rest
      else if rest.None? || rest.value < rows[0].timestamp then Some(rows[0].timestamp)
      else rest
  }

  // ----- GROUP BY code with COUNT, MIN, MAX ----------------------------------

  /** The distinct codes of `rows`, in order of first appearance. */
  function Codes(rows: seq<Report>): (codes: seq<string>)
    ensures forall c :: c in codes <==> exists x :: x in rows && x.code == c
    ensures forall i, j :: 0 <= i < j < |codes| ==> codes[i] != codes[j]
  {
    if |rows| == 0 then []
    else
      var init := rows[..|rows| - 1];
      var last := rows[|rows| - 1];
      var codes := Codes(init);
      assert forall x :: x in rows <==> x in init || x == last by {
        assert rows == init + [last];
      }
      if last.code in codes then codes else codes + [last.code]
  }

  function MinTime(rows: seq<Report>): (t: real)
    requires |rows| > 0
    ensures exists x :: x in rows && x.timestamp == t
    ensures forall x :: x in rows ==> t <= x.timestamp
  {
    if |rows| == 1 then rows[0].timestamp
    else
      var rest := MinTime(rows[1..]);
      assert forall x :: x in rows <==> x == rows[0] || x in rows[1..];
      if rows[0].timestamp <= rest then rows[0].timestamp else rest
  }

  function MaxTime(rows: seq<Report>): (t: real)
    requires |rows| > 0
    ensures exists x :: x in rows && x.timestamp == t
    ensures forall x :: x in rows ==> x.timestamp <= t
  {
    if |rows| == 1 then rows[0].timestamp
    else
      var rest := MaxTime(rows[1..]);
      assert forall x :: x in rows <==> x == rows[0] || x in rows[1..];
      if rest <= rows[0].timestamp then rows[0].timestamp else rest
  }

  /** `MAX(similarity)`: NULLs are ignored; NULL when every value is NULL. */
  function MaxSimilarity(rows: seq<Report>): (m: Option<real>)
    ensures m.None? <==> forall x :: x in rows ==> x.similarity.None?
    ensures m.Some? ==> exists x :: x in rows && x.similarity == m
    ensures m.Some? ==> forall x :: x in rows && x.similarity.Some? ==> x.similarity.value <= m.value
  {
    if |rows| == 0 then None
    else
      var rest := MaxSimilarity(rows[1..]);
      assert forall x :: x in rows <==> x == rows[0] || x in rows[1..];
      match rows[0].similarity
      case None => rest
      case Some(s) => if rest.Some? && s <= rest.value then rest else Some(s)
  }

  /** `MAX(score)`: NULLs are ignored; NULL when every value is NULL. */
  function MaxScore(rows: seq<Report>): (m: Option<int>)
    ensures m.None? <==> forall x :: x in rows ==> x.score.None?
    ensures m.Some? ==> exists x :: x in rows && x.score == m
    ensures m.Some? ==> forall x :: x in rows && x.score.Some? ==> x.score.value <= m.value
  {
    if |rows| == 0 then None
    else
      var rest := MaxScore(rows[1..]);
      assert forall x :: x in rows <==> x == rows[0] || x in rows[1..];
      match rows[0].score
      case None => rest
      case Some(s) => if rest.Some? && s <= rest.value then rest else Some(s)
  }

  /** The aggregate row of one code.  The bare `operation` column takes the
      value of the group's first row. */
  function Group(rows: seq<Report>, code: string): (g: GroupRow)
    requires code in Codes(rows)
    ensures g.code == code
    ensures g.totalExchanges == |RowsOfCode(rows, code)| >= 1
    ensures g.firstTimestamp <= g.lastTimestamp
    ensures var members := RowsOfCode(rows, code);
      && g.firstTimestamp == MinTime(members) && g.lastTimestamp == MaxTime(members)
      && g.maxSimilarity == MaxSimilarity(members) && g.maxScore == MaxScore(members)
  {
    var members := RowsOfCode(rows, code);
    var x :| x in rows && x.code == code;
    assert x in members;
    GroupRow(code, members[0].operation, |members|,
             MinTime(members), MaxTime(members),
             MaxSimilarity(members), MaxScore(members))
  }

  /** What one group reports, read off the rows with its code: how many
      there are, the earliest and the latest timestamp among them, and the
      largest similarity and score among those that are not NULL. */
  lemma GroupMeaning(rows: seq<Report>, code: string)
    requires code in Codes(rows)
    ensures var g := Group(rows, code);
      && g.totalExchanges == |RowsOfCode(rows, code)|
      && (exists x :: x in rows && x.code == code && x.timestamp == g.firstTimestamp)
      && (exists x :: x in rows && x.code == code && x.timestamp == g.lastTimestamp)
      && (forall x :: x in rows && x.code == code ==>
            g.firstTimestamp <= x.timestamp <= g.lastTimestamp)
      && (g.maxSimilarity.None? <==>
            forall x :: x in rows && x.code == code ==> x.similarity.None?)
      && (forall x :: x in rows && x.code == code && x.similarity.Some? ==>
            x.similarity.value <= g.maxSimilarity.value)
      && (g.maxScore.None? <==> forall x :: x in rows && x.code == code ==> x.score.None?)
      && (forall x :: x in rows && x.code == code && x.score.Some? ==>
            x.score.value <= g.maxScore.value)
  {
    var members := RowsOfCode(rows, code);
    assert forall x :: x in members <==> x in rows && x.code == code;
  }

  /** `GROUP BY code`: one aggregate row per distinct code. */
  function Aggregate(rows: seq<Report>): (groups: seq<GroupRow>)
    ensures |groups| == |Codes(rows)|
    ensures forall i :: 0 <= i < |groups| ==>
      groups[i] == Group(rows, Codes(rows)[i])
  {
    var codes := Codes(rows);
    seq(|codes|, i requires 0 <= i < |codes| => Group(rows, codes[i]))
  }

  /** SELECT_OPERATIONS_REPORT: the aggregates of one dynamic over every
      operation. */
  function SelectOperationsReport(rows: seq<Report>, dynamic: string): (groups: seq<GroupRow>)
    ensures |groups| == |Codes(RowsOf(rows, dynamic))|
    ensures groups == Aggregate(RowsOf(rows, dynamic))
  {
    Aggregate(RowsOf(rows, dynamic))
  }

  /** SELECT_OPERATION_REPORT: the aggregates of one dynamic and one
      operation; every group carries that operation. */
  function SelectOperationReport(rows: seq<Report>, dynamic: string, op: Operation)
    : (groups: seq<GroupRow>)
    ensures |groups| == |Codes(RowsOfOperation(rows, dynamic, op))|
    ensures forall i :: 0 <= i < |groups| ==> groups[i].operation == op
    ensures groups == Aggregate(RowsOfOperation(rows, dynamic, op))
  {
    var sel := RowsOfOperation(rows, dynamic, op);
    var groups := Aggregate(sel);
    assert forall i :: 0 <= i < |groups| ==> groups[i].operation == op by {
      forall i | 0 <= i < |groups|
        ensures groups[i].operation == op
      {
        var members := RowsOfCode(sel, Codes(sel)[i]);
        assert members[0] in members;
      }
    }
    groups
  }

  /** Each group of a dynamic counts its retrieves plus its uploads: the
      count over every operation is the sum of the per-operation counts. */
  lemma {:induction false} CountsAddUp(rows: seq<Report>, dynamic: string, code: string)
    requires forall x :: x in rows ==> x.operation != All
    ensures |RowsOfCode(RowsOf(rows, dynamic), code)|
         == |RowsOfCode(RowsOfOperation(rows, dynamic, Retrieve), code)|
          + |RowsOfCode(RowsOfOperation(rows, dynamic, Upload), code)|
  {
    if |rows| > 0 {
      var x := rows[0];
      var tail := rows[1..];
      CountsAddUp(tail, dynamic, code);
      if x.dynamic == dynamic {
        assert ([x] + RowsOf(tail, dynamic))[1..] == RowsOf(tail, dynamic);
        if x.operation == Retrieve {
          assert ([x] + RowsOfOperation(tail, dynamic, Retrieve))[1..] == RowsOfOperation(tail, dynamic, Retrieve);
        } else {
          assert ([x] + RowsOfOperation(tail, dynamic, Upload))[1..] == RowsOfOperation(tail, dynamic, Upload);
        }
      }
    }
  }

  /** The ALL aggregate of a code counts at least as many exchanges as the
      aggregate of any single operation. */
  lemma OperationsCountDominates(rows: seq<Report>, dynamic: string, op: Operation, code: string)
    requires forall x :: x in rows ==> x.operation != All
    requires op != All
    ensures |RowsOfCode(RowsOfOperation(rows, dynamic, op), code)|
         <= |RowsOfCode(RowsOf(rows, dynamic), code)|
  {
    CountsAddUp(rows, dynamic, code);
  }
}
