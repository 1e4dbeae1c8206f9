/** The Dynamic table (one row per contest round: lock flag, score weight,
    answer-key size) and the repository that reads and updates one row at a
    time.  The statements are pure functions over the table, a map keyed by
    the UNIQUE dynamic name; the repository is a class holding that map. */
module DynamicStore {
  import opened Common
  import opened Text

  /** The weight a new dynamic starts with. */
  const DefaultWeight: int := 5000

  /** One row: `lock_requests` and `weight` are integer columns, `size`
      is the nullable text column holding "WxH". */
  datatype DynamicRow = DynamicRow(lock: int, weight: int, size: Option<string>)

  type Table = map<string, DynamicRow>

  // ----- the size column ----------------------------------------------------

  /** `f"{w}x{h}"`, the text `set_size` stores. */
  function FormatSize(width: int, height: int): (text: string)
    ensures |text| >= 3
  {
    IntToString(width) + "x" + IntToString(height)
  }

  /** `str(size).split("x")` followed by `int(...)` of the first two
      pieces: `Uncaught` where `int` raises `ValueError` or the split has
      fewer than two pieces (an `IndexError`). */
  function ParseSize(text: string): (r: Result<(int, int)>)
    ensures r.Err? ==> r.error == Uncaught
  {
    var parts := Split(text, 'x');
    if |parts| < 2 then Err(Uncaught)
    else match (ParseInt(parts[0]), ParseInt(parts[1]))
      case (Some(w), Some(h)) => Ok((w, h))
      case _ => Err(Uncaught)
  }

  /** Reading back a stored size gives the pair that was stored. */
  lemma SizeRoundTrip(width: int, height: int)
    ensures ParseSize(FormatSize(width, height)) == Ok((width, height))
  {
    var w, h := IntToString(width), IntToString(height);
    assert FormatSize(width, height) == w + ['x'] + h;
    SplitJoined(w, h, 'x');
    IntToStringRoundTrip(width);
    IntToStringRoundTrip(height);
  }

  // ----- the statements on the Dynamic table --------------------------------

  /** INSERT_DYNAMIC with (dynamic, True, DEFAULT_WEIGHT): size stays NULL;
      a second row with the same name violates UNIQUE. */
  function InsertDynamic(t: Table, dynamic: string): (r: Result<Table>)
    ensures r.Ok? <==> dynamic !in t
    ensures r.Ok? ==> r.value.Keys == t.Keys + {dynamic}
    ensures r.Ok? ==> r.value[dynamic] == DynamicRow(1, DefaultWeight, None)
    ensures r.Ok? ==> forall d :: d in t ==> r.value[d] == t[d]
    ensures r.Err? ==> r.error == Internal
  {
    if dynamic in t then Err(Internal)
    else Ok(t[dynamic := DynamicRow(1, DefaultWeight, None)])
  }

  /** DELETE_DYNAMIC. */
  function DeleteDynamic(t: Table, dynamic: string): (r: Table)
    ensures dynamic !in r
    ensures forall d :: d != dynamic ==> (d in r <==> d in t)
    ensures forall d :: d in r ==> r[d] == t[d]
  {
    t - {dynamic}
  }

  /** UPDATE ... WHERE dynamic=? touches that row only, and no row when the
      name is absent. */
  function UpdateLock(t: Table, dynamic: string, lock: int): (r: Table)
    ensures r.Keys == t.Keys
    ensures forall d :: d in t && d != dynamic ==> r[d] == t[d]
    ensures dynamic in t ==> r[dynamic] == t[dynamic].(lock := lock)
    ensures dynamic in t ==> LockStatusOf(r, dynamic) == Ok(lock != 0)
  {
    if dynamic in t then t[dynamic := t[dynamic].(lock := lock)] else t
  }

  function UpdateWeight(t: Table, dynamic: string, weight: int): (r: Table)
    ensures r.Keys == t.Keys
    ensures forall d :: d in t && d != dynamic ==> r[d] == t[d]
    ensures dynamic in t ==> r[dynamic] == t[dynamic].(weight := weight)
    ensures dynamic in t ==> (WeightOf(r, dynamic).Ok? <==> weight != 0)
  {
    if dynamic in t then t[dynamic := t[dynamic].(weight := weight)] else t
  }

  function UpdateSize(t: Table, dynamic: string, size: string): (r: Table)
    ensures r.Keys == t.Keys
    ensures forall d :: d in t && d != dynamic ==> r[d] == t[d]
    ensures dynamic in t ==> r[dynamic] == t[dynamic].(size := Some(size))
  {
    if dynamic in t then t[dynamic := t[dynamic].(size := Some(size))] else t
  }

  /** SELECT_LOCK_STATUS as `get_lock_status` reads it: NOT_FOUND without a
      row, otherwise the column's truth value. */
  function LockStatusOf(t: Table, dynamic: string): (r: Result<bool>)
    ensures r.Err? <==> dynamic !in t
    ensures r.Err? ==> r.error == NotFound
    ensures r.Ok? ==> (r.value <==> t[dynamic].lock != 0)
  {
    if dynamic in t then Ok(t[dynamic].lock != 0) else Err(NotFound)
  }

  /** SELECT_WEIGHT as `get_weight` reads it: a missing row and a zero
      weight (falsy) are both NOT_FOUND. */
  function WeightOf(t: Table, dynamic: string): (r: Result<int>)
    ensures r.Err? <==> dynamic !in t || t[dynamic].weight == 0
    ensures r.Err? ==> r.error == NotFound
    ensures r.Ok? ==> r.value == t[dynamic].weight && r.value != 0
  {
    if dynamic !in t || t[dynamic].weight == 0 then Err(NotFound)
    else Ok(t[dynamic].weight)
  }

  /** SELECT_SIZE as `get_size` reads it: a missing row, a NULL and an empty
      text (falsy) are NOT_FOUND; otherwise the text is parsed. */
  function SizeOf(t: Table, dynamic: string): (r: Result<(int, int)>)
    ensures (dynamic !in t || t[dynamic].size.None? || t[dynamic].size == Some(""))
            ==> r == Err(NotFound)
    ensures dynamic in t && t[dynamic].size.Some? && t[dynamic].size != Some("")
            ==> r == ParseSize(t[dynamic].size.value)
  {
    if dynamic !in t then Err(NotFound)
    else match t[dynamic].size
      case None => Err(NotFound)
      case Some(text) => if text == "" then Err(NotFound) else ParseSize(text)
  }

  // ----- what the updates promise --------------------------------------------

  /** A new dynamic is locked, carries the default weight and has no size. */
  lemma NewDynamicDefaults(t: Table, dynamic: string)
    requires dynamic !in t
    ensures var t' := InsertDynamic(t, dynamic).value;
            LockStatusOf(t', dynamic) == Ok(true)
            && WeightOf(t', dynamic) == Ok(DefaultWeight)
            && SizeOf(t', dynamic) == Err(NotFound)
  {
  }

  /** `set_lock_status(d, b)` then `get_lock_status(d)` gives back `b`. */
  lemma LockRoundTrip(t: Table, dynamic: string, locked: bool)
    requires dynamic in t
    ensures LockStatusOf(UpdateLock(t, dynamic, if locked then 1 else 0), dynamic) == Ok(locked)
  {
  }

  /** `set_weight(d, x)` then `get_weight(d)` gives back a non-zero `x`. */
  lemma WeightRoundTrip(t: Table, dynamic: string, weight: int)
    requires dynamic in t
    ensures WeightOf(UpdateWeight(t, dynamic, weight), dynamic)
            == if weight == 0 then Err(NotFound) else Ok(weight)
  {
  }

  /** `set_size(d, (w, h))` then `get_size(d)` gives back `(w, h)`. */
  lemma SizeStoreRoundTrip(t: Table, dynamic: string, width: int, height: int)
    requires dynamic in t
    ensures SizeOf(UpdateSize(t, dynamic, FormatSize(width, height)), dynamic) == Ok((width, height))
  {
    SizeRoundTrip(width, height);
  }

  /** An update of one dynamic leaves what every other dynamic reads. */
  lemma UpdatesAreLocal(t: Table, dynamic: string, other: string, lock: int, weight: int, size: string)
    requires other != dynamic
    ensures LockStatusOf(UpdateLock(t, dynamic, lock), other) == LockStatusOf(t, other)
    ensures WeightOf(UpdateWeight(t, dynamic, weight), other) == WeightOf(t, other)
    ensures SizeOf(UpdateSize(t, dynamic, size), other) == SizeOf(t, other)
  {
  }

  /** Once a dynamic is deleted, every getter answers NOT_FOUND. */
  lemma DeletedIsNotFound(t: Table, dynamic: string)
    ensures var t' := DeleteDynamic(t, dynamic);
            LockStatusOf(t', dynamic) == Err(NotFound)
            && WeightOf(t', dynamic) == Err(NotFound)
            && SizeOf(t', dynamic) == Err(NotFound)
  {
  }

  /** The repository over the Dynamic table.  Every method reads or writes
      the row of one dynamic. */
  class DynamicTable {
    var rows: Table

    constructor ()
      ensures rows == map[]
    {
      rows := map[];
    }

    /** `add_dynamic`: a new row, locked, default weight, no size. */
    method AddDynamic(dynamic: string) returns (r: Result<()>)
      modifies this
      ensures r.Ok? <==> dynamic !in old(rows)
      ensures r.Ok? ==> rows == InsertDynamic(old(rows), dynamic).value
      ensures r.Err? ==> rows == old(rows) && r.error == Internal
    {
      var inserted := InsertDynamic(rows, dynamic);
      if inserted.Ok? {
        rows := inserted.value;
        r := Ok(());
      } else {
        r := Err(inserted.error);
      }
    }

    /** `remove_dynamic`: deleting an absent name is not an error. */
    method RemoveDynamic(dynamic: string)
      modifies this
      ensures rows == DeleteDynamic(old(rows), dynamic)
    {
      rows := DeleteDynamic(rows, dynamic);
    }

    method GetLockStatus(dynamic: string) returns (r: Result<bool>)
      ensures r == LockStatusOf(rows, dynamic)
      ensures r.Ok? ==> dynamic in rows && (r.value <==> rows[dynamic].lock != 0)
    {
      if dynamic in rows {
        r := Ok(rows[dynamic].lock != 0);
      } else {
        r := Err(NotFound);
      }
    }

    method SetLockStatus(dynamic: string, lock: int)
      modifies this
      ensures rows == UpdateLock(old(rows), dynamic, lock)
    {
      rows := UpdateLock(rows, dynamic, lock);
    }

    method GetSize(dynamic: string) returns (r: Result<(int, int)>)
      ensures r == SizeOf(rows, dynamic)
      ensures dynamic !in rows ==> r == Err(NotFound)
    {
      if dynamic !in rows || rows[dynamic].size.None? || rows[dynamic].size.value == "" {
        r := Err(NotFound);
      } else {
        r := ParseSize(rows[dynamic].size.value);
      }
    }

    /** `set_size(d, (w, h))` stores the text "WxH". */
    method SetSize(dynamic: string, width: int, height: int)
      modifies this
      ensures rows == UpdateSize(old(rows), dynamic, FormatSize(width, height))
    {
      rows := UpdateSize(rows, dynamic, FormatSize(width, height));
    }

    method GetWeight(dynamic: string) returns (r: Result<int>)
      ensures r == WeightOf(rows, dynamic)
      ensures r.Ok? ==> r.value != 0
    {
      if dynamic !in rows || rows[dynamic].weight == 0 {
        r := Err(NotFound);
      } else {
        r := Ok(rows[dynamic].weight);
      }
    }

    method SetWeight(dynamic: string, weight: int)
      modifies this
      ensures rows == UpdateWeight(old(rows), dynamic, weight)
    {
      rows := UpdateWeight(rows, dynamic, weight);
    }
  }
}
