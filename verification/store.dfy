/**
 * The `tasks` table of todo.db:
 *   id INTEGER PRIMARY KEY AUTOINCREMENT, description TEXT NOT NULL,
 *   completed INTEGER NOT NULL DEFAULT 0.
 * A table is a map from id to row; each SQL statement the application issues
 * is one atomic update of that map.
 */
module Store {

  datatype Row = Row(description: string, completed: int)

  type Table = map<int, Row>

  /** The largest rowid SQLite can hand out (a signed 64-bit integer); once an
      AUTOINCREMENT table has issued it, every further INSERT fails. */
  const MaxRowId: int := 0x7FFF_FFFF_FFFF_FFFF

  /** Strictly increasing, hence also free of duplicates. */
  predicate Ascending(ids: seq<int>) {
    forall i, j :: 0 <= i < j < |ids| ==> ids[i] < ids[j]
  }

  /** The value stored in `completed` for a checkbox state: 1 or 0. */
  function CompletedValue(done: bool): (v: int)
    ensures (v != 0) == done && 0 <= v <= 1
  {
    if done then 1 else 0
  }

  /** The ids of `t` between `lo` and `hi`, in the order
      `SELECT id, description, completed FROM tasks ORDER BY id` yields them
      (see OrderedIdsSorted). */
  function OrderedIds(t: Table, lo: int, hi: int): (r: seq<int>)
    ensures |r| <= if lo <= hi then hi - lo + 1 else 0
    decreases hi - lo
  {
    if lo > hi then []
    else (if lo in t then [lo] else []) + OrderedIds(t, lo + 1, hi)
  }

  /** Every id of the scan is a row of the table. */
  lemma {:induction false} OrderedIdsInTable(t: Table, lo: int, hi: int)
    ensures forall i :: 0 <= i < |OrderedIds(t, lo, hi)| ==> OrderedIds(t, lo, hi)[i] in t
    decreases hi - lo
  {
    if lo <= hi {
      OrderedIdsInTable(t, lo + 1, hi);
    }
  }

  /** The scan yields each id of the table between `lo` and `hi` exactly
      once, smallest first. */
  lemma {:induction false} OrderedIdsSorted(t: Table, lo: int, hi: int)
    ensures Ascending(OrderedIds(t, lo, hi))
    ensures forall k :: k in OrderedIds(t, lo, hi) <==> k in t && lo <= k <= hi
    decreases hi - lo
  {
    if lo <= hi {
      var rest := OrderedIds(t, lo + 1, hi);
      OrderedIdsSorted(t, lo + 1, hi);
      assert forall j :: 0 <= j < |rest| ==> rest[j] in rest && lo < rest[j];
    }
  }

  /** `UPDATE tasks SET completed = ? WHERE id = ?`: the row with that id, if
      there is one, gets the new flag; no other row and no description changes. */
  function SetCompleted(t: Table, id: int, done: bool): (r: Table)
    ensures r.Keys == t.Keys
    ensures forall k :: k in t && k != id ==> r[k] == t[k]
    ensures id in t ==> r[id].description == t[id].description && (r[id].completed != 0) == done
    ensures id in t ==> r[id].completed == CompletedValue(done)
  {
    if id in t then t[id := t[id].(completed := CompletedValue(done))] else t
  }

  /** Updating the same row to the same flag twice is updating it once. */
  lemma SetCompletedIdempotent(t: Table, id: int, done: bool)
    ensures SetCompleted(SetCompleted(t, id, done), id, done) == SetCompleted(t, id, done)
  {
  }
}
