/**
 * The in-memory `tasks` list: one entry per Checkbutton, holding the row id,
 * the Checkbutton's text, the value of its BooleanVar and the grid row it is
 * shown in. This module states what it means for the list to mirror the
 * table, and how each operation transforms the list.
 */
module Tasks {
  import opened Store

  datatype Task = Task(id: int, text: string, checked: bool, row: int)

  function Ids(ts: seq<Task>): (r: seq<int>)
    ensures |r| == |ts|
  {
    seq(|ts|, i requires 0 <= i < |ts| => ts[i].id)
  }

  /** An entry shows its row's description and its checkbox shows the row's flag. */
  predicate Agrees(x: Task, r: Row) {
    x.text == r.description && x.checked == (r.completed != 0)
  }

  /** Display rows are 0..k-1 in list order, with no gap. */
  ghost predicate Compact(ts: seq<Task>) {
    forall i :: 0 <= i < |ts| ==> ts[i].row == i
  }

  /** The sync invariant: the list holds one entry per row of the table, in
      ascending id order, each agreeing with its row, at display rows 0..k-1. */
  ghost predicate Mirrors(ts: seq<Task>, t: Table) {
    && Ascending(Ids(ts))
    && (forall k :: k in t <==> k in Ids(ts))
    && (forall i :: 0 <= i < |ts| ==> ts[i].id in t && Agrees(ts[i], t[ts[i].id]))
    && Compact(ts)
  }

  /** In an ascending sequence the tail holds every element but the head. */
  lemma TailMembers(x: seq<int>, k: int)
    requires Ascending(x) && x != []
    ensures k in x[1..] <==> k in x && k != x[0]
  {
    assert x == [x[0]] + x[1..];
    if k in x[1..] {
      var j :| 0 <= j < |x| - 1 && x[1..][j] == k;
      assert x[j + 1] == k;
    }
  }

  /** Two ascending sequences with the same elements are equal. */
  lemma {:induction false} AscendingUnique(x: seq<int>, y: seq<int>)
    requires Ascending(x) && Ascending(y)
    requires forall k :: k in x <==> k in y
    ensures x == y
    decreases |x|
  {
    assert x == [] || (x[0] in x && x[0] in y);
    assert y == [] || (y[0] in y && y[0] in x);
    if x != [] && y != [] {
      assert x[0] == y[0];
      forall k
        ensures k in x[1..] <==> k in y[1..]
      {
        TailMembers(x, k);
        TailMembers(y, k);
      }
      AscendingUnique(x[1..], y[1..]);
      assert x == [x[0]] + x[1..];
      assert y == [y[0]] + y[1..];
    }
  }

  /** The table determines the list that mirrors it: so reloading the list
      from the table gives back the same list, and loading twice is loading once. */
  lemma MirrorsUnique(a: seq<Task>, b: seq<Task>, t: Table)
    requires Mirrors(a, t) && Mirrors(b, t)
    ensures a == b
  {
    AscendingUnique(Ids(a), Ids(b));
    assert |a| == |Ids(a)| == |Ids(b)| == |b|;
    forall i | 0 <= i < |a|
      ensures a[i] == b[i]
    {
      assert Ids(a)[i] == Ids(b)[i];
    }
  }

  /** The entry load_tasks creates for the `i`-th row the cursor yields:
      a checkbox showing the description, checked when `completed` is
      non-zero, at grid row `i`. */
  function Loaded(t: Table, cursor: seq<int>, i: nat): (x: Task)
    requires i < |cursor| && cursor[i] in t
    ensures x.id == cursor[i] && x.row == i && Agrees(x, t[cursor[i]])
  {
    var id := cursor[i];
    Task(id, t[id].description, t[id].completed != 0, i)
  }

  /** With every id of the table between 1 and `hi`, the ordered scan of
      that range yields the table's ids, smallest first. */
  lemma CursorCoversTable(t: Table, hi: int)
    requires forall k :: k in t ==> 1 <= k <= hi
    ensures Ascending(OrderedIds(t, 1, hi))
    ensures forall k :: k in OrderedIds(t, 1, hi) <==> k in t
  {
    OrderedIdsSorted(t, 1, hi);
  }

  /** The list load_tasks builds from the rows in ascending id order, entry
      `i` at grid row `i`, mirrors the table. */
  lemma LoadedMirrors(ts: seq<Task>, t: Table, cursor: seq<int>)
    requires Ascending(cursor)
    requires forall k :: k in cursor <==> k in t
    requires |ts| == |cursor|
    requires forall i :: 0 <= i < |ts| ==> cursor[i] in t && ts[i] == Loaded(t, cursor, i)
    ensures Mirrors(ts, t)
  {
    assert Ids(ts) == cursor;
  }

  // --- add -----------------------------------------------------------------

  /** Appending the entry add_task creates (a fresh id, the stripped text,
      unchecked, at the grid row equal to the current length of the list)
      and inserting its row keeps the mirror, provided the id exceeds every
      id in the table. */
  lemma AppendKeepsMirror(ts: seq<Task>, t: Table, id: int, text: string)
    requires Mirrors(ts, t)
    requires forall k :: k in t ==> k < id
    ensures Mirrors(ts + [Task(id, text, false, |ts|)], t[id := Row(text, 0)])
  {
    var ts' := ts + [Task(id, text, false, |ts|)];
    assert Ids(ts') == Ids(ts) + [id];
    forall i | 0 <= i < |ts|
      ensures Ids(ts)[i] < id
    {
      assert Ids(ts)[i] in t;
    }
  }

  // --- toggle --------------------------------------------------------------

  /** The list after the BooleanVar of the entry with this id is set to `v`. */
  function SetFlag(ts: seq<Task>, id: int, v: bool): (r: seq<Task>)
    ensures |r| == |ts|
    ensures forall i :: 0 <= i < |ts| ==> r[i] == ts[i].(checked := if ts[i].id == id then v else ts[i].checked)
  {
    seq(|ts|, i requires 0 <= i < |ts| => if ts[i].id == id then ts[i].(checked := v) else ts[i])
  }

  /** Setting the checkbox and writing the flag through keeps the mirror. */
  lemma ToggleKeepsMirror(ts: seq<Task>, t: Table, id: int, v: bool)
    requires Mirrors(ts, t)
    ensures Mirrors(SetFlag(ts, id, v), SetCompleted(t, id, v))
  {
    assert Ids(SetFlag(ts, id, v)) == Ids(ts);
  }

  /** Toggling to the same value twice is toggling once, in the list and in the table. */
  lemma ToggleIdempotent(ts: seq<Task>, t: Table, id: int, v: bool)
    ensures SetFlag(SetFlag(ts, id, v), id, v) == SetFlag(ts, id, v)
    ensures SetCompleted(SetCompleted(t, id, v), id, v) == SetCompleted(t, id, v)
  {
    SetCompletedIdempotent(t, id, v);
  }

  // --- delete checked ------------------------------------------------------

  /** The entries that survive delete_selected, in their original order. */
  function Unchecked(ts: seq<Task>): (r: seq<Task>)
    ensures |r| <= |ts|
  {
    if ts == [] then []
    else (if ts[0].checked then [] else [ts[0]]) + Unchecked(ts[1..])
  }

  /** Delete-checked removes exactly the checked entries. */
  lemma {:induction false} UncheckedMembers(ts: seq<Task>)
    ensures forall x :: x in Unchecked(ts) <==> x in ts && !x.checked
  {
    if ts != [] {
      assert ts == [ts[0]] + ts[1..];
      UncheckedMembers(ts[1..]);
    }
  }

  /** Where a survivor came from: the `i`-th survivor is the entry at index
      `p` of the original list, and `p` is at least `i`. */
  lemma {:induction false} UncheckedOrigin(ts: seq<Task>, i: nat) returns (p: nat)
    requires i < |Unchecked(ts)|
    ensures i <= p < |ts| && ts[p] == Unchecked(ts)[i]
    decreases |ts|
  {
    var r, rest := Unchecked(ts), Unchecked(ts[1..]);
    if ts[0].checked {
      assert r == rest;
      p := UncheckedOrigin(ts[1..], i);
      p := p + 1;
    } else if i == 0 {
      assert r == [ts[0]] + rest;
      p := 0;
    } else {
      assert r == [ts[0]] + rest;
      p := UncheckedOrigin(ts[1..], i - 1);
      p := p + 1;
    }
  }

  /** The delete is a stable filter: the survivors of a list cut in two are
      the survivors of the front followed by those of the back, so no
      survivor overtakes another. */
  lemma {:induction false} UncheckedAppend(a: seq<Task>, b: seq<Task>)
    ensures Unchecked(a + b) == Unchecked(a) + Unchecked(b)
    decreases |a|
  {
    if a == [] {
      assert a + b == b;
    } else {
      assert (a + b)[1..] == a[1..] + b;
      UncheckedAppend(a[1..], b);
    }
  }

  /** Filtering an ascending list leaves it ascending. */
  lemma {:induction false} UncheckedAscending(ts: seq<Task>)
    requires Ascending(Ids(ts))
    ensures Ascending(Ids(Unchecked(ts)))
    decreases |ts|
  {
    if ts != [] {
      var r, rest := Unchecked(ts), Unchecked(ts[1..]);
      assert Ids(ts[1..]) == Ids(ts)[1..];
      UncheckedAscending(ts[1..]);
      if ts[0].checked {
        assert r == rest;
      } else {
        assert r == [ts[0]] + rest;
        forall a, b | 0 <= a < b < |r|
          ensures Ids(r)[a] < Ids(r)[b]
        {
          assert Ids(r)[b] == Ids(rest)[b - 1];
          if a == 0 {
            var q := UncheckedOrigin(ts[1..], b - 1);
            assert Ids(ts)[q + 1] == rest[b - 1].id;
            assert Ids(r)[0] == Ids(ts)[0];
          } else {
            assert Ids(r)[a] == Ids(rest)[a - 1];
          }
        }
      }
    }
  }

  /** Some entry at index `lo` or later has this id and is checked. */
  predicate CheckedFrom(ts: seq<Task>, lo: nat, k: int) {
    exists j :: lo <= j < |ts| && ts[j].id == k && ts[j].checked
  }

  /** One step of the reverse walk: the survivors from index `i` on are the
      entry at `i`, unless it is checked, followed by the survivors after it. */
  lemma UncheckedFrom(ts: seq<Task>, i: nat)
    requires i < |ts|
    ensures Unchecked(ts[i..]) == (if ts[i].checked then [] else [ts[i]]) + Unchecked(ts[i + 1..])
  {
    assert ts[i..][1..] == ts[i + 1..];
  }

  /** With the second and fourth of four entries checked, the first and
      third survive, in that order, and two entries go. */
  lemma DeleteExample(a: Task, b: Task, c: Task, d: Task)
    requires !a.checked && b.checked && !c.checked && d.checked
    ensures Unchecked([a, b, c, d]) == [a, c]
  {
    assert [d][1..] == [];
    assert Unchecked([d]) == [];
    assert [c, d][1..] == [d];
    assert Unchecked([c, d]) == [c];
    assert [b, c, d][1..] == [c, d];
    assert Unchecked([b, c, d]) == [c];
    assert [a, b, c, d][1..] == [b, c, d];
  }

  /** The pop of the reverse walk: when entries `j..` already hold their
      survivors and entries `..j` are untouched, popping entry `j - 1` if it
      is checked (and keeping it otherwise) leaves the survivors from `j - 1`
      on after the untouched entries `..j - 1`. */
  lemma PopStep(ts: seq<Task>, cur: seq<Task>, j: nat)
    requires 0 < j <= |ts|
    requires cur == ts[..j] + Unchecked(ts[j..])
    ensures cur[j - 1] == ts[j - 1]
    ensures (if ts[j - 1].checked then cur[..j - 1] + cur[j..] else cur) == ts[..j - 1] + Unchecked(ts[j - 1..])
  {
    var rest := Unchecked(ts[j..]);
    UncheckedFrom(ts, j - 1);
    assert cur[..j - 1] == ts[..j - 1];
    assert cur[j..] == rest;
    if ts[j - 1].checked {
      assert [] + rest == rest;
    } else {
      assert cur == cur[..j - 1] + [cur[j - 1]] + cur[j..];
    }
  }

  lemma CheckedFromStep(ts: seq<Task>, i: nat, k: int)
    requires i < |ts|
    ensures CheckedFrom(ts, i, k) <==> (ts[i].id == k && ts[i].checked) || CheckedFrom(ts, i + 1, k)
  {
    if CheckedFrom(ts, i, k) {
      var j :| i <= j < |ts| && ts[j].id == k && ts[j].checked;
      assert j == i || (i + 1 <= j < |ts| && ts[j].id == k && ts[j].checked);
    }
  }

  /** `t'` is `t` with the rows of the checked entries of `ts` deleted. */
  ghost predicate Deleted(t': Table, t: Table, ts: seq<Task>) {
    && (forall k :: k in t' <==> k in t && !CheckedFrom(ts, 0, k))
    && (forall k :: k in t' ==> t'[k] == t[k])
  }

  /** The list after the survivors are re-gridded at rows 0..k-1. */
  function Regrid(ts: seq<Task>): (r: seq<Task>)
    ensures |r| == |ts| && Compact(r)
    ensures forall i :: 0 <= i < |ts| ==> r[i].id == ts[i].id && r[i].text == ts[i].text && r[i].checked == ts[i].checked
  {
    seq(|ts|, i requires 0 <= i < |ts| => ts[i].(row := i))
  }

  /** Each survivor of the delete keeps its row, which still agrees with it:
      ids are unique, so no checked entry shares a survivor's id. */
  lemma SurvivorsKeepRows(ts: seq<Task>, t: Table, t': Table)
    requires Mirrors(ts, t)
    requires Deleted(t', t, ts)
    ensures forall x :: x in Unchecked(ts) ==> x.id in t' && Agrees(x, t'[x.id])
  {
    UncheckedMembers(ts);
    forall x | x in Unchecked(ts)
      ensures x.id in t' && Agrees(x, t'[x.id])
    {
      var p :| 0 <= p < |ts| && ts[p] == x;
      forall j | 0 <= j < |ts| && ts[j].id == x.id
        ensures !ts[j].checked
      {
        assert Ids(ts)[j] == Ids(ts)[p];
      }
      assert !CheckedFrom(ts, 0, x.id);
    }
  }

  /** The rows left after the delete are exactly those of the survivors. */
  lemma SurvivorsAreRows(ts: seq<Task>, t: Table, t': Table)
    requires Mirrors(ts, t)
    requires Deleted(t', t, ts)
    ensures forall k :: k in t' <==> k in Ids(Unchecked(ts))
  {
    var u := Unchecked(ts);
    UncheckedMembers(ts);
    forall k
      ensures k in t' <==> k in Ids(u)
    {
      if k in t' {
        assert k in Ids(ts);
        var p :| 0 <= p < |ts| && Ids(ts)[p] == k;
        assert ts[p] in u;
        var q :| 0 <= q < |u| && u[q] == ts[p];
        assert Ids(u)[q] == k;
      }
      if k in Ids(u) {
        var q :| 0 <= q < |u| && Ids(u)[q] == k;
        assert u[q] in u;
        SurvivorsKeepRows(ts, t, t');
      }
    }
  }

  /** Deleting the checked entries from the list and their rows from the
      table, then re-gridding the survivors, keeps the mirror. */
  lemma DeleteKeepsMirror(ts: seq<Task>, t: Table, t': Table)
    requires Mirrors(ts, t)
    requires Deleted(t', t, ts)
    ensures Mirrors(Regrid(Unchecked(ts)), t')
  {
    var u := Unchecked(ts);
    var g := Regrid(u);
    UncheckedAscending(ts);
    assert Ids(g) == Ids(u);
    SurvivorsAreRows(ts, t, t');
    SurvivorsKeepRows(ts, t, t');
    forall i | 0 <= i < |g|
      ensures g[i].id in t' && Agrees(g[i], t'[g[i].id])
    {
      assert u[i] in u;
    }
  }
}
