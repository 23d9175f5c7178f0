/**
 * A database table as the handlers see it: rows with an integer primary key `id`, listed in
 * key order, and the table's AUTO_INCREMENT counter. The operations are the effects of the
 * queries the controllers issue: lookup by key, delete by key, the raw
 * `UPDATE ... SET id = id - 1 WHERE id > k`, and the maximum key.
 */
module Tables {
  import opened Basics

  /** A row: its primary key and the rest of its columns. */
  datatype Row<T> = Row(id: int, fields: T)

  /** Rows in primary-key order: keys are positive and strictly increasing. */
  predicate KeyOrdered<T>(rows: seq<Row<T>>) {
    (forall i :: 0 <= i < |rows| ==> rows[i].id >= 1) &&
    (forall i, j :: 0 <= i < j < |rows| ==> rows[i].id < rows[j].id)
  }

  /** A table and its AUTO_INCREMENT counter, which is above every key in use. */
  predicate TableValid<T>(rows: seq<Row<T>>, next: int) {
    KeyOrdered(rows) && next >= 1 && forall i :: 0 <= i < |rows| ==> rows[i].id < next
  }

  /** Whether some row has the key. */
  predicate HasId<T>(rows: seq<Row<T>>, id: int) {
    exists i :: 0 <= i < |rows| && rows[i].id == id
  }

  /** `findUnique({ where: { id } })`: the position of the row with that key, if any. */
  function Find<T>(rows: seq<Row<T>>, id: int): (r: Option<nat>)
    ensures r.Some? ==> r.value < |rows| && rows[r.value].id == id
    ensures r.None? <==> !HasId(rows, id)
  {
    if rows == [] then None
    else if rows[0].id == id then Some(0)
    else match Find(rows[1..], id)
      case None => None
      case Some(i) => Some(i + 1)
  }

  /** The table without the row at position `i` (`delete({ where: { id } })`). */
  function RemoveAt<T>(rows: seq<Row<T>>, i: nat): seq<Row<T>>
    requires i < |rows|
  {
    rows[..i] + rows[i + 1..]
  }

  /** One row after `SET id = id - 1 WHERE id > k`. */
  function ShiftRow<T>(row: Row<T>, k: int): Row<T> {
    if row.id > k then row.(id := row.id - 1) else row
  }

  /**
   * The table after `UPDATE ... SET id = id - 1 WHERE id > k` when the statement succeeds:
   * every key above `k` goes down by one, and nothing else changes.
   */
  function ShiftAbove<T>(rows: seq<Row<T>>, k: int): (r: seq<Row<T>>)
    ensures |r| == |rows|
    ensures forall i :: 0 <= i < |rows| ==> r[i].fields == rows[i].fields
    ensures forall i :: 0 <= i < |rows| ==> r[i].id == if rows[i].id > k then rows[i].id - 1 else rows[i].id
  {
    if rows == [] then [] else [ShiftRow(rows[0], k)] + ShiftAbove(rows[1..], k)
  }

  /**
   * Whether the shift clashes with the primary key: the first row it moves takes key `k`, so it
   * collides exactly when keys `k` and `k + 1` are both in use.
   */
  predicate ShiftClashes<T>(rows: seq<Row<T>>, k: int) {
    HasId(rows, k) && HasId(rows, k + 1)
  }

  /** `findMany({ orderBy: { id: 'desc' }, take: 1 })`: the largest key, or 0 for an empty table. */
  function MaxId<T>(rows: seq<Row<T>>): (m: int)
    ensures rows == [] ==> m == 0
    ensures forall i :: 0 <= i < |rows| ==> rows[i].id <= m
    ensures rows != [] ==> HasId(rows, m)
  {
    if rows == [] then 0
    else if |rows| == 1 then rows[0].id
    else
      var m := MaxId(rows[1..]);
      if rows[0].id >= m then rows[0].id else m
  }

  /** The effect of the delete handlers on a table: remove the row with key `k`, then shift the keys above it down. */
  function DeleteRenumber<T>(rows: seq<Row<T>>, k: int): seq<Row<T>>
    requires HasId(rows, k)
  {
    ShiftAbove(RemoveAt(rows, Find(rows, k).value), k)
  }

  /**
   * One step of the row-by-row shift, as the database runs it in ascending key order: when the
   * rows before position `i` have been moved and the rest not yet, the key that row `i` asks for
   * is already taken exactly when that row has key `k + 1` and key `k` is in use.
   */
  lemma ShiftStepClash<T>(rows: seq<Row<T>>, moved: seq<Row<T>>, i: nat, k: int)
    requires KeyOrdered(rows) && i < |rows| && rows[i].id > k && |moved| == |rows|
    requires forall j :: 0 <= j < i ==> moved[j] == ShiftRow(rows[j], k)
    requires forall j :: i <= j < |rows| ==> moved[j] == rows[j]
    ensures HasId(moved, rows[i].id - 1) <==> rows[i].id == k + 1 && HasId(rows, k)
  {
    var m := rows[i].id;
    assert forall j :: i <= j < |moved| ==> moved[j].id >= m;
    assert forall j :: 0 <= j < i && rows[j].id > k ==> moved[j].id == rows[j].id - 1 < m - 1;
    assert forall j :: 0 <= j < i && rows[j].id <= k ==> moved[j].id == rows[j].id;
    if m == k + 1 && HasId(rows, k) {
      var j :| 0 <= j < |rows| && rows[j].id == k;
      assert moved[j].id == k;
    }
  }

  /**
   * `UPDATE ... SET id = id - 1 WHERE id > k` as the database runs it: rows are visited in
   * ascending key order and each moved row is checked against the primary key at once. The
   * statement either moves every key above `k` down by one, or hits a duplicate key and is
   * rolled back as a whole, which happens exactly when keys `k` and `k + 1` are both in use.
   */
  method ShiftKeys<T>(rows: seq<Row<T>>, k: int) returns (ok: bool, r: seq<Row<T>>)
    requires KeyOrdered(rows)
    ensures ok == !ShiftClashes(rows, k)
    ensures r == if ok then ShiftAbove(rows, k) else rows
  {
    var moved := rows;
    var i := 0;
    while i < |rows|
      invariant 0 <= i <= |rows| && |moved| == |rows|
      invariant forall j :: 0 <= j < i ==> moved[j] == ShiftRow(rows[j], k)
      invariant forall j :: i <= j < |rows| ==> moved[j] == rows[j]
      invariant !(HasId(rows, k) && exists j :: 0 <= j < i && rows[j].id == k + 1)
    {
      if rows[i].id > k {
        ShiftStepClash(rows, moved, i, k);
        if Find(moved, rows[i].id - 1).Some? {
          return false, rows;
        }
        moved := moved[i := ShiftRow(rows[i], k)];
      }
      i := i + 1;
    }
    assert forall j :: 0 <= j < |rows| ==> moved[j] == ShiftAbove(rows, k)[j];
    return true, moved;
  }

  /**
   * `create` on a table with an AUTO_INCREMENT key: the row goes in under the counter's key,
   * which no row holds yet, and the counter moves one up.
   */
  method Insert<T>(rows: seq<Row<T>>, next: int, fields: T) returns (r: seq<Row<T>>, counter: int)
    requires TableValid(rows, next)
    ensures !HasId(rows, next)
    ensures r == rows + [Row(next, fields)] && counter == next + 1
    ensures TableValid(r, counter)
  {
    r, counter := rows + [Row(next, fields)], next + 1;
  }

  /**
   * `findMany({ select: { id }, orderBy: { id: 'desc' }, take: 1 })` and the `maxId` taken from
   * it: the key of the first row in descending key order, or 0 when there is none.
   */
  method LargestKey<T>(rows: seq<Row<T>>) returns (m: int)
    requires KeyOrdered(rows)
    ensures m == MaxId(rows)
  {
    if |rows| == 0 {
      return 0;
    }
    MaxIdIsLast(rows);
    return rows[|rows| - 1].id;
  }

  /** Once the row with key `k` is deleted, shifting the keys above `k` cannot clash. */
  lemma RemovedKeyNoClash<T>(rows: seq<Row<T>>, k: int)
    requires KeyOrdered(rows) && HasId(rows, k)
    ensures KeyOrdered(RemoveAt(rows, Find(rows, k).value))
    ensures !ShiftClashes(RemoveAt(rows, Find(rows, k).value), k)
  {
    RemoveKeepsOrder(rows, Find(rows, k).value);
  }

  /**
   * The four statements the delete handlers run on a table: delete the row with key `k`,
   * shift the keys above `k` down (which cannot clash, `k` being gone), read the largest key,
   * and reset the counter one above it.
   */
  method DeleteAndRenumber<T>(rows: seq<Row<T>>, k: int, next: int) returns (r: seq<Row<T>>, counter: int)
    requires TableValid(rows, next) && HasId(rows, k)
    ensures r == DeleteRenumber(rows, k)
    ensures counter == MaxId(r) + 1
    ensures TableValid(r, counter)
  {
    var i := Find(rows, k).value;
    var remaining := RemoveAt(rows, i);
    RemovedKeyNoClash(rows, k);
    var ok;
    ok, r := ShiftKeys(remaining, k);
    assert ok;
    DeleteRenumberValid(rows, k, next);
    var maxId := LargestKey(r);
    counter := maxId + 1;
  }

  /** `DELETE ... WHERE id = k` on a table that has the key: the row goes, the counter stays valid. */
  method DeleteKey<T>(rows: seq<Row<T>>, k: int, next: int) returns (r: seq<Row<T>>)
    requires TableValid(rows, next) && HasId(rows, k)
    ensures r == RemoveAt(rows, Find(rows, k).value)
    ensures TableValid(r, next)
  {
    var i := Find(rows, k).value;
    RemoveKeepsOrder(rows, i);
    r := RemoveAt(rows, i);
  }

  /** In key order, the largest key is the last row's. */
  lemma MaxIdIsLast<T>(rows: seq<Row<T>>)
    requires KeyOrdered(rows) && rows != []
    ensures MaxId(rows) == rows[|rows| - 1].id
  {
  }

  /** Removing a row keeps the others in key order. */
  lemma RemoveKeepsOrder<T>(rows: seq<Row<T>>, i: nat)
    requires KeyOrdered(rows) && i < |rows|
    ensures KeyOrdered(RemoveAt(rows, i))
    ensures forall j :: 0 <= j < |rows| - 1 ==> RemoveAt(rows, i)[j] == if j < i then rows[j] else rows[j + 1]
  {
  }

  /**
   * A shift that does not clash keeps the rows in key order: two neighbours could only meet if
   * the lower one had key `k` and the upper one `k + 1`.
   */
  lemma ShiftKeepsOrder<T>(rows: seq<Row<T>>, k: int)
    requires KeyOrdered(rows) && k >= 1 && !ShiftClashes(rows, k)
    ensures KeyOrdered(ShiftAbove(rows, k))
  {
  }

  /** Rows below the deleted one keep their position and key, and their keys are below `k`. */
  lemma DeleteRenumberBelow<T>(rows: seq<Row<T>>, k: int)
    requires KeyOrdered(rows) && HasId(rows, k)
    ensures var p := Find(rows, k).value; var r := DeleteRenumber(rows, k);
      |r| == |rows| - 1 && forall j :: 0 <= j < p ==> r[j] == rows[j] && rows[j].id < k
  {
    var p := Find(rows, k).value;
    var removed := RemoveAt(rows, p);
    var r := ShiftAbove(removed, k);
    forall j | 0 <= j < p
      ensures r[j] == rows[j] && rows[j].id < k
    {
      assert removed[j] == rows[j];
      assert rows[j].id < rows[p].id;
      assert r[j].id == rows[j].id && r[j].fields == rows[j].fields;
    }
  }

  /** Rows above the deleted one move down one place, with their key, which was above `k`, lowered by one. */
  lemma DeleteRenumberAbove<T>(rows: seq<Row<T>>, k: int)
    requires KeyOrdered(rows) && HasId(rows, k)
    ensures var p := Find(rows, k).value; var r := DeleteRenumber(rows, k);
      |r| == |rows| - 1 &&
      forall j :: p <= j < |r| ==> r[j] == rows[j + 1].(id := rows[j + 1].id - 1) && rows[j + 1].id > k
  {
    var p := Find(rows, k).value;
    var removed := RemoveAt(rows, p);
    var r := ShiftAbove(removed, k);
    forall j | p <= j < |r|
      ensures r[j] == rows[j + 1].(id := rows[j + 1].id - 1) && rows[j + 1].id > k
    {
      assert removed[j] == rows[j + 1];
      assert rows[p].id < rows[j + 1].id;
      assert r[j].id == rows[j + 1].id - 1 && r[j].fields == rows[j + 1].fields;
    }
  }

  /** Once the row with key `k` is deleted, no row has key `k`. */
  lemma RemovedKeyGone<T>(rows: seq<Row<T>>, k: int)
    requires KeyOrdered(rows) && HasId(rows, k)
    ensures !HasId(RemoveAt(rows, Find(rows, k).value), k)
  {
    var p := Find(rows, k).value;
    var removed := RemoveAt(rows, p);
    forall j | 0 <= j < |removed|
      ensures removed[j].id != k
    {
      if j < p {
        assert removed[j] == rows[j];
        assert rows[j].id < rows[p].id;
      } else {
        assert removed[j] == rows[j + 1];
        assert rows[p].id < rows[j + 1].id;
      }
    }
  }

  /**
   * What the delete handlers do to a table, row by row: the row with key `k` is gone, rows
   * below it keep their key, rows above it move down one place with their key reduced by
   * exactly one, and no other column changes.
   */
  lemma DeleteRenumberRows<T>(rows: seq<Row<T>>, k: int)
    requires KeyOrdered(rows) && HasId(rows, k)
    ensures var p := Find(rows, k).value; var r := DeleteRenumber(rows, k);
      |r| == |rows| - 1 &&
      !HasId(RemoveAt(rows, p), k) &&
      (forall j :: 0 <= j < p ==> r[j] == rows[j] && rows[j].id < k) &&
      (forall j :: p <= j < |r| ==> r[j] == rows[j + 1].(id := rows[j + 1].id - 1) && rows[j + 1].id > k)
  {
    DeleteRenumberBelow(rows, k);
    DeleteRenumberAbove(rows, k);
    RemovedKeyGone(rows, k);
  }

  /** Deleting and renumbering keeps the table in key order, and the counter reset puts the counter above every key. */
  lemma DeleteRenumberValid<T>(rows: seq<Row<T>>, k: int, next: int)
    requires TableValid(rows, next) && HasId(rows, k)
    ensures var r := DeleteRenumber(rows, k); TableValid(r, MaxId(r) + 1)
  {
    var p := Find(rows, k).value;
    var removed := RemoveAt(rows, p);
    RemoveKeepsOrder(rows, p);
    assert !HasId(removed, k);
    ShiftKeepsOrder(removed, k);
  }

  /** If the keys were exactly 1..n, they are exactly 1..n-1 after deleting any one of them. */
  lemma DeleteRenumberContiguous<T>(rows: seq<Row<T>>, k: int)
    requires forall i :: 0 <= i < |rows| ==> rows[i].id == i + 1
    requires 1 <= k <= |rows|
    ensures HasId(rows, k)
    ensures var r := DeleteRenumber(rows, k);
      |r| == |rows| - 1 && (forall i :: 0 <= i < |r| ==> r[i].id == i + 1) && MaxId(r) + 1 == |rows|
  {
    assert rows[k - 1].id == k;
    assert Find(rows, k).value == k - 1;
    DeleteRenumberRows(rows, k);
    var r := DeleteRenumber(rows, k);
    assert forall i :: 0 <= i < |r| ==> r[i].id == i + 1;
    if r != [] {
      MaxIdIsLast(r);
    }
  }
}
