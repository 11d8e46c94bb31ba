/**
 * The SystemNode table as the SQL engine sees it: rows keyed by their ID, the
 * two comparison operators the statements use, and the effect and affected-row
 * count of the UPDATE and DELETE statements the store issues.
 *
 * The affected-row count is the number of rows the WHERE clause matched (the
 * "found rows" reading of the count), so an UPDATE that writes values equal to
 * the stored ones still counts its row.
 */
module SystemNodeTable {
  import opened Wrappers
  import opened Json

  /** The eight columns the DAO writes besides ID, in the column order of the INSERT statement. */
  datatype Row = Row(
    ParentID: Option<int>,
    Name: string,
    Description: Option<string>,
    Notes: Option<string>,
    Tags: Option<Text>,
    Metadata: Option<Text>,
    Status: Option<string>,
    Importance: int)

  /** The table: at most one row per ID, since ID is the key. */
  type Table = map<int, Row>

  /** The nine WHERE parameters of the guarded UPDATE and DELETE: an ID and the eight column values. */
  datatype Where = Where(ID: Option<int>, values: Row)

  /** What executing a statement leaves behind: the new table and the affected-row count. */
  datatype Outcome = Outcome(table: Table, rowcount: nat)

  /** SQL `a = b`: NULL on either side is never a match. */
  predicate SqlEq<T(==)>(a: Option<T>, b: Option<T>)
    ensures SqlEq(a, b) <==> a.Some? && a == b
    ensures a.None? || b.None? ==> !SqlEq(a, b)
  {
    a.Some? && b.Some? && a.value == b.value
  }

  /** MySQL's null-safe `a <=> b`: NULL matches NULL. */
  predicate NullSafeEq<T(==)>(a: Option<T>, b: Option<T>)
    ensures NullSafeEq(a, b) <==> a == b
  {
    match (a, b)
    case (None, None) => true
    case (Some(x), Some(y)) => x == y
    case _ => false
  }

  /**
   * The WHERE clause of the guarded UPDATE and DELETE, column by column, against
   * the row stored under `id`. It holds exactly for the row under the WHERE's own
   * ID holding exactly its values; a NULL ID matches nothing.
   */
  predicate WhereMatches(id: int, row: Row, w: Where)
    ensures WhereMatches(id, row, w) <==> w.ID == Some(id) && row == w.values
  {
    && SqlEq(Some(id), w.ID)
    && NullSafeEq(row.ParentID, w.values.ParentID)
    && SqlEq(Some(row.Name), Some(w.values.Name))
    && NullSafeEq(row.Description, w.values.Description)
    && NullSafeEq(row.Notes, w.values.Notes)
    && NullSafeEq(row.Tags, w.values.Tags)
    && NullSafeEq(row.Metadata, w.values.Metadata)
    && NullSafeEq(row.Status, w.values.Status)
    && SqlEq(Some(row.Importance), Some(w.values.Importance))
  }

  /** A WHERE with a NULL ID matches nothing, because `ID = NULL` is never true. */
  lemma NullIdMatchesNothing(id: int, row: Row, values: Row)
    ensures !WhereMatches(id, row, Where(None, values))
  {
  }

  /** The IDs of the rows the WHERE clause selects. */
  function MatchedIds(table: Table, w: Where): set<int>
  {
    set id | id in table && WhereMatches(id, table[id], w)
  }

  /**
   * Whether the row named by the WHERE's ID exists and holds exactly the WHERE's
   * values: the same as some stored row satisfying the WHERE clause.
   */
  predicate GuardHolds(table: Table, w: Where)
    ensures GuardHolds(table, w) <==> exists id :: id in table && WhereMatches(id, table[id], w)
  {
    if w.ID.Some? && w.ID.value in table then
      assert WhereMatches(w.ID.value, table[w.ID.value], w) <==> table[w.ID.value] == w.values;
      table[w.ID.value] == w.values
    else
      false
  }

  /** At most one row is selected: the one under the WHERE's ID, when the guard holds. */
  lemma MatchedIdsCharacterized(table: Table, w: Where)
    ensures MatchedIds(table, w) == if GuardHolds(table, w) then {w.ID.value} else {}
    ensures |MatchedIds(table, w)| == if GuardHolds(table, w) then 1 else 0
  {
    var m := MatchedIds(table, w);
    forall id | id in m
      ensures GuardHolds(table, w) && id == w.ID.value
    {
    }
    if GuardHolds(table, w) {
      assert w.ID.value in m;
      assert m == {w.ID.value};
    } else {
      assert m == {};
    }
  }

  /**
   * `UPDATE SystemNode SET <values> WHERE <w>`: every selected row takes the new
   * values; the count is the number of rows selected.
   */
  function ExecUpdate(table: Table, values: Row, w: Where): (r: Outcome)
    ensures r.rowcount <= 1
    ensures r.rowcount == 1 <==> GuardHolds(table, w)
    ensures r.rowcount == 1 ==> r.table == table[w.ID.value := values]
    ensures r.rowcount == 0 ==> r.table == table
  {
    var m := MatchedIds(table, w);
    MatchedIdsCharacterized(table, w);
    Outcome(map id | id in table :: if id in m then values else table[id], |m|)
  }

  /** `DELETE FROM SystemNode WHERE <w>`: the selected rows go; the count is how many. */
  function ExecDelete(table: Table, w: Where): (r: Outcome)
    ensures r.rowcount <= 1
    ensures r.rowcount == 1 <==> GuardHolds(table, w)
    ensures r.rowcount == 1 ==> r.table == table - {w.ID.value}
    ensures r.rowcount == 0 ==> r.table == table
  {
    var m := MatchedIds(table, w);
    MatchedIdsCharacterized(table, w);
    Outcome(table - m, |m|)
  }

  /** `UPDATE SystemNode SET ParentID = <parent> WHERE ID = <id>`: no other column is read or written. */
  function ExecSetParent(table: Table, parent: Option<int>, id: int): (r: Outcome)
    ensures r.rowcount <= 1
    ensures r.rowcount == 1 <==> id in table
    ensures r.rowcount == 1 ==> r.table == table[id := table[id].(ParentID := parent)]
    ensures r.rowcount == 0 ==> r.table == table
  {
    var m := set k | k in table && k == id;
    assert m == if id in table then {id} else {};
    Outcome(map k | k in table :: if k in m then table[k].(ParentID := parent) else table[k], |m|)
  }
}
