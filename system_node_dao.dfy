/**
 * The SystemNode data-access object: create, read, compare-and-set update,
 * compare-and-delete and an unconditional reparent, over the SystemNode table.
 */
module SystemNodeDao {
  import opened Wrappers
  import opened Json
  import opened Node
  import opened SystemNodeTable

  /** How Tags and Metadata are written: JSON text when the dictionary is non-empty, NULL when it is empty or absent. */
  function EncodeDoc(d: Option<Dict>): (t: Option<Text>)
    ensures t.None? <==> d.None? || d.value == map[]
    ensures t.Some? ==> Loads(t.value) == d.value
  {
    if d.Some? && d.value != map[] then Some(Dumps(d.value)) else None
  }

  /** How Tags and Metadata are read back: NULL becomes the empty dictionary, text is parsed. */
  function DecodeDoc(t: Option<Text>): (d: Dict)
    ensures t.None? ==> d == map[]
    ensures t.Some? ==> d == Loads(t.value)
  {
    if t.Some? then Loads(t.value) else map[]
  }

  /** Decoding what was encoded gives the dictionary back, with absent read as empty. */
  lemma DocRoundTrip(d: Option<Dict>)
    ensures DecodeDoc(EncodeDoc(d)) == d.GetOr(map[])
  {
  }

  /** None and `{}` are written identically, as NULL. */
  lemma NoneAndEmptyEncodeAlike()
    ensures EncodeDoc(None) == EncodeDoc(Some(map[])) == None
  {
  }

  /**
   * The eight values `create` binds for its INSERT, and `update` for its SET, in
   * column order: the plain fields as they are, the two dictionaries through
   * EncodeDoc. What is written never holds text for an empty document, and the
   * dictionaries read back from it are the node's own, with absent read as empty.
   */
  function EncodeRow(n: SystemNode): (r: Row)
    ensures WellEncoded(r)
    ensures DecodeDoc(r.Tags) == n.Tags.GetOr(map[]) && DecodeDoc(r.Metadata) == n.Metadata.GetOr(map[])
    ensures r.(Tags := None, Metadata := None) == Row(n.ParentID, n.Name, n.Description, n.Notes, None, None, n.Status, n.Importance)
  {
    Row(n.ParentID, n.Name, n.Description, n.Notes,
        EncodeDoc(n.Tags), EncodeDoc(n.Metadata), n.Status, n.Importance)
  }

  /**
   * The nine WHERE parameters `update` and `delete` bind for the snapshot `n`:
   * the clause selects exactly the row under the snapshot's ID that holds what
   * the snapshot encodes to, and nothing when the snapshot has no ID.
   */
  function WhereOf(n: SystemNode): (w: Where)
    ensures forall id, row :: WhereMatches(id, row, w) <==> n.ID == Some(id) && row == EncodeRow(n)
  {
    Where(n.ID, EncodeRow(n))
  }

  /** A row holds no text for an empty document; every row this store writes is like that. */
  predicate WellEncoded(row: Row)
  {
    && (row.Tags.Some? ==> Loads(row.Tags.value) != map[])
    && (row.Metadata.Some? ==> Loads(row.Metadata.value) != map[])
  }

  /** Every row of the table is well encoded. */
  predicate AllWellEncoded(t: Table)
  {
    forall id :: id in t ==> WellEncoded(t[id])
  }

  /**
   * The node `read` builds from the row stored under `id`: the ID column, the
   * dictionaries decoded, and every other column as stored, so that encoding it
   * again gives the row back up to the text of the two documents, and exactly
   * when the row is well encoded.
   */
  function DecodeRow(id: int, row: Row): (n: SystemNode)
    ensures n.ID == Some(id)
    ensures n.Tags == Some(DecodeDoc(row.Tags)) && n.Metadata == Some(DecodeDoc(row.Metadata))
    ensures EncodeRow(n).(Tags := row.Tags, Metadata := row.Metadata) == row
    ensures WellEncoded(row) ==> EncodeRow(n) == row
  {
    SystemNode(Some(id), row.ParentID, row.Name, row.Description, row.Notes,
               Some(DecodeDoc(row.Tags)), Some(DecodeDoc(row.Metadata)), row.Status, row.Importance)
  }

  /** The node with absent Tags and Metadata replaced by empty dictionaries: what a write followed by a read gives back. */
  function Normalized(n: SystemNode): (m: SystemNode)
    ensures m.Tags == Some(n.Tags.GetOr(map[])) && m.Metadata == Some(n.Metadata.GetOr(map[]))
    ensures m.(Tags := n.Tags, Metadata := n.Metadata) == n
  {
    n.(Tags := Some(n.Tags.GetOr(map[])), Metadata := Some(n.Metadata.GetOr(map[])))
  }

  /** The node's own ID is never written. */
  lemma EncodeIgnoresId(n: SystemNode, id: Option<int>)
    ensures EncodeRow(n.(ID := id)) == EncodeRow(n)
  {
  }

  /** A node built with no arguments is written with NULL Tags and Metadata. */
  lemma DefaultNodeWritesNulls()
    ensures EncodeRow(DefaultNode()) == Row(None, "", None, None, None, None, None, 0)
  {
  }

  /** Reading a written row gives the written node back under its new ID, with absent dictionaries read as empty. */
  lemma ReadBackAfterWrite(id: int, n: SystemNode)
    ensures DecodeRow(id, EncodeRow(n)) == Normalized(n).(ID := Some(id))
  {
    DocRoundTrip(n.Tags);
    DocRoundTrip(n.Metadata);
  }

  /**
   * The compare-and-set guard: the row under `snapshot.ID` exists and matches the
   * snapshot null-safely on ParentID, Description, Notes, the encoded Tags and
   * Metadata text and Status, and exactly on Name and Importance.
   */
  lemma GuardIff(table: Table, snapshot: SystemNode)
    ensures GuardHolds(table, WhereOf(snapshot)) <==>
      && snapshot.ID.Some? && snapshot.ID.value in table
      && var row := table[snapshot.ID.value];
      && NullSafeEq(row.ParentID, snapshot.ParentID)
      && SqlEq(Some(row.Name), Some(snapshot.Name))
      && NullSafeEq(row.Description, snapshot.Description)
      && NullSafeEq(row.Notes, snapshot.Notes)
      && NullSafeEq(row.Tags, EncodeDoc(snapshot.Tags))
      && NullSafeEq(row.Metadata, EncodeDoc(snapshot.Metadata))
      && NullSafeEq(row.Status, snapshot.Status)
      && SqlEq(Some(row.Importance), Some(snapshot.Importance))
  {
  }

  /** A snapshot taken by `read` passes the guard as long as the row has not changed since. */
  lemma ReadSnapshotPassesGuard(table: Table, id: int)
    requires id in table && WellEncoded(table[id])
    ensures GuardHolds(table, WhereOf(DecodeRow(id, table[id])))
  {
  }

  /**
   * A row whose Tags text holds an empty document (written by some other
   * writer) reads back as `{}`, which the guard encodes as NULL: the unchanged
   * snapshot is rejected.
   */
  lemma EmptyTextSnapshotRejected(table: Table, id: int)
    requires id in table && table[id].Tags == Some(Dumps(map[]))
    ensures !GuardHolds(table, WhereOf(DecodeRow(id, table[id])))
  {
    var n := DecodeRow(id, table[id]);
    assert n.Tags == Some(map[]);
    assert EncodeDoc(n.Tags) == None;
  }

  /** Nodes that differ only in None versus `{}` for Tags are indistinguishable to the guard. */
  lemma GuardTreatsNoneAsEmpty(n: SystemNode)
    ensures WhereOf(n.(Tags := None)) == WhereOf(n.(Tags := Some(map[])))
    ensures n.(Tags := None) != n.(Tags := Some(map[]))
  {
  }

  /**
   * The point of the guard: once an update has changed the row, a second
   * update with the same, now stale, snapshot is rejected.
   */
  lemma StaleSnapshotRejected(table: Table, snapshot: SystemNode, next: SystemNode, other: SystemNode)
    requires GuardHolds(table, WhereOf(snapshot))
    requires EncodeRow(next) != EncodeRow(snapshot)
    ensures var t := ExecUpdate(table, EncodeRow(next), WhereOf(snapshot)).table;
      ExecUpdate(t, EncodeRow(other), WhereOf(snapshot)).rowcount == 0
  {
  }

  /** After a successful update, reading the row gives the new node under the old ID, normalised. */
  lemma UpdateThenRead(table: Table, snapshot: SystemNode, next: SystemNode)
    requires GuardHolds(table, WhereOf(snapshot))
    ensures var t := ExecUpdate(table, EncodeRow(next), WhereOf(snapshot)).table;
      snapshot.ID.value in t && DecodeRow(snapshot.ID.value, t[snapshot.ID.value]) == Normalized(next).(ID := snapshot.ID)
  {
    ReadBackAfterWrite(snapshot.ID.value, next);
  }

  /** A successful delete does not look at children: they stay, pointing at an ID no row has. */
  lemma DeleteLeavesChildren(table: Table, snapshot: SystemNode, child: int)
    requires GuardHolds(table, WhereOf(snapshot))
    requires child in table && table[child].ParentID == snapshot.ID && child != snapshot.ID.value
    ensures var r := ExecDelete(table, WhereOf(snapshot));
      && r.rowcount == 1 && snapshot.ID.value !in r.table
      && child in r.table && r.table[child].ParentID == snapshot.ID
  {
  }

  /** Reparenting checks nothing about the new parent: a node can be made its own parent. */
  lemma MoveCanMakeSelfParent(table: Table, id: int)
    requires id in table
    ensures var r := ExecSetParent(table, Some(id), id);
      r.rowcount == 1 && r.table[id].ParentID == Some(id)
  {
  }

  /**
   * The store: the table's rows and the next AUTO_INCREMENT value, standing for
   * the database the connection settings reach.
   */
  class SystemNodeDAO {
    var rows: Table
    var nextId: int

    /** The next AUTO_INCREMENT value is positive and above every stored ID. */
    ghost predicate Valid()
      reads this
    {
      0 < nextId && forall id :: id in rows ==> id < nextId
    }

    constructor (table: Table, autoIncrement: int)
      requires 0 < autoIncrement && forall id :: id in table ==> id < autoIncrement
      ensures Valid() && rows == table && nextId == autoIncrement
    {
      rows := table;
      nextId := autoIncrement;
    }

    /** `create`: inserts the node's eight fields under a fresh ID and returns that ID. */
    method Create(node: SystemNode) returns (newId: int)
      requires Valid()
      modifies this
      ensures Valid()
      ensures 0 < newId && newId !in old(rows)
      ensures rows == old(rows)[newId := EncodeRow(node)]
      ensures Read(newId) == Some(Normalized(node).(ID := Some(newId)))
      ensures AllWellEncoded(old(rows)) ==> AllWellEncoded(rows)
    {
      var values := EncodeRow(node);
      newId := nextId;
      rows := rows[newId := values];
      nextId := nextId + 1;
      ReadBackAfterWrite(newId, node);
    }

    /** `read`: the node stored under `nodeId`, or None when there is none. */
    function Read(nodeId: int): (r: Option<SystemNode>)
      reads this
      ensures r.None? <==> nodeId !in rows
      ensures r.Some? ==> r.value == DecodeRow(nodeId, rows[nodeId])
      ensures r.Some? ==> r.value.ID == Some(nodeId) && r.value.Tags.Some? && r.value.Metadata.Some?
      ensures r.Some? && WellEncoded(rows[nodeId]) ==> EncodeRow(r.value) == rows[nodeId]
    {
      if nodeId in rows then Some(DecodeRow(nodeId, rows[nodeId])) else None
    }

    /**
     * `update`: compare-and-set. Succeeds iff the row under `oldNode.ID` still
     * holds what `oldNode` encodes to; then that row takes `newNode`'s eight
     * fields and keeps its ID. `newNode.ID` is not used.
     */
    method Update(oldNode: SystemNode, newNode: SystemNode) returns (ok: bool)
      requires Valid()
      modifies this
      ensures Valid() && nextId == old(nextId)
      ensures ok <==> oldNode.ID.Some? && oldNode.ID.value in old(rows)
                      && old(rows)[oldNode.ID.value] == EncodeRow(oldNode)
      ensures rows == if ok then old(rows)[oldNode.ID.value := EncodeRow(newNode)] else old(rows)
      ensures AllWellEncoded(old(rows)) ==> AllWellEncoded(rows)
    {
      var r := ExecUpdate(rows, EncodeRow(newNode), WhereOf(oldNode));
      rows := r.table;
      ok := r.rowcount == 1;
    }

    /**
     * `delete`: compare-and-delete by the same guard. Only the matched row goes;
     * its children are not looked at.
     */
    method Delete(oldNode: SystemNode) returns (ok: bool)
      requires Valid()
      modifies this
      ensures Valid() && nextId == old(nextId)
      ensures ok <==> oldNode.ID.Some? && oldNode.ID.value in old(rows)
                      && old(rows)[oldNode.ID.value] == EncodeRow(oldNode)
      ensures rows == if ok then old(rows) - {oldNode.ID.value} else old(rows)
      ensures AllWellEncoded(old(rows)) ==> AllWellEncoded(rows)
    {
      var r := ExecDelete(rows, WhereOf(oldNode));
      rows := r.table;
      ok := r.rowcount == 1;
    }

    /** `move_node`: sets only ParentID of row `nodeId`, with no other check; succeeds iff the row exists. */
    method MoveNode(nodeId: int, newParentId: Option<int>) returns (ok: bool)
      requires Valid()
      modifies this
      ensures Valid() && nextId == old(nextId)
      ensures ok <==> nodeId in old(rows)
      ensures rows == if ok then old(rows)[nodeId := old(rows)[nodeId].(ParentID := newParentId)] else old(rows)
      ensures AllWellEncoded(old(rows)) ==> AllWellEncoded(rows)
    {
      var r := ExecSetParent(rows, newParentId, nodeId);
      rows := r.table;
      ok := r.rowcount == 1;
    }
  }
}
