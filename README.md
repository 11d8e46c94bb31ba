# SystemNode store and peg-palace sanity checker, in Dafny

This project models two parts of the System repository:

- **The SystemNode store.** `SystemNodeDAO` stores `SystemNode` records in one MySQL table.
  It offers `create`, `read`, a compare-and-set `update`, a compare-and-`delete` and
  `move_node`, an unconditional reparent. The table is modelled as a map from ID to the
  eight columns the DAO writes, plus the next AUTO_INCREMENT value. The SQL statements the DAO
  issues are modelled as pure functions on that map. Each function returns the new table
  and the affected-row count. The DAO class binds the parameters, runs the statement and
  compares the count with 1, as the Python code does.
- **The peg-palace sanity checker.** `SanityChecker` reads the Pegword, Pegsite and Pegdate
  tables and runs three checks: the peg sets match, the distinct counts are 1092/1092/366,
  and every name matches `^[a-z0-9\-]+$`. It records each check's name in a `passing` or a
  `failing` list, and `check` then clears both lists.

Files:

- `wrappers.dfy`: `Option`, used for Python's `Optional` and for SQL NULL.
- `json.dfy`: JSON values. Serialized text is kept abstract, so `Loads(Dumps(d)) == d`.
- `system_node.dfy`: the `SystemNode` record (`src/dao/system_node.py`).
- `system_node_table.dfy`: the SQL semantics of the table. This covers `=` against
  null-safe `<=>`, the WHERE clause of the guarded statements, and the effect and row
  count of UPDATE, DELETE and the ParentID-only UPDATE.
- `system_node_dao.dfy`: the DAO (`src/dao/system_node_dao.py`). It holds the Tags/Metadata
  encode and decode expressions, the parameter tuples, the `SystemNodeDAO` class, and the
  lemmas about the guard and the round trips.
- `sanity_checker.dfy`: the checker (`src/sanity_checker.py`).

What the store's code does, which the model follows:

- `move_node` (src/dao/system_node_dao.py:198-216) takes a node ID and a new parent and
  sets only `ParentID`. The DAO's SQL never reads or writes a `SortOrder` column, and
  nothing in the DAO keeps a sibling order or reorders by index. `app.py` reads a `SortOrder` field (app.py:91) and calls
  `move_node` with three arguments (app.py:267); the DAO has neither.
- The guard of `update` (src/dao/system_node_dao.py:114-123) and of `delete`
  (src/dao/system_node_dao.py:168-177) compares all nine columns: ID, ParentID, Name,
  Description, Notes, Tags text, Metadata text, Status and Importance.
- `create` (src/dao/system_node_dao.py:24-52) inserts the eight columns as given and
  computes no position among siblings.

Behaviour the proofs make explicit:

- The DAO writes an empty or absent dictionary as NULL and reads NULL back as `{}`.
  Reading a row and then calling `update` with that snapshot as `old` therefore succeeds
  for every row the DAO itself wrote (`ReadSnapshotPassesGuard`). It fails for a row whose
  text holds an empty document written by someone else (`EmptyTextSnapshotRejected`).
- A snapshot whose `ID` is None never matches, because `ID = NULL` is never true in SQL.
  `update` and `delete` then return False.
- `delete` does not look at children: they keep a dangling `ParentID`. `move_node` does not
  check the new parent: a node can become its own parent.
- The regex check can only be recorded as passing. A row with an invalid name is a dict,
  and putting it into a set raises `TypeError` before any failure can be recorded. In that
  case `check` ends with the exception and does not clear the two lists.

## Model

| member | source | states |
|---|---|---|
| `Node.DefaultNode` | src/dao/system_node.py:7-15 | A node built with no arguments has ID, ParentID, Description, Notes and Status absent, Name `""`, Importance 0, and empty Tags and Metadata dictionaries |
| `Node.NodeEqualityIsFieldwise` | src/dao/system_node.py:5-15 | Two nodes are equal iff all nine fields are equal |
| `Json.Dumps` | src/dao/system_node_dao.py:44-45 | Parsing serialized text gives back the dictionary that was serialized |
| `SystemNodeDao.EncodeDoc` | src/dao/system_node_dao.py:44-45 | Tags/Metadata are written as NULL exactly when the dictionary is absent or empty; otherwise the text parses back to the dictionary |
| `SystemNodeDao.DecodeDoc` | src/dao/system_node_dao.py:83-84 | A NULL column reads as `{}`; a text column reads as the document it holds |
| `SystemNodeDao.DocRoundTrip` | src/dao/system_node_dao.py:44-45 | Decoding what was encoded gives the dictionary back, with None read back as `{}` |
| `SystemNodeDao.NoneAndEmptyEncodeAlike` | src/dao/system_node_dao.py:44-45 | None and `{}` are both written as NULL |
| `SystemNodeDao.EncodeRow` | src/dao/system_node_dao.py:39-48 | The INSERT (and the SET of `update`, lines 128-137) writes ParentID, Name, Description, Notes, Status and Importance as they are and Tags/Metadata through the dictionary encoding; it never writes text holding an empty document, and the dictionaries read back from it are the node's own, absent read as `{}` |
| `SystemNodeDao.WhereOf` | src/dao/system_node_dao.py:138-148 | The nine WHERE parameters of `update` (and of `delete`, lines 179-189) select exactly the row under `old.ID` that holds what `old` encodes to, and no row when `old.ID` is None |
| `SystemNodeDao.DecodeRow` | src/dao/system_node_dao.py:77-87 | The node read from a row carries the row's ID, every plain column as stored and Tags/Metadata as the decoded documents (NULL as `{}`); re-encoding it gives the row back up to the Tags/Metadata text, and exactly when the row is well encoded |
| `SystemNodeDao.EncodeIgnoresId` | src/dao/system_node_dao.py:39-48 | The node's own ID is not among the written values |
| `SystemNodeDao.DefaultNodeWritesNulls` | src/dao/system_node_dao.py:39-48 | A default node is inserted with NULL ParentID, Description, Notes, Tags, Metadata and Status, Name `""` and Importance 0 |
| `SystemNodeDao.ReadBackAfterWrite` | src/dao/system_node_dao.py:77-87 | Reading a written row gives the written node back under its new ID, with absent Tags/Metadata read as `{}` |
| `SystemNodeDao.GuardIff` | src/dao/system_node_dao.py:114-123 | The update/delete guard holds iff the row `old.ID` exists and matches `old` null-safely on ParentID, Description, Notes, encoded Tags, encoded Metadata and Status, and exactly on Name and Importance |
| `SystemNodeDao.ReadSnapshotPassesGuard` | src/dao/system_node_dao.py:138-148 | A snapshot returned by `read` passes the guard while the row (as the DAO writes rows) is unchanged |
| `SystemNodeDao.EmptyTextSnapshotRejected` | src/dao/system_node_dao.py:144-145 | A row whose Tags text holds an empty document fails the guard against its own read-back snapshot |
| `SystemNodeDao.GuardTreatsNoneAsEmpty` | src/dao/system_node_dao.py:144-145 | Snapshots that differ only in Tags None versus `{}` are unequal as records but identical to the guard |
| `SystemNodeDao.StaleSnapshotRejected` | src/dao/system_node_dao.py:91-124 | Once an update has changed the row, a second update with the same snapshot as `old` affects no row |
| `SystemNodeDao.UpdateThenRead` | src/dao/system_node_dao.py:103-154 | After a successful update, the row reads back as `new` under `old.ID`, with absent Tags/Metadata read as `{}` and `new.ID` ignored |
| `SystemNodeDao.DeleteLeavesChildren` | src/dao/system_node_dao.py:166-177 | A successful delete removes only the matched row; a child keeps its ParentID, which now names no row |
| `SystemNodeDao.MoveCanMakeSelfParent` | src/dao/system_node_dao.py:207-211 | The reparent accepts any parent, including the node itself |
| `SystemNodeTable.SqlEq` | src/dao/system_node_dao.py:115 | SQL `=` holds iff both sides are non-NULL and equal; NULL on either side never matches |
| `SystemNodeTable.NullSafeEq` | src/dao/system_node_dao.py:116 | MySQL's `<=>` holds iff both sides are equal, NULL matching NULL |
| `SystemNodeTable.WhereMatches` | src/dao/system_node_dao.py:114-123 | The nine-column WHERE clause holds for a stored row iff its ID is the parameter ID and all eight columns equal the parameter values |
| `SystemNodeTable.GuardHolds` | src/dao/system_node_dao.py:168-177 | The guard (the row under the parameter ID exists and holds the parameter values) holds iff some stored row satisfies the WHERE clause |
| `SystemNodeTable.NullIdMatchesNothing` | src/dao/system_node_dao.py:115 | With a NULL ID parameter the WHERE clause matches no row |
| `SystemNodeTable.MatchedIdsCharacterized` | src/dao/system_node_dao.py:114-123 | The clause selects at most one row, the one under the parameter ID, and only when the guard holds |
| `SystemNodeTable.ExecUpdate` | src/dao/system_node_dao.py:103-154 | The guarded UPDATE affects one row iff the guard holds; then only that row takes the new values, and otherwise the table is unchanged |
| `SystemNodeTable.ExecDelete` | src/dao/system_node_dao.py:166-194 | The guarded DELETE affects one row iff the guard holds; then only that row is removed, and otherwise the table is unchanged |
| `SystemNodeTable.ExecSetParent` | src/dao/system_node_dao.py:207-216 | The ParentID-only UPDATE affects one row iff the ID exists; it changes only that row's ParentID |
| `SystemNodeDao.SystemNodeDAO.constructor` | src/dao/system_node_dao.py:9-19 | The store starts on an existing table whose IDs are below the next AUTO_INCREMENT value |
| `SystemNodeDao.SystemNodeDAO.Create` | src/dao/system_node_dao.py:24-52 | Adds exactly one row, under a fresh positive ID that it returns; existing rows are unchanged; reading that ID gives the node back normalised |
| `SystemNodeDao.SystemNodeDAO.Read` | src/dao/system_node_dao.py:56-87 | Returns None iff no row has the ID; otherwise returns the node decoded from the stored row: that ID, present Tags/Metadata, and re-encoding to the stored row when that row is well encoded |
| `SystemNodeDao.SystemNodeDAO.Update` | src/dao/system_node_dao.py:91-156 | Returns True iff the row `old.ID` exists and holds what `old` encodes to. On True only that row takes `new`'s eight fields and keeps its ID; on False nothing changes |
| `SystemNodeDao.SystemNodeDAO.Delete` | src/dao/system_node_dao.py:158-196 | Returns True iff the row `old.ID` exists and holds what `old` encodes to. On True only that row is removed; on False nothing changes |
| `SystemNodeDao.SystemNodeDAO.MoveNode` | src/dao/system_node_dao.py:198-218 | Returns True iff the row exists; only its ParentID changes, and all other fields and rows stay as they were |
| `SanityCheck.Pegs` | src/sanity_checker.py:31-33 | The peg set holds exactly the pegs that occur in the table |
| `SanityCheck.PegsAtMostRows` | src/sanity_checker.py:31-33 | Duplicates collapse: a table has no more distinct pegs than rows |
| `SanityCheck.PegsOfDistinctRows` | src/sanity_checker.py:31-33 | Rows with pairwise distinct pegs give exactly as many pegs as rows |
| `SanityCheck.PegsMatch` | src/sanity_checker.py:37 | pegs-match holds iff word pegs equal site pegs and every date peg is a word peg |
| `SanityCheck.PegsCount` | src/sanity_checker.py:42 | pegs-count can pass only with at least 1092 Pegword rows, 1092 Pegsite rows and 366 Pegdate rows |
| `SanityCheck.ValidName` | src/sanity_checker.py:45 | A name matches the regex iff, after dropping one trailing newline, it is one or more characters from `a`-`z`, `0`-`9` and `-` |
| `SanityCheck.ValidNameIff` | src/sanity_checker.py:45 | A match of one or more class characters ending where `$` may stand is exactly a name that, with one trailing newline dropped, is a non-empty run of class characters |
| `SanityCheck.ValidNameExamples` | src/sanity_checker.py:45 | `pegs-1` and `a` followed by a newline match; `Peg`, the empty name, a lone newline and two trailing newlines do not |
| `SanityCheck.NamesValid` | src/sanity_checker.py:46-50 | A row is valid iff every column the regex is applied to matches: `word`; `region` and `site`; `color` and `celebrity` |
| `SanityCheck.InvalidRows` | src/sanity_checker.py:46-50 | The collected set holds exactly the rows whose name columns fail the regex |
| `SanityCheck.AllNamesValid` | src/sanity_checker.py:46-50 | All rows are valid iff all three collected sets are empty |
| `SanityCheck.PegPalaceResults` | src/sanity_checker.py:26-55 | A run records three checks when nothing raises and two otherwise; the regex check is never recorded as failing |
| `SanityCheck.PassedNamesAppend` | src/sanity_checker.py:18-24 | The passing names of a run of checks are those of the first part followed by those of the rest |
| `SanityCheck.FailedNamesAppend` | src/sanity_checker.py:18-24 | The failing names of a run of checks are those of the first part followed by those of the rest |
| `SanityCheck.PassedFailedPartition` | src/sanity_checker.py:18-24 | Every recorded check lands in exactly the list its condition picks, and the two lists together are as long as the run |
| `SanityCheck.PegPalaceNamesInOrder` | src/sanity_checker.py:35-55 | When nothing raises, the names recorded are `pegword-pegsite-pegs-match`, `pegs-count` and `pegpalace-regex`, in that order, and pegpalace-regex passes |
| `SanityCheck.PegPalaceLists` | src/sanity_checker.py:35-55 | The passing list gains each check whose condition held and the failing list each check whose condition did not, in order |
| `SanityCheck.SanityChecker.constructor` | src/sanity_checker.py:7-10 | A new checker has empty passing and failing lists |
| `SanityCheck.SanityChecker.RecordCheck` | src/sanity_checker.py:18-24 | Appends the check name to `passing` if the condition holds and to `failing` otherwise, never both, and returns the condition |
| `SanityCheck.SanityChecker.CheckPegPalace` | src/sanity_checker.py:26-55 | Raises TypeError iff some row has an invalid name; appends the names of the checks it reached to the lists their conditions pick |
| `SanityCheck.SanityChecker.Check` | src/sanity_checker.py:12-16 | When nothing raises, both lists are empty afterwards; when TypeError is raised, they keep what the peg-palace run appended |

## Left out

- `app.py` is not part of this model. It holds Flask routing, JSON request parsing and HTTP status mapping. Its move endpoint calls a three-argument `move_node` and it reads a `SortOrder` attribute; the DAO has no such `move_node` and the record no such field.
- `test_api.py`, `src/second_brain.py`, `src/system.py`, `src/overdue_checker.py`, `src/sql_utils.py`, `src/sheets_helper.py`, `src/harbormaster.py` and `setup.py` are not part of this model. They are I/O scripts and wrappers outside the store and the checker.
- Sibling order (`SortOrder`), reorder-by-index, cycle checks and cascading deletes are not modelled, because the DAO has none of them.
- Connections, commit and close are not modelled. Each DAO call is one atomic step on the table, and there is no interleaving between callers.
- Storage failures (lost connections, constraint violations) are not modelled. In the source they propagate as exceptions.
- `lastrowid` is modelled as the AUTO_INCREMENT counter: a fresh positive ID above every existing one.
- The affected-row count is the number of matched rows. MySQL's default count is the number of changed rows. Under that default, an `update` whose new values equal the stored ones, and a `move_node` to the node's current parent, would return False. The model does not capture that.
- JSON text is abstract. Key order, whitespace, text holding something other than an object, and an empty-string column (which Python also reads as `{}`) are not modelled. Two texts compare equal exactly when their documents do.
- String comparisons are exact. MySQL's collation (for example case-insensitive `=`) is not modelled.
- Integers are unbounded. Column widths, the schema's NOT NULL and foreign-key constraints, and a NULL `Name` are not modelled.
- The record has no `SortOrder` field, so a construction that names one does not type-check. This is not stated as a separate lemma.
- "A fresh dictionary per instance" is an aliasing property. Dafny values are not shared, so it holds by construction.
- SanityChecker's `print` output and the `fail_msg` argument of `__check` are not modelled, since the message is only printed.
- Peg rows missing a column or holding None (KeyError or TypeError in the source) are not modelled. A row's shape is not tied to the table it sits in; each row is checked on its own columns. Pegs are integers. `db.all` is modelled as a fixed snapshot of the three tables.
