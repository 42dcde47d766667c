# qgis-versioning engine, modelled in Dafny

This project models the versioning engine of `versioning_base.py`. The
engine keeps the history of a PostGIS schema in the rows themselves: each
row carries, per branch, `rev_begin`, `rev_end`, `parent` and `child`
columns, and a `revisions` table logs one number per commit, shared by all
branches. Users check out a SpatiaLite working copy pinned at a revision,
edit it through INSTEAD OF triggers, `update` it onto the branch head
(recording conflicts), and `commit` their edits back as the next revision.

The model keeps the meaning of each SQL statement and drops its text:

- a table is a `map<Fid, Row>`; a row holds its attributes and a `Life`
  per branch, with NULL as `None` (`lifecycle.dfy`);
- the revision log is a sequence of `Revision` records (`revision_log.dfy`);
- the server is the class `Repository.Server`, whose methods `AddBranch`,
  `Historize`, `AddRevisionView` and `Revisions` change or read its
  schemas and views (`repository.dfy`);
- the working copy is the class `WorkingCopies.WorkingCopy`, with its pins
  (the `initial_revision` table), its tables and its conflict tables; its
  methods are the edit triggers, conflict resolution, `late`, `revision`,
  `update` and `commit` (`working_copy.dfy`);
- each operation is specified by a pure function of the old state
  (`AfterAddBranch`, `AfterUpdate`, `AfterCommit`, `AfterCheckout`, ...),
  and the methods are proved to produce exactly that function's result;
  the properties of the engine are proved as lemmas about those functions.

A row is visible at the head of a branch when `rev_begin` is set and
`rev_end` is NULL. It is visible at revision `n` when `rev_begin <= n`
and `rev_end` is NULL or `>= n`, so `rev_end` is the last revision in which
the row is alive. An edit of a row older than the pin closes it with
`rev_end = pin` and starts its successor at `pin + 1`.

`quote_ident` is modelled as the code behaves, not as its doc-comment
says: `ident.find(' ')` is falsy only when the name starts with a space,
so every other name is quoted.

## Model

| member | source | states |
|---|---|---|
| Names.EscapeQuote | versioning_base.py:12-14 | the escaped text has one extra character per `'`, every `'` in it is doubled, and text without `'` is unchanged |
| Names.EscapeQuoteRoundTrip | versioning_base.py:12-14 | un-doubling the quotes of the escaped text gives the original text back |
| Names.Find | versioning_base.py:16-21 | `str.find`: -1 exactly when the character is absent, otherwise the index of its first occurrence |
| Names.QuoteIdentBehaviour | versioning_base.py:16-21 | a name is left as is exactly when it starts with a space; every other name is wrapped in double quotes |
| Geometry.PgGeom | versioning_base.py:140-161 | no column gives `''`; one column gives it; several columns give the override if it is listed and an error if not, else `geometry` if listed and an error if not |
| Geometry.PgGeomChoosesListedColumn | versioning_base.py:140-161 | a chosen non-empty column is one of the table's columns; `''` only for a table without one; an error only with several columns |
| Names.NatToString | versioning_base.py:1014 | `str(rev)` is a non-empty string of decimal digits |
| Names.NatToStringRoundTrip | versioning_base.py:1014 | reading the digits of `str(rev)` back gives `rev` |
| Names.RevSchemaIsNotHeadSchema | versioning_base.py:922 | a revision schema name `schema_branch_rev_N` is never a head schema name `schema_branch_rev_head` |
| Names.RevSchemaNameDeterminesRevision | versioning_base.py:1014 | two revision schemas of the same schema and branch have the same name only for the same revision |
| Names.DiffSchemaName | versioning_base.py:393-394 | the diff schema name of `update` is `schema_branch_` followed by `Names.DiffRange` (`rev_to_maxrev_diff`), so it ends with `_diff` |
| Names.DiffRangeDeterminesRevisions | versioning_base.py:393-394 | `str(rev) + "_to_" + str(max_rev) + "_diff"` is the same text only for the same pair of revisions |
| Names.DiffSchemaNameDeterminesRevisions | versioning_base.py:393-394 | the name `schema_branch_rev_to_maxrev_diff` is the same for a schema and branch exactly when both revisions are the same |
| Names.RPartitionSplits | versioning_base.py:199 | `rpartition('_')` splits at the last underscore: the tail has none and the parts joined by `_` give the input; without an underscore the head is empty |
| Names.SplitHeadSchemaRoundTrip | versioning_base.py:189-199 | a head schema name built from `schema` and an underscore-free `branch` ends in `_rev_head`, and checkout's split gives back `(schema, branch)` |
| Names.SplitHeadSchemaSound | versioning_base.py:189-199 | every `_rev_head` name splits into an underscore-free branch and a schema that rebuild it, or into an empty schema when the prefix has no underscore |
| Names.StripConflictsSuffix | versioning_base.py:173 | `[:-10]` drops the last ten characters, and gives the empty string on a shorter name |
| Names.ConflictTableNameRoundTrip | versioning_base.py:167-173 | a layer's conflict table matches `LIKE '%_conflicts'` and stripping the suffix gives the layer name |
| Names.LikeConflictsIsWider | versioning_base.py:167-173 | every name made of a layer, any one character and `conflicts` in any case matches `LIKE '%_conflicts'` and is reported as that layer; it is the layer's conflict table exactly when the character is `_` and the word lower-case |
| Names.ParseTableNameSound | versioning_base.py:188-193 | an accepted `schema.table` is split at its only dot into two non-empty parts, the schema ending in `_rev_head` |
| Names.ParseTableNameComplete | versioning_base.py:188-193 | every dot-free non-empty schema ending in `_rev_head` and dot-free non-empty table is accepted as itself |
| Common.MaxOrNull | versioning_base.py:375-377 | SQL `MAX`: NULL exactly for an empty set, otherwise a member no smaller than any other |
| Common.MaxOrZero | versioning_base.py:206-211 | `MAX(pk)` with NULL read as 0: 0 for an empty set, otherwise the largest member |
| Common.Ascending | versioning_base.py:501-505 | the conflicting keys listed once each, in increasing order |
| RevisionLog.Revs | versioning_base.py:1061-1069 | the revision numbers are exactly those of the log's records |
| RevisionLog.MaxRev | versioning_base.py:911-914 | `MAX(rev)` read as 0 on an empty log: no record is above it, and it is a logged revision when the log is not empty |
| RevisionLog.Branches | versioning_base.py:1056-1059 | `pg_branches`: exactly the branches that have a record |
| RevisionLog.BranchRevs | versioning_base.py:375-377 | the revisions recorded on one branch, and only those |
| RevisionLog.BranchHead | versioning_base.py:375-377 | the branch's `MAX(rev)`: none exactly for an unknown branch, otherwise its largest revision, never above the log's maximum |
| RevisionLog.BranchRevsEmpty | versioning_base.py:901-910 | a branch has no revision exactly when it has no record |
| RevisionLog.BranchRevsAppend | versioning_base.py:920-921 | appending a record adds its revision to its own branch only |
| RevisionLog.CheckNewBranch | versioning_base.py:901-917 | `add_branch`'s checks: existing branch, missing base branch (not for `trunk`), base revision outside `1..max_rev`, each iff its condition; otherwise the new number `max_rev + 1`, which is not yet in the log |
| RevisionLog.Allocate | versioning_base.py:773-780 | commit records revision `pin + 1` only if it is absent; afterwards it is present |
| RevisionLog.AllocateNewest | versioning_base.py:773-780 | recording a revision above every logged one appends it on its branch, and it becomes that branch's head and the log's `MAX(rev)` |
| RevisionLog.AllocateOnce | versioning_base.py:773-780 | recording the same revision twice has the effect of recording it once, and adds at most one record |
| RevisionLog.SequentialRevs | versioning_base.py:884-889 | in a log numbered by the `serial` sequence, the revisions are exactly `1..length` and the maximum is the length |
| RevisionLog.AddBranchKeepsSequential | versioning_base.py:915-921 | the record `add_branch` appends keeps the log numbered `1..n` |
| RevisionLog.AllocateKeepsSequential | versioning_base.py:773-780 | commit's record keeps the log numbered `1..n`, and the maximum grows by one exactly when the pin was the maximum |
| Lifecycle.WithLife | versioning_base.py:951-959 | setting one branch's columns changes that branch's lifecycle only, and keeps the attributes |
| Lifecycle.HeadView | versioning_base.py:987-991 | the head view holds exactly the rows with `rev_begin` set and `rev_end` NULL, with their attributes |
| Lifecycle.RevisionView | versioning_base.py:1047-1051 | the revision-N view holds exactly the rows with `rev_begin <= N` and `rev_end` NULL or `>= N`, with their attributes |
| Lifecycle.SupersededRowHandsOver | versioning_base.py:292-306 | a version closed at the pin and its successor begun at `pin + 1` are never visible at the same revision: the old one up to the pin, the new one after it |
| Lifecycle.HeadViewIsNewestRevision | versioning_base.py:1047-1051 | when no row begins after `m` or ends at or after `m`, the head view equals the revision-m view |
| Lifecycle.Diff | versioning_base.py:722-726 | the diff holds exactly the rows with `rev_end = pin` or `rev_begin > pin`, unchanged |
| Lifecycle.MaxFid | versioning_base.py:276-278 | `max(MAX(OGC_FID), max_pk)`: no key above it, and it is `max_pk` or a key of the table |
| Lifecycle.NextFid | versioning_base.py:276-278 | the key an insert takes is above every local key and above `max_pk` |
| Lifecycle.MaxFidAfterInsert | versioning_base.py:292-306 | after the insert, the trigger's second `max_fid_sub` is the new row's key, so `child` names the new version |
| Edits.ForgetChild | versioning_base.py:341-345 | clearing the `child` that names a key touches only that link: keys, attributes and the other lifecycle columns stay |
| Edits.InsertRowEffect | versioning_base.py:321-327 | an insert adds the new key above `max_pk` and every local key, the head view gains exactly that row, and no other row changes |
| Edits.UpdateOldRowEffect | versioning_base.py:292-306 | updating a row older than the pin adds a version begun at `pin + 1` whose parent is the old row, and closes the old row at the pin with `child` the new key; the head view swaps the two |
| Edits.UpdateNewRowEffect | versioning_base.py:308-319 | updating a row created since the pin replaces it in place, keeps its parent, and changes the head view at that key only |
| Edits.DeleteRowEffect | versioning_base.py:329-349 | deleting removes the row from the head view only: an old row is closed at the pin, a new one is removed |
| Edits.InsertKeepsPastRevisions | versioning_base.py:321-327 | an insert changes no revision view at or before the pin |
| Edits.SameRevisionView | versioning_base.py:1047-1051 | two tables with the same visible rows at revision `n` have the same revision-n view |
| Edits.UpdateKeepsPastRevisions | versioning_base.py:292-319 | an update changes no revision view at or before the pin |
| Edits.DeleteKeepsPastRevisions | versioning_base.py:329-349 | a delete changes no revision view at or before the pin |
| Edits.DeleteAsWrittenLeavesDanglingChild | versioning_base.py:341-345 | as written, deleting a row created since the pin leaves its predecessor's `child` naming a key that no longer exists |
| Edits.DeleteSuccessorClosesPredecessor | versioning_base.py:341-345 | corrected, the same delete clears the predecessor's link and leaves it closed at the pin, so the pair reads as a deletion |
| Repository.ViewRows | versioning_base.py:987-991 | rows are read only through a view schema that exists |
| Repository.BranchStart | versioning_base.py:960-976 | a new branch starts every row on `trunk`; from `head`, exactly the base branch's head rows; from revision `n`, exactly the rows visible at `n` on the base branch (the corrected condition, see Findings) |
| Repository.BranchStartAsWrittenMissesRevision | versioning_base.py:971-976 | as written, branching from revision 1 drops a row closed at 1 (alive at 1) and takes its successor begun at 2 |
| Repository.InitBranch | versioning_base.py:951-976 | every row of a table gets the new branch's columns, begun per the base branch and otherwise NULL |
| Repository.InitLayers | versioning_base.py:939-976 | every table of the schema gets the new branch's columns |
| Repository.AfterAddBranch | versioning_base.py:894-993 | adding a branch fails on an unknown schema; success means the checks passed and the head schema name was free |
| Repository.AddBranchEffect | versioning_base.py:920-991 | a new branch logs `max_rev + 1` on that branch, makes it the branch's head, adds its head views, keeps every table and every other branch's columns, and touches no other schema |
| Repository.TrunkStartsWithEveryRow | versioning_base.py:960-963 | after `historize`'s `trunk`, the head view of each table shows every row |
| Repository.BranchFromHeadCopiesHead | versioning_base.py:964-969 | a branch made from `head` shows, at its head, exactly the base branch's head view |
| Repository.BranchFromRevisionCopiesRevision | versioning_base.py:970-976 | a branch made from revision `n` shows, at its head, exactly the base branch's revision-n view |
| Repository.AfterHistorize | versioning_base.py:878-892 | `historize` fails without a schema name, on an unknown schema, and on one already versioned; on success the log is the one `trunk` record of revision 1; a failing `add_branch` leaves the created empty log |
| Repository.AfterAddRevisionView | versioning_base.py:995-1054 | fails on an unknown branch and exactly on a revision outside `1..max_rev`; is a no-op when the revision schema exists; otherwise adds exactly that schema's views |
| Repository.AddRevisionViewIdempotent | versioning_base.py:1016-1020 | adding the same revision view twice equals adding it once |
| Repository.AddRevisionViewShowsRevision | versioning_base.py:1047-1051 | the revision schema's view of a table is the table's revision-N view on that branch |
| Repository.Server.constructor | versioning_base.py:882 | wraps an existing database: the server object starts as the given state |
| Repository.Server.AddBranch | versioning_base.py:894-993 | the server's new state and outcome are those of `AfterAddBranch` (with the corrected branch start); a failure changes nothing |
| Repository.Server.Historize | versioning_base.py:878-892 | the server's new state and outcome are those of `AfterHistorize` |
| Repository.Server.AddRevisionView | versioning_base.py:995-1054 | the server's new state and outcome are those of `AfterAddRevisionView`; a failure changes nothing |
| Repository.Server.Revisions | versioning_base.py:1061-1069 | the revision numbers in log order, one per record; unknown schema is an error |
| Repository.RevisionsOfSequentialLog | versioning_base.py:1061-1069 | on a log numbered by the sequence, `revisions` lists `1, 2, ..., n` |
| WorkingState.PinOf | versioning_base.py:279-280 | the pin of a table when it has one, and none exactly when no pin names it |
| WorkingState.UnresolvedNamesConflictedLayers | versioning_base.py:163-176 | a layer with a pending conflict is reported; nothing is reported exactly when every conflict table is empty and no non-empty table is named like one |
| WorkingState.LateFrom | versioning_base.py:634-641 | the fold fails only on a missing log or a branch without revisions |
| WorkingState.LateFromOk | versioning_base.py:634-641 | the fold succeeds exactly when every pin's branch has a head |
| WorkingState.LateFromBounds | versioning_base.py:634-641 | the fold's result is at least the start value and every pin's lag |
| WorkingState.LateFromAttained | versioning_base.py:634-641 | the fold's result is the start value or some pin's lag |
| WorkingState.LateZeroIffUpToDate | versioning_base.py:625-643 | `late` is 0 exactly when no pin is behind its branch head, and otherwise the largest lag |
| WorkingState.PinRevs | versioning_base.py:648 | the `rev` of each pin, in order |
| WorkingState.CommonRevClash | versioning_base.py:649-654 | the loop of `revision` fails exactly when a non-zero revision is followed by a different one (0 included, so `[5, 0]` fails); otherwise every non-zero revision equals the result, which is 0 only when all are 0 |
| WorkingState.RevisionOfPins | versioning_base.py:645-656 | `revision` fails exactly when a non-zero pin is followed by a different one (0 included); otherwise every non-zero pin is the result minus one, and it is `rev + 1` when every pin is `rev` |
| Checkout.ParseNames | versioning_base.py:188-193 | on success, one pair per name, each the parse of its name |
| Checkout.ParseNamesStopsAtFirstBadName | versioning_base.py:188-193 | a failure is the error of the first name that does not parse, all names before it parsing |
| Checkout.TableNamesHas | versioning_base.py:228-253 | every pinned table is among the pinned table names |
| Checkout.NamePin | versioning_base.py:197-233 | a pin is for the schema and branch of the head schema, at the log's global `MAX(rev)` and the table's largest key, for a table not pinned yet; it fails exactly when one of these fails, with the error of the first: unknown schema, empty log, missing table, table already pinned, branch without revisions |
| Checkout.TableNamesAppend | versioning_base.py:228-253 | pinning one more table adds exactly its name to the pinned names |
| Checkout.ReadyStep | versioning_base.py:197-253 | the checkout conditions hold for a list of names exactly when they hold for its first name and for the rest, with the first table added to the pinned names |
| Checkout.CheckoutPinsOk | versioning_base.py:197-253 | the pin loop succeeds exactly when every name can be pinned and no table is named twice or already pinned |
| Checkout.CheckoutSucceeds | versioning_base.py:186-253 | checkout succeeds exactly when the file does not exist, every name parses, every named layer can be pinned, and no table is named twice |
| Checkout.TablesOf | versioning_base.py:216-246 | the copied tables are exactly tables of pinned layers |
| Checkout.CheckoutPinsShape | versioning_base.py:197-253 | the loop appends one pin per name after the earlier ones |
| Checkout.CheckoutPinsStep | versioning_base.py:197-253 | a successful loop pins the first name and continues with the rest |
| Checkout.CheckoutPinsTurn | versioning_base.py:197-253 | one turn: a failing name ends the loop with its error, otherwise the loop goes on with the new pin |
| Checkout.CheckoutFirstPin | versioning_base.py:197-253 | the first new pin is the one its name asks for |
| Checkout.PinnedLater | versioning_base.py:197-253 | a pin found for a later name stays in place when earlier pins precede it |
| Checkout.CheckoutPinAt | versioning_base.py:197-253 | every name's pin sits at its position |
| Checkout.TablesOfPins | versioning_base.py:216-246 | a pinned table's copy is the server's table, all branches' columns included |
| Checkout.CheckoutPinIsNew | versioning_base.py:228-253 | no two names pin the same table |
| Checkout.CheckoutPinIsFor | versioning_base.py:197-233 | each name's pin is for the schema, branch and table it names |
| Checkout.CheckoutCopiesTable | versioning_base.py:216-246 | each pinned table's local copy is the server's table |
| Checkout.CheckoutCopiesServer | versioning_base.py:186-253 | an existing file is refused; a checkout pins each name once, for what it names, copies its table and starts without conflicts |
| Checkout.CheckoutIsNotLate | versioning_base.py:202-203 | a fresh working copy is not late: the global `MAX(rev)` is never below a branch's head |
| Conflicts.Filter | versioning_base.py:610-611 | a `DELETE ... WHERE` keeps exactly the entries that do not match, and no more |
| Conflicts.ConflictFids | versioning_base.py:501-505 | a key conflicts iff it is in the local table and the diff with `child` values that differ in SQL (in the NULL-aware variant, also when one side is NULL) |
| Conflicts.NullAwareAddsDeleteAgainstEdit | versioning_base.py:1403-1407 | the NULL-aware test finds every SQLite conflict, and adds exactly the keys deleted on one side and replaced on the other |
| Conflicts.ModifiedEntries | versioning_base.py:514-525 | a `modified` entry is the `child` of a conflicting key on its side, keyed by its parent |
| Conflicts.DeletedEntries | versioning_base.py:528-543 | a `deleted` entry is a conflicting key without `child` on its side, keyed by its own key |
| Conflicts.InitialEntriesOfConflict | versioning_base.py:512-543 | every first entry belongs to a conflicting key, mine from the local table and theirs from the diff; SQLite finds only `modified` entries |
| Conflicts.ModifiedEntriesHas | versioning_base.py:514-525 | a conflicting key with a `child` on its side has a `modified` entry for that child, keyed by the conflicting key |
| Conflicts.DeletedEntriesHas | versioning_base.py:528-543 | a conflicting key without a `child` on its side has a `deleted` entry for itself |
| Conflicts.SideEntry | versioning_base.py:512-543 | on one side, each conflicting key has an entry under its id, `modified` exactly when it has a `child` |
| Conflicts.InitialEntriesComplete | versioning_base.py:512-543 | every conflicting key has both a `mine` and a `theirs` first entry under its id, each `modified` exactly when that side has a `child`; in SQLite both sides have one |
| Conflicts.InitialTheirsFromDiff | versioning_base.py:512-543 | every first entry of theirs is a row of the diff and has a conflict id |
| Conflicts.PendingEntries | versioning_base.py:548-550 | the selection is no longer than the table; which entries it holds is stated by `Conflicts.PendingEntriesMembers` |
| Conflicts.PendingEntriesMembers | versioning_base.py:548-550 | the loop selects exactly the `theirs` `modified` entries with a `child` |
| Conflicts.WithoutFid | versioning_base.py:556-557 | the delete keeps no more entries than it had; which entries remain is stated by `Conflicts.WithoutFidMembers` |
| Conflicts.WithoutFidMembers | versioning_base.py:556-557 | the delete removes exactly the entries of that key |
| Conflicts.ChaseStep | versioning_base.py:555-569 | replacing an entry fails exactly when it has no conflict id |
| Conflicts.ChaseStepMembers | versioning_base.py:555-569 | the entry is replaced by its child from the diff, under the same conflict id, labelled by the child's state; other keys stay |
| Conflicts.Chase | versioning_base.py:547-569 | when the loop ends, no `theirs` `modified` entry has a child |
| Conflicts.ReplaceByChildren | versioning_base.py:555-569 | the inner loop computes one round of replacements |
| Conflicts.ChaseTurn | versioning_base.py:547-569 | one round of the outer loop: a failing round ends it, otherwise the loop goes on with the new entries |
| Conflicts.FollowChildren | versioning_base.py:547-569 | the outer loop computes the chase, and leaves no pending entry |
| Conflicts.RoundOk | versioning_base.py:555-569 | a round over entries with conflict ids succeeds |
| Conflicts.RoundSource | versioning_base.py:555-569 | every entry after a round was there before under a key the round did not touch, or is the child from the diff of one it replaced |
| Conflicts.SpanDropsLowest | versioning_base.py:547-569 | when every new pending key is above some old one, the range of keys still to visit shrinks |
| Conflicts.RoundNarrowsSpan | versioning_base.py:547-569 | with children numbered above their parents, each round succeeds and shrinks the range of keys still to visit |
| Conflicts.ChaseFinishes | versioning_base.py:547-569 | with forward children the loop ends within the size of the diff |
| Conflicts.ChaseReachesLastVersions | versioning_base.py:547-569 | when the loop ends, every entry of theirs is a diff row without successor |
| Conflicts.ChaseStepKeepsTheirs | versioning_base.py:555-569 | replacing a pending entry by its child keeps a `theirs` entry for every conflict that had one |
| Conflicts.RoundKeepsTheirs | versioning_base.py:555-569 | a round keeps a `theirs` entry for every conflict that had one |
| Conflicts.ChaseKeepsTheirs | versioning_base.py:547-569 | when every diff chain carries one conflict id, the loop ends with a `theirs` entry for every conflict that had one |
| Conflicts.RoundKeepsAnEntry | versioning_base.py:555-569 | a round over a non-empty table leaves it non-empty |
| Conflicts.ChaseKeepsAnEntry | versioning_base.py:547-569 | the loop never empties a non-empty conflict table |
| Conflicts.ConflictEntriesEndChains | versioning_base.py:512-569 | from the first entries, the loop ends and every entry of theirs is the last version of its chain in the diff |
| Conflicts.ChaseAsWrittenStopsEarly | versioning_base.py:558-569 | as written, the loop stops at a closed intermediate version labelled `deleted` and never reaches the live one |
| Conflicts.ChaseReachesLiveVersion | versioning_base.py:558-569 | corrected, the same loop reaches the live version, `modified` |
| Conflicts.IndexFids | versioning_base.py:581-582 | the unique index is created exactly when no two entries share a key |
| Conflicts.IndexOf | versioning_base.py:589-593 | the position of the one deleted entry, or none exactly when no entry has that key |
| Conflicts.MineOf | versioning_base.py:596-599 | the key of a `mine` entry of the same conflict, or none exactly when there is no such entry |
| Conflicts.SupersedeTheirs | versioning_base.py:595-608 | deleting `theirs` closes that row at the update's `max_rev` with `child` the `mine` row, which gets it as parent; no other row changes |
| Conflicts.IndexOfUnique | versioning_base.py:581-593 | with unique keys, an entry is found at its own position |
| Conflicts.Others | versioning_base.py:589-612 | with unique keys, the entries but one are exactly those with another key |
| Conflicts.ResolveClearsConflict | versioning_base.py:610-611 | deleting a conflict entry removes every entry of its conflict and keeps the rest |
| Conflicts.ResolveRows | versioning_base.py:589-608 | deleting `mine` removes that local row; deleting `theirs` keeps the rows and closes theirs at `max_rev`, linked to mine |
| Rebase.RewriteMarkers | versioning_base.py:469-474 | keys and attributes stay; `rev_end = rev` becomes `max_rev` and `rev_begin = rev + 1` becomes `max_rev + 1`; other rows are unchanged |
| Rebase.RewriteMarkersKeepsHead | versioning_base.py:469-474 | moving the markers does not change the head view |
| Rebase.RewriteMarkersMovesDiff | versioning_base.py:469-474 | the local edits since the old pin are exactly the local edits since the new one |
| Rebase.RewriteMarkersMovesLocalEdits | versioning_base.py:469-474 | the head view and the set of local edits stay, and the table is written up to the new pin |
| Rebase.Beginning | versioning_base.py:485-487 | exactly the rows begun at a given revision |
| Rebase.NegatedAt | versioning_base.py:485-487 | negating a set of keys moves each to its negative and leaves the others |
| Rebase.NegateKeys | versioning_base.py:485-487 | the negation fails exactly on a key collision, and otherwise moves each selected key to its negative |
| Rebase.ShiftedAt | versioning_base.py:488-489 | `bump - OGC_FID` moves each negative key to `bump - k` and keeps the others |
| Rebase.ShiftNegatives | versioning_base.py:488-489 | the shift fails exactly on a key collision, and otherwise moves each negative key to `bump - k` |
| Rebase.BumpChildren | versioning_base.py:493-495 | rows closed at `max_rev` have their `child` raised by the bump; nothing else changes |
| Rebase.BumpLocal | versioning_base.py:479-495 | the bump fails only on a key collision |
| Rebase.BumpedAt | versioning_base.py:1390-1392 | the direct bump moves each selected key up by the bump and leaves the others |
| Rebase.DirectBump | versioning_base.py:1390-1392 | the direct bump fails exactly on a collision, and otherwise moves each selected key up |
| Rebase.CollisionsAgree | versioning_base.py:485-489 | on positive keys the negation never collides, and the shift collides exactly when the direct bump does |
| Rebase.ShiftCollisionIsDirect | versioning_base.py:485-489 | a collision of the two-step bump is one of the direct bump |
| Rebase.DirectCollisionShifts | versioning_base.py:485-489 | a collision of the direct bump is one of the two-step bump |
| Rebase.RenumberedAgreeAt | versioning_base.py:485-489 | without collisions the two bumps give the same row at every key |
| Rebase.NegateThenShiftIsDirectBump | versioning_base.py:485-489 | negate-then-subtract equals adding the bump directly, on success and on failure |
| Rebase.BumpLocalIsDirectBump | versioning_base.py:479-495 | when local rows are above `max_pk`, `update`'s bump is the direct bump followed by the child fix-up, and never collides |
| Rebase.BumpLocalLandsAboveServer | versioning_base.py:479-495 | rows up to `max_pk` keep their key; local rows above it move up by exactly the bump; nothing else appears |
| Rebase.UpdateDiff | versioning_base.py:425-429 | the corrected diff holds exactly the server rows changed since the pin, and includes the diff as written |
| Rebase.Merge | versioning_base.py:616-620 | `INSERT OR REPLACE`: the keys of both, diff rows replacing local ones |
| Rebase.MergeKeepsRowsAboveDiff | versioning_base.py:616-620 | local rows above every diff key survive the merge unchanged |
| Rebase.MergeUpdateDiffCatchesUp | versioning_base.py:616-620 | merging the corrected diff into a working copy that only lags the server gives the server's table and head view |
| Rebase.UpdateDiffAsWrittenMissesLaterClosure | versioning_base.py:425-429 | as written, a row closed after the pin stays open locally, so the head view keeps both it and its successor |
| Update.DetectConflicts | versioning_base.py:497-582 | there is no conflict table exactly when no key conflicts; a new table has the update's `max_rev`, unique keys and no pending entry (with the corrected labelling of the loop, see Findings) |
| Update.InitialTheirsInDiff | versioning_base.py:512-543 | every first `theirs` entry is a diff row |
| Update.DetectConflictsNonEmpty | versioning_base.py:497-582 | a conflict table that is created is never empty |
| Update.InitialHasTheirs | versioning_base.py:512-525 | in SQLite every conflicting key has a first `theirs` entry under its id |
| Update.InitialTheirsRooted | versioning_base.py:512-543 | when each diff chain starts at its conflicting key, every first `theirs` entry carries the id of its chain |
| Update.ChaseKeepsEachConflict | versioning_base.py:512-569 | when each diff chain starts at its conflicting key, the loop keeps a `theirs` entry for every conflicting key |
| Update.DetectConflictsKeepsEachConflict | versioning_base.py:497-582 | when each diff chain starts at its conflicting key, a conflicting key means a conflict table is created and holds a `theirs` entry for that key |
| Update.Renumber | versioning_base.py:469-495 | renumbering fails only on a negative bump or a key collision |
| Update.RenumberUnfold | versioning_base.py:469-495 | renumbering is the marker rewrite followed by the bump |
| Update.RebaseLayer | versioning_base.py:465-620 | a rebased layer is pinned at the branch head and the server's largest key |
| Update.UpdateLayer | versioning_base.py:373-390 | a layer is rebased only when its table is in the working copy |
| Update.Repin | versioning_base.py:465-467 | exactly the pins of that table get the new `rev` and `max_pk` |
| Update.UpdateLayersTurn | versioning_base.py:373-620 | one turn of the loop: a failing layer ends it, otherwise the loop goes on with the updated copy |
| Update.UpdateSkipsCurrentLayer | versioning_base.py:378-382 | a layer whose pin is its branch head is left as it is |
| Update.UpdateMovesPin | versioning_base.py:465-467 | one turn touches only the pins of its table, moving them to the branch head or leaving them |
| Update.CleanCopyRewritesNothing | versioning_base.py:469-474 | a copy without local edits has no markers to rewrite |
| Update.BumpedNothing | versioning_base.py:485-489 | bumping no key changes nothing |
| Update.BumpChildrenIdle | versioning_base.py:493-495 | with no row closed at `max_rev`, no child changes |
| Update.CleanCopyMovesNothing | versioning_base.py:479-495 | a copy without local edits has nothing to bump |
| Update.CleanCopyHasNoConflict | versioning_base.py:501-505 | a copy without local edits has no conflict |
| Update.CleanCopyRenumbersNothing | versioning_base.py:469-495 | a copy without local edits is not renumbered |
| Update.UpdateOfCleanCopyCatchesUp | versioning_base.py:465-620 | updating a copy without local edits gives exactly the server's table, with no conflict |
| Update.RewriteKeepsLocalRowsAbove | versioning_base.py:469-474 | the rewrite keeps local rows above `max_pk` and the rest below it |
| Update.RenumberMovesLocalEdit | versioning_base.py:479-489 | a local row above `max_pk` reappears `bump` higher with its attributes |
| Update.RebaseLayerRows | versioning_base.py:616-620 | the rebased rows are the renumbered rows merged with the diff |
| Update.UpdateKeepsLocalEdit | versioning_base.py:479-620 | a local edit survives the update `bump` higher, above every server key |
| Update.UpdateStepPins | versioning_base.py:465-467 | one turn keeps each pin's layer, touches only its own table's pins, and leaves its own pin at the branch head |
| Update.UpdateLayersPins | versioning_base.py:373-620 | after the loop each visited layer is at its branch head and every other pin is unchanged |
| Update.UpdateLayersFirst | versioning_base.py:373-620 | the loop's first turn leaves a copy from which the rest of the loop gives the same result |
| Update.CombineTurn | versioning_base.py:373-620 | the first turn's pin facts and the rest of the loop's combine into the whole loop's |
| Update.UpdateLeavesNothingLate | versioning_base.py:355-620 | after a successful update, `late` is 0 |
| Update.UpdateRefusedWithConflicts | versioning_base.py:358-360 | update is refused while a conflict is pending, naming that layer |
| Commit.Inserted | versioning_base.py:832-834 | exactly the diff rows begun at `pin + 1` |
| Commit.Publish | versioning_base.py:832-842 | publishing fails exactly when an inserted key is already on the server |
| Commit.PublishedAt | versioning_base.py:832-842 | the server gains the inserted rows; rows closed at the pin take `rev_end` and `child` from the diff and keep their server attributes; other rows stay |
| Commit.MirrorsPublishes | versioning_base.py:832-842 | a copy that only adds to the server at its pin publishes without collision |
| Commit.PublishedHeadAt | versioning_base.py:832-842 | after publishing, a key is in the server's head view exactly when it is in the local head view, with the local attributes |
| Commit.PublishMakesServerHeadLocalHead | versioning_base.py:832-842 | publishing makes the server's head view the working copy's head view |
| Commit.PublishedRevisionAt | versioning_base.py:832-842 | after publishing, a key is visible at a revision up to the pin exactly when it was before, with the same attributes |
| Commit.PublishKeepsHistory | versioning_base.py:832-842 | publishing changes no revision view up to the pin |
| Commit.CommitLayer | versioning_base.py:691-845 | a turn that goes through counts its layer exactly when the layer's diff is not empty |
| Commit.CommitLayerPublishes | versioning_base.py:765-845 | a turn that publishes a layer with local changes replaces that layer's server rows by the published table and records `pin + 1` in its schema's log; every other table, schema and view is unchanged |
| Commit.CommitLayerMakesServerHeadLocalHead | versioning_base.py:765-845 | after a turn that publishes a mirroring copy's layer, the server's head of the branch is exactly the working copy's head |
| Commit.CommitLayerLogsNext | versioning_base.py:772-780 | when the layer was pinned at its schema's newest revision, the turn appends `pin + 1` on the layer's branch, which becomes the branch head and the schema's `MAX(rev)` |
| Commit.CommitLayerMakesOthersLate | versioning_base.py:625-643 | after such a turn, a copy whose layers are pinned where the published one was, on the same branch, is exactly one revision late |
| Commit.PublishingTurn | versioning_base.py:689-845 | a turn that publishes a mirroring copy's layer pinned at the newest revision counts it, makes the server's head the copy's head and `pin + 1` the branch head, and leaves copies pinned at the old revision one revision late |
| Commit.NewestPin | versioning_base.py:850-864 | the new pin keeps the layer and takes the global `MAX(rev)` and the largest key |
| Commit.RepinLayer | versioning_base.py:860-864 | exactly the pins of the same layer are moved to the newest pin |
| Commit.CommitRefusals | versioning_base.py:668-686 | commit is refused, nothing changed, on a pending conflict, when late (with the lag), and without a layer |
| Commit.CommitFailureKeepsWorkingCopy | versioning_base.py:658-876 | a failed commit leaves the working copy as it was |
| Commit.CommitLayersCount | versioning_base.py:689-771 | the loop adds exactly the number of layers whose diff is not empty to the count; it adds nothing exactly when every diff is empty, and then the server is untouched |
| Commit.CommitNothingIffNoDiff | versioning_base.py:722-876 | a successful commit returns the number of layers with a local edit (`nb_of_updated_layer`); it returns 0 exactly when no layer has one, and then nothing changes |
| Commit.OneLayerCommit | versioning_base.py:668-876 | a successful commit of a copy with one layer is that layer's turn: its server is the commit's server and its count the result |
| Commit.ExtendedLogKeepsBranches | versioning_base.py:773-780 | a branch of a log stays a branch of any extension of it |
| Commit.CommitLayerGrowsLogs | versioning_base.py:773-780 | one turn only appends to logs |
| Commit.CommitLayersGrowLogs | versioning_base.py:689-845 | the layer loop only appends to logs |
| Commit.RepinAllPins | versioning_base.py:849-864 | the final loop moves exactly the visited layers' pins to their newest pin |
| Commit.NewestPinIsCurrent | versioning_base.py:853-854 | a newest pin is never behind its branch head |
| Commit.CommitPublished | versioning_base.py:668-876 | a commit that published passed both gates, ran the layer loop without error, and re-pinned every layer |
| Commit.CommitRepinsEveryLayer | versioning_base.py:849-864 | after a commit that published, every pin is its layer's newest pin |
| Commit.RepinAllRepinsEach | versioning_base.py:849-864 | re-pinning every layer gives each its newest pin |
| Commit.CommitPinsAtNewest | versioning_base.py:849-864 | after a commit that published, `late` is 0 |
| Commit.MirrorsOwnTable | versioning_base.py:722-726 | a table written up to its pin has an empty diff and mirrors itself |
| Commit.CheckoutMirrors | versioning_base.py:216-246 | on a server whose tables are written up to the log's maximum, each table a checkout copies mirrors the server's table at its pin, has an empty diff, and no server key is above its `max_pk` |
| Commit.MirrorsAfterEdit | versioning_base.py:292-349 | an edit that keeps server rows as they were or closes them at the pin, and adds only rows begun after the pin and absent from the server, keeps the copy mirroring the server |
| Commit.InsertKeepsMirrors | versioning_base.py:321-327 | an insert keeps a mirroring copy mirroring the server when no server key is above `max_pk` |
| Commit.UpdateKeepsMirrors | versioning_base.py:292-319 | an update keeps a mirroring copy mirroring the server when no server key is above `max_pk` |
| Commit.DeleteKeepsMirrors | versioning_base.py:329-349 | a delete keeps a mirroring copy mirroring the server when every server `child` names a server row |
| Commit.CommitLayersOfNoDiff | versioning_base.py:722-771 | when no layer has a local edit, the layer loop changes neither the server nor the count, and it gets through every layer when the pins share one revision and each geometry column is known |
| Commit.CheckoutHasNoDiff | versioning_base.py:216-246 | on a server written up to the log's maximum, a fresh checkout has no local edit in any layer |
| Commit.CheckoutThenCommit | versioning_base.py:668-876 | committing a fresh checkout changes neither the server nor the working copy, and returns 0 whenever it succeeds; it does succeed when some table is named, no conflict is pending, the pins share one revision and each geometry column is known |
| WorkingCopies.WorkingCopy.constructor | versioning_base.py:226-255 | a working copy starts in the given state |
| WorkingCopies.WorkingCopy.Insert | versioning_base.py:321-327 | an insert on a pinned table applies the insert trigger to that table only; otherwise the copy is unchanged |
| WorkingCopies.WorkingCopy.Update | versioning_base.py:292-319 | an update on a pinned table applies the update triggers to that table only; otherwise the copy is unchanged |
| WorkingCopies.WorkingCopy.Delete | versioning_base.py:329-349 | a delete on a pinned table replaces that table by `Edits.DeleteRow` (the delete trigger with the corrected `child` clearing, see Findings) and nothing else; otherwise the copy is unchanged |
| WorkingCopies.WorkingCopy.ResolveConflict | versioning_base.py:589-612 | deleting a conflict entry applies the resolution trigger to the table and its conflict table only |
| WorkingCopies.WorkingCopy.Late | versioning_base.py:625-643 | the loop computes `late` |
| WorkingCopies.WorkingCopy.Revision | versioning_base.py:645-656 | the loop computes `revision` |
| WorkingCopies.WorkingCopy.UpdateFrom | versioning_base.py:355-623 | the copy becomes the result of `update`; on failure it is unchanged |
| WorkingCopies.WorkingCopy.Commit | versioning_base.py:658-876 | server, copy and result become those of `commit` |
| WorkingCopies.UpdateEachLayer | versioning_base.py:373-620 | the loop computes the layer-by-layer update |
| WorkingCopies.PublishEachLayer | versioning_base.py:689-845 | the loop updates the server layer by layer as the commit loop specifies |
| WorkingCopies.RepinEachLayer | versioning_base.py:849-864 | the loop computes the re-pinning |
| WorkingCopies.CheckoutWorkingCopy | versioning_base.py:178-353 | a fresh working copy in the state `checkout` specifies, or its error |
| WorkingCopies.PinEachName | versioning_base.py:197-253 | the loop computes the pins |

## Left out

- Database I/O: connections, cursors, the SQL log and verbose printing are not modelled; tables are in-memory maps.
- `ogr2ogr` transfers are modelled as copying rows between the server and the working copy.
- DDL and metadata: `CREATE SCHEMA/VIEW/TRIGGER`, geometry metadata tables, `RecoverGeometryColumn`, the PostgreSQL version check, the multi-geometry workaround and the ARRAY casts. Only the rows a view shows are modelled.
- SQL text building, column lists and quoting. Only the meaning of each statement is modelled.
- The environment variables `VERSIONING_GEOMETRY_COLUMN` and `VERSIONING_NO_PK` are parameters or left out. Usernames and timestamps are parameters or left out.
- Transactions across the two databases are not modelled. An update is atomic in the model (a failing layer leaves the working copy unchanged), while a commit keeps the server changes of the layers published before a failure.
- The `pg_*` working-copy variants are covered only where they differ in meaning: the NULL-aware conflict test is a flag of `Conflicts.ConflictFids`, and the direct pk bump is `Rebase.DirectBump`. Their PL/pgSQL text and the `_cflt` table naming are not modelled.
- `pg_branches(...).remove(branch)` returns `None`, so other branches' columns are never filtered out. The model reproduces this by carrying every branch's lifecycle in every row.
- `versioning.py` is not part of this model. Its schema regex is used only as a cross-check for the head-schema name round trip.
- Conflicts.Chase: the `while True` loop is bounded by a fuel equal to the size of the diff. It ends with an error where the source would loop forever on a cycle of `child` links. `Conflicts.ChaseFinishes` proves that forward chains never run out of fuel.
- Conflicts.Chase: the entries of the conflict table are kept in insertion order, and a round replaces them in the order the `SELECT` returns them. SQLite gives no such order guarantee.
- WorkingState.Unresolved: `unresolved_conflicts` is a function of the working copy, with no method of its own. Opening the file is I/O.
- Names.SplitHeadSchemaSound: the split follows Python slicing. A `_rev_head` name with no underscore in its prefix gives an empty schema, and the branch is then the whole prefix.
- Update.RebaseLayer: the correction for the update diff (`Rebase.UpdateDiff`) is what the model uses. The diff as written is kept only in `Rebase.UpdateDiffAsWritten`, for the finding below.
- The pg key and the table's primary-key lookup (`pg_pk`) are modelled only as "the table exists". Tables without a primary key are not modelled.
- Edits.UpdateRow: an update is assumed to keep `OGC_FID`. The triggers choose their case by `new.OGC_FID` but close the old row and set `parent` by `old.OGC_FID` (versioning_base.py:293-319), so an update that changes the key is not modelled.
- WorkingCopies.WorkingCopy.Update: applies `Edits.UpdateRow` under the same assumption that the key does not change.
- Repository.Server.Revisions: the source's `SELECT rev FROM revisions` has no `ORDER BY`, so PostgreSQL promises no order. The model returns the numbers in log order; only the numbers, one per record, are what the source promises.
- WorkingCopies.WorkingCopy.Delete: the method applies the corrected delete trigger (`Edits.DeleteRow`). The trigger as written is kept only in `Edits.DeleteRowAsWritten`, for the finding below.
- Repository.BranchStart: the branch start from a numeric revision is the corrected condition. The condition as written is kept only in `Repository.BranchStartAsWritten`, for the finding below.
- Repository.Server.AddBranch: through `Repository.BranchStart`, the method starts a branch from a revision with the corrected condition, not the one as written.
- Update.DetectConflicts: the loop is run with the corrected labelling, which follows a closed child that has its own child. The labelling as written is kept only for `Conflicts.ChaseAsWrittenStopsEarly`.
- Update.DetectConflictsKeepsEachConflict: completeness is proved only when every diff chain carries one conflict id, that is, when no conflicting key is the successor of another conflicting key in the diff. When it is, the loop, as written and as modelled, can delete the earlier conflict's `theirs` entry together with the later one's, since it deletes by key.
- Checkout.AfterCheckout: a failed checkout is an error with no working copy. The source creates the SpatiaLite file and copies the layers before the failing name, and leaves them behind.
- Commit.CheckoutThenCommit: the round trip is proved on a server whose tables are written up to the log's maximum (`Repository.WrittenUpToLog`). That this holds of every server reachable through `historize`, `add_branch` and `commit` is not proved.
- Commit.InsertKeepsMirrors: the server is assumed unchanged between checkout and the edit, and its keys at most the pinned `max_pk`; a concurrent commit by another user is not modelled.

## Findings

| source | as written | input that shows it | evidently intended | confidence | as-written member | corrected member |
|---|---|---|---|---|---|---|
| versioning_base.py:341-345 | the delete trigger clears `child` on rows that point to the deleted key and themselves begin at `pin+1` | trunk, pin 1: row 1 closed at 1 with child 2, row 2 begun at 2; delete row 2 | clear the `child` that points to the deleted new row (the pg variant at versioning_base.py:1286-1291 tests the deleted row), so the predecessor stays closed with no dangling link | not executed | Edits.DeleteAsWrittenLeavesDanglingChild | Edits.DeleteSuccessorClosesPredecessor |
| versioning_base.py:971-976 | a branch from a numeric `base_rev` starts the rows with `rev_end IS NULL OR rev_end > base_rev`, with no test on `rev_begin <= base_rev` | base revision 1: row A alive 1..1 (closed at 1), its successor B begun at 2 | start exactly the rows visible at `base_rev` (`rev_begin <= base_rev` and `rev_end` NULL or `>= base_rev`), as the revision views do | not executed | Repository.BranchStartAsWrittenMissesRevision | Repository.BranchFromRevisionCopiesRevision |
| versioning_base.py:425-429 | the update diff takes rows with `rev_end = rev` or `rev_begin > rev` | pin 1: row 1 alive locally; on the server row 1 closed at 2 with child 2, row 2 begun at 3 | send every row changed since the pin (`rev_end >= rev` or `rev_begin > rev`), so the merged head view equals the server's | not executed | Rebase.UpdateDiffAsWrittenMissesLaterClosure | Rebase.MergeUpdateDiffCatchesUp |
| versioning_base.py:558-569 | the chase labels a child `deleted` whenever its `rev_end` is set, and then stops following it | diff chain 1→2→3→4 with only 4 alive; entry for row 2 | label a closed child that has its own child `modified`, so the loop reaches the last version of the chain | not executed | Conflicts.ChaseAsWrittenStopsEarly | Conflicts.ConflictEntriesEndChains |
