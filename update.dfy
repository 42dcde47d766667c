/** `update`: bring each layer of a working copy from its pin to the head
    of its branch. Local edits are kept and moved above the server's keys,
    and conflicts are recorded where both sides replaced the same row. */
module Update {
  import opened Common
  import opened Lifecycle
  import opened RevisionLog
  import opened Repository
  import opened Geometry
  import opened Rebase
  import opened Conflicts
  import opened WorkingState

  /** What `update` does to one layer: nothing when the pin is the branch
      head, otherwise the new pin values, the rebased rows, and the conflict
      table when conflicts were found. */
  datatype LayerUpdate =
    | Current
    | Rebased(rev: int, maxPk: int, rows: Table, conflicts: Option<ConflictTable>)

  /** The conflict table for a rebased layer: none when no key conflicts
      (an earlier, empty one then stays); otherwise the four-part table,
      its entries replaced by the last versions, under a unique index. */
  function DetectConflicts(local: Table, diff: Table, branch: string, maxRev: int): (r: Result<Option<ConflictTable>>)
    ensures r.Ok? && r.value.Some? ==>
      r.value.value.maxRev == maxRev && UniqueFids(r.value.value.entries) &&
      forall e :: e in r.value.value.entries ==> !Pending(e, branch)
    ensures r.Ok? && r.value.None? <==> ConflictFids(local, diff, branch, false) == {}
  {
    if ConflictFids(local, diff, branch, false) == {} then Ok(None)
    else
      match Chase(InitialEntries(local, diff, branch, false), diff, branch, Corrected, |diff.Keys|)
      case Err(e) => Err(e)
      case Ok(es) =>
        PendingEntriesMembers(es, branch);
        match IndexFids(es)
        case Err(e) => Err(e)
        case Ok(es') => Ok(Some(ConflictTable(es', maxRev)))
  }

  /** The entries `update` starts the loop with: theirs entries are rows of
      the diff. */
  lemma InitialTheirsInDiff(local: Table, diff: Table, branch: string, nullAware: bool)
    ensures TheirsFromDiff(InitialEntries(local, diff, branch, nullAware), diff)
  {
    var cfs := Ascending(ConflictFids(local, diff, branch, nullAware));
    forall e | e in InitialEntries(local, diff, branch, nullAware) && e.origin == Theirs
      ensures e.fid in diff && e.row == diff[e.fid]
    {
      assert e !in ModifiedEntries(local, branch, Mine, cfs) && e !in DeletedEntries(local, branch, Mine, cfs);
    }
  }

  /** A conflict table `update` records is never empty, as long as every
      `child` of the diff is one of its rows. */
  lemma DetectConflictsNonEmpty(local: Table, diff: Table, branch: string, maxRev: int)
    requires ChildrenExist(diff, branch)
    requires DetectConflicts(local, diff, branch, maxRev).Ok? && DetectConflicts(local, diff, branch, maxRev).value.Some?
    ensures DetectConflicts(local, diff, branch, maxRev).value.value.entries != []
  {
    var s := ConflictFids(local, diff, branch, false);
    var cf :| cf in s;
    var cfs := Ascending(s);
    ModifiedEntriesHas(diff, branch, Theirs, cfs, cf);
    var es := InitialEntries(local, diff, branch, false);
    assert es != [];
    InitialTheirsInDiff(local, diff, branch, false);
    ChaseKeepsAnEntry(es, diff, branch, Corrected, |diff.Keys|);
  }

  /** The entries the loop starts with hold a theirs entry for each
      conflicting key. */
  lemma InitialHasTheirs(local: Table, diff: Table, branch: string, cf: Fid)
    requires Linked(diff, branch) && ChildrenExist(diff, branch)
    requires cf in ConflictFids(local, diff, branch, false)
    ensures HasTheirs(InitialEntries(local, diff, branch, false), cf)
  {
    SideEntry(diff, branch, Theirs, Ascending(ConflictFids(local, diff, branch, false)), cf);
  }

  /** In the entries the loop starts with, each theirs entry is labelled
      with the conflicting key whose chain it lies on. */
  lemma InitialTheirsRooted(local: Table, diff: Table, branch: string, root: Fid -> Fid)
    requires Linked(diff, branch) && ChainsRootedBy(diff, branch, root)
    requires forall k :: k in ConflictFids(local, diff, branch, false) ==> root(k) == k
    ensures TheirsRootedBy(InitialEntries(local, diff, branch, false), root)
  {
    var cfs := Ascending(ConflictFids(local, diff, branch, false));
    forall e | e in InitialEntries(local, diff, branch, false) && e.origin == Theirs
      ensures e.conflictId == Some(root(e.fid))
    {
      assert e !in ModifiedEntries(local, branch, Mine, cfs) && e !in DeletedEntries(local, branch, Mine, cfs);
      if e in ModifiedEntries(diff, branch, Theirs, cfs) {
        var k :| k in cfs && k in diff && LifeOf(diff[k], branch).child == Some(e.fid);
        assert root(e.fid) == root(k) == k;
      }
    }
  }

  /** The loop keeps a theirs entry for each conflicting key, as long as
      the diff is linked, every `child` is one of its rows, and no chain of
      successors in the diff passes through two conflicting keys (`root`
      names each chain by the conflicting key on it). */
  lemma ChaseKeepsEachConflict(local: Table, diff: Table, branch: string, root: Fid -> Fid, cf: Fid)
    requires Linked(diff, branch) && ChildrenExist(diff, branch) && ChainsRootedBy(diff, branch, root)
    requires forall k :: k in ConflictFids(local, diff, branch, false) ==> root(k) == k
    requires cf in ConflictFids(local, diff, branch, false)
    requires Chase(InitialEntries(local, diff, branch, false), diff, branch, Corrected, |diff.Keys|).Ok?
    ensures HasTheirs(Chase(InitialEntries(local, diff, branch, false), diff, branch, Corrected, |diff.Keys|).value, cf)
  {
    var es := InitialEntries(local, diff, branch, false);
    InitialHasTheirs(local, diff, branch, cf);
    InitialTheirsInDiff(local, diff, branch, false);
    InitialTheirsRooted(local, diff, branch, root);
    ChaseKeepsTheirs(es, diff, branch, Corrected, |diff.Keys|, root, cf);
  }

  /** Every conflicting key keeps a theirs entry labelled with it in the
      table `update` records, under the same conditions. */
  lemma DetectConflictsKeepsEachConflict(local: Table, diff: Table, branch: string, maxRev: int, root: Fid -> Fid, cf: Fid)
    requires Linked(diff, branch) && ChildrenExist(diff, branch) && ChainsRootedBy(diff, branch, root)
    requires forall k :: k in ConflictFids(local, diff, branch, false) ==> root(k) == k
    requires cf in ConflictFids(local, diff, branch, false)
    requires DetectConflicts(local, diff, branch, maxRev).Ok?
    ensures DetectConflicts(local, diff, branch, maxRev).value.Some?
    ensures HasTheirs(DetectConflicts(local, diff, branch, maxRev).value.value.entries, cf)
  {
    ChaseKeepsEachConflict(local, diff, branch, root, cf);
  }

  /** The local rows rebased onto the server's head `maxRev`: the markers
      of the pin are rewritten to the head, and local rows move up by the
      growth of the server's largest key since the pin. */
  function Renumber(server: Table, local: Table, p: Pin, maxRev: int): (r: Result<Table>)
    ensures r.Err? ==> r.error in {NegativeBump, KeyCollision}
  {
    var bump := MaxOrZero(server.Keys) - p.maxPk;
    if bump < 0 then Err(NegativeBump)
    else BumpLocal(RewriteMarkers(local, p.branch, p.rev, maxRev), p.branch, maxRev, bump)
  }

  lemma RenumberUnfold(server: Table, local: Table, p: Pin, maxRev: int, bump: int)
    requires bump == MaxOrZero(server.Keys) - p.maxPk >= 0
    ensures Renumber(server, local, p, maxRev) ==
      BumpLocal(RewriteMarkers(local, p.branch, p.rev, maxRev), p.branch, maxRev, bump)
  {
  }

  /** The local half of one turn, once the server's head `maxRev` is known:
      renumber the local rows, detect conflicts against the diff since the
      pin, and merge the diff. */
  function RebaseLayer(server: Table, local: Table, p: Pin, maxRev: int): (r: Result<LayerUpdate>)
    ensures r.Ok? ==> r.value.Rebased? && r.value.rev == maxRev && r.value.maxPk == MaxOrZero(server.Keys)
  {
    match Renumber(server, local, p, maxRev)
    case Err(e) => Err(e)
    case Ok(bumped) =>
      var diff := UpdateDiff(server, p.branch, p.rev);
      match DetectConflicts(bumped, diff, p.branch, maxRev)
      case Err(e) => Err(e)
      case Ok(ct) => Ok(Rebased(maxRev, MaxOrZero(server.Keys), Merge(bumped, diff), ct))
  }

  /** One turn of the loop of `update`, for the pin `p` read at its start.
      The server's `MAX(rev)` is taken on the pin's branch; the layer is
      skipped when it equals the pin. Otherwise the geometry column is
      chosen and the layer is rebased. */
  function UpdateLayer(db: Db, p: Pin, tables: map<string, Table>, override: Option<string>): (r: Result<LayerUpdate>)
    ensures r.Ok? && r.value.Rebased? ==> p.table in tables
  {
    if !Versioned(db, p.schema) then Err(UnknownSchema)
    else
      var head := BranchHead(LogOf(db, p.schema), p.branch);
      if head == Some(p.rev) then Ok(Current)
      else if p.table !in db.schemas[p.schema].layers then Err(MissingTable)
      else
        var layer := db.schemas[p.schema].layers[p.table];
        match PgGeom(layer.geoms, override)
        case Err(e) => Err(e)
        case Ok(_) =>
          if head.None? then Err(BranchMissing)
          else if p.table !in tables then Err(MissingTable)
          else RebaseLayer(layer.rows, tables[p.table], p, head.value)
  }

  /** `UPDATE initial_revision SET rev = ..., max_pk = ... WHERE
      table_name = ...`: every pin of the table. */
  function Repin(pins: seq<Pin>, table: string, rev: int, maxPk: int): (r: seq<Pin>)
    ensures |r| == |pins|
    ensures forall i :: 0 <= i < |pins| ==>
      r[i] == if pins[i].table == table then pins[i].(rev := rev, maxPk := maxPk) else pins[i]
  {
    seq(|pins|, i requires 0 <= i < |pins| =>
      if pins[i].table == table then pins[i].(rev := rev, maxPk := maxPk) else pins[i])
  }

  /** One turn applied to the working copy. */
  function UpdateStep(db: Db, w: Wc, p: Pin, override: Option<string>): Result<Wc>
  {
    match UpdateLayer(db, p, w.tables, override)
    case Err(e) => Err(e)
    case Ok(Current) => Ok(w)
    case Ok(Rebased(rev, maxPk, rows, ct)) =>
      Ok(Wc(Repin(w.pins, p.table, rev, maxPk),
            w.tables[p.table := rows],
            if ct.Some? then w.conflicts[p.table := ct.value] else w.conflicts))
  }

  /** The loop over the pins read at the start. */
  function UpdateLayers(db: Db, w: Wc, todo: seq<Pin>, override: Option<string>): Result<Wc>
    decreases |todo|
  {
    if todo == [] then Ok(w)
    else
      match UpdateStep(db, w, todo[0], override)
      case Err(e) => Err(e)
      case Ok(w') => UpdateLayers(db, w', todo[1..], override)
  }

  /** One turn of the loop, unfolded: a failing layer ends it, otherwise
      the rest of the loop runs on the updated working copy. */
  lemma UpdateLayersTurn(db: Db, w: Wc, todo: seq<Pin>, override: Option<string>, step: Result<Wc>)
    requires todo != [] && step == UpdateStep(db, w, todo[0], override)
    ensures step.Err? ==> UpdateLayers(db, w, todo, override) == Err(step.error)
    ensures step.Ok? ==> UpdateLayers(db, w, todo, override) == UpdateLayers(db, step.value, todo[1..], override)
  {
  }

  /** `update`: refused while a conflict is unresolved. */
  function AfterUpdate(db: Db, w: Wc, override: Option<string>): Result<Wc>
  {
    if Unresolved(w) != {} then Err(UnresolvedConflicts(Unresolved(w)))
    else UpdateLayers(db, w, w.pins, override)
  }

  /** A layer whose pin is its branch head is left as it is. */
  lemma UpdateSkipsCurrentLayer(db: Db, w: Wc, p: Pin, override: Option<string>)
    requires Tracked(p, db) && Lag(p, db) == 0
    ensures UpdateStep(db, w, p, override) == Ok(w)
  {
  }

  /** A layer that is updated is pinned at its branch head, with the
      server's largest key as the new reserved key, and the rebased rows
      replace the table. */
  lemma UpdateMovesPin(db: Db, w: Wc, p: Pin, override: Option<string>)
    requires UpdateStep(db, w, p, override).Ok?
    ensures Tracked(p, db)
    ensures var w' := UpdateStep(db, w, p, override).value;
      |w'.pins| == |w.pins| &&
      forall i :: 0 <= i < |w.pins| ==>
        var q := w'.pins[i];
        q.branch == w.pins[i].branch && q.schema == w.pins[i].schema && q.table == w.pins[i].table &&
        (q.table == p.table ==> q.rev == BranchHead(LogOf(db, p.schema), p.branch).value || q == w.pins[i]) &&
        (q.table != p.table ==> q == w.pins[i])
  {
  }

  /** The rows of a working copy without edits of its own, all below the
      pin's reserved key, and unchanged except where the server closed
      them. */
  predicate CleanCopy(local: Table, server: Table, p: Pin)
  {
    EvolvedFrom(local, server, p.branch, p.rev) &&
    WrittenUpTo(local, p.branch, p.rev) &&
    (forall k :: k in local ==> 0 <= k <= p.maxPk) &&
    (forall k :: k in local && LifeOf(local[k], p.branch).child.Some? ==> local[k] == server[k])
  }

  /** A copy with nothing written after its pin keeps its markers: nothing
      begins after the pin, and nothing was closed at it. */
  lemma CleanCopyRewritesNothing(local: Table, p: Pin, maxRev: int)
    requires p.rev < maxRev
    requires WrittenUpTo(local, p.branch, p.rev)
    ensures RewriteMarkers(local, p.branch, p.rev, maxRev) == local
  {
    var rewritten := RewriteMarkers(local, p.branch, p.rev, maxRev);
    forall k | k in local
      ensures rewritten[k] == local[k]
    {
      assert RewriteLife(LifeOf(local[k], p.branch), p.rev, maxRev) == LifeOf(local[k], p.branch);
    }
  }

  /** Moving no row leaves the table as it is. */
  lemma BumpedNothing(t: Table, bump: int)
    ensures Bumped(t, {}, bump) == t
  {
    var moved := Bumped(t, {}, bump);
    forall k
      ensures k in moved <==> k in t
    {
      BumpedAt(t, {}, bump, k);
    }
    forall k | k in t
      ensures moved[k] == t[k]
    {
      BumpedAt(t, {}, bump, k);
    }
  }

  /** No row closed at `maxRev`: no `child` to move. */
  lemma BumpChildrenIdle(t: Table, branch: string, maxRev: int, bump: int)
    requires forall k :: k in t ==> LifeOf(t[k], branch).revEnd != Some(maxRev)
    ensures BumpChildren(t, branch, maxRev, bump) == t
  {
    var r := BumpChildren(t, branch, maxRev, bump);
    forall k | k in t
      ensures r[k] == t[k]
    {
      assert LifeOf(t[k], branch).revEnd != Some(maxRev);
    }
  }

  /** A clean copy moves no row: no row begins at `maxRev + 1`, and none
      is closed at `maxRev`. */
  lemma CleanCopyMovesNothing(local: Table, p: Pin, maxRev: int, bump: int)
    requires p.rev < maxRev && p.maxPk >= 0 && bump >= 0
    requires WrittenUpTo(local, p.branch, p.rev)
    requires forall k :: k in local ==> 0 <= k <= p.maxPk
    ensures BumpLocal(local, p.branch, maxRev, bump) == Ok(local)
  {
    var b := p.branch;
    forall k | k in local
      ensures k !in Beginning(local, b, maxRev + 1)
    {
      assert LifeOf(local[k], b).revBegin.Some? ==> LifeOf(local[k], b).revBegin.value <= p.rev;
    }
    assert Beginning(local, b, maxRev + 1) == {};
    BumpLocalIsDirectBump(local, b, maxRev, p.maxPk, bump);
    BumpedNothing(local, bump);
    BumpChildrenIdle(local, b, maxRev, bump);
  }

  /** A clean copy has no conflict: the rows whose `child` it has set are
      the server's. */
  lemma CleanCopyHasNoConflict(server: Table, local: Table, p: Pin)
    requires CleanCopy(local, server, p)
    ensures ConflictFids(local, UpdateDiff(server, p.branch, p.rev), p.branch, false) == {}
  {
    var b := p.branch;
    var diff := UpdateDiff(server, b, p.rev);
    forall k | k in local && k in diff
      ensures !SqlDiffers(LifeOf(local[k], b).child, LifeOf(diff[k], b).child)
    {
      if LifeOf(local[k], b).child.Some? {
        assert local[k] == diff[k];
      }
    }
  }

  /** A clean copy comes out of renumbering as it went in: it has no row
      written after its pin, and every key is at or below the pinned one. */
  lemma CleanCopyRenumbersNothing(server: Table, local: Table, p: Pin, maxRev: int)
    requires p.rev < maxRev && 0 <= p.maxPk <= MaxOrZero(server.Keys)
    requires WrittenUpTo(local, p.branch, p.rev)
    requires forall k :: k in local ==> 0 <= k <= p.maxPk
    ensures Renumber(server, local, p, maxRev) == Ok(local)
  {
    var bump := MaxOrZero(server.Keys) - p.maxPk;
    assert RewriteMarkers(local, p.branch, p.rev, maxRev) == local by {
      CleanCopyRewritesNothing(local, p, maxRev);
    }
    assert BumpLocal(local, p.branch, maxRev, bump) == Ok(local) by {
      CleanCopyMovesNothing(local, p, maxRev, bump);
    }
    RenumberUnfold(server, local, p, maxRev, bump);
  }

  /** Without local edits nothing is renumbered, nothing conflicts, and the
      layer ends exactly as the server's table. */
  lemma UpdateOfCleanCopyCatchesUp(server: Table, local: Table, p: Pin, maxRev: int)
    requires p.rev < maxRev && 0 <= p.maxPk <= MaxOrZero(server.Keys)
    requires CleanCopy(local, server, p)
    ensures RebaseLayer(server, local, p, maxRev) == Ok(Rebased(maxRev, MaxOrZero(server.Keys), server, None))
  {
    var b := p.branch;
    CleanCopyRenumbersNothing(server, local, p, maxRev);
    var diff := UpdateDiff(server, b, p.rev);
    CleanCopyHasNoConflict(server, local, p);
    assert DetectConflicts(local, diff, b, maxRev) == Ok(None);
    MergeUpdateDiffCatchesUp(local, server, b, p.rev);
  }

  /** After the rewrite, the rows above the reserved key are those that
      begin at the new head. */
  lemma RewriteKeepsLocalRowsAbove(local: Table, branch: string, rev: int, maxRev: int, maxPk: int)
    requires rev < maxRev
    requires LocalRowsAbove(local, branch, rev, maxPk)
    requires WrittenUpTo(local, branch, rev + 1)
    ensures LocalRowsAbove(RewriteMarkers(local, branch, rev, maxRev), branch, maxRev, maxPk)
  {
    var rewritten := RewriteMarkers(local, branch, rev, maxRev);
    forall j | j in rewritten
      ensures j > maxPk <==> LifeOf(rewritten[j], branch).revBegin == Some(maxRev + 1)
    {
      assert LifeOf(rewritten[j], branch) == RewriteLife(LifeOf(local[j], branch), rev, maxRev);
    }
  }

  /** Renumbering moves a row added since the pin by `bump`, columns kept. */
  lemma RenumberMovesLocalEdit(server: Table, local: Table, p: Pin, maxRev: int, bump: int, k: Fid)
    requires p.rev < maxRev && p.maxPk >= 0
    requires bump == MaxOrZero(server.Keys) - p.maxPk >= 0
    requires LocalRowsAbove(local, p.branch, p.rev, p.maxPk)
    requires WrittenUpTo(local, p.branch, p.rev + 1)
    requires k in local && k > p.maxPk
    ensures Renumber(server, local, p, maxRev).Ok?
    ensures k + bump in Renumber(server, local, p, maxRev).value
    ensures Renumber(server, local, p, maxRev).value[k + bump].attrs == local[k].attrs
  {
    var rewritten := RewriteMarkers(local, p.branch, p.rev, maxRev);
    RewriteKeepsLocalRowsAbove(local, p.branch, p.rev, maxRev, p.maxPk);
    BumpLocalLandsAboveServer(rewritten, p.branch, maxRev, p.maxPk, bump, k);
    RenumberUnfold(server, local, p, maxRev, bump);
    var r := BumpLocal(rewritten, p.branch, maxRev, bump).value;
    assert r[k + bump].attrs == rewritten[k].attrs == local[k].attrs;
  }

  /** The rows a rebased layer ends with: the renumbered local rows with
      the diff merged over them. */
  lemma RebaseLayerRows(server: Table, local: Table, p: Pin, maxRev: int)
    requires RebaseLayer(server, local, p, maxRev).Ok?
    ensures Renumber(server, local, p, maxRev).Ok?
    ensures RebaseLayer(server, local, p, maxRev).value.rows ==
      Merge(Renumber(server, local, p, maxRev).value, UpdateDiff(server, p.branch, p.rev))
  {
  }

  /** A row the working copy added since its pin (above the reserved key)
      survives the update: it moves up by `bump`, the growth of the
      server's largest key, lands above every server key, and keeps its
      columns. */
  lemma UpdateKeepsLocalEdit(server: Table, local: Table, p: Pin, maxRev: int, bump: int, k: Fid)
    requires RebaseLayer(server, local, p, maxRev).Ok?
    requires p.rev < maxRev && p.maxPk >= 0
    requires bump == MaxOrZero(server.Keys) - p.maxPk
    requires LocalRowsAbove(local, p.branch, p.rev, p.maxPk)
    requires WrittenUpTo(local, p.branch, p.rev + 1)
    requires k in local && k > p.maxPk
    ensures k + bump in RebaseLayer(server, local, p, maxRev).value.rows
    ensures RebaseLayer(server, local, p, maxRev).value.rows[k + bump].attrs == local[k].attrs
    ensures forall j :: j in server ==> j < k + bump
  {
    RebaseLayerRows(server, local, p, maxRev);
    RenumberMovesLocalEdit(server, local, p, maxRev, bump, k);
    assert k + bump !in UpdateDiff(server, p.branch, p.rev);
  }

  /** One turn keeps the pin table's shape and brings the pins of its
      table to the branch head. */
  lemma {:induction false} UpdateStepPins(db: Db, w: Wc, p: Pin, override: Option<string>)
    requires UpdateStep(db, w, p, override).Ok?
    ensures Tracked(p, db)
    ensures var w' := UpdateStep(db, w, p, override).value;
      |w'.pins| == |w.pins| &&
      forall i :: 0 <= i < |w.pins| ==>
        SameLayer(w'.pins[i], w.pins[i]) &&
        (w.pins[i].table != p.table ==> w'.pins[i] == w.pins[i]) &&
        (w.pins[i] == p ==> Tracked(w'.pins[i], db) && Lag(w'.pins[i], db) == 0)
  {
    UpdateMovesPin(db, w, p, override);
  }

  /** Pins that name the same layers as distinct pins are distinct. */
  lemma SameLayersKeepDistinct(a: seq<Pin>, b: seq<Pin>)
    requires |a| == |b| && DistinctTables(b)
    requires forall i :: 0 <= i < |a| ==> SameLayer(a[i], b[i])
    ensures DistinctTables(a)
  {
    forall i, j | 0 <= i < j < |a|
      ensures a[i].table != a[j].table
    {
      assert SameLayer(a[i], b[i]) && SameLayer(a[j], b[j]);
    }
  }

  /** The pins after the first name other tables than the first. */
  lemma DistinctTail(todo: seq<Pin>)
    requires todo != [] && DistinctTables(todo)
    ensures DistinctTables(todo[1..])
    ensures forall q :: q in todo[1..] ==> q.table != todo[0].table
  {
    forall i, j | 0 <= i < j < |todo[1..]|
      ensures todo[1..][i].table != todo[1..][j].table
    {
      assert todo[1..][i] == todo[i + 1] && todo[1..][j] == todo[j + 1];
    }
    forall q | q in todo[1..]
      ensures q.table != todo[0].table
    {
      var j :| 0 <= j < |todo[1..]| && todo[1..][j] == q;
      assert todo[j + 1] == q;
    }
  }

  /** The loop leaves every pin of a processed table at its branch head,
      and every other pin as it was. */
  lemma {:induction false} UpdateLayersPins(db: Db, w: Wc, todo: seq<Pin>, override: Option<string>, w': Wc)
    requires UpdateLayers(db, w, todo, override) == Ok(w')
    requires DistinctTables(w.pins) && DistinctTables(todo)
    requires forall q :: q in todo ==> q in w.pins
    ensures |w'.pins| == |w.pins|
    ensures forall i :: 0 <= i < |w.pins| ==> SameLayer(w'.pins[i], w.pins[i])
    ensures forall i :: 0 <= i < |w.pins| && (exists q :: q in todo && q.table == w.pins[i].table) ==>
      Tracked(w'.pins[i], db) && Lag(w'.pins[i], db) == 0
    ensures forall i :: 0 <= i < |w.pins| && (forall q :: q in todo ==> q.table != w.pins[i].table) ==>
      w'.pins[i] == w.pins[i]
    decreases |todo|
  {
    if todo != [] {
      var w1 := UpdateLayersFirst(db, w, todo, override, w');
      UpdateLayersPins(db, w1, todo[1..], override, w');
      CombineTurn(db, w.pins, w1.pins, w'.pins, todo);
    }
  }

  /** The first turn of the loop, and what it leaves for the rest. */
  lemma UpdateLayersFirst(db: Db, w: Wc, todo: seq<Pin>, override: Option<string>, w': Wc) returns (w1: Wc)
    requires UpdateLayers(db, w, todo, override) == Ok(w') && todo != []
    requires DistinctTables(w.pins) && DistinctTables(todo)
    requires forall q :: q in todo ==> q in w.pins
    ensures UpdateLayers(db, w1, todo[1..], override) == Ok(w')
    ensures DistinctTables(w1.pins) && DistinctTables(todo[1..])
    ensures forall q :: q in todo[1..] ==> q in w1.pins
    ensures |w1.pins| == |w.pins| &&
      forall i :: 0 <= i < |w.pins| ==>
        SameLayer(w1.pins[i], w.pins[i]) &&
        (w.pins[i].table != todo[0].table ==> w1.pins[i] == w.pins[i]) &&
        (w.pins[i] == todo[0] ==> Tracked(w1.pins[i], db) && Lag(w1.pins[i], db) == 0)
  {
    var p := todo[0];
    w1 := UpdateStep(db, w, p, override).value;
    UpdateStepPins(db, w, p, override);
    SameLayersKeepDistinct(w1.pins, w.pins);
    DistinctTail(todo);
    forall q | q in todo[1..]
      ensures q in w1.pins
    {
      assert q in todo;
      var i :| 0 <= i < |w.pins| && w.pins[i] == q;
      assert w1.pins[i] == q;
    }
  }

  /** The pins after one turn and after the rest of the loop, put
      together. */
  lemma CombineTurn(db: Db, pins: seq<Pin>, pins1: seq<Pin>, pins': seq<Pin>, todo: seq<Pin>)
    requires todo != [] && DistinctTables(pins) && DistinctTables(todo) && todo[0] in pins
    requires |pins1| == |pins| && |pins'| == |pins1|
    requires forall i :: 0 <= i < |pins| ==>
      SameLayer(pins1[i], pins[i]) &&
      (pins[i].table != todo[0].table ==> pins1[i] == pins[i]) &&
      (pins[i] == todo[0] ==> Tracked(pins1[i], db) && Lag(pins1[i], db) == 0)
    requires forall i :: 0 <= i < |pins1| ==> SameLayer(pins'[i], pins1[i])
    requires forall i :: 0 <= i < |pins1| && (exists q :: q in todo[1..] && q.table == pins1[i].table) ==>
      Tracked(pins'[i], db) && Lag(pins'[i], db) == 0
    requires forall i :: 0 <= i < |pins1| && (forall q :: q in todo[1..] ==> q.table != pins1[i].table) ==>
      pins'[i] == pins1[i]
    ensures forall i :: 0 <= i < |pins| ==> SameLayer(pins'[i], pins[i])
    ensures forall i :: 0 <= i < |pins| && (exists q :: q in todo && q.table == pins[i].table) ==>
      Tracked(pins'[i], db) && Lag(pins'[i], db) == 0
    ensures forall i :: 0 <= i < |pins| && (forall q :: q in todo ==> q.table != pins[i].table) ==>
      pins'[i] == pins[i]
  {
    var p := todo[0];
    DistinctTail(todo);
    var i0 :| 0 <= i0 < |pins| && pins[i0] == p;
    forall i | 0 <= i < |pins| && (exists q :: q in todo && q.table == pins[i].table)
      ensures Tracked(pins'[i], db) && Lag(pins'[i], db) == 0
    {
      if pins[i].table == p.table {
        assert i == i0;
        assert SameLayer(pins1[i], pins[i]);
        assert forall q :: q in todo[1..] ==> q.table != pins1[i].table;
      } else {
        var q :| q in todo && q.table == pins[i].table;
        assert q in todo[1..] && q.table == pins1[i].table;
      }
    }
    forall i | 0 <= i < |pins| && (forall q :: q in todo ==> q.table != pins[i].table)
      ensures pins'[i] == pins[i]
    {
      assert p in todo;
      assert forall q :: q in todo[1..] ==> q.table != pins1[i].table by {
        forall q | q in todo[1..]
          ensures q.table != pins1[i].table
        {
          assert q in todo;
        }
      }
    }
  }

  /** After an update, no layer is late: `commit`'s second gate opens. */
  lemma UpdateLeavesNothingLate(db: Db, w: Wc, override: Option<string>)
    requires AfterUpdate(db, w, override).Ok? && w.pins != []
    requires DistinctTables(w.pins)
    ensures Late(AfterUpdate(db, w, override).value.pins, db) == Ok(0)
  {
    UpdateLayersPins(db, w, w.pins, override, AfterUpdate(db, w, override).value);
    var pins := AfterUpdate(db, w, override).value.pins;
    forall i | 0 <= i < |pins|
      ensures Tracked(pins[i], db) && Lag(pins[i], db) <= 0
    {
      assert w.pins[i] in w.pins;
    }
    LateZeroIffUpToDate(pins, db);
  }

  /** `update` is refused while a conflict table has rows. */
  lemma UpdateRefusedWithConflicts(db: Db, w: Wc, override: Option<string>, t: string)
    requires t in w.conflicts && w.conflicts[t].entries != []
    ensures AfterUpdate(db, w, override).Err?
    ensures AfterUpdate(db, w, override).error.UnresolvedConflicts?
    ensures t in AfterUpdate(db, w, override).error.tables
  {
    UnresolvedNamesConflictedLayers(w, t);
  }
}
