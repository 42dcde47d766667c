/** The conflict table `update` builds when the server and the working copy
    both edited a row, the loop that follows the server's chain of
    successors, and the delete trigger through which the user resolves a
    conflict. */
module Conflicts {
  import opened Common
  import opened Lifecycle

  datatype Origin = Mine | Theirs
  datatype Action = Modified | Deleted

  /** A row of `<table>_conflicts`: a whole row of the working copy (`mine`)
      or of the diff (`theirs`) under its own key, labelled with the
      conflict it belongs to and with what that side did. */
  datatype Entry = Entry(conflictId: Option<Fid>, origin: Origin, action: Action, fid: Fid, row: Row)

  /** The entries of `es` that `keep` accepts, in order. */
  function Filter(es: seq<Entry>, keep: Entry -> bool): (r: seq<Entry>)
    ensures forall e :: e in r <==> e in es && keep(e)
    ensures |r| <= |es|
  {
    if es == [] then []
    else
      assert es == [es[0]] + es[1..];
      (if keep(es[0]) then [es[0]] else []) + Filter(es[1..], keep)
  }

  /** SQLite's `a != b`: true only when both are non-NULL and differ. */
  predicate SqlDiffers(a: Option<Fid>, b: Option<Fid>)
  {
    a.Some? && b.Some? && a.value != b.value
  }

  /** The test on the two `child` columns: SQLite's `!=`, or, with
      `nullAware` (the PostgreSQL variant), `!=` or exactly one side NULL. */
  predicate ChildrenDiffer(a: Option<Fid>, b: Option<Fid>, nullAware: bool)
  {
    SqlDiffers(a, b) || (nullAware && a.None? != b.None?)
  }

  /** `<table>_conflicts_ogc_fid`: the keys present in both the working
      copy and the diff whose `child` differs. */
  function ConflictFids(local: Table, diff: Table, branch: string, nullAware: bool): (s: set<Fid>)
    ensures forall k :: k in s <==>
      k in local && k in diff &&
      ChildrenDiffer(LifeOf(local[k], branch).child, LifeOf(diff[k], branch).child, nullAware)
  {
    set k | k in local && k in diff &&
      ChildrenDiffer(LifeOf(local[k], branch).child, LifeOf(diff[k], branch).child, nullAware)
  }

  /** The PostgreSQL test finds every conflict SQLite finds, and in addition
      exactly the rows one side deleted (no `child`) while the other
      replaced them. */
  lemma NullAwareAddsDeleteAgainstEdit(local: Table, diff: Table, branch: string, k: Fid)
    ensures ConflictFids(local, diff, branch, false) <= ConflictFids(local, diff, branch, true)
    ensures k in ConflictFids(local, diff, branch, true) && k !in ConflictFids(local, diff, branch, false) <==>
      k in local && k in diff &&
      LifeOf(local[k], branch).child.None? != LifeOf(diff[k], branch).child.None?
  {
  }

  /** The `modified` part of the union on one side: for each conflicting
      key in turn, the row that replaced it there (its `child`), labelled
      with that row's `parent`. */
  function ModifiedEntries(t: Table, branch: string, origin: Origin, cfs: seq<Fid>): (r: seq<Entry>)
    ensures forall e :: e in r ==>
      e.origin == origin && e.action == Modified && e.fid in t && e.row == t[e.fid] &&
      e.conflictId == LifeOf(t[e.fid], branch).parent &&
      exists cf :: cf in cfs && cf in t && LifeOf(t[cf], branch).child == Some(e.fid)
  {
    if cfs == [] then []
    else
      var cf := cfs[0];
      var rest := ModifiedEntries(t, branch, origin, cfs[1..]);
      assert forall x :: x in cfs[1..] ==> x in cfs;
      if cf in t && LifeOf(t[cf], branch).child.Some? && LifeOf(t[cf], branch).child.value in t then
        var c := LifeOf(t[cf], branch).child.value;
        [Entry(LifeOf(t[c], branch).parent, origin, Modified, c, t[c])] + rest
      else rest
  }

  /** The `deleted` part of the union on one side: each conflicting key
      whose row there has no successor; `conflict_id` is then set to the
      row's own key. */
  function DeletedEntries(t: Table, branch: string, origin: Origin, cfs: seq<Fid>): (r: seq<Entry>)
    ensures forall e :: e in r ==>
      e.origin == origin && e.action == Deleted && e.fid in cfs && e.fid in t && e.row == t[e.fid] &&
      e.conflictId == Some(e.fid) && LifeOf(t[e.fid], branch).child.None?
  {
    if cfs == [] then []
    else
      var cf := cfs[0];
      var rest := DeletedEntries(t, branch, origin, cfs[1..]);
      assert forall x :: x in cfs[1..] ==> x in cfs;
      if cf in t && LifeOf(t[cf], branch).child.None? then [Entry(Some(cf), origin, Deleted, cf, t[cf])] + rest
      else rest
  }

  /** `CREATE TABLE <table>_conflicts AS ...`: the four parts of the
      `UNION ALL` (mine modified, theirs modified, mine deleted, theirs
      deleted), followed by `SET conflict_id = OGC_FID WHERE action =
      'deleted'`. */
  function InitialEntries(local: Table, diff: Table, branch: string, nullAware: bool): seq<Entry>
  {
    var cfs := Ascending(ConflictFids(local, diff, branch, nullAware));
    ModifiedEntries(local, branch, Mine, cfs) + ModifiedEntries(diff, branch, Theirs, cfs) +
    DeletedEntries(local, branch, Mine, cfs) + DeletedEntries(diff, branch, Theirs, cfs)
  }

  /** `parent` points back along `child`: what the edit triggers maintain
      on both sides. */
  predicate Linked(t: Table, branch: string)
  {
    forall k, c :: k in t && c in t && LifeOf(t[k], branch).child == Some(c) ==> LifeOf(t[c], branch).parent == Some(k)
  }

  /** Each theirs entry is the diff's row under its key. */
  predicate TheirsFromDiff(es: seq<Entry>, diff: Table)
  {
    forall e :: e in es && e.origin == Theirs ==> e.fid in diff && e.row == diff[e.fid]
  }

  /** Every entry is a whole row of its side, and belongs to a conflicting
      key: with `parent` linked to `child`, the two versions of a conflict
      share its `conflict_id`. With SQLite's `!=`, no side is ever
      `deleted`. */
  lemma InitialEntriesOfConflict(local: Table, diff: Table, branch: string, nullAware: bool, e: Entry)
    requires Linked(local, branch) && Linked(diff, branch)
    requires e in InitialEntries(local, diff, branch, nullAware)
    ensures exists cf :: cf in ConflictFids(local, diff, branch, nullAware) && e.conflictId == Some(cf)
    ensures e.origin == Mine ==> e.fid in local && e.row == local[e.fid]
    ensures e.origin == Theirs ==> e.fid in diff && e.row == diff[e.fid]
    ensures !nullAware ==> e.action == Modified
  {
    var s := ConflictFids(local, diff, branch, nullAware);
    var cfs := Ascending(s);
    if e in ModifiedEntries(local, branch, Mine, cfs) {
      var cf :| cf in cfs && cf in local && LifeOf(local[cf], branch).child == Some(e.fid);
      assert cf in s;
    } else if e in ModifiedEntries(diff, branch, Theirs, cfs) {
      var cf :| cf in cfs && cf in diff && LifeOf(diff[cf], branch).child == Some(e.fid);
      assert cf in s;
    } else if e in DeletedEntries(local, branch, Mine, cfs) {
      assert e.fid in s;
    } else {
      assert e in DeletedEntries(diff, branch, Theirs, cfs);
      assert e.fid in s;
    }
  }

  lemma InitialTheirsFromDiff(local: Table, diff: Table, branch: string, nullAware: bool)
    requires Linked(local, branch) && Linked(diff, branch)
    ensures TheirsFromDiff(InitialEntries(local, diff, branch, nullAware), diff)
    ensures forall e :: e in InitialEntries(local, diff, branch, nullAware) ==> e.conflictId.Some?
  {
    forall e | e in InitialEntries(local, diff, branch, nullAware)
      ensures e.origin == Theirs ==> e.fid in diff && e.row == diff[e.fid]
      ensures e.conflictId.Some?
    {
      InitialEntriesOfConflict(local, diff, branch, nullAware, e);
    }
  }

  /** An entry the loop still has to follow: theirs, `modified`, with a
      `child`. */
  predicate Pending(e: Entry, branch: string)
  {
    e.origin == Theirs && e.action == Modified && LifeOf(e.row, branch).child.Some?
  }

  /** The loop's `SELECT conflict_id, OGC_FID, child ... WHERE origin =
      'theirs' AND action = 'modified' AND child IS NOT NULL`. */
  function PendingEntries(es: seq<Entry>, branch: string): (r: seq<Entry>)
    ensures |r| <= |es|
  {
    if es == [] then []
    else (if Pending(es[0], branch) then [es[0]] else []) + PendingEntries(es[1..], branch)
  }

  /** The query fetches exactly the pending entries. */
  lemma {:induction false} PendingEntriesMembers(es: seq<Entry>, branch: string)
    ensures forall e :: e in PendingEntries(es, branch) <==> e in es && Pending(e, branch)
  {
    if es != [] {
      PendingEntriesMembers(es[1..], branch);
      assert es == [es[0]] + es[1..];
    }
  }

  /** The label the loop gives a row it inserts, as written: `modified`
      when the row is alive, `deleted` when it is closed. */
  function ChaseLabelAsWritten(l: Life): Action
  {
    if l.revEnd.None? then Modified else Deleted
  }

  /** The label that lets the loop reach the last version: a row closed
      with a successor is still `modified`, so the loop follows it in turn;
      only a row closed without successor is `deleted`. */
  function ChaseLabel(l: Life): Action
  {
    if l.revEnd.None? || l.child.Some? then Modified else Deleted
  }

  /** The label the loop gives a row it inserts, as written or corrected. */
  datatype Labelling = AsWritten | Corrected

  function Label(labels: Labelling, l: Life): Action
  {
    if labels == AsWritten then ChaseLabelAsWritten(l) else ChaseLabel(l)
  }

  /** `DELETE FROM <table>_conflicts WHERE OGC_FID = fid`. */
  function WithoutFid(es: seq<Entry>, fid: Fid): (r: seq<Entry>)
    ensures |r| <= |es|
  {
    if es == [] then []
    else (if es[0].fid != fid then [es[0]] else []) + WithoutFid(es[1..], fid)
  }

  /** The deletion removes exactly the entries with that key. */
  lemma {:induction false} WithoutFidMembers(es: seq<Entry>, fid: Fid)
    ensures forall e :: e in WithoutFid(es, fid) <==> e in es && e.fid != fid
  {
    if es != [] {
      WithoutFidMembers(es[1..], fid);
      assert es == [es[0]] + es[1..];
    }
  }

  /** The body of the inner `for` for one fetched entry `p`: delete the
      entries with its key and insert the diff's row under `p`'s `child`,
      with `p`'s `conflict_id` (nothing if the diff has no such row). The
      statement text holds `str(conflict_id)`, which fails for NULL. The
      loop only fetches pending entries, which have a `child`. */
  function ChaseStep(es: seq<Entry>, p: Entry, diff: Table, branch: string, labels: Labelling): (r: Result<seq<Entry>>)
    ensures r.Err? <==> p.conflictId.None?
  {
    if p.conflictId.None? then Err(NullConflictId)
    else
      var c := LifeOf(p.row, branch).child;
      var rest := WithoutFid(es, p.fid);
      if c.Some? && c.value in diff then Ok(rest + [Entry(p.conflictId, Theirs, Label(labels, LifeOf(diff[c.value], branch)), c.value, diff[c.value])])
      else Ok(rest)
  }

  /** What one step leaves: the entries without the fetched key, and the
      diff's row under the fetched entry's `child`, if the diff has it. */
  lemma ChaseStepMembers(es: seq<Entry>, p: Entry, diff: Table, branch: string, labels: Labelling, e: Entry)
    requires Pending(p, branch) && p.conflictId.Some?
    ensures e in ChaseStep(es, p, diff, branch, labels).value <==>
      (e in es && e.fid != p.fid) ||
      (var c := LifeOf(p.row, branch).child.value;
       c in diff && e == Entry(p.conflictId, Theirs, Label(labels, LifeOf(diff[c], branch)), c, diff[c]))
  {
    WithoutFidMembers(es, p.fid);
  }

  /** One turn of `while True`: every fetched entry in turn. */
  function Round(es: seq<Entry>, res: seq<Entry>, diff: Table, branch: string, labels: Labelling): Result<seq<Entry>>
    decreases |res|
  {
    if res == [] then Ok(es)
    else
      match ChaseStep(es, res[0], diff, branch, labels)
      case Err(err) => Err(err)
      case Ok(es') => Round(es', res[1..], diff, branch, labels)
  }

  /** The `while True` loop, given at most `fuel` turns: the source loops
      forever on a cycle of `child` links, which this reports instead. */
  function Chase(es: seq<Entry>, diff: Table, branch: string, labels: Labelling, fuel: nat): (r: Result<seq<Entry>>)
    ensures r.Ok? ==> PendingEntries(r.value, branch) == []
    decreases fuel
  {
    var res := PendingEntries(es, branch);
    if res == [] then Ok(es)
    else if fuel == 0 then Err(ChildCycle)
    else
      match Round(es, res, diff, branch, labels)
      case Err(err) => Err(err)
      case Ok(es') => Chase(es', diff, branch, labels, fuel - 1)
  }

  /** One turn of the loop, one fetched entry at a time. */
  method ReplaceByChildren(es: seq<Entry>, res: seq<Entry>, diff: Table, branch: string) returns (r: Result<seq<Entry>>)
    ensures r == Round(es, res, diff, branch, Corrected)
  {
    var cur := es;
    var i := 0;
    while i < |res|
      invariant 0 <= i <= |res|
      invariant Round(es, res, diff, branch, Corrected) == Round(cur, res[i..], diff, branch, Corrected)
    {
      assert res[i..][0] == res[i] && res[i..][1..] == res[i + 1..];
      var step := ChaseStep(cur, res[i], diff, branch, Corrected);
      if step.Err? {
        return Err(step.error);
      }
      cur := step.value;
      i := i + 1;
    }
    return Ok(cur);
  }

  /** A turn of the loop with entries pending and fuel left. */
  lemma ChaseTurn(es: seq<Entry>, t: Result<seq<Entry>>, diff: Table, branch: string, labels: Labelling, fuel: nat)
    requires PendingEntries(es, branch) != [] && fuel > 0
    requires t == Round(es, PendingEntries(es, branch), diff, branch, labels)
    ensures t.Ok? ==> Chase(es, diff, branch, labels, fuel) == Chase(t.value, diff, branch, labels, fuel - 1)
    ensures t.Err? ==> Chase(es, diff, branch, labels, fuel) == Err(t.error)
  {
  }

  /** The loop of `update` on the conflict table: it ends once no entry is
      pending. */
  method FollowChildren(es: seq<Entry>, diff: Table, branch: string) returns (r: Result<seq<Entry>>)
    ensures r == Chase(es, diff, branch, Corrected, |diff.Keys|)
    ensures r.Ok? ==> forall e :: e in r.value ==> !Pending(e, branch)
  {
    var cur := es;
    var fuel: nat := |diff.Keys|;
    var res := PendingEntries(cur, branch);
    while res != [] && fuel > 0
      invariant res == PendingEntries(cur, branch)
      invariant Chase(cur, diff, branch, Corrected, fuel) == Chase(es, diff, branch, Corrected, |diff.Keys|)
      decreases fuel
    {
      var next := ReplaceByChildren(cur, res, diff, branch);
      ChaseTurn(cur, next, diff, branch, Corrected, fuel);
      if next.Err? {
        return Err(next.error);
      }
      cur := next.value;
      fuel := fuel - 1;
      res := PendingEntries(cur, branch);
    }
    if res == [] {
      PendingEntriesMembers(cur, branch);
      return Ok(cur);
    }
    return Err(ChildCycle);
  }

  /** A turn fails only on a NULL `conflict_id`. */
  lemma {:induction false} RoundOk(es: seq<Entry>, res: seq<Entry>, diff: Table, branch: string, labels: Labelling)
    requires forall p :: p in res ==> Pending(p, branch) && p.conflictId.Some?
    ensures Round(es, res, diff, branch, labels).Ok?
    decreases |res|
  {
    if res != [] {
      assert forall x :: x in res[1..] ==> x in res;
      RoundOk(ChaseStep(es, res[0], diff, branch, labels).value, res[1..], diff, branch, labels);
    }
  }

  /** What one turn leaves: an entry is either one the turn did not touch
      (no fetched entry had its key) or the diff's row under the `child`
      of a fetched entry, with that entry's `conflict_id` and the label of
      its own history. */
  lemma {:induction false} RoundSource(es: seq<Entry>, res: seq<Entry>, diff: Table, branch: string, labels: Labelling, q: Entry)
    requires forall p :: p in res ==> Pending(p, branch)
    requires Round(es, res, diff, branch, labels).Ok? && q in Round(es, res, diff, branch, labels).value
    ensures (q in es && forall p :: p in res ==> p.fid != q.fid) ||
      (exists p :: p in res && LifeOf(p.row, branch).child == Some(q.fid) && q.conflictId == p.conflictId &&
        q.origin == Theirs && q.fid in diff && q.row == diff[q.fid] && q.action == Label(labels, LifeOf(diff[q.fid], branch)))
    decreases |res|
  {
    if res != [] {
      var p := res[0];
      var es1 := ChaseStep(es, p, diff, branch, labels).value;
      assert forall x :: x in res[1..] ==> x in res;
      RoundSource(es1, res[1..], diff, branch, labels, q);
      if q in es1 && forall p' :: p' in res[1..] ==> p'.fid != q.fid {
        ChaseStepMembers(es, p, diff, branch, labels, q);
        if !(q in es && q.fid != p.fid) {
          var c := LifeOf(p.row, branch).child.value;
          assert c in diff && q == Entry(p.conflictId, Theirs, Label(labels, LifeOf(diff[c], branch)), c, diff[c]);
        } else {
          assert res == [p] + res[1..];
        }
      }
    }
  }

  /** The server gives a new version a key above the one it replaces. */
  predicate ForwardChildren(diff: Table, branch: string)
  {
    forall k :: k in diff && LifeOf(diff[k], branch).child.Some? ==> LifeOf(diff[k], branch).child.value > k
  }

  /** Every pending entry names its conflict. */
  predicate PendingIdentified(es: seq<Entry>, branch: string)
  {
    forall e :: e in es && Pending(e, branch) ==> e.conflictId.Some?
  }

  /** The diff keys at or above some pending entry: what the loop can
      still walk through. */
  function Span(es: seq<Entry>, diff: Table, branch: string): set<Fid>
  {
    set k | k in diff && exists p :: p in es && Pending(p, branch) && p.fid <= k
  }

  lemma SubsetCard(a: set<Fid>, b: set<Fid>, m: Fid)
    requires a <= b - {m} && m in b
    ensures |a| < |b|
  {
    assert |a| <= |b - {m}| by {
      var extra := (b - {m}) - a;
      assert b - {m} == a + extra;
    }
  }

  lemma SubsetCardLe(a: set<Fid>, b: set<Fid>)
    requires a <= b
    ensures |a| <= |b|
  {
    assert b == a + (b - a);
  }

  /** If every pending entry after a turn lies above a pending entry from
      before it, the lowest pending key before the turn leaves the span. */
  lemma SpanDropsLowest(es: seq<Entry>, es': seq<Entry>, diff: Table, branch: string, low: Entry)
    requires low in es && Pending(low, branch) && low.fid in diff
    requires forall p :: p in es && Pending(p, branch) ==> low.fid <= p.fid
    requires forall q :: q in es' && Pending(q, branch) ==> exists p :: p in es && Pending(p, branch) && q.fid > p.fid
    ensures |Span(es', diff, branch)| < |Span(es, diff, branch)|
  {
    var before := Span(es, diff, branch);
    var after := Span(es', diff, branch);
    forall k | k in after
      ensures k in before - {low.fid}
    {
      var q :| q in es' && Pending(q, branch) && q.fid <= k;
      var p :| p in es && Pending(p, branch) && q.fid > p.fid;
      assert p.fid <= k;
    }
    assert low.fid in before;
    SubsetCard(after, before, low.fid);
  }

  /** When children point forward, the entries one turn leaves start
      strictly higher: the lowest pending key drops out of the span. */
  lemma RoundNarrowsSpan(es: seq<Entry>, diff: Table, branch: string, labels: Labelling)
    requires ForwardChildren(diff, branch) && TheirsFromDiff(es, diff) && PendingIdentified(es, branch)
    requires PendingEntries(es, branch) != []
    ensures Round(es, PendingEntries(es, branch), diff, branch, labels).Ok?
    ensures var es' := Round(es, PendingEntries(es, branch), diff, branch, labels).value;
      TheirsFromDiff(es', diff) && PendingIdentified(es', branch) &&
      |Span(es', diff, branch)| < |Span(es, diff, branch)|
  {
    var res := PendingEntries(es, branch);
    PendingEntriesMembers(es, branch);
    RoundOk(es, res, diff, branch, labels);
    var es' := Round(es, res, diff, branch, labels).value;
    forall q | q in es' && q.origin == Theirs
      ensures q.fid in diff && q.row == diff[q.fid]
    {
      RoundSource(es, res, diff, branch, labels, q);
    }
    forall q | q in es' && Pending(q, branch)
      ensures q.conflictId.Some?
      ensures exists p :: p in es && Pending(p, branch) && q.fid > p.fid
    {
      RoundSource(es, res, diff, branch, labels, q);
      assert !(q in es && forall p :: p in res ==> p.fid != q.fid) by {
        if q in es {
          assert q in res;
        }
      }
      var p :| p in res && LifeOf(p.row, branch).child == Some(q.fid) && q.conflictId == p.conflictId;
      assert p.fid in diff && p.row == diff[p.fid];
    }
    var fids := set p | p in es && Pending(p, branch) :: p.fid;
    assert res[0].fid in fids;
    var m := MinOf(fids);
    var low :| low in es && Pending(low, branch) && low.fid == m;
    assert low.fid in diff;
    forall p | p in es && Pending(p, branch)
      ensures low.fid <= p.fid
    {
      assert p.fid in fids;
    }
    assert forall q :: q in es' && Pending(q, branch) ==> exists p :: p in es && Pending(p, branch) && q.fid > p.fid;
    SpanDropsLowest(es, es', diff, branch, low);
  }

  /** With children pointing forward, the loop ends within as many turns
      as the span it starts with. */
  lemma {:induction false} ChaseFinishes(es: seq<Entry>, diff: Table, branch: string, labels: Labelling, fuel: nat)
    requires ForwardChildren(diff, branch) && TheirsFromDiff(es, diff) && PendingIdentified(es, branch)
    requires |Span(es, diff, branch)| <= fuel
    ensures Chase(es, diff, branch, labels, fuel).Ok?
    decreases fuel
  {
    var res := PendingEntries(es, branch);
    PendingEntriesMembers(es, branch);
    if res != [] {
      assert res[0].fid in Span(es, diff, branch);
      RoundNarrowsSpan(es, diff, branch, labels);
      var es' := Round(es, res, diff, branch, labels).value;
      ChaseFinishes(es', diff, branch, labels, fuel - 1);
      assert Chase(es, diff, branch, labels, fuel) == Chase(es', diff, branch, labels, fuel - 1);
    }
  }

  /** Theirs `deleted` entries are ends of their chains. */
  predicate DeletedAreEnds(es: seq<Entry>, branch: string)
  {
    forall e :: e in es && e.origin == Theirs && e.action == Deleted ==> LifeOf(e.row, branch).child.None?
  }

  /** With the corrected label, every theirs entry the loop leaves is the
      last version of its chain in the diff: it has no `child`. */
  lemma {:induction false} ChaseReachesLastVersions(es: seq<Entry>, diff: Table, branch: string, fuel: nat)
    requires TheirsFromDiff(es, diff) && DeletedAreEnds(es, branch)
    requires Chase(es, diff, branch, Corrected, fuel).Ok?
    ensures TheirsFromDiff(Chase(es, diff, branch, Corrected, fuel).value, diff)
    ensures forall e :: e in Chase(es, diff, branch, Corrected, fuel).value && e.origin == Theirs ==>
      LifeOf(e.row, branch).child.None?
    decreases fuel
  {
    var res := PendingEntries(es, branch);
    PendingEntriesMembers(es, branch);
    if res != [] {
      var es' := Round(es, res, diff, branch, Corrected).value;
      forall q | q in es' && q.origin == Theirs
        ensures q.fid in diff && q.row == diff[q.fid]
        ensures q.action == Deleted ==> LifeOf(q.row, branch).child.None?
      {
        RoundSource(es, res, diff, branch, Corrected, q);
      }
      ChaseReachesLastVersions(es', diff, branch, fuel - 1);
    } else {
      forall e | e in es && e.origin == Theirs
        ensures LifeOf(e.row, branch).child.None?
      {
        assert !Pending(e, branch);
      }
    }
  }

  /** For the conflict table `update` builds: with both sides linked and
      the server's children pointing forward, the loop ends, and every
      theirs entry is the diff's last version of its chain. */
  lemma ConflictEntriesEndChains(local: Table, diff: Table, branch: string, nullAware: bool)
    requires Linked(local, branch) && Linked(diff, branch) && ForwardChildren(diff, branch)
    ensures Chase(InitialEntries(local, diff, branch, nullAware), diff, branch, Corrected, |diff.Keys|).Ok?
    ensures forall e :: (e in Chase(InitialEntries(local, diff, branch, nullAware), diff, branch, Corrected, |diff.Keys|).value &&
      e.origin == Theirs) ==> e.fid in diff && e.row == diff[e.fid] && LifeOf(e.row, branch).child.None?
  {
    var es := InitialEntries(local, diff, branch, nullAware);
    InitialTheirsFromDiff(local, diff, branch, nullAware);
    assert Span(es, diff, branch) <= diff.Keys;
    SubsetCardLe(Span(es, diff, branch), diff.Keys);
    assert TheirsFromDiff(es, diff);
    assert PendingIdentified(es, branch);
    ChaseFinishes(es, diff, branch, Corrected, |diff.Keys|);
    forall e | e in es && e.origin == Theirs && e.action == Deleted
      ensures LifeOf(e.row, branch).child.None?
    {
      var cfs := Ascending(ConflictFids(local, diff, branch, nullAware));
      assert e !in ModifiedEntries(local, branch, Mine, cfs) && e !in ModifiedEntries(diff, branch, Theirs, cfs);
      assert e !in DeletedEntries(local, branch, Mine, cfs);
    }
    ChaseReachesLastVersions(es, diff, branch, |diff.Keys|);
  }

  /** The `modified` part on one side holds, for a conflicting key whose
      successor is a row of that side, the successor under its `parent`. */
  lemma {:induction false} ModifiedEntriesHas(t: Table, branch: string, origin: Origin, cfs: seq<Fid>, cf: Fid)
    requires cf in cfs && cf in t && LifeOf(t[cf], branch).child.Some? && LifeOf(t[cf], branch).child.value in t
    ensures var c := LifeOf(t[cf], branch).child.value;
      Entry(LifeOf(t[c], branch).parent, origin, Modified, c, t[c]) in ModifiedEntries(t, branch, origin, cfs)
  {
    if cfs[0] != cf {
      ModifiedEntriesHas(t, branch, origin, cfs[1..], cf);
    }
  }

  /** The `deleted` part on one side holds each conflicting key of that
      side without successor, under its own key. */
  lemma {:induction false} DeletedEntriesHas(t: Table, branch: string, origin: Origin, cfs: seq<Fid>, cf: Fid)
    requires cf in cfs && cf in t && LifeOf(t[cf], branch).child.None?
    ensures Entry(Some(cf), origin, Deleted, cf, t[cf]) in DeletedEntries(t, branch, origin, cfs)
  {
    if cfs[0] != cf {
      DeletedEntriesHas(t, branch, origin, cfs[1..], cf);
    }
  }

  /** One side of the union for a conflicting key `cf`: an entry labelled
      `cf`, `modified` when that side replaced the row and `deleted` when
      it closed the row without successor. */
  lemma SideEntry(t: Table, branch: string, origin: Origin, cfs: seq<Fid>, cf: Fid)
    requires Linked(t, branch) && ChildrenExist(t, branch)
    requires cf in cfs && cf in t
    ensures exists e ::
      e in ModifiedEntries(t, branch, origin, cfs) + DeletedEntries(t, branch, origin, cfs) &&
      e.origin == origin && e.conflictId == Some(cf) &&
      (e.action == Modified <==> LifeOf(t[cf], branch).child.Some?)
  {
    if LifeOf(t[cf], branch).child.Some? {
      ModifiedEntriesHas(t, branch, origin, cfs, cf);
    } else {
      DeletedEntriesHas(t, branch, origin, cfs, cf);
    }
  }

  /** Every conflicting key gets a `mine` and a `theirs` entry labelled
      with it, each `modified` exactly when its side replaced the row; with
      SQLite's `!=` both sides replaced it. */
  lemma InitialEntriesComplete(local: Table, diff: Table, branch: string, nullAware: bool, cf: Fid)
    requires Linked(local, branch) && Linked(diff, branch)
    requires ChildrenExist(local, branch) && ChildrenExist(diff, branch)
    requires cf in ConflictFids(local, diff, branch, nullAware)
    ensures exists e ::
      e in InitialEntries(local, diff, branch, nullAware) &&
      e.origin == Mine && e.conflictId == Some(cf) && (e.action == Modified <==> LifeOf(local[cf], branch).child.Some?)
    ensures exists e ::
      e in InitialEntries(local, diff, branch, nullAware) &&
      e.origin == Theirs && e.conflictId == Some(cf) && (e.action == Modified <==> LifeOf(diff[cf], branch).child.Some?)
    ensures !nullAware ==> LifeOf(local[cf], branch).child.Some? && LifeOf(diff[cf], branch).child.Some?
  {
    var cfs := Ascending(ConflictFids(local, diff, branch, nullAware));
    SideEntry(local, branch, Mine, cfs, cf);
    SideEntry(diff, branch, Theirs, cfs, cf);
  }

  /** Some theirs entry is labelled `cf`. */
  predicate HasTheirs(es: seq<Entry>, cf: Fid)
  {
    exists e :: e in es && e.origin == Theirs && e.conflictId == Some(cf)
  }

  /** `root` is constant along the diff's `child` links: it names, for
      each key, the chain of successors it lies on. */
  predicate ChainsRootedBy(diff: Table, branch: string, root: Fid -> Fid)
  {
    forall k :: k in diff && LifeOf(diff[k], branch).child.Some? ==>
      root(LifeOf(diff[k], branch).child.value) == root(k)
  }

  /** Every theirs entry is labelled with the chain its key lies on. */
  predicate TheirsRootedBy(es: seq<Entry>, root: Fid -> Fid)
  {
    forall e :: e in es && e.origin == Theirs ==> e.conflictId == Some(root(e.fid))
  }

  /** A fetched entry: pending, the diff's row under its key, labelled
      with its chain. */
  predicate Fetchable(p: Entry, diff: Table, branch: string, root: Fid -> Fid)
  {
    Pending(p, branch) && p.fid in diff && p.row == diff[p.fid] && p.conflictId == Some(root(p.fid))
  }

  /** One step keeps a theirs entry under every label it had: the entries
      it deletes share the fetched entry's label, and the successor it
      inserts carries that label on. */
  lemma ChaseStepKeepsTheirs(es: seq<Entry>, p: Entry, diff: Table, branch: string, labels: Labelling, root: Fid -> Fid, cf: Fid)
    requires ChildrenExist(diff, branch) && ChainsRootedBy(diff, branch, root)
    requires Fetchable(p, diff, branch, root)
    requires TheirsFromDiff(es, diff) && TheirsRootedBy(es, root) && HasTheirs(es, cf)
    ensures TheirsFromDiff(ChaseStep(es, p, diff, branch, labels).value, diff)
    ensures TheirsRootedBy(ChaseStep(es, p, diff, branch, labels).value, root)
    ensures HasTheirs(ChaseStep(es, p, diff, branch, labels).value, cf)
  {
    var es' := ChaseStep(es, p, diff, branch, labels).value;
    var c := LifeOf(p.row, branch).child.value;
    assert c in diff;
    var n := Entry(p.conflictId, Theirs, Label(labels, LifeOf(diff[c], branch)), c, diff[c]);
    ChaseStepMembers(es, p, diff, branch, labels, n);
    forall q | q in es' && q.origin == Theirs
      ensures q.fid in diff && q.row == diff[q.fid] && q.conflictId == Some(root(q.fid))
    {
      ChaseStepMembers(es, p, diff, branch, labels, q);
    }
    var e :| e in es && e.origin == Theirs && e.conflictId == Some(cf);
    ChaseStepMembers(es, p, diff, branch, labels, e);
  }

  /** A turn keeps a theirs entry under every label it had. */
  lemma {:induction false} RoundKeepsTheirs(es: seq<Entry>, res: seq<Entry>, diff: Table, branch: string, labels: Labelling, root: Fid -> Fid, cf: Fid)
    requires ChildrenExist(diff, branch) && ChainsRootedBy(diff, branch, root)
    requires forall p :: p in res ==> Fetchable(p, diff, branch, root)
    requires TheirsFromDiff(es, diff) && TheirsRootedBy(es, root) && HasTheirs(es, cf)
    requires Round(es, res, diff, branch, labels).Ok?
    ensures TheirsFromDiff(Round(es, res, diff, branch, labels).value, diff)
    ensures TheirsRootedBy(Round(es, res, diff, branch, labels).value, root)
    ensures HasTheirs(Round(es, res, diff, branch, labels).value, cf)
    decreases |res|
  {
    if res != [] {
      ChaseStepKeepsTheirs(es, res[0], diff, branch, labels, root, cf);
      assert forall x :: x in res[1..] ==> x in res;
      RoundKeepsTheirs(ChaseStep(es, res[0], diff, branch, labels).value, res[1..], diff, branch, labels, root, cf);
    }
  }

  /** When each chain of the diff carries one label, the loop keeps a
      theirs entry under every label it starts with. */
  lemma {:induction false} ChaseKeepsTheirs(es: seq<Entry>, diff: Table, branch: string, labels: Labelling, fuel: nat, root: Fid -> Fid, cf: Fid)
    requires ChildrenExist(diff, branch) && ChainsRootedBy(diff, branch, root)
    requires TheirsFromDiff(es, diff) && TheirsRootedBy(es, root) && HasTheirs(es, cf)
    requires Chase(es, diff, branch, labels, fuel).Ok?
    ensures HasTheirs(Chase(es, diff, branch, labels, fuel).value, cf)
    decreases fuel
  {
    var res := PendingEntries(es, branch);
    if res != [] {
      PendingEntriesMembers(es, branch);
      RoundKeepsTheirs(es, res, diff, branch, labels, root, cf);
      ChaseKeepsTheirs(Round(es, res, diff, branch, labels).value, diff, branch, labels, fuel - 1, root, cf);
    }
  }

  /** With every `child` in the diff, a turn that succeeds leaves entries
      when it had some: each step inserts the successor it fetched. */
  lemma {:induction false} RoundKeepsAnEntry(es: seq<Entry>, res: seq<Entry>, diff: Table, branch: string, labels: Labelling)
    requires ChildrenExist(diff, branch)
    requires forall p :: p in res ==> Pending(p, branch) && p.fid in diff && p.row == diff[p.fid]
    requires es != [] && Round(es, res, diff, branch, labels).Ok?
    ensures Round(es, res, diff, branch, labels).value != []
    decreases |res|
  {
    if res != [] {
      var p := res[0];
      var c := LifeOf(p.row, branch).child.value;
      assert c in diff;
      var es1 := ChaseStep(es, p, diff, branch, labels).value;
      assert es1[|es1| - 1].fid == c;
      assert forall x :: x in res[1..] ==> x in res;
      RoundKeepsAnEntry(es1, res[1..], diff, branch, labels);
    }
  }

  /** With every `child` in the diff, the loop never empties the table. */
  lemma {:induction false} ChaseKeepsAnEntry(es: seq<Entry>, diff: Table, branch: string, labels: Labelling, fuel: nat)
    requires ChildrenExist(diff, branch) && TheirsFromDiff(es, diff)
    requires es != [] && Chase(es, diff, branch, labels, fuel).Ok?
    ensures Chase(es, diff, branch, labels, fuel).value != []
    decreases fuel
  {
    var res := PendingEntries(es, branch);
    if res != [] {
      PendingEntriesMembers(es, branch);
      RoundKeepsAnEntry(es, res, diff, branch, labels);
      var es' := Round(es, res, diff, branch, labels).value;
      forall q | q in es' && q.origin == Theirs
        ensures q.fid in diff && q.row == diff[q.fid]
      {
        RoundSource(es, res, diff, branch, labels, q);
      }
      ChaseKeepsAnEntry(es', diff, branch, labels, fuel - 1);
    }
  }

  /** A diff where the server replaced row 1 by 2, 2 by 3 and 3 by 4 since
      the pin: only row 4 is live. */
  function ChainDiff(): Table
  {
    var b := "trunk";
    map[1 := Row(["a"], map[b := Life(Some(1), Some(1), None, Some(2))]),
        2 := Row(["b"], map[b := Life(Some(2), Some(2), Some(1), Some(3))]),
        3 := Row(["c"], map[b := Life(Some(3), Some(3), Some(2), Some(4))]),
        4 := Row(["d"], map[b := Life(Some(4), None, Some(3), None)])]
  }

  /** As written, the loop stops at the first closed successor: the entry
      for row 2 is followed to row 3, which is closed and therefore
      labelled `deleted`, and the loop never reaches row 4, the server's
      live version. */
  lemma ChaseAsWrittenStopsEarly()
    ensures var d := ChainDiff();
      HeadView(d, "trunk").Keys == {4} &&
      Chase([Entry(Some(1), Theirs, Modified, 2, d[2])], d, "trunk", AsWritten, |d.Keys|) ==
        Ok([Entry(Some(1), Theirs, Deleted, 3, d[3])])
  {
    var b := "trunk";
    var d := ChainDiff();
    assert d.Keys == {1, 2, 3, 4};
    assert |d.Keys| == 4;
    assert HeadView(d, b).Keys == {4};
    var e2 := Entry(Some(1), Theirs, Modified, 2, d[2]);
    var es := [e2];
    assert PendingEntries(es, b) == es;
    var e3 := Entry(Some(1), Theirs, Deleted, 3, d[3]);
    assert WithoutFid(es, 2) == [];
    assert [] + [e3] == [e3];
    assert ChaseStep(es, e2, d, b, AsWritten) == Ok([e3]);
    assert Round(es, es, d, b, AsWritten) == Ok([e3]);
    assert PendingEntries([e3], b) == [];
    assert Chase([e3], d, b, AsWritten, 3) == Ok([e3]);
  }

  /** With the corrected label the loop follows row 3 in turn and ends at
      row 4, `modified`. */
  lemma ChaseReachesLiveVersion()
    ensures var d := ChainDiff();
      Chase([Entry(Some(1), Theirs, Modified, 2, d[2])], d, "trunk", Corrected, |d.Keys|) ==
        Ok([Entry(Some(1), Theirs, Modified, 4, d[4])])
  {
    var b := "trunk";
    var d := ChainDiff();
    assert d.Keys == {1, 2, 3, 4};
    assert |d.Keys| == 4;
    var e2 := Entry(Some(1), Theirs, Modified, 2, d[2]);
    var es := [e2];
    assert PendingEntries(es, b) == es;
    var e3 := Entry(Some(1), Theirs, Modified, 3, d[3]);
    var e4 := Entry(Some(1), Theirs, Modified, 4, d[4]);
    assert WithoutFid(es, 2) == [];
    assert [] + [e3] == [e3];
    assert ChaseStep(es, e2, d, b, Corrected) == Ok([e3]);
    assert Round(es, es, d, b, Corrected) == Ok([e3]);
    assert PendingEntries([e3], b) == [e3];
    assert WithoutFid([e3], 3) == [];
    assert [] + [e4] == [e4];
    assert ChaseStep([e3], e3, d, b, Corrected) == Ok([e4]);
    assert Round([e3], [e3], d, b, Corrected) == Ok([e4]);
    assert PendingEntries([e4], b) == [];
    assert Chase([e4], d, b, Corrected, 2) == Ok([e4]);
    assert Chase([e3], d, b, Corrected, 3) == Ok([e4]);
  }

  /** No two entries share a key. */
  predicate UniqueFids(es: seq<Entry>)
  {
    forall i, j :: 0 <= i < j < |es| ==> es[i].fid != es[j].fid
  }

  /** `CREATE UNIQUE INDEX ... ON <table>_conflicts(OGC_FID)`: fails when
      the loop left two entries under one key. */
  function IndexFids(es: seq<Entry>): (r: Result<seq<Entry>>)
    ensures r.Ok? <==> UniqueFids(es)
    ensures r.Ok? ==> r.value == es
    ensures r.Err? ==> r.error == DuplicateConflictFid
  {
    if UniqueFids(es) then Ok(es) else Err(DuplicateConflictFid)
  }

  /** A conflict table, and the `max_rev` its delete trigger was created
      with. */
  datatype ConflictTable = ConflictTable(entries: seq<Entry>, maxRev: int)

  /** Where the entry with key `fid` is, if there is one. */
  function IndexOf(es: seq<Entry>, fid: Fid): (r: Option<nat>)
    ensures r.Some? ==> r.value < |es| && es[r.value].fid == fid
    ensures r.None? ==> forall e :: e in es ==> e.fid != fid
  {
    if es == [] then None
    else if es[0].fid == fid then Some(0)
    else
      assert es == [es[0]] + es[1..];
      match IndexOf(es[1..], fid)
      case None => None
      case Some(i) => Some(i + 1)
  }

  /** SQL `=` on `conflict_id`: NULL matches nothing. */
  predicate SameConflict(a: Option<Fid>, b: Option<Fid>)
  {
    a.Some? && b.Some? && a.value == b.value
  }

  /** `(SELECT OGC_FID FROM <table>_conflicts WHERE origin = 'mine' AND
      conflict_id = ...)`: the first match, NULL when there is none. */
  function MineOf(es: seq<Entry>, cid: Option<Fid>): (r: Option<Fid>)
    ensures r.Some? ==> exists e :: e in es && e.origin == Mine && SameConflict(e.conflictId, cid) && e.fid == r.value
    ensures r.None? ==> forall e :: e in es && e.origin == Mine ==> !SameConflict(e.conflictId, cid)
  {
    if es == [] then None
    else if es[0].origin == Mine && SameConflict(es[0].conflictId, cid) then Some(es[0].fid)
    else
      assert es == [es[0]] + es[1..];
      MineOf(es[1..], cid)
  }

  /** The two `UPDATE`s the trigger runs after a `theirs` entry is deleted:
      the server's row `theirs` is closed at `maxRev` with `child` = the
      `mine` version `m`, and `m` gets `theirs` as its `parent`. */
  function SupersedeTheirs(local: Table, branch: string, theirs: Fid, m: Option<Fid>, maxRev: int): (r: Table)
    ensures r.Keys == local.Keys
    ensures forall k :: k in local ==> r[k].attrs == local[k].attrs
    ensures theirs in local ==>
      LifeOf(r[theirs], branch).revEnd == Some(maxRev) && LifeOf(r[theirs], branch).child == m
    ensures m.Some? && m.value in local ==> LifeOf(r[m.value], branch).parent == Some(theirs)
    ensures forall k :: k in local && k != theirs && m != Some(k) ==> r[k] == local[k]
  {
    var closed :=
      if theirs in local
      then local[theirs := WithLife(local[theirs], branch, LifeOf(local[theirs], branch).(child := m, revEnd := Some(maxRev)))]
      else local;
    if m.Some? && m.value in closed
    then closed[m.value := WithLife(closed[m.value], branch, LifeOf(closed[m.value], branch).(parent := Some(theirs)))]
    else closed
  }

  /** `DELETE FROM <table>_conflicts WHERE OGC_FID = fid` and the trigger it
      fires. Deleting a `mine` entry drops the working copy's row, so the
      server's version stays. Deleting a `theirs` entry closes the server's
      row at `max_rev` with the `mine` entry of the same conflict as its
      `child`, and makes that row's `parent` the server's row, so the
      working copy's version supersedes it. Either way every entry of the
      same `conflict_id` leaves the table. */
  function Resolve(local: Table, ct: ConflictTable, branch: string, fid: Fid): (Table, ConflictTable)
  {
    match IndexOf(ct.entries, fid)
    case None => (local, ct)
    case Some(i) =>
      var o := ct.entries[i];
      var rest := ct.entries[..i] + ct.entries[i + 1..];
      var local' :=
        if o.origin == Mine then local - {o.fid}
        else SupersedeTheirs(local, branch, o.fid, MineOf(rest, o.conflictId), ct.maxRev);
      (local', ct.(entries := Filter(rest, (e: Entry) => !SameConflict(e.conflictId, o.conflictId))))
  }

  /** The other entries, in order: removing position `i` of a table with
      unique keys removes exactly the entry with that key. */
  lemma IndexOfUnique(es: seq<Entry>, i: nat)
    requires UniqueFids(es) && i < |es|
    ensures IndexOf(es, es[i].fid) == Some(i)
  {
    var r := IndexOf(es, es[i].fid);
    assert es[i] in es;
    assert r.Some?;
  }

  lemma Others(es: seq<Entry>, i: nat)
    requires UniqueFids(es) && i < |es|
    ensures forall e :: e in es[..i] + es[i + 1..] <==> e in es && e.fid != es[i].fid
  {
    var o := es[i];
    var rest := es[..i] + es[i + 1..];
    forall e | e in rest
      ensures e in es && e.fid != o.fid
    {
      var k :| 0 <= k < |rest| && rest[k] == e;
      if k < i {
        assert e == es[k];
      } else {
        assert e == es[k + 1];
      }
    }
    forall e | e in es && e.fid != o.fid
      ensures e in rest
    {
      var k :| 0 <= k < |es| && es[k] == e;
      if k < i {
        assert rest[k] == e;
      } else {
        assert k != i;
        assert rest[k - 1] == e;
      }
    }
  }

  /** Resolving the entry at position `i` removes it and every entry of its
      conflict, and no other entry. */
  lemma ResolveClearsConflict(local: Table, ct: ConflictTable, branch: string, i: nat)
    requires UniqueFids(ct.entries) && i < |ct.entries|
    ensures var o := ct.entries[i];
      var ct' := Resolve(local, ct, branch, o.fid).1;
      ct'.maxRev == ct.maxRev &&
      forall e :: e in ct'.entries <==>
        e in ct.entries && e.fid != o.fid && !SameConflict(e.conflictId, o.conflictId)
  {
    IndexOfUnique(ct.entries, i);
    Others(ct.entries, i);
  }

  /** What resolving does to the working copy's rows. Choosing theirs
      (deleting `mine`) removes the working copy's row. Choosing mine
      (deleting `theirs`) keeps every key and user column, takes the
      server's row out of the head view closed at `max_rev`, and links it
      to the working copy's version both ways. */
  lemma ResolveRows(local: Table, ct: ConflictTable, branch: string, i: nat)
    requires UniqueFids(ct.entries) && i < |ct.entries|
    ensures var o := ct.entries[i];
      var local' := Resolve(local, ct, branch, o.fid).0;
      var m := MineOf(ct.entries[..i] + ct.entries[i + 1..], o.conflictId);
      (o.origin == Mine ==> local' == local - {o.fid}) &&
      (o.origin == Theirs ==> local'.Keys == local.Keys && forall k :: k in local ==> local'[k].attrs == local[k].attrs) &&
      (o.origin == Theirs && o.fid in local ==>
        o.fid !in HeadView(local', branch) && LifeOf(local'[o.fid], branch).revEnd == Some(ct.maxRev) &&
        LifeOf(local'[o.fid], branch).child == m) &&
      (o.origin == Theirs && m.Some? && m.value in local ==> LifeOf(local'[m.value], branch).parent == Some(o.fid))
  {
    var es := ct.entries;
    var o := es[i];
    IndexOfUnique(es, i);
    var rest := es[..i] + es[i + 1..];
    var m := MineOf(rest, o.conflictId);
    if o.origin == Theirs && m.Some? {
      Others(es, i);
      var e :| e in rest && e.origin == Mine && SameConflict(e.conflictId, o.conflictId) && e.fid == m.value;
      assert m.value != o.fid;
    }
  }
}
