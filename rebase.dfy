/** The local half of `update`: the working copy's own edits are moved on
    top of the server's new head. The markers of local edits are renumbered
    from `rev`/`rev+1` to `maxRev`/`maxRev+1`, the keys of local rows are
    moved above the server's largest key, and the server's diff is merged
    in with `INSERT OR REPLACE`. */
module Rebase {
  import opened Common
  import opened Lifecycle

  /** The two marker rewrites on one row's columns of the branch:
      `rev_end = rev` becomes `maxRev`, `rev_begin = rev+1` becomes
      `maxRev+1`. */
  function RewriteLife(l: Life, rev: int, maxRev: int): Life
  {
    l.(revEnd := if l.revEnd == Some(rev) then Some(maxRev) else l.revEnd,
       revBegin := if l.revBegin == Some(rev + 1) then Some(maxRev + 1) else l.revBegin)
  }

  function RewriteMarkers(t: Table, branch: string, rev: int, maxRev: int): (r: Table)
    ensures r.Keys == t.Keys
    ensures forall k :: k in r ==> r[k].attrs == t[k].attrs
    ensures forall k :: k in r ==> LifeOf(r[k], branch) == RewriteLife(LifeOf(t[k], branch), rev, maxRev)
    ensures forall k :: k in r && RewriteLife(LifeOf(t[k], branch), rev, maxRev) == LifeOf(t[k], branch) ==> r[k] == t[k]
  {
    map k | k in t ::
      var l := LifeOf(t[k], branch);
      if RewriteLife(l, rev, maxRev) == l then t[k] else WithLife(t[k], branch, RewriteLife(l, rev, maxRev))
  }

  /** The rewrite keeps the head view: it never opens or closes a row. */
  lemma RewriteMarkersKeepsHead(t: Table, branch: string, rev: int, maxRev: int)
    ensures HeadView(RewriteMarkers(t, branch, rev, maxRev), branch) == HeadView(t, branch)
  {
    var t' := RewriteMarkers(t, branch, rev, maxRev);
    forall k | k in t
      ensures HeadVisible(LifeOf(t'[k], branch)) == HeadVisible(LifeOf(t[k], branch))
    {
      var l := LifeOf(t[k], branch);
      assert LifeOf(t'[k], branch) == RewriteLife(l, rev, maxRev);
    }
    var h', h := HeadView(t', branch), HeadView(t, branch);
    assert h'.Keys == h.Keys;
  }

  /** The rewrite turns the local edits made since `rev` into exactly the
      edits made since `maxRev`. */
  lemma RewriteMarkersMovesDiff(t: Table, branch: string, rev: int, maxRev: int)
    requires WrittenUpTo(t, branch, rev + 1)
    requires rev < maxRev
    ensures Diff(RewriteMarkers(t, branch, rev, maxRev), branch, maxRev).Keys == Diff(t, branch, rev).Keys
  {
    var t' := RewriteMarkers(t, branch, rev, maxRev);
    forall k | k in t
      ensures InDiff(LifeOf(t'[k], branch), maxRev) <==> InDiff(LifeOf(t[k], branch), rev)
    {
      var l := LifeOf(t[k], branch);
      assert LifeOf(t'[k], branch) == RewriteLife(l, rev, maxRev);
      assert l.revEnd.Some? ==> l.revEnd.value < rev + 1;
    }
    var d', d := Diff(t', branch, maxRev), Diff(t, branch, rev);
    assert d'.Keys == d.Keys;
  }

  /** The rewrite keeps the head view, and turns the local edits made since
      `rev` into exactly the edits made since `maxRev`: the working copy
      now reads as checked out at `maxRev`. */
  lemma RewriteMarkersMovesLocalEdits(t: Table, branch: string, rev: int, maxRev: int)
    requires WrittenUpTo(t, branch, rev + 1)
    requires rev < maxRev
    ensures var t' := RewriteMarkers(t, branch, rev, maxRev);
      HeadView(t', branch) == HeadView(t, branch) &&
      Diff(t', branch, maxRev).Keys == Diff(t, branch, rev).Keys &&
      WrittenUpTo(t', branch, maxRev + 1)
  {
    RewriteMarkersKeepsHead(t, branch, rev, maxRev);
    RewriteMarkersMovesDiff(t, branch, rev, maxRev);
  }

  /** The rows of the branch that begin at revision `r`. */
  function Beginning(t: Table, branch: string, r: int): (s: set<Fid>)
    ensures forall k :: k in s <==> k in t && LifeOf(t[k], branch).revBegin == Some(r)
  {
    set k | k in t && LifeOf(t[k], branch).revBegin == Some(r)
  }

  /** A bound on the absolute value of every key: new keys computed from
      old ones stay within a range, which keeps the tables below finite. */
  function KeyBound(t: Table): (b: int)
    ensures b >= 0
    ensures forall k :: k in t ==> -b <= k <= b
  {
    if t.Keys == {} then 0
    else
      var lo := MinOf(t.Keys);
      var hi := MaxOf(t.Keys);
      (if lo < 0 then -lo else lo) + (if hi < 0 then -hi else hi)
  }

  /** Renumbering the rows `s` to `-key` takes a key already in use: by a
      row outside `s`, or by the partner of a pair `k`, `-k` both in `s`,
      whichever of the two is renumbered first. */
  predicate NegateCollides(t: Table, s: set<Fid>)
  {
    exists k :: k in s && k != 0 && -k in t
  }

  function Negated(t: Table, s: set<Fid>): Table
    requires s <= t.Keys
  {
    var b := KeyBound(t);
    map k | -b <= k <= b && ((k in t && k !in s) || -k in s) :: if k in t && k !in s then t[k] else t[-k]
  }

  lemma NegatedAt(t: Table, s: set<Fid>, k: Fid)
    requires s <= t.Keys && !NegateCollides(t, s)
    ensures k in Negated(t, s) <==> (k in t && k !in s) || -k in s
    ensures k in t && k !in s ==> Negated(t, s)[k] == t[k]
    ensures k in s ==> -k in Negated(t, s) && Negated(t, s)[-k] == t[k]
  {
    if k in s {
      assert k == 0 || -k !in t;
    }
  }

  /** `SET OGC_FID = -OGC_FID` on the rows `s`. The key is a rowid: the
      statement fails when a new key is already taken. */
  function NegateKeys(t: Table, s: set<Fid>): (r: Result<Table>)
    requires s <= t.Keys
    ensures r.Err? <==> NegateCollides(t, s)
    ensures r.Err? ==> r.error == KeyCollision
    ensures r.Ok? ==> forall k :: k in t && k !in s ==> k in r.value && r.value[k] == t[k]
    ensures r.Ok? ==> forall k :: k in s ==> -k in r.value && r.value[-k] == t[k]
  {
    if NegateCollides(t, s) then Err(KeyCollision)
    else
      assert forall k :: k in s ==> -k in Negated(t, s) && Negated(t, s)[-k] == t[k] by {
        forall k | k in s
          ensures -k in Negated(t, s) && Negated(t, s)[-k] == t[k]
        {
          NegatedAt(t, s, k);
        }
      }
      Ok(Negated(t, s))
  }

  /** Renumbering a negative key `k` to `bump - k` takes a key in use. */
  predicate ShiftCollides(t: Table, bump: int)
  {
    exists k {:trigger NegativeKey(t, k)} :: k in t && NegativeKey(t, k) && bump - k in t
  }

  predicate NegativeKey(t: Table, k: Fid)
  {
    k in t && k < 0
  }

  function Shifted(t: Table, bump: int): Table
    requires bump >= 0
  {
    var b := KeyBound(t);
    map k | -b <= k <= b + bump && ((k in t && k >= 0) || NegativeKey(t, bump - k)) ::
      if k in t && k >= 0 then t[k] else t[bump - k]
  }

  lemma ShiftedAt(t: Table, bump: int, k: Fid)
    requires bump >= 0 && !ShiftCollides(t, bump)
    ensures k in Shifted(t, bump) <==> (k in t && k >= 0) || (bump - k in t && bump - k < 0)
    ensures k in t && k >= 0 ==> Shifted(t, bump)[k] == t[k]
    ensures k in t && k < 0 ==> bump - k in Shifted(t, bump) && Shifted(t, bump)[bump - k] == t[k]
  {
    if k in t && k < 0 {
      assert NegativeKey(t, k);
    }
  }

  /** `SET OGC_FID = bump - OGC_FID WHERE OGC_FID < 0`. */
  function ShiftNegatives(t: Table, bump: int): (r: Result<Table>)
    requires bump >= 0
    ensures r.Err? <==> ShiftCollides(t, bump)
    ensures r.Err? ==> r.error == KeyCollision
    ensures r.Ok? ==> forall k :: k in t && k >= 0 ==> k in r.value && r.value[k] == t[k]
    ensures r.Ok? ==> forall k :: k in t && k < 0 ==> bump - k in r.value && r.value[bump - k] == t[k]
  {
    if ShiftCollides(t, bump) then Err(KeyCollision)
    else
      assert forall k :: k in t && k < 0 ==> bump - k in Shifted(t, bump) && Shifted(t, bump)[bump - k] == t[k] by {
        forall k | k in t && k < 0
          ensures bump - k in Shifted(t, bump) && Shifted(t, bump)[bump - k] == t[k]
        {
          ShiftedAt(t, bump, k);
        }
      }
      assert forall k :: k in t && k >= 0 ==> k in Shifted(t, bump) && Shifted(t, bump)[k] == t[k] by {
        forall k | k in t && k >= 0
          ensures k in Shifted(t, bump) && Shifted(t, bump)[k] == t[k]
        {
          ShiftedAt(t, bump, k);
        }
      }
      Ok(Shifted(t, bump))
  }

  /** `SET child = child + bump WHERE rev_end = maxRev`; NULL stays NULL. */
  function BumpChildren(t: Table, branch: string, maxRev: int, bump: int): (r: Table)
    ensures r.Keys == t.Keys
    ensures forall k :: k in r ==> r[k].attrs == t[k].attrs
    ensures forall k :: k in r ==>
      var l := LifeOf(t[k], branch);
      LifeOf(r[k], branch) ==
        if l.revEnd == Some(maxRev) && l.child.Some? then l.(child := Some(l.child.value + bump)) else l
  {
    map k | k in t ::
      var l := LifeOf(t[k], branch);
      if l.revEnd == Some(maxRev) && l.child.Some? then WithLife(t[k], branch, l.(child := Some(l.child.value + bump)))
      else t[k]
  }

  /** The three statements that move local rows above the server's keys:
      negate the keys of the rows beginning at `maxRev+1`, renumber every
      negative key `k` to `bump - k`, then bump the `child` of the rows
      closed at `maxRev`. */
  function BumpLocal(t: Table, branch: string, maxRev: int, bump: int): (r: Result<Table>)
    requires bump >= 0
    ensures r.Err? ==> r.error == KeyCollision
  {
    var negated := NegateKeys(t, Beginning(t, branch, maxRev + 1));
    if negated.Err? then Err(negated.error)
    else
      var shifted := ShiftNegatives(negated.value, bump);
      if shifted.Err? then Err(shifted.error)
      else Ok(BumpChildren(shifted.value, branch, maxRev, bump))
  }

  /** A row moved by `+ bump` lands on a key held by a row that stays. */
  predicate DirectCollides(t: Table, s: set<Fid>, bump: int)
  {
    exists k {:trigger BumpHits(t, s, bump, k)} :: k in s && BumpHits(t, s, bump, k)
  }

  /** Moving marked key `k` up by `bump` lands on a key that stays where it is. */
  predicate BumpHits(t: Table, s: set<Fid>, bump: int, k: Fid)
  {
    k in s && k + bump in t && k + bump !in s
  }

  function Bumped(t: Table, s: set<Fid>, bump: int): Table
    requires s <= t.Keys
  {
    var b := KeyBound(t) + (if bump < 0 then -bump else bump);
    map k | -b <= k <= b && ((k in t && k !in s) || k - bump in s) :: if k in t && k !in s then t[k] else t[k - bump]
  }

  lemma BumpedAt(t: Table, s: set<Fid>, bump: int, k: Fid)
    requires s <= t.Keys && !DirectCollides(t, s, bump)
    ensures k in Bumped(t, s, bump) <==> (k in t && k !in s) || k - bump in s
    ensures k in t && k !in s ==> Bumped(t, s, bump)[k] == t[k]
    ensures k in s ==> k + bump in Bumped(t, s, bump) && Bumped(t, s, bump)[k + bump] == t[k]
  {
    if k in s {
      assert !BumpHits(t, s, bump, k);
    }
  }

  /** The PostgreSQL variant's single statement `SET pk = pk + bump` on the
      rows `s`, failing when a moved row lands on a row that stays. */
  function DirectBump(t: Table, s: set<Fid>, bump: int): (r: Result<Table>)
    requires s <= t.Keys
    ensures r.Err? <==> DirectCollides(t, s, bump)
    ensures r.Err? ==> r.error == KeyCollision
    ensures r.Ok? ==> r.value == Bumped(t, s, bump)
  {
    if DirectCollides(t, s, bump) then Err(KeyCollision) else Ok(Bumped(t, s, bump))
  }

  lemma CollisionsAgree(t: Table, s: set<Fid>, bump: int)
    requires s <= t.Keys && bump >= 0
    requires forall k :: k in t ==> k >= 0
    requires forall k :: k in s ==> k > 0
    ensures !NegateCollides(t, s)
    ensures ShiftCollides(Negated(t, s), bump) <==> DirectCollides(t, s, bump)
  {
    if ShiftCollides(Negated(t, s), bump) {
      ShiftCollisionIsDirect(t, s, bump);
    }
    if DirectCollides(t, s, bump) {
      DirectCollisionShifts(t, s, bump);
    }
  }

  lemma ShiftCollisionIsDirect(t: Table, s: set<Fid>, bump: int)
    requires s <= t.Keys && bump >= 0
    requires forall k :: k in t ==> k >= 0
    requires forall k :: k in s ==> k > 0
    requires ShiftCollides(Negated(t, s), bump)
    ensures DirectCollides(t, s, bump)
  {
    var n := Negated(t, s);
    var k :| k in n && NegativeKey(n, k) && bump - k in n;
    var j := bump - k;
    NegatedAt(t, s, k);
    NegatedAt(t, s, j);
    assert -k in s && BumpHits(t, s, bump, -k);
  }

  lemma DirectCollisionShifts(t: Table, s: set<Fid>, bump: int)
    requires s <= t.Keys && bump >= 0
    requires forall k :: k in t ==> k >= 0
    requires forall k :: k in s ==> k > 0
    requires DirectCollides(t, s, bump)
    ensures ShiftCollides(Negated(t, s), bump)
  {
    var n := Negated(t, s);
    var k :| k in s && BumpHits(t, s, bump, k);
    NegatedAt(t, s, -k);
    NegatedAt(t, s, k + bump);
    assert -k in n && NegativeKey(n, -k) && bump - -k in n;
  }

  lemma RenumberedAgreeAt(t: Table, s: set<Fid>, bump: int, j: Fid)
    requires s <= t.Keys && bump >= 0
    requires forall k :: k in t ==> k >= 0
    requires forall k :: k in s ==> k > 0
    requires !NegateCollides(t, s) && !ShiftCollides(Negated(t, s), bump) && !DirectCollides(t, s, bump)
    ensures j in Shifted(Negated(t, s), bump) <==> j in Bumped(t, s, bump)
    ensures j in Bumped(t, s, bump) ==> Shifted(Negated(t, s), bump)[j] == Bumped(t, s, bump)[j]
  {
    var n := Negated(t, s);
    ShiftedAt(n, bump, j);
    BumpedAt(t, s, bump, j);
    var sh := Shifted(n, bump);
    var d := Bumped(t, s, bump);
    if j in t && j !in s {
      NegatedAt(t, s, j);
      assert sh[j] == n[j] == t[j] == d[j];
    } else if j - bump in s {
      var k := j - bump;
      NegatedAt(t, s, k);
      assert -k in n && -k < 0 && bump - -k == j;
      assert sh[j] == n[-k] == t[k];
      assert d[j] == t[k];
    } else {
      NegatedAt(t, s, j);
      NegatedAt(t, s, bump - j);
    }
  }

  /** With non-negative keys and a positive key on every renumbered row,
      negating and then subtracting from `bump` nets `key + bump`: the
      SpatiaLite pair of statements and the PostgreSQL single statement
      agree, errors included. */
  lemma NegateThenShiftIsDirectBump(t: Table, s: set<Fid>, bump: int)
    requires s <= t.Keys && bump >= 0
    requires forall k :: k in t ==> k >= 0
    requires forall k :: k in s ==> k > 0
    ensures NegateKeys(t, s).Ok?
    ensures ShiftNegatives(NegateKeys(t, s).value, bump) == DirectBump(t, s, bump)
  {
    CollisionsAgree(t, s, bump);
    if !DirectCollides(t, s, bump) {
      var sh := Shifted(Negated(t, s), bump);
      var d := Bumped(t, s, bump);
      forall j
        ensures j in sh <==> j in d
        ensures j in d ==> sh[j] == d[j]
      {
        RenumberedAgreeAt(t, s, bump, j);
      }
      assert sh == d;
    }
  }

  /** The rows `update` renumbers: those above the working copy's reserved
      key `maxPk` are exactly those of the local edits (`rev_begin =
      maxRev+1`), and no key is negative. */
  predicate LocalRowsAbove(t: Table, branch: string, maxRev: int, maxPk: int)
  {
    (forall k :: k in t ==> k >= 0) &&
    (forall k :: k in t ==> (k > maxPk <==> LifeOf(t[k], branch).revBegin == Some(maxRev + 1)))
  }

  /** On such a table the three statements never collide, and amount to
      moving every local row by `bump`. */
  lemma BumpLocalIsDirectBump(t: Table, branch: string, maxRev: int, maxPk: int, bump: int)
    requires bump >= 0 && maxPk >= 0
    requires LocalRowsAbove(t, branch, maxRev, maxPk)
    ensures !DirectCollides(t, Beginning(t, branch, maxRev + 1), bump)
    ensures BumpLocal(t, branch, maxRev, bump) ==
      Ok(BumpChildren(Bumped(t, Beginning(t, branch, maxRev + 1), bump), branch, maxRev, bump))
  {
    var s := Beginning(t, branch, maxRev + 1);
    NegateThenShiftIsDirectBump(t, s, bump);
    assert !DirectCollides(t, s, bump) by {
      forall k | k in s
        ensures !BumpHits(t, s, bump, k)
      {
      }
    }
  }

  /** Where each row lands: a row at or below `maxPk` keeps its key, a
      local row moves by `bump` (above `maxPk + bump`, the server's largest
      key), and nothing else is in the result. */
  lemma BumpLocalLandsAboveServer(t: Table, branch: string, maxRev: int, maxPk: int, bump: int, k: Fid)
    requires bump >= 0 && maxPk >= 0
    requires LocalRowsAbove(t, branch, maxRev, maxPk)
    ensures BumpLocal(t, branch, maxRev, bump).Ok?
    ensures var r := BumpLocal(t, branch, maxRev, bump).value;
      (k in t && k <= maxPk ==> k in r && r[k].attrs == t[k].attrs) &&
      (k in t && k > maxPk ==> k + bump in r && r[k + bump].attrs == t[k].attrs) &&
      (k in r ==> (k in t && k <= maxPk) || (k - bump in t && k - bump > maxPk))
  {
    BumpLocalIsDirectBump(t, branch, maxRev, maxPk, bump);
    BumpedAt(t, Beginning(t, branch, maxRev + 1), bump, k);
  }

  /** The diff a server sends on `update` as written: the rows with
      `rev_end = rev` or `rev_begin > rev`, the same condition `commit`
      uses for the working copy's diff (`Lifecycle.Diff`). */
  function UpdateDiffAsWritten(server: Table, branch: string, rev: int): Table
  {
    Diff(server, branch, rev)
  }

  /** The rows the server changed since `rev`: closed at or after `rev`
      (`rev_end >= rev`), or begun after it. */
  predicate ChangedSince(l: Life, rev: int)
  {
    (l.revEnd.Some? && l.revEnd.value >= rev) || (l.revBegin.Some? && l.revBegin.value > rev)
  }

  /** The diff `update` needs: every row the server changed since `rev`. */
  function UpdateDiff(server: Table, branch: string, rev: int): (d: Table)
    ensures forall k :: k in d <==> k in server && ChangedSince(LifeOf(server[k], branch), rev)
    ensures forall k :: k in d ==> d[k] == server[k]
    ensures Diff(server, branch, rev).Keys <= d.Keys
  {
    map k | k in server && ChangedSince(LifeOf(server[k], branch), rev) :: server[k]
  }

  /** `INSERT OR REPLACE INTO <table> SELECT ... FROM <table>_diff`: a diff
      row replaces the local row with the same key. */
  function Merge(local: Table, diff: Table): (r: Table)
    ensures r.Keys == local.Keys + diff.Keys
    ensures forall k :: k in diff ==> r[k] == diff[k]
    ensures forall k :: k in local && k !in diff ==> r[k] == local[k]
  {
    local + diff
  }

  /** Rows above every key of the diff come through the merge untouched:
      bumped local rows are never overwritten. */
  lemma MergeKeepsRowsAboveDiff(local: Table, diff: Table, top: int)
    requires forall k :: k in diff ==> k <= top
    ensures forall k :: k in local && k > top ==> k in Merge(local, diff) && Merge(local, diff)[k] == local[k]
  {
  }

  /** A working copy without edits of its own, taken at `rev`, against the
      server now: the server has the working copy's rows and more, the rows
      the server added begin after `rev`, and a row differs only if the
      server closed it since `rev`. */
  predicate EvolvedFrom(local: Table, server: Table, branch: string, rev: int)
  {
    local.Keys <= server.Keys &&
    (forall k :: k in server && k !in local ==>
      LifeOf(server[k], branch).revBegin.Some? && LifeOf(server[k], branch).revBegin.value > rev) &&
    (forall k :: k in local ==>
      local[k] == server[k] ||
      (LifeOf(server[k], branch).revEnd.Some? && LifeOf(server[k], branch).revEnd.value >= rev))
  }

  /** Merging the full diff brings such a working copy exactly to the
      server's state. */
  lemma MergeUpdateDiffCatchesUp(local: Table, server: Table, branch: string, rev: int)
    requires EvolvedFrom(local, server, branch, rev)
    ensures Merge(local, UpdateDiff(server, branch, rev)) == server
    ensures HeadView(Merge(local, UpdateDiff(server, branch, rev)), branch) == HeadView(server, branch)
  {
    var d := UpdateDiff(server, branch, rev);
    var m := Merge(local, d);
    forall k | k in server
      ensures k in m && m[k] == server[k]
    {
      if k !in local {
        assert k in d;
      } else if local[k] != server[k] {
        assert k in d;
      }
    }
    assert m.Keys == server.Keys;
  }

  /** As written, the diff misses a row closed by a commit after `rev+1`.
      The working copy is pinned at 1; the server's revision 3 replaced
      row 1 by row 2, so row 1 has `rev_end = 2`, not 1, and the merge
      keeps the working copy's live row 1 next to row 2. */
  lemma UpdateDiffAsWrittenMissesLaterClosure()
    ensures var b := "trunk";
      var local: Table := map[1 := Row(["a"], map[b := Life(Some(1), None, None, None)])];
      var server: Table := map[1 := Row(["a"], map[b := Life(Some(1), Some(2), None, Some(2))]),
                               2 := Row(["b"], map[b := Life(Some(3), None, Some(1), None)])];
      EvolvedFrom(local, server, b, 1) &&
      HeadView(server, b) == map[2 := ["b"]] &&
      HeadView(Merge(local, UpdateDiffAsWritten(server, b, 1)), b) == map[1 := ["a"], 2 := ["b"]] &&
      HeadView(Merge(local, UpdateDiff(server, b, 1)), b) == map[2 := ["b"]]
  {
    var b := "trunk";
    var local: Table := map[1 := Row(["a"], map[b := Life(Some(1), None, None, None)])];
    var server: Table := map[1 := Row(["a"], map[b := Life(Some(1), Some(2), None, Some(2))]),
                             2 := Row(["b"], map[b := Life(Some(3), None, Some(1), None)])];
    var d := UpdateDiffAsWritten(server, b, 1);
    assert 1 !in d && 2 in d;
    assert d.Keys == {2};
    var m := Merge(local, d);
    assert m.Keys == {1, 2};
    assert HeadView(m, b).Keys == {1, 2};
    assert HeadView(server, b).Keys == {2};
    MergeUpdateDiffCatchesUp(local, server, b, 1);
  }
}
