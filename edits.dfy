/** The edit triggers of a working copy. A layer is edited through its view
    `<table>_view`, which shows the head of the working copy's branch. The
    INSTEAD OF triggers on that view turn each insert, update and delete
    into a lifecycle edit of the underlying table. `pin` is the revision the
    working copy was checked out or last updated at. `maxPk` is the largest
    server key at that moment. */
module Edits {
  import opened Common
  import opened Lifecycle

  /** The history columns of a row created in the working copy. */
  function NewLife(pin: int, parent: Option<Fid>): Life
  {
    Life(Some(pin + 1), None, parent, None)
  }

  /** The insert trigger: the new row takes the next free key and begins at
      `pin+1`; no other column of any branch is set. */
  function InsertRow(t: Table, branch: string, pin: int, maxPk: int, attrs: seq<string>): Table
  {
    t[NextFid(t, maxPk) := Row(attrs, map[branch := NewLife(pin, None)])]
  }

  /** Whether the update triggers treat the row as old (`rev_begin <= pin`):
      it then has to keep its history. */
  predicate IsOld(l: Life, pin: int)
  {
    l.revBegin.Some? && l.revBegin.value <= pin
  }

  /** The two update triggers. An update through the view of a row that is
      not in the view changes nothing. For an old row, `update_old` inserts
      the new version at the next key with `parent` = the old key and closes
      the old row with `rev_end = pin` and `child` = the largest key, which
      is the one just inserted. For a row created since `pin`, `update_new`
      replaces it under the same key, keeping its `parent`; the replacement
      leaves every other column NULL. */
  function UpdateRow(t: Table, branch: string, pin: int, maxPk: int, fid: Fid, attrs: seq<string>): Table
  {
    if fid !in HeadView(t, branch) then t
    else
      var l := LifeOf(t[fid], branch);
      if IsOld(l, pin) then
        var nf := NextFid(t, maxPk);
        var t1 := t[nf := Row(attrs, map[branch := NewLife(pin, Some(fid))])];
        var child := MaxFid(t1, maxPk);
        t1[fid := WithLife(t1[fid], branch, l.(revEnd := Some(pin), child := Some(child)))]
      else
        t[fid := Row(attrs, map[branch := NewLife(pin, l.parent)])]
  }

  /** `child = NULL` on every row whose `child` is `fid`. */
  function ForgetChild(t: Table, branch: string, fid: Fid): (r: Table)
    ensures r.Keys == t.Keys
    ensures forall k :: k in r ==> r[k].attrs == t[k].attrs
    ensures forall k :: k in r ==> LifeOf(r[k], branch).child != Some(fid)
    ensures forall k :: k in r ==> LifeOf(r[k], branch).child == None || LifeOf(r[k], branch).child == LifeOf(t[k], branch).child
    ensures forall k :: k in r ==>
      LifeOf(r[k], branch).revBegin == LifeOf(t[k], branch).revBegin &&
      LifeOf(r[k], branch).revEnd == LifeOf(t[k], branch).revEnd &&
      LifeOf(r[k], branch).parent == LifeOf(t[k], branch).parent
  {
    map k | k in t ::
      if LifeOf(t[k], branch).child == Some(fid)
      then WithLife(t[k], branch, LifeOf(t[k], branch).(child := None))
      else t[k]
  }

  /** The delete trigger. Deleting an old row closes it with `rev_end = pin`.
      Deleting a row created since `pin` removes it, and the row it had
      replaced no longer names it as `child`: that row stays closed, so the
      pair reads as a deletion. */
  function DeleteRow(t: Table, branch: string, pin: int, fid: Fid): Table
  {
    if fid !in HeadView(t, branch) then t
    else
      var l := LifeOf(t[fid], branch);
      if IsOld(l, pin) then t[fid := WithLife(t[fid], branch, l.(revEnd := Some(pin)))]
      else if l.revBegin == Some(pin + 1) then ForgetChild(t, branch, fid) - {fid}
      else t
  }

  /** The delete trigger as written: the second statement clears `child` on
      rows that point to the deleted key and themselves begin at `pin+1`,
      instead of testing the deleted row. */
  function DeleteRowAsWritten(t: Table, branch: string, pin: int, fid: Fid): Table
  {
    if fid !in HeadView(t, branch) then t
    else
      var l := LifeOf(t[fid], branch);
      var closed := if IsOld(l, pin) then t[fid := WithLife(t[fid], branch, l.(revEnd := Some(pin)))] else t;
      var cleared := map k | k in closed ::
        if LifeOf(closed[k], branch).child == Some(fid) && LifeOf(closed[k], branch).revBegin == Some(pin + 1)
        then WithLife(closed[k], branch, LifeOf(closed[k], branch).(child := None))
        else closed[k];
      if l.revBegin == Some(pin + 1) then cleared - {fid} else cleared
  }

  /** Inserting shows the new row in the head view under a fresh key above
      both the table and the server keys, and changes no other row. */
  lemma InsertRowEffect(t: Table, branch: string, pin: int, maxPk: int, attrs: seq<string>)
    ensures var f := NextFid(t, maxPk);
      var t' := InsertRow(t, branch, pin, maxPk, attrs);
      f !in t && f > maxPk &&
      HeadView(t', branch) == HeadView(t, branch)[f := attrs] &&
      (forall k :: k in t ==> k in t' && t'[k] == t[k]) &&
      (ChildrenExist(t, branch) ==> ChildrenExist(t', branch))
  {
  }

  /** Updating an old row shows the new attributes under a new key, and
      links the two versions both ways. */
  lemma UpdateOldRowEffect(t: Table, branch: string, pin: int, maxPk: int, fid: Fid, attrs: seq<string>)
    requires fid in HeadView(t, branch) && IsOld(LifeOf(t[fid], branch), pin)
    ensures var nf := NextFid(t, maxPk);
      var t' := UpdateRow(t, branch, pin, maxPk, fid, attrs);
      HeadView(t', branch) == (HeadView(t, branch) - {fid})[nf := attrs] &&
      LifeOf(t'[nf], branch) == Life(Some(pin + 1), None, Some(fid), None) &&
      LifeOf(t'[fid], branch).revEnd == Some(pin) &&
      LifeOf(t'[fid], branch).child == Some(nf) &&
      t'[fid].attrs == t[fid].attrs &&
      (ChildrenExist(t, branch) ==> ChildrenExist(t', branch))
  {
    var nf := NextFid(t, maxPk);
    MaxFidAfterInsert(t, maxPk, Row(attrs, map[branch := NewLife(pin, Some(fid))]));
    var t' := UpdateRow(t, branch, pin, maxPk, fid, attrs);
    assert HeadView(t', branch) == (HeadView(t, branch) - {fid})[nf := attrs];
  }

  /** Updating a row created since `pin` replaces it in place and keeps the
      row it was derived from. */
  lemma UpdateNewRowEffect(t: Table, branch: string, pin: int, maxPk: int, fid: Fid, attrs: seq<string>)
    requires fid in HeadView(t, branch) && !IsOld(LifeOf(t[fid], branch), pin)
    ensures var t' := UpdateRow(t, branch, pin, maxPk, fid, attrs);
      HeadView(t', branch) == HeadView(t, branch)[fid := attrs] &&
      t'.Keys == t.Keys &&
      LifeOf(t'[fid], branch).parent == LifeOf(t[fid], branch).parent &&
      (ChildrenExist(t, branch) ==> ChildrenExist(t', branch))
  {
    var t' := UpdateRow(t, branch, pin, maxPk, fid, attrs);
    assert HeadView(t', branch) == HeadView(t, branch)[fid := attrs];
  }

  /** Deleting removes the row from the head view and leaves no `child`
      naming a missing row. */
  lemma DeleteRowEffect(t: Table, branch: string, pin: int, fid: Fid)
    requires fid in HeadView(t, branch)
    requires LifeOf(t[fid], branch).revBegin.value <= pin + 1
    ensures var t' := DeleteRow(t, branch, pin, fid);
      HeadView(t', branch) == HeadView(t, branch) - {fid} &&
      (IsOld(LifeOf(t[fid], branch), pin) ==>
        fid in t' && LifeOf(t'[fid], branch).revEnd == Some(pin)) &&
      (!IsOld(LifeOf(t[fid], branch), pin) ==> fid !in t') &&
      (ChildrenExist(t, branch) ==> ChildrenExist(t', branch))
  {
    var t' := DeleteRow(t, branch, pin, fid);
    if IsOld(LifeOf(t[fid], branch), pin) {
      assert HeadView(t', branch) == HeadView(t, branch) - {fid};
    } else {
      var f := ForgetChild(t, branch, fid);
      assert t' == f - {fid};
      forall k | k in t'
        ensures HeadVisible(LifeOf(t'[k], branch)) == HeadVisible(LifeOf(t[k], branch))
      {
        assert t'[k] == f[k];
      }
      assert HeadView(t', branch) == HeadView(t, branch) - {fid};
    }
  }

  /** No edit changes what the branch showed at a revision up to `pin`:
      everything a working copy does is written as revision `pin+1`. */
  lemma InsertKeepsPastRevisions(t: Table, branch: string, pin: int, maxPk: int,
                                 attrs: seq<string>, n: int)
    requires n <= pin
    ensures RevisionView(InsertRow(t, branch, pin, maxPk, attrs), branch, n) == RevisionView(t, branch, n)
  {
    var t' := InsertRow(t, branch, pin, maxPk, attrs);
    assert !VisibleAt(LifeOf(t'[NextFid(t, maxPk)], branch), n);
    SameRevisionView(t, t', branch, n);
  }

  /** Two tables show the same revision `n` when the same keys are visible
      at `n` in both, with the same attributes. */
  lemma SameRevisionView(t: Table, t': Table, branch: string, n: int)
    requires forall k :: k in t' && VisibleAt(LifeOf(t'[k], branch), n) ==> k in t && VisibleAt(LifeOf(t[k], branch), n)
    requires forall k :: k in t && VisibleAt(LifeOf(t[k], branch), n) ==>
      k in t' && VisibleAt(LifeOf(t'[k], branch), n) && t'[k].attrs == t[k].attrs
    ensures RevisionView(t', branch, n) == RevisionView(t, branch, n)
  {
    var v', v := RevisionView(t', branch, n), RevisionView(t, branch, n);
    forall k
      ensures k in v' <==> k in v
      ensures k in v ==> v'[k] == v[k]
    {
      if k in t' && VisibleAt(LifeOf(t'[k], branch), n) {
        assert k in t && VisibleAt(LifeOf(t[k], branch), n);
      }
    }
    assert v'.Keys == v.Keys;
    assert v' == v;
  }

  lemma UpdateKeepsPastRevisions(t: Table, branch: string, pin: int, maxPk: int, fid: Fid,
                                 attrs: seq<string>, n: int)
    requires n <= pin
    ensures RevisionView(UpdateRow(t, branch, pin, maxPk, fid, attrs), branch, n) == RevisionView(t, branch, n)
  {
    var t' := UpdateRow(t, branch, pin, maxPk, fid, attrs);
    if fid in HeadView(t, branch) {
      var l := LifeOf(t[fid], branch);
      if IsOld(l, pin) {
        var nf := NextFid(t, maxPk);
        assert !VisibleAt(LifeOf(t'[nf], branch), n);
        assert VisibleAt(LifeOf(t'[fid], branch), n) == VisibleAt(l, n);
      } else {
        assert !VisibleAt(LifeOf(t'[fid], branch), n) && !VisibleAt(l, n);
      }
      SameRevisionView(t, t', branch, n);
    }
  }

  lemma DeleteKeepsPastRevisions(t: Table, branch: string, pin: int, fid: Fid, n: int)
    requires n <= pin
    ensures RevisionView(DeleteRow(t, branch, pin, fid), branch, n) == RevisionView(t, branch, n)
  {
    var t' := DeleteRow(t, branch, pin, fid);
    if fid in HeadView(t, branch) {
      var l := LifeOf(t[fid], branch);
      if IsOld(l, pin) {
        assert VisibleAt(LifeOf(t'[fid], branch), n) == VisibleAt(l, n);
        SameRevisionView(t, t', branch, n);
      } else if l.revBegin == Some(pin + 1) {
        var f := ForgetChild(t, branch, fid);
        forall k | k in t'
          ensures VisibleAt(LifeOf(t'[k], branch), n) == VisibleAt(LifeOf(t[k], branch), n)
        {
          assert t'[k] == f[k];
        }
        assert !VisibleAt(l, n);
        SameRevisionView(t, t', branch, n);
      }
    }
  }

  /** The table after checking out revision 1 with one row, then updating
      that row, which closes row 1 and adds row 2 as its successor. */
  function EditedOnce(): Table
  {
    map[1 := Row(["a"], map["trunk" := Life(Some(1), Some(1), None, Some(2))]),
        2 := Row(["b"], map["trunk" := Life(Some(2), None, Some(1), None)])]
  }

  /** Deleting the successor with the trigger as written leaves row 1
      pointing at the removed row 2. */
  lemma DeleteAsWrittenLeavesDanglingChild()
    ensures ChildrenExist(EditedOnce(), "trunk")
    ensures 2 in HeadView(EditedOnce(), "trunk")
    ensures !ChildrenExist(DeleteRowAsWritten(EditedOnce(), "trunk", 1, 2), "trunk")
  {
    var t := EditedOnce();
    assert 2 in HeadView(t, "trunk");
    var bad := DeleteRowAsWritten(t, "trunk", 1, 2);
    assert 1 in bad && LifeOf(bad[1], "trunk").child == Some(2) && 2 !in bad;
  }

  /** The corrected trigger leaves row 1 closed without a child, which is
      how a deletion reads. */
  lemma DeleteSuccessorClosesPredecessor()
    ensures ChildrenExist(DeleteRow(EditedOnce(), "trunk", 1, 2), "trunk")
    ensures DeleteRow(EditedOnce(), "trunk", 1, 2) ==
      map[1 := Row(["a"], map["trunk" := Life(Some(1), Some(1), None, None)])]
  {
    var t := EditedOnce();
    assert 2 in HeadView(t, "trunk");
    var good := DeleteRow(t, "trunk", 1, 2);
    var f := ForgetChild(t, "trunk", 2);
    assert good == f - {2};
    var closed := Row(["a"], map["trunk" := Life(Some(1), Some(1), None, None)]);
    assert f[1] == WithLife(t[1], "trunk", Life(Some(1), Some(1), None, None));
    assert t[1].life["trunk" := Life(Some(1), Some(1), None, None)] == closed.life;
    assert f[1] == closed;
    assert good.Keys == {1};
    assert good == map[1 := closed];
  }
}
