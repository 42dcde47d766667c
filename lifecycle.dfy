/** The row lifecycle every versioned table follows. Each branch adds four
    columns to each table: `<branch>_rev_begin`, `<branch>_rev_end`,
    `<branch>_parent` and `<branch>_child`. A feature version lives on a
    branch from `rev_begin` up to and including `rev_end`. An edit closes the
    old version and links it to its successor through `child`/`parent`. */
module Lifecycle {
  import opened Common

  /** The primary key of a row (`OGC_FID` in a working copy). */
  type Fid = int

  /** The four history columns of one branch on one row; `None` is NULL. */
  datatype Life = Life(revBegin: Option<int>, revEnd: Option<int>,
                       parent: Option<Fid>, child: Option<Fid>)

  /** A row where the branch's columns are all NULL. */
  const NoLife: Life := Life(None, None, None, None)

  /** A row: the user columns, and the history columns of every branch. A
      branch missing from `life` has NULL in all four of its columns. */
  datatype Row = Row(attrs: seq<string>, life: map<string, Life>)

  /** A table, keyed by primary key. */
  type Table = map<Fid, Row>

  /** What a view shows: the user columns of each row it keeps. */
  type View = map<Fid, seq<string>>

  function LifeOf(r: Row, branch: string): Life
  {
    if branch in r.life then r.life[branch] else NoLife
  }

  /** The row with the branch's history columns replaced. */
  function WithLife(r: Row, branch: string, l: Life): (r': Row)
    ensures LifeOf(r', branch) == l
    ensures r'.attrs == r.attrs
    ensures forall b :: b != branch ==> LifeOf(r', b) == LifeOf(r, b)
  {
    r.(life := r.life[branch := l])
  }

  /** Every `child` names a row of the table: the foreign key the server
      puts on `<branch>_child`. */
  predicate ChildrenExist(t: Table, branch: string)
  {
    forall k :: k in t && LifeOf(t[k], branch).child.Some? ==> LifeOf(t[k], branch).child.value in t
  }

  /** The filter of a head view: `rev_end IS NULL AND rev_begin IS NOT NULL`. */
  predicate HeadVisible(l: Life)
  {
    l.revEnd.None? && l.revBegin.Some?
  }

  /** The filter of the view at revision `n`:
      `(rev_end IS NULL OR rev_end >= n) AND rev_begin <= n`. */
  predicate VisibleAt(l: Life, n: int)
  {
    l.revBegin.Some? && l.revBegin.value <= n && (l.revEnd.None? || l.revEnd.value >= n)
  }

  /** The head view of a branch over a table. */
  function HeadView(t: Table, branch: string): (v: View)
    ensures forall k :: k in v <==> k in t && HeadVisible(LifeOf(t[k], branch))
    ensures forall k :: k in v ==> v[k] == t[k].attrs
  {
    map k | k in t && HeadVisible(LifeOf(t[k], branch)) :: t[k].attrs
  }

  /** The view of a branch at revision `n` over a table. */
  function RevisionView(t: Table, branch: string, n: int): (v: View)
    ensures forall k :: k in v <==> k in t && VisibleAt(LifeOf(t[k], branch), n)
    ensures forall k :: k in v ==> v[k] == t[k].attrs
  {
    map k | k in t && VisibleAt(LifeOf(t[k], branch), n) :: t[k].attrs
  }

  /** An edit closes the old version with `rev_end = pin` and starts its
      successor at `pin+1`: `rev_end` is the last revision the old version is
      part of, so every revision shows exactly one of the two once both
      exist, the old one up to `pin` and the new one from `pin+1` on. */
  lemma SupersededRowHandsOver(closed: Life, successor: Life, pin: int, n: int)
    requires closed.revBegin.Some? && closed.revBegin.value <= pin && closed.revEnd == Some(pin)
    requires successor.revBegin == Some(pin + 1) && successor.revEnd.None?
    requires closed.revBegin.value <= n
    ensures VisibleAt(closed, n) <==> n <= pin
    ensures VisibleAt(successor, n) <==> n > pin
    ensures VisibleAt(closed, n) != VisibleAt(successor, n)
  {
  }

  /** Every revision of the branch is at most `m` and every closed row was
      closed by a revision at most `m`, which sets `rev_end` below `m`. */
  predicate WrittenUpTo(t: Table, branch: string, m: int)
  {
    forall k :: k in t ==>
      (LifeOf(t[k], branch).revBegin.Some? ==> LifeOf(t[k], branch).revBegin.value <= m) &&
      (LifeOf(t[k], branch).revEnd.Some? ==> LifeOf(t[k], branch).revEnd.value < m)
  }

  /** The head view shows the table as of its newest revision. */
  lemma HeadViewIsNewestRevision(t: Table, branch: string, m: int)
    requires WrittenUpTo(t, branch, m)
    ensures HeadView(t, branch) == RevisionView(t, branch, m)
  {
    var h := HeadView(t, branch);
    var r := RevisionView(t, branch, m);
    forall k | k in t
      ensures k in h <==> k in r
    {
      assert LifeOf(t[k], branch).revEnd.Some? ==> LifeOf(t[k], branch).revEnd.value < m;
    }
    assert h.Keys == r.Keys;
  }

  /** The rows a working copy sends on commit (and a server sends on update):
      `rev_end = pin OR rev_begin > pin`. */
  predicate InDiff(l: Life, pin: int)
  {
    (l.revEnd.Some? && l.revEnd.value == pin) || (l.revBegin.Some? && l.revBegin.value > pin)
  }

  /** The diff of a table since `pin`: whole rows, all branches' columns. */
  function Diff(t: Table, branch: string, pin: int): (d: Table)
    ensures forall k :: k in d <==> k in t && InDiff(LifeOf(t[k], branch), pin)
    ensures forall k :: k in d ==> d[k] == t[k]
  {
    map k | k in t && InDiff(LifeOf(t[k], branch), pin) :: t[k]
  }

  /** `MAX(MAX(OGC_FID), max_pk)`: the largest key in use or reserved. */
  function MaxFid(t: Table, maxPk: int): (m: int)
    ensures m >= maxPk
    ensures forall k :: k in t ==> k <= m
    ensures m == maxPk || m in t
  {
    if t.Keys == {} then maxPk
    else
      var top := MaxOf(t.Keys);
      if top > maxPk then top else maxPk
  }

  /** The key the working copy gives a new row. */
  function NextFid(t: Table, maxPk: int): (f: Fid)
    ensures f !in t && f > maxPk
    ensures forall k :: k in t ==> k < f
  {
    MaxFid(t, maxPk) + 1
  }

  /** Adding the row at `NextFid` makes it the new `MaxFid`: the value the
      edit trigger reads back after its insert is the key just inserted. */
  lemma MaxFidAfterInsert(t: Table, maxPk: int, r: Row)
    ensures MaxFid(t[NextFid(t, maxPk) := r], maxPk) == NextFid(t, maxPk)
  {
    var f := NextFid(t, maxPk);
    var t' := t[f := r];
    var m := MaxFid(t', maxPk);
    assert f in t';
    assert f <= m;
    if m != maxPk {
      assert m in t';
      assert m == f || m in t;
    }
  }
}
