/** The state of a SpatiaLite working copy: the `initial_revision` table of
    pins, the checked-out tables, and the conflict tables `update` leaves
    behind. Covers the read-only queries `unresolved_conflicts`, `late` and
    `revision`. */
module WorkingState {
  import opened Common
  import opened Names
  import opened Lifecycle
  import opened RevisionLog
  import opened Repository
  import opened Conflicts

  /** A row of `initial_revision`: the revision a layer was checked out or
      last updated at, its branch, the versioned schema and table it comes
      from, and the largest server key at that moment. */
  datatype Pin = Pin(rev: int, branch: string, schema: string, table: string, maxPk: int)

  /** A working copy: pins in table order, the tables by name, and the
      conflict table of each layer that has one. */
  datatype Wc = Wc(pins: seq<Pin>, tables: map<string, Table>, conflicts: map<string, ConflictTable>)

  /** Pins naming a different table each. */
  predicate DistinctTables(pins: seq<Pin>)
  {
    forall i, j :: 0 <= i < j < |pins| ==> pins[i].table != pins[j].table
  }

  /** The same layer: branch, schema and table agree. */
  predicate SameLayer(a: Pin, b: Pin)
  {
    a.branch == b.branch && a.schema == b.schema && a.table == b.table
  }

  /** `(SELECT ... FROM initial_revision WHERE table_name = ...)`, as the
      edit triggers read it: the first pin of the table. */
  function PinOf(pins: seq<Pin>, table: string): (r: Option<Pin>)
    ensures r.Some? ==> r.value in pins && r.value.table == table
    ensures r.None? ==> forall p :: p in pins ==> p.table != table
  {
    if pins == [] then None
    else if pins[0].table == table then Some(pins[0])
    else
      assert pins == [pins[0]] + pins[1..];
      PinOf(pins[1..], table)
  }

  /** `unresolved_conflicts`: each table of the file whose name matches
      `LIKE '%_conflicts'` and that has a row, without its last ten
      characters. Those are the conflict tables of layers, and any layer
      whose own name happens to match the pattern. */
  function Unresolved(w: Wc): set<string>
  {
    (set t | t in w.conflicts && w.conflicts[t].entries != [] :: StripConflictsSuffix(ConflictTableName(t))) +
    (set n | n in w.tables && LikeConflicts(n) && w.tables[n] != map[] :: StripConflictsSuffix(n))
  }

  /** The gate of `update` and `commit` is open exactly when every conflict
      table is empty and no non-empty layer is named like one; a layer with
      a pending conflict is reported under its own name. */
  lemma UnresolvedNamesConflictedLayers(w: Wc, t: string)
    ensures t in w.conflicts && w.conflicts[t].entries != [] ==> t in Unresolved(w)
    ensures Unresolved(w) == {} <==>
      (forall c :: c in w.conflicts ==> w.conflicts[c].entries == []) &&
      (forall n :: n in w.tables && LikeConflicts(n) ==> w.tables[n] == map[])
  {
    ConflictTableNameRoundTrip(t);
    if t in w.conflicts && w.conflicts[t].entries != [] {
      assert StripConflictsSuffix(ConflictTableName(t)) in Unresolved(w);
    }
    if Unresolved(w) == {} {
      forall c | c in w.conflicts
        ensures w.conflicts[c].entries == []
      {
        assert w.conflicts[c].entries != [] ==> StripConflictsSuffix(ConflictTableName(c)) in Unresolved(w);
      }
      forall n | n in w.tables && LikeConflicts(n)
        ensures w.tables[n] == map[]
      {
        assert w.tables[n] != map[] ==> StripConflictsSuffix(n) in Unresolved(w);
      }
    }
  }

  /** The pin's branch has a head on the server. */
  predicate Tracked(p: Pin, db: Db)
  {
    Versioned(db, p.schema) && BranchHead(LogOf(db, p.schema), p.branch).Some?
  }

  /** How many revisions the branch's head is ahead of the pin. */
  function Lag(p: Pin, db: Db): int
    requires Tracked(p, db)
  {
    BranchHead(LogOf(db, p.schema), p.branch).value - p.rev
  }

  /** The loop of `late` from accumulator `acc`: `max(head - rev, late_by)`
      for each pin. A missing `revisions` table is a database error, and a
      branch without revisions gives `None - rev`, a type error. */
  function LateFrom(pins: seq<Pin>, db: Db, acc: int): (r: Result<int>)
    ensures r.Err? ==> r.error == UnknownSchema || r.error == BranchMissing
  {
    if pins == [] then Ok(acc)
    else if !Versioned(db, pins[0].schema) then Err(UnknownSchema)
    else if BranchHead(LogOf(db, pins[0].schema), pins[0].branch).None? then Err(BranchMissing)
    else
      var lag := Lag(pins[0], db);
      LateFrom(pins[1..], db, if lag > acc then lag else acc)
  }

  /** `late`: fails on an empty pin table, otherwise folds from 0. */
  function Late(pins: seq<Pin>, db: Db): Result<int>
  {
    if pins == [] then Err(NoVersionedLayer) else LateFrom(pins, db, 0)
  }

  /** The fold fails exactly when some pin's branch has no head. */
  lemma {:induction false} LateFromOk(pins: seq<Pin>, db: Db, acc: int)
    ensures LateFrom(pins, db, acc).Ok? <==> forall i :: 0 <= i < |pins| ==> Tracked(pins[i], db)
    decreases |pins|
  {
    if pins != [] {
      TrackedSplit(pins, db);
      if Tracked(pins[0], db) {
        var lag := Lag(pins[0], db);
        LateFromOk(pins[1..], db, if lag > acc then lag else acc);
      }
    }
  }

  /** Every pin is tracked iff the first one and every later one are. */
  lemma TrackedSplit(pins: seq<Pin>, db: Db)
    requires pins != []
    ensures (forall i :: 0 <= i < |pins| ==> Tracked(pins[i], db)) <==>
      Tracked(pins[0], db) && forall i :: 0 <= i < |pins[1..]| ==> Tracked(pins[1..][i], db)
  {
    if Tracked(pins[0], db) && forall i :: 0 <= i < |pins[1..]| ==> Tracked(pins[1..][i], db) {
      forall i | 1 <= i < |pins|
        ensures Tracked(pins[i], db)
      {
        assert pins[i] == pins[1..][i - 1];
      }
    }
  }

  /** The fold's result is at least `acc` and every pin's lag. */
  lemma {:induction false} LateFromBounds(pins: seq<Pin>, db: Db, acc: int)
    requires LateFrom(pins, db, acc).Ok?
    ensures LateFrom(pins, db, acc).value >= acc
    ensures forall i :: 0 <= i < |pins| ==>
      Tracked(pins[i], db) && Lag(pins[i], db) <= LateFrom(pins, db, acc).value
    decreases |pins|
  {
    if pins != [] {
      var lag := Lag(pins[0], db);
      var acc' := if lag > acc then lag else acc;
      var v := LateFrom(pins, db, acc).value;
      assert v == LateFrom(pins[1..], db, acc').value;
      LateFromBounds(pins[1..], db, acc');
      forall i | 1 <= i < |pins|
        ensures Tracked(pins[i], db) && Lag(pins[i], db) <= v
      {
        assert pins[i] == pins[1..][i - 1];
      }
    }
  }

  /** The fold's result is `acc` or some pin's lag. */
  lemma {:induction false} LateFromAttained(pins: seq<Pin>, db: Db, acc: int)
    requires LateFrom(pins, db, acc).Ok?
    ensures var v := LateFrom(pins, db, acc).value;
      v == acc || exists i :: 0 <= i < |pins| && Tracked(pins[i], db) && Lag(pins[i], db) == v
    decreases |pins|
  {
    if pins != [] {
      var lag := Lag(pins[0], db);
      var acc' := if lag > acc then lag else acc;
      var rest := pins[1..];
      var v := LateFrom(pins, db, acc).value;
      assert v == LateFrom(rest, db, acc').value;
      LateFromAttained(rest, db, acc');
      if v != acc' {
        var i :| 0 <= i < |rest| && Tracked(rest[i], db) && Lag(rest[i], db) == v;
        assert rest[i] == pins[i + 1];
        assert Tracked(pins[i + 1], db) && Lag(pins[i + 1], db) == v;
      }
    }
  }

  /** `late` is 0 exactly when no pin is behind its branch's head, and
      otherwise the largest lag. */
  lemma LateZeroIffUpToDate(pins: seq<Pin>, db: Db)
    requires pins != []
    ensures Late(pins, db).Ok? <==> forall i :: 0 <= i < |pins| ==> Tracked(pins[i], db)
    ensures Late(pins, db).Ok? ==>
      (Late(pins, db).value == 0 <==> forall i :: 0 <= i < |pins| ==> Lag(pins[i], db) <= 0) &&
      forall i :: 0 <= i < |pins| ==> Lag(pins[i], db) <= Late(pins, db).value
  {
    LateFromOk(pins, db, 0);
    if Late(pins, db).Ok? {
      LateFromBounds(pins, db, 0);
      LateFromAttained(pins, db, 0);
    }
  }

  /** The `rev` column in table order. */
  function PinRevs(pins: seq<Pin>): (s: seq<int>)
    ensures |s| == |pins| && forall i :: 0 <= i < |pins| ==> s[i] == pins[i].rev
  {
    seq(|pins|, i requires 0 <= i < |pins| => pins[i].rev)
  }

  /** The loop of `revision`: the first non-zero `rev` is kept and every
      later one must equal it (`0` reads as "not set yet"). */
  function CommonRev(revs: seq<int>, acc: int): Result<int>
  {
    if revs == [] then Ok(acc)
    else if acc != 0 then
      if revs[0] == acc then CommonRev(revs[1..], acc) else Err(MixedRevisions)
    else CommonRev(revs[1..], revs[0])
  }

  /** `revision`: the common pin plus one. */
  function RevisionOf(pins: seq<Pin>): Result<int>
  {
    match CommonRev(PinRevs(pins), 0)
    case Ok(r) => Ok(r + 1)
    case Err(e) => Err(e)
  }

  /** Some non-zero value is followed by a different one. */
  predicate Clash(s: seq<int>)
  {
    exists i, j :: 0 <= i < j < |s| && s[i] != 0 && s[j] != s[i]
  }

  /** The loop fails exactly on a clash, and otherwise returns the value
      every non-zero entry agrees on. */
  lemma {:induction false} CommonRevClash(revs: seq<int>, acc: int)
    ensures CommonRev(revs, acc).Err? <==> Clash([acc] + revs)
    ensures CommonRev(revs, acc).Ok? ==>
      var v := CommonRev(revs, acc).value;
      (acc != 0 ==> v == acc) &&
      (v != acc ==> exists i :: 0 <= i < |revs| && revs[i] == v) &&
      forall i :: 0 <= i < |revs| && revs[i] != 0 ==> revs[i] == v
    decreases |revs|
  {
    var s := [acc] + revs;
    if revs == [] {
      assert !Clash(s);
    } else {
      var acc' := if acc != 0 then acc else revs[0];
      var s' := [acc'] + revs[1..];
      if acc != 0 && revs[0] != acc {
        assert s[0] != 0 && s[1] != s[0];
      } else {
        CommonRevClash(revs[1..], acc');
        assert forall i :: 1 <= i < |revs| ==> revs[i] == revs[1..][i - 1];
        if Clash(s) {
          var i, j :| 0 <= i < j < |s| && s[i] != 0 && s[j] != s[i];
          if i == 0 {
            assert s'[0] == s[0] && s'[j - 1] == s[j];
            if j == 1 {
              assert false;
            }
          } else if i == 1 && acc != 0 {
            assert s'[0] == s[1] && s'[j - 1] == s[j];
          } else if i == 1 {
            assert s'[0] == s[1] && s'[j - 1] == s[j];
          } else {
            assert s'[i - 1] == s[i] && s'[j - 1] == s[j];
          }
        }
        if Clash(s') {
          var i, j :| 0 <= i < j < |s'| && s'[i] != 0 && s'[j] != s'[i];
          if i == 0 && acc != 0 {
            assert s[0] == s'[0] && s[j + 1] == s'[j];
          } else if i == 0 {
            assert s[1] == s'[0] && s[j + 1] == s'[j];
          } else {
            assert s[i + 1] == s'[i] && s[j + 1] == s'[j];
          }
        }
      }
    }
  }

  /** `revision` fails exactly when two pins disagree (a zero pin followed
      by others counts as unset), and pins that share `rev` give `rev + 1`. */
  lemma RevisionOfPins(pins: seq<Pin>, rev: int)
    ensures RevisionOf(pins).Err? <==> Clash([0] + PinRevs(pins))
    ensures RevisionOf(pins).Ok? ==>
      forall i :: 0 <= i < |pins| && pins[i].rev != 0 ==> pins[i].rev == RevisionOf(pins).value - 1
    ensures (forall i :: 0 <= i < |pins| ==> pins[i].rev == rev) && pins != [] ==> RevisionOf(pins) == Ok(rev + 1)
  {
    CommonRevClash(PinRevs(pins), 0);
    if (forall i :: 0 <= i < |pins| ==> pins[i].rev == rev) && pins != [] {
      if rev != 0 {
        assert PinRevs(pins)[0] == rev;
      } else {
        assert !Clash([0] + PinRevs(pins));
      }
    }
  }
}
