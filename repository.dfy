/** The versioned PostGIS database: schemas holding tables and a revision
    log, and the view schemas that expose one branch at its head or at a
    fixed revision. Covers `historize`, `add_branch`, `add_revision_view`,
    `revisions` and `pg_branches`. */
module Repository {
  import opened Common
  import opened Names
  import opened Lifecycle
  import opened RevisionLog

  /** A table of a versioned schema and the geometry columns the catalogue
      lists for it. */
  datatype Layer = Layer(rows: Table, geoms: seq<string>)

  /** A schema: its tables, and its `revisions` table once historized. */
  datatype Schema = Schema(layers: map<string, Layer>, log: Option<Log>)

  /** A schema of views: the head of a branch, or a branch at a revision. */
  datatype ViewSchema =
    | HeadViews(schema: string, branch: string)
    | RevisionViews(schema: string, branch: string, rev: int)

  /** The whole database. Schema names share one namespace. */
  datatype Db = Db(schemas: map<string, Schema>, viewSchemas: map<string, ViewSchema>)

  predicate NameTaken(db: Db, name: string)
  {
    name in db.schemas || name in db.viewSchemas
  }

  predicate Versioned(db: Db, schema: string)
  {
    schema in db.schemas && db.schemas[schema].log.Some?
  }

  function LogOf(db: Db, schema: string): Log
    requires Versioned(db, schema)
  {
    db.schemas[schema].log.value
  }

  /** What the server keeps true of every layer of a versioned schema, on
      every branch: no row begins after the newest revision of the log,
      and every closed row was closed before it (a commit of revision `n`
      closes rows at `n - 1`). */
  ghost predicate WrittenUpToLog(db: Db)
  {
    forall s, t, b :: Versioned(db, s) && t in db.schemas[s].layers ==>
      WrittenUpTo(db.schemas[s].layers[t].rows, b, MaxRev(LogOf(db, s)))
  }

  /** What the view `<viewSchema>.<table>` shows now: views are evaluated
      against the current rows of the table. */
  function ViewRows(db: Db, viewSchema: string, table: string): (r: Option<View>)
    ensures r.Some? ==> viewSchema in db.viewSchemas
  {
    if viewSchema !in db.viewSchemas then None
    else
      var v := db.viewSchemas[viewSchema];
      if v.schema !in db.schemas || table !in db.schemas[v.schema].layers then None
      else
        var rows := db.schemas[v.schema].layers[table].rows;
        match v
        case HeadViews(_, b) => Some(HeadView(rows, b))
        case RevisionViews(_, b, n) => Some(RevisionView(rows, b, n))
  }

  /** The `rev_begin` a new branch gives a row, from the row's columns on
      the base branch. `baseRev` is `None` for `'head'`. A row left out keeps
      the NULL of the freshly added column. */
  function BranchStart(base: Life, branch: string, baseRev: Option<int>, newRev: int): (r: Option<int>)
    ensures branch == "trunk" ==> r == Some(newRev)
    ensures branch != "trunk" && baseRev.None? ==> (r == Some(newRev) <==> HeadVisible(base))
    ensures branch != "trunk" && baseRev.Some? ==> (r == Some(newRev) <==> VisibleAt(base, baseRev.value))
    ensures r == None || r == Some(newRev)
  {
    if branch == "trunk" then Some(newRev)
    else if baseRev.None? then (if HeadVisible(base) then Some(newRev) else None)
    else if VisibleAt(base, baseRev.value) then Some(newRev) else None
  }

  /** The selection the source applies for a numeric base revision:
      `(rev_end IS NULL OR rev_end > base_rev) AND rev_begin IS NOT NULL`. */
  function BranchStartAsWritten(base: Life, branch: string, baseRev: Option<int>, newRev: int): Option<int>
  {
    if branch == "trunk" then Some(newRev)
    else if baseRev.None? then (if HeadVisible(base) then Some(newRev) else None)
    else if (base.revEnd.None? || base.revEnd.value > baseRev.value) && base.revBegin.Some?
    then Some(newRev)
    else None
  }

  /** A row of the schema as written by the revision sequence A (1) then
      its edit B (2): A closed with `rev_end = 1`, B begun at 2. Branching
      from revision 1 should start from A; the source's selection picks B
      and drops A. */
  lemma BranchStartAsWrittenMissesRevision()
    ensures var a := Life(Some(1), Some(1), None, Some(2));
            var b := Life(Some(2), None, Some(1), None);
            VisibleAt(a, 1) && !VisibleAt(b, 1) &&
            BranchStartAsWritten(a, "fix", Some(1), 3) == None &&
            BranchStartAsWritten(b, "fix", Some(1), 3) == Some(3) &&
            BranchStart(a, "fix", Some(1), 3) == Some(3) &&
            BranchStart(b, "fix", Some(1), 3) == None
  {
  }

  /** The new branch's four columns on every row of a table. */
  function InitBranch(rows: Table, branch: string, baseBranch: string,
                      baseRev: Option<int>, newRev: int): (r: Table)
    ensures r.Keys == rows.Keys
    ensures forall k :: k in r ==>
      r[k] == WithLife(rows[k], branch,
        Life(BranchStart(LifeOf(rows[k], baseBranch), branch, baseRev, newRev), None, None, None))
  {
    map k | k in rows ::
      WithLife(rows[k], branch,
        Life(BranchStart(LifeOf(rows[k], baseBranch), branch, baseRev, newRev), None, None, None))
  }

  function InitLayer(layer: Layer, branch: string, baseBranch: string,
                     baseRev: Option<int>, newRev: int): Layer
  {
    layer.(rows := InitBranch(layer.rows, branch, baseBranch, baseRev, newRev))
  }

  function InitLayers(layers: map<string, Layer>, branch: string, baseBranch: string,
                      baseRev: Option<int>, newRev: int): (r: map<string, Layer>)
    ensures r.Keys == layers.Keys
    ensures forall t :: t in r ==> r[t] == InitLayer(layers[t], branch, baseBranch, baseRev, newRev)
  {
    map t | t in layers :: InitLayer(layers[t], branch, baseBranch, baseRev, newRev)
  }

  /** `add_branch`: checks, logs revision `max_rev+1` with a NULL author,
      creates the head view schema and adds the branch's columns to every
      table. Any failure leaves the database as it was. */
  function AfterAddBranch(db: Db, schema: string, branch: string, msg: string,
                     baseBranch: string, baseRev: Option<int>): (r: Result<Db>)
    ensures !Versioned(db, schema) ==> r == Err(UnknownSchema)
    ensures r.Ok? ==>
      (Versioned(db, schema) &&
       CheckNewBranch(LogOf(db, schema), branch, baseBranch, baseRev).Ok? &&
       !NameTaken(db, HeadSchemaName(schema, branch)))
  {
    if !Versioned(db, schema) then Err(UnknownSchema)
    else
      var s := db.schemas[schema];
      var check := CheckNewBranch(s.log.value, branch, baseBranch, baseRev);
      if check.Err? then Err(check.error)
      else
        var head := HeadSchemaName(schema, branch);
        if NameTaken(db, head) then Err(SchemaExists)
        else
          var log' := s.log.value + [BranchRevision(check.value, branch, msg)];
          var layers' := InitLayers(s.layers, branch, baseBranch, baseRev, check.value);
          Ok(Db(db.schemas[schema := Schema(layers', Some(log'))],
                db.viewSchemas[head := HeadViews(schema, branch)]))
  }

  /** The effect of a successful `add_branch`, stated about the result. */
  lemma AddBranchEffect(db: Db, schema: string, branch: string, msg: string,
                        baseBranch: string, baseRev: Option<int>)
    requires AfterAddBranch(db, schema, branch, msg, baseBranch, baseRev).Ok?
    ensures var db' := AfterAddBranch(db, schema, branch, msg, baseBranch, baseRev).value;
      var log := LogOf(db, schema);
      var newRev := MaxRev(log) + 1;
      Versioned(db', schema) &&
      LogOf(db', schema) == log + [Revision(newRev, branch, msg, None)] &&
      HasBranch(LogOf(db', schema), branch) &&
      BranchHead(LogOf(db', schema), branch) == Some(newRev) &&
      db'.viewSchemas[HeadSchemaName(schema, branch)] == HeadViews(schema, branch) &&
      db'.schemas[schema].layers.Keys == db.schemas[schema].layers.Keys &&
      (forall t, k, b ::
        (t in db.schemas[schema].layers && k in db.schemas[schema].layers[t].rows && b != branch) ==>
        k in db'.schemas[schema].layers[t].rows &&
        LifeOf(db'.schemas[schema].layers[t].rows[k], b) == LifeOf(db.schemas[schema].layers[t].rows[k], b)) &&
      (forall s :: s in db.schemas && s != schema ==> s in db'.schemas && db'.schemas[s] == db.schemas[s])
  {
    var db' := AfterAddBranch(db, schema, branch, msg, baseBranch, baseRev).value;
    var log := LogOf(db, schema);
    var log' := LogOf(db', schema);
    var newRev := MaxRev(log) + 1;
    assert log'[|log|] == Revision(newRev, branch, msg, None);
    assert HasBranch(log', branch);
    BranchRevsEmpty(log, branch);
    BranchRevsAppend(log, Revision(newRev, branch, msg, None), branch);
    assert BranchRevs(log', branch) == {newRev};
  }

  /** On a fresh schema, the trunk starts with every row. */
  lemma TrunkStartsWithEveryRow(db: Db, schema: string, msg: string, table: string)
    requires AfterAddBranch(db, schema, "trunk", msg, "trunk", None).Ok?
    requires table in db.schemas[schema].layers
    ensures var db' := AfterAddBranch(db, schema, "trunk", msg, "trunk", None).value;
      ViewRows(db', HeadSchemaName(schema, "trunk"), table) ==
        Some(map k | k in db.schemas[schema].layers[table].rows :: db.schemas[schema].layers[table].rows[k].attrs)
  {
    var db' := AfterAddBranch(db, schema, "trunk", msg, "trunk", None).value;
    var rows := db.schemas[schema].layers[table].rows;
    var rows' := db'.schemas[schema].layers[table].rows;
    assert HeadView(rows', "trunk") == map k | k in rows :: rows[k].attrs;
  }

  /** A branch created from the head of its base starts with exactly the
      rows the base's head view shows. */
  lemma BranchFromHeadCopiesHead(db: Db, schema: string, branch: string, msg: string,
                                 baseBranch: string, table: string)
    requires branch != "trunk" && branch != baseBranch
    requires AfterAddBranch(db, schema, branch, msg, baseBranch, None).Ok?
    requires table in db.schemas[schema].layers
    ensures var db' := AfterAddBranch(db, schema, branch, msg, baseBranch, None).value;
      ViewRows(db', HeadSchemaName(schema, branch), table) ==
        Some(HeadView(db.schemas[schema].layers[table].rows, baseBranch))
  {
    var db' := AfterAddBranch(db, schema, branch, msg, baseBranch, None).value;
    var rows := db.schemas[schema].layers[table].rows;
    var rows' := db'.schemas[schema].layers[table].rows;
    assert HeadView(rows', branch) == HeadView(rows, baseBranch);
  }

  /** A branch created from revision `n` of its base starts with exactly the
      rows the base showed at revision `n`. */
  lemma BranchFromRevisionCopiesRevision(db: Db, schema: string, branch: string, msg: string,
                                         baseBranch: string, n: int, table: string)
    requires branch != "trunk" && branch != baseBranch
    requires AfterAddBranch(db, schema, branch, msg, baseBranch, Some(n)).Ok?
    requires table in db.schemas[schema].layers
    ensures var db' := AfterAddBranch(db, schema, branch, msg, baseBranch, Some(n)).value;
      ViewRows(db', HeadSchemaName(schema, branch), table) ==
        Some(RevisionView(db.schemas[schema].layers[table].rows, baseBranch, n))
  {
    var db' := AfterAddBranch(db, schema, branch, msg, baseBranch, Some(n)).value;
    var rows := db.schemas[schema].layers[table].rows;
    var rows' := db'.schemas[schema].layers[table].rows;
    assert HeadView(rows', branch) == RevisionView(rows, baseBranch, n);
  }

  /** `historize`: creates the empty log (committed on its own), then adds
      the trunk. A failure of the second step keeps the empty log. */
  function AfterHistorize(db: Db, schema: string): (r: (Db, Outcome))
    ensures schema == "" ==> r == (db, Fail(NoSchemaGiven))
    ensures schema != "" && schema !in db.schemas ==> r == (db, Fail(UnknownSchema))
    ensures schema != "" && schema in db.schemas && db.schemas[schema].log.Some? ==>
      r == (db, Fail(AlreadyVersioned))
    ensures r.1.Pass? ==>
      (Versioned(r.0, schema) && Branches(LogOf(r.0, schema)) == {"trunk"} &&
       LogOf(r.0, schema) == [Revision(1, "trunk", "initial commit", None)])
    ensures r.1.Fail? && schema != "" && schema in db.schemas && db.schemas[schema].log.None? ==>
      r.0 == db.(schemas := db.schemas[schema := db.schemas[schema].(log := Some([]))])
  {
    if schema == "" then (db, Fail(NoSchemaGiven))
    else if schema !in db.schemas then (db, Fail(UnknownSchema))
    else if db.schemas[schema].log.Some? then (db, Fail(AlreadyVersioned))
    else
      var created := db.(schemas := db.schemas[schema := db.schemas[schema].(log := Some([]))]);
      var added := AfterAddBranch(created, schema, "trunk", "initial commit", "trunk", None);
      if added.Ok? then
        var log := LogOf(added.value, schema);
        assert log == [Revision(1, "trunk", "initial commit", None)];
        assert Branches(log) == {"trunk"} by {
          forall b ensures b in Branches(log) <==> b == "trunk" {
            assert log[0].branch == "trunk";
          }
        }
        (added.value, Pass)
      else (created, Fail(added.error))
  }

  /** `add_revision_view`: checks the branch and the revision, then creates
      `<schema>_<branch>_rev_<rev>` unless a schema of that name exists, in
      which case it returns without error whatever that schema holds. */
  function AfterAddRevisionView(db: Db, schema: string, branch: string, rev: int): (r: Result<Db>)
    ensures !Versioned(db, schema) ==> r == Err(UnknownSchema)
    ensures Versioned(db, schema) ==>
      (r == Err(BranchMissing) <==> !HasBranch(LogOf(db, schema), branch)) &&
      (r == Err(RevisionMissing) <==>
        (HasBranch(LogOf(db, schema), branch) && (rev > MaxRev(LogOf(db, schema)) || rev <= 0)))
    ensures r.Ok? ==> rev >= 1 && r.value.schemas == db.schemas && NameTaken(r.value, RevSchemaName(schema, branch, rev))
    ensures r.Ok? && rev >= 1 && NameTaken(db, RevSchemaName(schema, branch, rev)) ==> r.value == db
    ensures r.Ok? && rev >= 1 && !NameTaken(db, RevSchemaName(schema, branch, rev)) ==>
      r.value.viewSchemas == db.viewSchemas[RevSchemaName(schema, branch, rev) := RevisionViews(schema, branch, rev)]
  {
    if !Versioned(db, schema) then Err(UnknownSchema)
    else
      var log := LogOf(db, schema);
      if !HasBranch(log, branch) then Err(BranchMissing)
      else if rev > MaxRev(log) || rev <= 0 then Err(RevisionMissing)
      else
        var name := RevSchemaName(schema, branch, rev);
        if NameTaken(db, name) then Ok(db)
        else Ok(db.(viewSchemas := db.viewSchemas[name := RevisionViews(schema, branch, rev)]))
  }

  /** Asking twice for the same revision view is the same as asking once. */
  lemma AddRevisionViewIdempotent(db: Db, schema: string, branch: string, rev: int)
    requires AfterAddRevisionView(db, schema, branch, rev).Ok?
    ensures AfterAddRevisionView(AfterAddRevisionView(db, schema, branch, rev).value, schema, branch, rev) ==
      AfterAddRevisionView(db, schema, branch, rev)
  {
  }

  /** A revision view created by `add_revision_view` keeps exactly the rows
      visible at that revision. */
  lemma AddRevisionViewShowsRevision(db: Db, schema: string, branch: string, rev: int, table: string)
    requires AfterAddRevisionView(db, schema, branch, rev).Ok?
    requires rev >= 1 && !NameTaken(db, RevSchemaName(schema, branch, rev))
    requires table in db.schemas[schema].layers
    ensures ViewRows(AfterAddRevisionView(db, schema, branch, rev).value, RevSchemaName(schema, branch, rev), table) ==
      Some(RevisionView(db.schemas[schema].layers[table].rows, branch, rev))
  {
  }

  /** The server as a mutable object: the statements of the engine change
      its schemas in place. */
  class Server {
    var schemas: map<string, Schema>
    var viewSchemas: map<string, ViewSchema>

    function State(): Db
      reads this
    {
      Db(schemas, viewSchemas)
    }

    constructor (db: Db)
      ensures State() == db
    {
      schemas := db.schemas;
      viewSchemas := db.viewSchemas;
    }

    /** `add_branch`, table by table as the source walks them. */
    method AddBranch(schema: string, branch: string, msg: string,
                     baseBranch: string, baseRev: Option<int>) returns (out: Outcome)
      modifies this
      ensures var r := AfterAddBranch(old(State()), schema, branch, msg, baseBranch, baseRev);
        (r.Ok? ==> out == Pass && State() == r.value) &&
        (r.Err? ==> out == Fail(r.error) && State() == old(State()))
    {
      if schema !in schemas || schemas[schema].log.None? {
        return Fail(UnknownSchema);
      }
      var s := schemas[schema];
      var check := CheckNewBranch(s.log.value, branch, baseBranch, baseRev);
      if check.Err? {
        return Fail(check.error);
      }
      var head := HeadSchemaName(schema, branch);
      if head in schemas || head in viewSchemas {
        return Fail(SchemaExists);
      }
      var newRev := check.value;
      var log' := s.log.value + [BranchRevision(newRev, branch, msg)];
      var todo := s.layers.Keys;
      var layers' := s.layers;
      while todo != {}
        invariant State() == old(State())
        invariant todo <= s.layers.Keys
        invariant layers'.Keys == s.layers.Keys
        invariant forall t :: t in layers' ==>
          layers'[t] == if t in todo then s.layers[t]
                        else InitLayer(s.layers[t], branch, baseBranch, baseRev, newRev)
        decreases todo
      {
        NonEmpty(todo);
        var t :| t in todo;
        layers' := layers'[t := InitLayer(s.layers[t], branch, baseBranch, baseRev, newRev)];
        todo := todo - {t};
      }
      assert layers' == InitLayers(s.layers, branch, baseBranch, baseRev, newRev);
      schemas := schemas[schema := Schema(layers', Some(log'))];
      viewSchemas := viewSchemas[head := HeadViews(schema, branch)];
      return Pass;
    }

    /** `historize`. */
    method Historize(schema: string) returns (out: Outcome)
      modifies this
      ensures (State(), out) == AfterHistorize(old(State()), schema)
    {
      if schema == "" {
        return Fail(NoSchemaGiven);
      }
      if schema !in schemas {
        return Fail(UnknownSchema);
      }
      if schemas[schema].log.Some? {
        return Fail(AlreadyVersioned);
      }
      schemas := schemas[schema := schemas[schema].(log := Some([]))];
      out := AddBranch(schema, "trunk", "initial commit", "trunk", None);
    }

    /** `add_revision_view`. */
    method AddRevisionView(schema: string, branch: string, rev: int) returns (out: Outcome)
      modifies this
      ensures var r := AfterAddRevisionView(old(State()), schema, branch, rev);
        (r.Ok? ==> out == Pass && State() == r.value) &&
        (r.Err? ==> out == Fail(r.error) && State() == old(State()))
    {
      var r := AfterAddRevisionView(State(), schema, branch, rev);
      if r.Err? {
        return Fail(r.error);
      }
      viewSchemas := r.value.viewSchemas;
      return Pass;
    }

    /** `revisions`: the revision numbers in table order. */
    method Revisions(schema: string) returns (r: Result<seq<int>>)
      ensures !Versioned(State(), schema) ==> r == Err(UnknownSchema)
      ensures Versioned(State(), schema) ==>
        (r.Ok? && |r.value| == |LogOf(State(), schema)| &&
         forall i :: 0 <= i < |r.value| ==> r.value[i] == LogOf(State(), schema)[i].rev)
    {
      if schema !in schemas || schemas[schema].log.None? {
        return Err(UnknownSchema);
      }
      var log := schemas[schema].log.value;
      var revs: seq<int> := [];
      var i := 0;
      while i < |log|
        invariant 0 <= i <= |log|
        invariant |revs| == i
        invariant forall j :: 0 <= j < i ==> revs[j] == log[j].rev
      {
        revs := revs + [log[i].rev];
        i := i + 1;
      }
      return Ok(revs);
    }
  }

  /** The revision numbers `revisions` lists are those of the log, and on a
      gap-free log they are `1..n` in order. */
  lemma RevisionsOfSequentialLog(log: Log, revs: seq<int>)
    requires |revs| == |log| && forall i :: 0 <= i < |revs| ==> revs[i] == log[i].rev
    requires Sequential(log)
    ensures forall i :: 0 <= i < |revs| ==> revs[i] == i + 1
    ensures forall r :: r in revs <==> r in Revs(log)
  {
    SequentialRevs(log);
    forall r | r in Revs(log)
      ensures r in revs
    {
      assert revs[r - 1] == r;
    }
  }
}
