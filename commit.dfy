/** `commit`: send each layer's local changes since its pin to the server
    as one new revision, then pin the working copy at the server's newest
    revision. */
module Commit {
  import opened Common
  import opened Lifecycle
  import opened RevisionLog
  import opened Repository
  import opened Geometry
  import opened WorkingState
  import opened Edits
  import opened Checkout
  import Names

  /** The rows a commit inserts on the server: those of the diff that begin
      at `pin+1`, whole (every branch's columns travel). */
  function Inserted(d: Table, branch: string, pin: int): (r: Table)
    ensures forall k :: k in r <==> k in d && LifeOf(d[k], branch).revBegin == Some(pin + 1)
    ensures forall k :: k in r ==> r[k] == d[k]
  {
    map k | k in d && LifeOf(d[k], branch).revBegin == Some(pin + 1) :: d[k]
  }

  /** The row `row` with `rev_end` and `child` of the branch taken from the
      diff's row `src`. */
  function CloseAs(row: Row, src: Row, branch: string): Row
  {
    WithLife(row, branch, LifeOf(row, branch).(revEnd := LifeOf(src, branch).revEnd, child := LifeOf(src, branch).child))
  }

  /** The server's table once the diff is in: the inserted rows added, then
      every row the diff closed at `pin` given the diff's `rev_end` and
      `child`. */
  function Published(server: Table, d: Table, branch: string, pin: int): Table
  {
    var t := server + Inserted(d, branch, pin);
    map k | k in t ::
      if k in d && LifeOf(d[k], branch).revEnd == Some(pin) then CloseAs(t[k], d[k], branch) else t[k]
  }

  /** The two statements that apply a diff on the server: `INSERT` of the
      rows beginning at `pin+1`, which fails on a key the server already
      has, then `UPDATE ... FROM` of the rows closed at `pin`. */
  function Publish(server: Table, d: Table, branch: string, pin: int): (r: Result<Table>)
    ensures r.Err? <==> exists k :: k in d && LifeOf(d[k], branch).revBegin == Some(pin + 1) && k in server
    ensures r.Err? ==> r.error == KeyCollision
  {
    if exists k :: k in Inserted(d, branch, pin) && k in server then Err(KeyCollision)
    else Ok(Published(server, d, branch, pin))
  }

  /** What one key of the published table holds. */
  lemma PublishedAt(server: Table, d: Table, branch: string, pin: int, k: Fid)
    requires forall j :: j in Inserted(d, branch, pin) ==> j !in server
    ensures var p := Published(server, d, branch, pin);
      (k in p <==> k in server || (k in d && LifeOf(d[k], branch).revBegin == Some(pin + 1))) &&
      (k in p && k in d && LifeOf(d[k], branch).revEnd == Some(pin) ==>
        p[k].attrs == (if k in server then server[k].attrs else d[k].attrs) &&
        LifeOf(p[k], branch).revEnd == Some(pin) &&
        LifeOf(p[k], branch).revBegin == LifeOf(if k in server then server[k] else d[k], branch).revBegin) &&
      (k in p && !(k in d && LifeOf(d[k], branch).revEnd == Some(pin)) ==>
        p[k] == if k in server then server[k] else d[k])
  {
  }

  /** A working copy pinned at the branch head, as `commit` expects it: it
      writes nothing past `pin+1`, its new rows are not on the server, the
      rows it closed are open there, its other rows agree with the server
      on the branch, and the server rows it lacks are not in the branch's
      head. */
  predicate Mirrors(local: Table, server: Table, branch: string, pin: int)
  {
    WrittenUpTo(local, branch, pin + 1) &&
    (forall k :: k in local && LifeOf(local[k], branch).revBegin == Some(pin + 1) ==> k !in server) &&
    (forall k ::
       k in local && LifeOf(local[k], branch).revEnd == Some(pin) && LifeOf(local[k], branch).revBegin != Some(pin + 1)
       ==> k in server && LifeOf(server[k], branch).revEnd.None?) &&
    (forall k :: k in local && !InDiff(LifeOf(local[k], branch), pin) ==>
       k in server && server[k].attrs == local[k].attrs && LifeOf(server[k], branch) == LifeOf(local[k], branch)) &&
    (forall k :: k in server && k !in local ==> !HeadVisible(LifeOf(server[k], branch)))
  }

  /** A mirroring working copy's diff goes in without a key collision. */
  lemma MirrorsPublishes(local: Table, server: Table, branch: string, pin: int, d: Table)
    requires Mirrors(local, server, branch, pin)
    requires d == Diff(local, branch, pin)
    ensures forall j :: j in Inserted(d, branch, pin) ==> j !in server
    ensures Publish(server, d, branch, pin) == Ok(Published(server, d, branch, pin))
  {
  }

  /** One key of the published table is in the head exactly when it is in
      the working copy's head, with the same attributes. */
  lemma PublishedHeadAt(local: Table, server: Table, branch: string, pin: int, d: Table, p: Table, k: Fid)
    requires Mirrors(local, server, branch, pin)
    requires d == Diff(local, branch, pin)
    requires forall j :: j in Inserted(d, branch, pin) ==> j !in server
    requires p == Published(server, d, branch, pin)
    ensures k in p && HeadVisible(LifeOf(p[k], branch)) <==> k in local && HeadVisible(LifeOf(local[k], branch))
    ensures k in p && HeadVisible(LifeOf(p[k], branch)) ==> p[k].attrs == local[k].attrs
  {
    PublishedAt(server, d, branch, pin, k);
    if k in local {
      var l := LifeOf(local[k], branch);
      if InDiff(l, pin) {
        assert k in d;
        if l.revEnd == Some(pin) {
          assert l.revBegin != Some(pin + 1) ==> k in server;
        }
      }
    }
  }

  /** After the diff is published, the head of the branch on the server
      shows exactly what the working copy shows. */
  lemma PublishMakesServerHeadLocalHead(local: Table, server: Table, branch: string, pin: int)
    requires Mirrors(local, server, branch, pin)
    ensures Publish(server, Diff(local, branch, pin), branch, pin).Ok?
    ensures HeadView(Publish(server, Diff(local, branch, pin), branch, pin).value, branch) == HeadView(local, branch)
  {
    var d := Diff(local, branch, pin);
    MirrorsPublishes(local, server, branch, pin, d);
    var p := Published(server, d, branch, pin);
    var hp := HeadView(p, branch);
    var hl := HeadView(local, branch);
    forall k
      ensures k in hp <==> k in hl
      ensures k in hp ==> hp[k] == hl[k]
    {
      PublishedHeadAt(local, server, branch, pin, d, p, k);
    }
    assert hp.Keys == hl.Keys;
    assert hp == hl;
  }

  /** One key of the published table is visible at a revision up to the pin
      exactly when it is on the server, with the same attributes. */
  lemma PublishedRevisionAt(local: Table, server: Table, branch: string, pin: int, n: int, d: Table, p: Table, k: Fid)
    requires Mirrors(local, server, branch, pin)
    requires n <= pin
    requires d == Diff(local, branch, pin)
    requires forall j :: j in Inserted(d, branch, pin) ==> j !in server
    requires p == Published(server, d, branch, pin)
    ensures k in p && VisibleAt(LifeOf(p[k], branch), n) <==> k in server && VisibleAt(LifeOf(server[k], branch), n)
    ensures k in p && VisibleAt(LifeOf(p[k], branch), n) ==> p[k].attrs == server[k].attrs
  {
    PublishedAt(server, d, branch, pin, k);
    if k in d && LifeOf(d[k], branch).revEnd == Some(pin) && LifeOf(d[k], branch).revBegin != Some(pin + 1) {
      assert k in server && LifeOf(server[k], branch).revEnd.None?;
    }
  }

  /** Publishing changes no revision up to the pin: the new rows begin
      after it, and the rows closed at the pin stay visible up to it. */
  lemma PublishKeepsHistory(local: Table, server: Table, branch: string, pin: int, n: int)
    requires Mirrors(local, server, branch, pin)
    requires n <= pin
    ensures Publish(server, Diff(local, branch, pin), branch, pin).Ok?
    ensures RevisionView(Publish(server, Diff(local, branch, pin), branch, pin).value, branch, n) ==
      RevisionView(server, branch, n)
  {
    var d := Diff(local, branch, pin);
    MirrorsPublishes(local, server, branch, pin, d);
    var p := Published(server, d, branch, pin);
    var vp := RevisionView(p, branch, n);
    var vs := RevisionView(server, branch, n);
    forall k
      ensures k in vp <==> k in vs
      ensures k in vp ==> vp[k] == vs[k]
    {
      PublishedRevisionAt(local, server, branch, pin, n, d, p, k);
    }
    assert vp.Keys == vs.Keys;
    assert vp == vs;
  }

  /** The state carried through the layer loop: the server as modified so
      far, the number of layers published, and `next_rev`. */
  datatype Progress = Progress(db: Db, count: nat, nextRev: int)

  /** One turn of the layer loop. The local diff is taken first (a missing
      local table fails), then the server table's key and geometry column
      are looked up; an empty diff skips the layer. Otherwise revision
      `pin+1` is recorded if absent and the diff is published. */
  function CommitLayer(st: Progress, p: Pin, tables: map<string, Table>, msg: string, author: string,
                       override: Option<string>): (r: Result<Progress>)
    ensures r.Ok? ==>
      p.table in tables &&
      r.value.count == st.count + (if Diff(tables[p.table], p.branch, p.rev) == map[] then 0 else 1)
  {
    if st.nextRev != 0 && st.nextRev != p.rev + 1 then Err(MixedRevisions)
    else
      var next := if st.nextRev != 0 then st.nextRev else p.rev + 1;
      if p.table !in tables then Err(MissingTable)
      else
        var d := Diff(tables[p.table], p.branch, p.rev);
        var db := st.db;
        if p.schema !in db.schemas || p.table !in db.schemas[p.schema].layers then Err(MissingTable)
        else
          var layer := db.schemas[p.schema].layers[p.table];
          match PgGeom(layer.geoms, override)
          case Err(e) => Err(e)
          case Ok(_) =>
            if d == map[] then Ok(Progress(db, st.count, next))
            else if db.schemas[p.schema].log.None? then Err(UnknownSchema)
            else
              match Publish(layer.rows, d, p.branch, p.rev)
              case Err(e) => Err(e)
              case Ok(rows) =>
                var schema := db.schemas[p.schema];
                var log := Allocate(schema.log.value, p.rev + 1, p.branch, msg, author);
                var schema' := Schema(schema.layers[p.table := layer.(rows := rows)], Some(log));
                Ok(Progress(db.(schemas := db.schemas[p.schema := schema']), st.count + 1, next))
  }

  /** The layer loop. A layer that fails leaves the layers before it
      published: each layer is its own server transaction. */
  function CommitLayers(st: Progress, todo: seq<Pin>, tables: map<string, Table>, msg: string, author: string,
                        override: Option<string>): (Progress, Option<Error>)
    decreases |todo|
  {
    if todo == [] then (st, None)
    else
      match CommitLayer(st, todo[0], tables, msg, author, override)
      case Err(e) => (st, Some(e))
      case Ok(st') => CommitLayers(st', todo[1..], tables, msg, author, override)
  }

  /** How many of the layers have a local change since their pin: the
      layers for which `nb_of_updated_layer` is incremented. */
  function ChangedLayers(todo: seq<Pin>, tables: map<string, Table>): nat
    decreases |todo|
  {
    if todo == [] then 0
    else
      var p := todo[0];
      (if p.table in tables && Diff(tables[p.table], p.branch, p.rev) != map[] then 1 else 0)
        + ChangedLayers(todo[1..], tables)
  }

  /** The pin a layer gets after a commit: the schema's global `MAX(rev)`
      and the table's largest key. */
  function NewestPin(db: Db, p: Pin): (q: Pin)
    requires Versioned(db, p.schema) && p.table in db.schemas[p.schema].layers
    ensures SameLayer(q, p)
  {
    p.(rev := MaxRev(LogOf(db, p.schema)), maxPk := MaxOrZero(db.schemas[p.schema].layers[p.table].rows.Keys))
  }

  /** `UPDATE initial_revision ... WHERE table_schema, table_name and
      branch match`. */
  function RepinLayer(db: Db, pins: seq<Pin>, q: Pin): (r: seq<Pin>)
    requires Versioned(db, q.schema) && q.table in db.schemas[q.schema].layers
    ensures |r| == |pins|
    ensures forall i :: 0 <= i < |pins| ==> SameLayer(r[i], pins[i])
    ensures forall i :: 0 <= i < |pins| && SameLayer(pins[i], q) ==> r[i] == NewestPin(db, pins[i])
    ensures forall i :: 0 <= i < |pins| && !SameLayer(pins[i], q) ==> r[i] == pins[i]
  {
    seq(|pins|, i requires 0 <= i < |pins| => if SameLayer(pins[i], q) then NewestPin(db, pins[i]) else pins[i])
  }

  /** The final loop over the pins read at the start: the key lookup fails
      on a missing table, `MAX(rev)` on a missing log, and `SET rev = None`
      on an empty one. */
  function RepinAll(db: Db, pins: seq<Pin>, todo: seq<Pin>): Result<seq<Pin>>
    decreases |todo|
  {
    if todo == [] then Ok(pins)
    else
      var q := todo[0];
      if q.schema !in db.schemas || q.table !in db.schemas[q.schema].layers then Err(MissingTable)
      else if !Versioned(db, q.schema) then Err(UnknownSchema)
      else if LogOf(db, q.schema) == [] then Err(RevisionMissing)
      else RepinAll(db, RepinLayer(db, pins, q), todo[1..])
  }

  /** What a commit leaves: the server (with the layers published before
      any failure), the working copy (changed only on success), and the
      number of layers published or the error. */
  datatype Committed = Committed(db: Db, w: Wc, result: Result<nat>)

  /** `commit`: refused with a pending conflict or when a layer is late;
      the working copy is re-pinned only when something was published, and
      only if every layer could be re-pinned. */
  function AfterCommit(db: Db, w: Wc, msg: string, author: string, override: Option<string>): Committed
  {
    if Unresolved(w) != {} then Committed(db, w, Err(UnresolvedConflicts(Unresolved(w))))
    else
      match Late(w.pins, db)
      case Err(e) => Committed(db, w, Err(e))
      case Ok(n) =>
        if n != 0 then Committed(db, w, Err(LateBy(n)))
        else
          var (st, err) := CommitLayers(Progress(db, 0, 0), w.pins, w.tables, msg, author, override);
          if err.Some? then Committed(st.db, w, Err(err.value))
          else if st.count == 0 then Committed(st.db, w, Ok(0))
          else
            match RepinAll(st.db, w.pins, w.pins)
            case Err(e) => Committed(st.db, w, Err(e))
            case Ok(pins) => Committed(st.db, w.(pins := pins), Ok(st.count))
  }

  /** `commit` is refused, the server untouched, while a conflict is
      pending, when a layer is late (reporting by how much), and when
      there is no layer. */
  lemma CommitRefusals(db: Db, w: Wc, msg: string, author: string, override: Option<string>)
    ensures Unresolved(w) != {} ==>
      AfterCommit(db, w, msg, author, override) == Committed(db, w, Err(UnresolvedConflicts(Unresolved(w))))
    ensures Unresolved(w) == {} && Late(w.pins, db).Ok? && Late(w.pins, db).value != 0 ==>
      AfterCommit(db, w, msg, author, override) == Committed(db, w, Err(LateBy(Late(w.pins, db).value)))
    ensures Unresolved(w) == {} && w.pins == [] ==>
      AfterCommit(db, w, msg, author, override) == Committed(db, w, Err(NoVersionedLayer))
  {
  }

  /** A commit refused at a layer's turn leaves the working copy as it was. */
  lemma CommitFailureKeepsWorkingCopy(db: Db, w: Wc, msg: string, author: string, override: Option<string>)
    requires AfterCommit(db, w, msg, author, override).result.Err?
    ensures AfterCommit(db, w, msg, author, override).w == w
  {
  }

  /** The loop publishes a layer exactly when its diff has rows; when none
      has, the server is untouched. */
  lemma {:induction false} CommitLayersCount(st: Progress, todo: seq<Pin>, tables: map<string, Table>, msg: string,
                                              author: string, override: Option<string>)
    requires CommitLayers(st, todo, tables, msg, author, override).1.None?
    ensures forall p :: p in todo ==> p.table in tables
    ensures CommitLayers(st, todo, tables, msg, author, override).0.count == st.count + ChangedLayers(todo, tables)
    ensures CommitLayers(st, todo, tables, msg, author, override).0.count == st.count <==>
      forall p :: p in todo ==> Diff(tables[p.table], p.branch, p.rev) == map[]
    ensures CommitLayers(st, todo, tables, msg, author, override).0.count == st.count ==>
      CommitLayers(st, todo, tables, msg, author, override).0.db == st.db
    decreases |todo|
  {
    if todo != [] {
      var st' := CommitLayer(st, todo[0], tables, msg, author, override).value;
      CommitLayersCount(st', todo[1..], tables, msg, author, override);
      assert forall p :: p in todo ==> p == todo[0] || p in todo[1..];
      if Diff(tables[todo[0].table], todo[0].branch, todo[0].rev) == map[] {
        assert st'.count == st.count && st'.db == st.db;
      } else {
        assert st'.count == st.count + 1;
      }
    }
  }

  /** A successful commit of nothing publishes nothing: it returns 0
      exactly when no layer has a local change, and then neither the
      server nor the working copy change. */
  lemma CommitNothingIffNoDiff(db: Db, w: Wc, msg: string, author: string, override: Option<string>)
    requires AfterCommit(db, w, msg, author, override).result.Ok?
    ensures forall p :: p in w.pins ==> p.table in w.tables
    ensures AfterCommit(db, w, msg, author, override).result.value == 0 <==>
      forall p :: p in w.pins ==> Diff(w.tables[p.table], p.branch, p.rev) == map[]
    ensures AfterCommit(db, w, msg, author, override).result.value == 0 ==>
      AfterCommit(db, w, msg, author, override).db == db && AfterCommit(db, w, msg, author, override).w == w
    ensures AfterCommit(db, w, msg, author, override).result.value == ChangedLayers(w.pins, w.tables)
  {
    CommitLayersCount(Progress(db, 0, 0), w.pins, w.tables, msg, author, override);
  }

  /** A turn that publishes a layer with local changes replaces that
      layer's server rows by the `Publish` result and records revision
      `pin+1` in its schema's log; no other table, schema or view changes. */
  lemma CommitLayerPublishes(st: Progress, p: Pin, tables: map<string, Table>, msg: string, author: string,
                             override: Option<string>)
    requires CommitLayer(st, p, tables, msg, author, override).Ok?
    requires p.table in tables && Diff(tables[p.table], p.branch, p.rev) != map[]
    ensures Versioned(st.db, p.schema) && p.table in st.db.schemas[p.schema].layers
    ensures var db := st.db;
      var db' := CommitLayer(st, p, tables, msg, author, override).value.db;
      var layer := db.schemas[p.schema].layers[p.table];
      var pub := Publish(layer.rows, Diff(tables[p.table], p.branch, p.rev), p.branch, p.rev);
      pub.Ok? && Versioned(db', p.schema) &&
      db'.schemas[p.schema].layers == db.schemas[p.schema].layers[p.table := layer.(rows := pub.value)] &&
      LogOf(db', p.schema) == Allocate(LogOf(db, p.schema), p.rev + 1, p.branch, msg, author) &&
      p.rev + 1 in Revs(LogOf(db', p.schema))
    ensures var db := st.db;
      var db' := CommitLayer(st, p, tables, msg, author, override).value.db;
      db'.viewSchemas == db.viewSchemas && db'.schemas.Keys == db.schemas.Keys &&
      forall s :: s in db.schemas && s != p.schema ==> db'.schemas[s] == db.schemas[s]
  {
  }

  /** After a turn that publishes a mirroring copy's layer, the server's
      head of the branch shows exactly what the working copy shows. */
  lemma CommitLayerMakesServerHeadLocalHead(st: Progress, p: Pin, tables: map<string, Table>, msg: string,
                                            author: string, override: Option<string>)
    requires CommitLayer(st, p, tables, msg, author, override).Ok?
    requires p.table in tables && Diff(tables[p.table], p.branch, p.rev) != map[]
    requires p.schema in st.db.schemas && p.table in st.db.schemas[p.schema].layers
    requires Mirrors(tables[p.table], st.db.schemas[p.schema].layers[p.table].rows, p.branch, p.rev)
    ensures var db' := CommitLayer(st, p, tables, msg, author, override).value.db;
      p.schema in db'.schemas && p.table in db'.schemas[p.schema].layers &&
      HeadView(db'.schemas[p.schema].layers[p.table].rows, p.branch) == HeadView(tables[p.table], p.branch)
  {
    CommitLayerPublishes(st, p, tables, msg, author, override);
    PublishMakesServerHeadLocalHead(tables[p.table], st.db.schemas[p.schema].layers[p.table].rows, p.branch, p.rev);
  }

  /** When the layer was pinned at its schema's newest revision, the turn
      appends `pin+1` on the layer's branch, which becomes both the branch
      head and the schema's newest revision. */
  lemma CommitLayerLogsNext(st: Progress, p: Pin, tables: map<string, Table>, msg: string, author: string,
                            override: Option<string>)
    requires CommitLayer(st, p, tables, msg, author, override).Ok?
    requires p.table in tables && Diff(tables[p.table], p.branch, p.rev) != map[]
    requires Versioned(st.db, p.schema) && MaxRev(LogOf(st.db, p.schema)) <= p.rev
    ensures var db' := CommitLayer(st, p, tables, msg, author, override).value.db;
      var log := LogOf(st.db, p.schema);
      Versioned(db', p.schema) &&
      LogOf(db', p.schema) == log + [Revision(p.rev + 1, p.branch, msg, Some(author))] &&
      BranchHead(LogOf(db', p.schema), p.branch) == Some(p.rev + 1) &&
      MaxRev(LogOf(db', p.schema)) == p.rev + 1
  {
    CommitLayerPublishes(st, p, tables, msg, author, override);
    AllocateNewest(LogOf(st.db, p.schema), p.rev + 1, p.branch, msg, author);
  }

  /** A copy whose layers sit where the published one was pinned, at the
      schema's newest revision and on the same branch, is one revision late
      after the turn. */
  lemma CommitLayerMakesOthersLate(st: Progress, p: Pin, tables: map<string, Table>, msg: string, author: string,
                                   override: Option<string>, pins: seq<Pin>)
    requires CommitLayer(st, p, tables, msg, author, override).Ok?
    requires p.table in tables && Diff(tables[p.table], p.branch, p.rev) != map[]
    requires Versioned(st.db, p.schema) && MaxRev(LogOf(st.db, p.schema)) <= p.rev
    requires pins != [] && forall q :: q in pins ==> q.schema == p.schema && q.branch == p.branch && q.rev == p.rev
    ensures Late(pins, CommitLayer(st, p, tables, msg, author, override).value.db) == Ok(1)
  {
    var db' := CommitLayer(st, p, tables, msg, author, override).value.db;
    CommitLayerLogsNext(st, p, tables, msg, author, override);
    forall i | 0 <= i < |pins|
      ensures Tracked(pins[i], db') && Lag(pins[i], db') == 1
    {
      assert pins[i] in pins;
    }
    LateZeroIffUpToDate(pins, db');
    LateFromAttained(pins, db', 0);
  }

  /** A commit of a one-layer copy that succeeds is that layer's turn:
      its server is the commit's server and its count the result. */
  lemma OneLayerCommit(db: Db, w: Wc, msg: string, author: string, override: Option<string>)
    requires |w.pins| == 1 && AfterCommit(db, w, msg, author, override).result.Ok?
    ensures var r := CommitLayer(Progress(db, 0, 0), w.pins[0], w.tables, msg, author, override);
      var c := AfterCommit(db, w, msg, author, override);
      r.Ok? && c.db == r.value.db && c.result == Ok(r.value.count)
  {
    var st0 := Progress(db, 0, 0);
    assert Unresolved(w) == {};
    assert Late(w.pins, db) == Ok(0);
    var res := CommitLayers(st0, w.pins, w.tables, msg, author, override);
    assert res.1.None?;
    assert w.pins[1..] == [];
    var r := CommitLayer(st0, w.pins[0], w.tables, msg, author, override);
    assert r.Ok?;
    assert CommitLayers(r.value, w.pins[1..], w.tables, msg, author, override) == (r.value, None);
    assert res.0 == r.value;
  }

  /** What a turn that publishes a mirroring copy's layer, pinned at its
      schema's newest revision, leaves on the server. */
  lemma PublishingTurn(st: Progress, p: Pin, tables: map<string, Table>, msg: string, author: string,
                       override: Option<string>, others: seq<Pin>)
    requires CommitLayer(st, p, tables, msg, author, override).Ok?
    requires p.table in tables && Diff(tables[p.table], p.branch, p.rev) != map[]
    requires Versioned(st.db, p.schema) && p.table in st.db.schemas[p.schema].layers
    requires MaxRev(LogOf(st.db, p.schema)) <= p.rev
    requires Mirrors(tables[p.table], st.db.schemas[p.schema].layers[p.table].rows, p.branch, p.rev)
    requires others != [] && forall q :: q in others ==> q.schema == p.schema && q.branch == p.branch && q.rev == p.rev
    ensures var r := CommitLayer(st, p, tables, msg, author, override).value;
      r.count == st.count + 1 &&
      Versioned(r.db, p.schema) && p.table in r.db.schemas[p.schema].layers &&
      HeadView(r.db.schemas[p.schema].layers[p.table].rows, p.branch) == HeadView(tables[p.table], p.branch) &&
      BranchHead(LogOf(r.db, p.schema), p.branch) == Some(p.rev + 1) &&
      Late(others, r.db) == Ok(1)
  {
    CommitLayerMakesServerHeadLocalHead(st, p, tables, msg, author, override);
    CommitLayerLogsNext(st, p, tables, msg, author, override);
    CommitLayerMakesOthersLate(st, p, tables, msg, author, override, others);
  }

  /** Every versioned schema stays versioned, its log only extended. */
  ghost predicate LogsGrow(db: Db, db': Db)
  {
    forall s :: Versioned(db, s) ==> Versioned(db', s) && LogOf(db, s) <= LogOf(db', s)
  }

  /** A branch of a log is a branch of every extension of it. */
  lemma ExtendedLogKeepsBranches(log: Log, log': Log, branch: string)
    requires log <= log' && HasBranch(log, branch)
    ensures HasBranch(log', branch)
  {
    var i :| 0 <= i < |log| && log[i].branch == branch;
    assert log'[i] == log[i];
  }

  /** One turn only records a revision: the logs grow. */
  lemma CommitLayerGrowsLogs(st: Progress, p: Pin, tables: map<string, Table>, msg: string, author: string,
                             override: Option<string>)
    requires CommitLayer(st, p, tables, msg, author, override).Ok?
    ensures LogsGrow(st.db, CommitLayer(st, p, tables, msg, author, override).value.db)
  {
    var db' := CommitLayer(st, p, tables, msg, author, override).value.db;
    forall s | Versioned(st.db, s)
      ensures Versioned(db', s) && LogOf(st.db, s) <= LogOf(db', s)
    {
      if s == p.schema && db' != st.db {
        var log := LogOf(st.db, s);
        assert LogOf(db', s) == Allocate(log, p.rev + 1, p.branch, msg, author);
      }
    }
  }

  /** The layer loop only records revisions: the logs grow. */
  lemma {:induction false} CommitLayersGrowLogs(st: Progress, todo: seq<Pin>, tables: map<string, Table>, msg: string,
                                                author: string, override: Option<string>)
    ensures LogsGrow(st.db, CommitLayers(st, todo, tables, msg, author, override).0.db)
    decreases |todo|
  {
    if todo != [] && CommitLayer(st, todo[0], tables, msg, author, override).Ok? {
      var st' := CommitLayer(st, todo[0], tables, msg, author, override).value;
      CommitLayerGrowsLogs(st, todo[0], tables, msg, author, override);
      CommitLayersGrowLogs(st', todo[1..], tables, msg, author, override);
    }
  }

  /** The final loop gives every pin of a processed layer its newest pin
      and leaves the others as they were. */
  lemma {:induction false} RepinAllPins(db: Db, pins: seq<Pin>, todo: seq<Pin>)
    requires RepinAll(db, pins, todo).Ok?
    ensures |RepinAll(db, pins, todo).value| == |pins|
    ensures forall i :: 0 <= i < |pins| ==> SameLayer(RepinAll(db, pins, todo).value[i], pins[i])
    ensures forall i :: 0 <= i < |pins| && (exists q :: q in todo && SameLayer(pins[i], q)) ==>
      Versioned(db, pins[i].schema) && pins[i].table in db.schemas[pins[i].schema].layers &&
      RepinAll(db, pins, todo).value[i] == NewestPin(db, pins[i])
    ensures forall i :: 0 <= i < |pins| && (forall q :: q in todo ==> !SameLayer(pins[i], q)) ==>
      RepinAll(db, pins, todo).value[i] == pins[i]
    decreases |todo|
  {
    if todo != [] {
      var q := todo[0];
      var pins1 := RepinLayer(db, pins, q);
      RepinAllPins(db, pins1, todo[1..]);
      var r := RepinAll(db, pins, todo).value;
      assert r == RepinAll(db, pins1, todo[1..]).value;
      forall i | 0 <= i < |pins| && (exists q' :: q' in todo && SameLayer(pins[i], q'))
        ensures Versioned(db, pins[i].schema) && pins[i].table in db.schemas[pins[i].schema].layers
        ensures r[i] == NewestPin(db, pins[i])
      {
        var q' :| q' in todo && SameLayer(pins[i], q');
        if !SameLayer(pins[i], q) {
          assert q' in todo[1..];
        }
      }
      forall i | 0 <= i < |pins| && (forall q' :: q' in todo ==> !SameLayer(pins[i], q'))
        ensures r[i] == pins[i]
      {
        assert q in todo;
        assert forall q' :: q' in todo[1..] ==> q' in todo;
      }
    }
  }

  /** A pin moved to the newest revision of a schema whose log has its
      branch is not behind the branch's head. */
  lemma NewestPinIsCurrent(db: Db, p: Pin)
    requires Versioned(db, p.schema) && p.table in db.schemas[p.schema].layers
    requires HasBranch(LogOf(db, p.schema), p.branch)
    ensures Tracked(NewestPin(db, p), db) && Lag(NewestPin(db, p), db) <= 0
  {
    var q := NewestPin(db, p);
    assert q.schema == p.schema && q.branch == p.branch;
    assert BranchHead(LogOf(db, p.schema), p.branch).Some?;
  }

  /** A commit that published something passed both gates, ran every
      layer's turn without error, and re-read the pins from the grown
      server. */
  lemma CommitPublished(db: Db, w: Wc, msg: string, author: string, override: Option<string>) returns (st: Progress)
    requires AfterCommit(db, w, msg, author, override).result.Ok?
    requires AfterCommit(db, w, msg, author, override).result.value > 0
    ensures Unresolved(w) == {} && Late(w.pins, db) == Ok(0)
    ensures CommitLayers(Progress(db, 0, 0), w.pins, w.tables, msg, author, override) == (st, None)
    ensures RepinAll(st.db, w.pins, w.pins).Ok?
    ensures AfterCommit(db, w, msg, author, override) ==
      Committed(st.db, w.(pins := RepinAll(st.db, w.pins, w.pins).value), Ok(st.count))
  {
    st := CommitLayers(Progress(db, 0, 0), w.pins, w.tables, msg, author, override).0;
  }

  /** After a commit that published something, every layer is pinned at
      its schema's newest revision with the server's largest key. */
  lemma CommitRepinsEveryLayer(db: Db, w: Wc, msg: string, author: string, override: Option<string>)
    requires AfterCommit(db, w, msg, author, override).result.Ok?
    requires AfterCommit(db, w, msg, author, override).result.value > 0
    ensures var c := AfterCommit(db, w, msg, author, override);
      |c.w.pins| == |w.pins| &&
      forall i :: 0 <= i < |w.pins| ==>
        Versioned(c.db, w.pins[i].schema) && w.pins[i].table in c.db.schemas[w.pins[i].schema].layers &&
        c.w.pins[i] == NewestPin(c.db, w.pins[i])
  {
    var st := CommitPublished(db, w, msg, author, override);
    RepinAllRepinsEach(st.db, w.pins);
  }

  /** Re-pinning every layer of the working copy moves each pin to its
      schema's newest revision. */
  lemma RepinAllRepinsEach(db: Db, pins: seq<Pin>)
    requires RepinAll(db, pins, pins).Ok?
    ensures var r := RepinAll(db, pins, pins).value;
      |r| == |pins| &&
      forall i :: 0 <= i < |pins| ==>
        Versioned(db, pins[i].schema) && pins[i].table in db.schemas[pins[i].schema].layers &&
        r[i] == NewestPin(db, pins[i])
  {
    RepinAllPins(db, pins, pins);
    forall i | 0 <= i < |pins|
      ensures exists q :: q in pins && SameLayer(pins[i], q)
    {
      assert pins[i] in pins;
    }
  }

  /** After a commit that published something, no layer is late. */
  lemma CommitPinsAtNewest(db: Db, w: Wc, msg: string, author: string, override: Option<string>)
    requires AfterCommit(db, w, msg, author, override).result.Ok?
    requires AfterCommit(db, w, msg, author, override).result.value > 0
    ensures Late(AfterCommit(db, w, msg, author, override).w.pins, AfterCommit(db, w, msg, author, override).db) == Ok(0)
  {
    var c := AfterCommit(db, w, msg, author, override);
    var st := CommitPublished(db, w, msg, author, override);
    CommitRepinsEveryLayer(db, w, msg, author, override);
    LateZeroIffUpToDate(w.pins, db);
    CommitLayersGrowLogs(Progress(db, 0, 0), w.pins, w.tables, msg, author, override);
    assert LogsGrow(db, c.db);
    forall i | 0 <= i < |c.w.pins|
      ensures Tracked(c.w.pins[i], c.db) && Lag(c.w.pins[i], c.db) <= 0
    {
      var p := w.pins[i];
      assert Tracked(p, db);
      ExtendedLogKeepsBranches(LogOf(db, p.schema), LogOf(c.db, p.schema), p.branch);
      NewestPinIsCurrent(c.db, p);
    }
    LateZeroIffUpToDate(c.w.pins, c.db);
  }

  /** A table written up to `pin` mirrors itself at `pin`, with nothing to
      send. */
  lemma MirrorsOwnTable(t: Table, branch: string, pin: int)
    requires WrittenUpTo(t, branch, pin)
    ensures Mirrors(t, t, branch, pin)
    ensures Diff(t, branch, pin) == map[]
  {
    forall k | k in t
      ensures !InDiff(LifeOf(t[k], branch), pin)
    {
    }
    assert Diff(t, branch, pin) == map[];
  }

  /** Each layer of a fresh checkout mirrors the server's table at its pin,
      has no local change, and the server has no key above its `maxPk`. */
  lemma CheckoutMirrors(db: Db, names: seq<string>, i: nat)
    requires WrittenUpToLog(db)
    requires AfterCheckout(db, names, false).Ok? && i < |names|
    ensures var w := AfterCheckout(db, names, false).value;
      |w.pins| == |names| &&
      var p := w.pins[i];
      Versioned(db, p.schema) && p.table in db.schemas[p.schema].layers && p.table in w.tables &&
      var server := db.schemas[p.schema].layers[p.table].rows;
      Mirrors(w.tables[p.table], server, p.branch, p.rev) &&
      Diff(w.tables[p.table], p.branch, p.rev) == map[] &&
      forall k :: k in server ==> k <= p.maxPk
  {
    CheckoutCopiesServer(db, names, false);
    var w := AfterCheckout(db, names, false).value;
    var p := w.pins[i];
    var (headSchema, table) := Names.ParseTableName(names[i]).value;
    assert PinFor(db, p, headSchema, table);
    MirrorsOwnTable(db.schemas[p.schema].layers[p.table].rows, p.branch, p.rev);
  }

  /** What an edit may do to one key of a mirroring layer: keep the row,
      change only the `child` of a row already in the diff, hold a row
      created since the pin that the server lacks, or close at the pin an
      old row that is open on the server. */
  predicate EditedKey(local: Table, local': Table, server: Table, branch: string, pin: int, k: Fid)
    requires k in local'
  {
    var l' := LifeOf(local'[k], branch);
    (k in local && local'[k].attrs == local[k].attrs && l' == LifeOf(local[k], branch)) ||
    (k in local && InDiff(LifeOf(local[k], branch), pin) &&
     l'.revBegin == LifeOf(local[k], branch).revBegin && l'.revEnd == LifeOf(local[k], branch).revEnd) ||
    (l'.revBegin == Some(pin + 1) && l'.revEnd.None? && k !in server) ||
    (k in server && LifeOf(server[k], branch).revEnd.None? && l'.revEnd == Some(pin) &&
     l'.revBegin.Some? && l'.revBegin.value <= pin)
  }

  /** An edit that does only that to every key, and drops only keys the
      server lacks, keeps the layer mirroring the server. */
  lemma MirrorsAfterEdit(local: Table, local': Table, server: Table, branch: string, pin: int)
    requires Mirrors(local, server, branch, pin)
    requires forall k :: k in local' ==> EditedKey(local, local', server, branch, pin, k)
    requires forall k :: k in local && k !in local' ==> k !in server
    ensures Mirrors(local', server, branch, pin)
  {
  }

  /** The insert trigger keeps a layer mirroring an unchanged server whose
      keys are at most `maxPk`. */
  lemma InsertKeepsMirrors(local: Table, server: Table, branch: string, pin: int, maxPk: int, attrs: seq<string>)
    requires Mirrors(local, server, branch, pin) && forall k :: k in server ==> k <= maxPk
    ensures Mirrors(InsertRow(local, branch, pin, maxPk, attrs), server, branch, pin)
  {
    var t' := InsertRow(local, branch, pin, maxPk, attrs);
    assert forall k :: k in t' ==> EditedKey(local, t', server, branch, pin, k);
    MirrorsAfterEdit(local, t', server, branch, pin);
  }

  /** The update triggers keep a layer mirroring an unchanged server whose
      keys are at most `maxPk`. */
  lemma UpdateKeepsMirrors(local: Table, server: Table, branch: string, pin: int, maxPk: int, fid: Fid, attrs: seq<string>)
    requires Mirrors(local, server, branch, pin) && forall k :: k in server ==> k <= maxPk
    ensures Mirrors(UpdateRow(local, branch, pin, maxPk, fid, attrs), server, branch, pin)
  {
    var t' := UpdateRow(local, branch, pin, maxPk, fid, attrs);
    if fid in HeadView(local, branch) {
      var l := LifeOf(local[fid], branch);
      if IsOld(l, pin) {
        var nf := NextFid(local, maxPk);
        UpdateOldRowEffect(local, branch, pin, maxPk, fid, attrs);
        assert !InDiff(l, pin);
        forall k | k in t'
          ensures EditedKey(local, t', server, branch, pin, k)
        {
          if k != nf && k != fid {
            assert t'[k] == local[k];
          }
        }
      } else {
        assert l.revBegin == Some(pin + 1);
        assert forall k :: k in t' ==> EditedKey(local, t', server, branch, pin, k);
      }
      MirrorsAfterEdit(local, t', server, branch, pin);
    }
  }

  /** The delete trigger keeps a layer mirroring an unchanged server whose
      `child` links name rows of the server. */
  lemma DeleteKeepsMirrors(local: Table, server: Table, branch: string, pin: int, fid: Fid)
    requires Mirrors(local, server, branch, pin) && ChildrenExist(server, branch)
    ensures Mirrors(DeleteRow(local, branch, pin, fid), server, branch, pin)
  {
    var t' := DeleteRow(local, branch, pin, fid);
    if fid in HeadView(local, branch) {
      var l := LifeOf(local[fid], branch);
      if IsOld(l, pin) {
        assert !InDiff(l, pin);
        assert forall k :: k in t' ==> EditedKey(local, t', server, branch, pin, k);
      } else if l.revBegin == Some(pin + 1) {
        var f := ForgetChild(local, branch, fid);
        forall k | k in t'
          ensures EditedKey(local, t', server, branch, pin, k)
        {
          assert t'[k] == f[k];
        }
      }
      MirrorsAfterEdit(local, t', server, branch, pin);
    }
  }

  /** A loop over layers none of which has a local change publishes
      nothing, and it gets through when all pins share one revision and
      every layer's geometry column is known. */
  predicate GeometryKnown(db: Db, p: Pin, override: Option<string>)
  {
    p.schema in db.schemas && p.table in db.schemas[p.schema].layers &&
    PgGeom(db.schemas[p.schema].layers[p.table].geoms, override).Ok?
  }

  lemma {:induction false} CommitLayersOfNoDiff(st: Progress, todo: seq<Pin>, tables: map<string, Table>, msg: string,
                                               author: string, override: Option<string>, rev: int)
    requires forall p :: p in todo && p.table in tables ==> Diff(tables[p.table], p.branch, p.rev) == map[]
    ensures CommitLayers(st, todo, tables, msg, author, override).0.db == st.db
    ensures CommitLayers(st, todo, tables, msg, author, override).0.count == st.count
    ensures ((st.nextRev == 0 || st.nextRev == rev + 1) &&
             forall p :: p in todo ==> p.rev == rev && p.table in tables && GeometryKnown(st.db, p, override)) ==>
      CommitLayers(st, todo, tables, msg, author, override).1.None?
    decreases |todo|
  {
    if todo != [] {
      assert forall p :: p in todo[1..] ==> p in todo;
      var r := CommitLayer(st, todo[0], tables, msg, author, override);
      if r.Ok? {
        assert r.value.db == st.db && r.value.count == st.count;
        assert r.value.nextRev == (if st.nextRev != 0 then st.nextRev else todo[0].rev + 1);
        CommitLayersOfNoDiff(r.value, todo[1..], tables, msg, author, override, rev);
      }
    }
  }

  /** No layer of a fresh checkout has a local change. */
  lemma CheckoutHasNoDiff(db: Db, names: seq<string>)
    requires WrittenUpToLog(db)
    requires AfterCheckout(db, names, false).Ok?
    ensures var w := AfterCheckout(db, names, false).value;
      forall p :: p in w.pins ==> p.table in w.tables && Diff(w.tables[p.table], p.branch, p.rev) == map[]
  {
    var w := AfterCheckout(db, names, false).value;
    CheckoutCopiesServer(db, names, false);
    forall p | p in w.pins
      ensures p.table in w.tables && Diff(w.tables[p.table], p.branch, p.rev) == map[]
    {
      var i :| 0 <= i < |w.pins| && w.pins[i] == p;
      CheckoutMirrors(db, names, i);
    }
  }

  /** Committing right after a checkout publishes nothing: the server and
      the working copy stay as they are, and a commit that gets through
      reports 0 layers. It gets through when no
      layer is named like a conflict table with rows, all pins share one
      revision and every layer's geometry column is known. */
  lemma CheckoutThenCommit(db: Db, names: seq<string>, msg: string, author: string, override: Option<string>)
    requires WrittenUpToLog(db)
    requires AfterCheckout(db, names, false).Ok?
    ensures var w := AfterCheckout(db, names, false).value;
      var c := AfterCommit(db, w, msg, author, override);
      c.db == db && c.w == w && (c.result.Ok? ==> c.result.value == 0)
    ensures var w := AfterCheckout(db, names, false).value;
      (names != [] && Unresolved(w) == {} &&
       (forall i, j :: 0 <= i < j < |w.pins| ==> w.pins[i].rev == w.pins[j].rev) &&
       forall p :: p in w.pins ==> GeometryKnown(db, p, override)) ==>
      AfterCommit(db, w, msg, author, override).result == Ok(0)
  {
    var w := AfterCheckout(db, names, false).value;
    CheckoutHasNoDiff(db, names);
    var rev := if w.pins == [] then 0 else w.pins[0].rev;
    CommitLayersOfNoDiff(Progress(db, 0, 0), w.pins, w.tables, msg, author, override, rev);
    if names != [] {
      CheckoutIsNotLate(db, names, false);
      if forall i, j :: 0 <= i < j < |w.pins| ==> w.pins[i].rev == w.pins[j].rev {
        forall p | p in w.pins
          ensures p.rev == rev
        {
          var i :| 0 <= i < |w.pins| && w.pins[i] == p;
        }
      }
    }
  }
}
