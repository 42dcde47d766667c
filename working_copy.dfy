/** A SpatiaLite working copy as the object the engine changes in place:
    its `initial_revision` pins, its tables and its conflict tables. The
    edit triggers, `update`, `commit`, conflict resolution, `late` and
    `revision` are methods whose loops follow the source's; each is proved
    to compute the function of the module that specifies it. */
module WorkingCopies {
  import opened Common
  import opened Lifecycle
  import opened RevisionLog
  import opened Repository
  import opened Conflicts
  import opened Edits
  import opened WorkingState
  import opened Checkout
  import opened Update
  import opened Commit

  class WorkingCopy {
    var pins: seq<Pin>
    var tables: map<string, Table>
    var conflicts: map<string, ConflictTable>

    function State(): Wc
      reads this
    {
      Wc(pins, tables, conflicts)
    }

    constructor (w: Wc)
      ensures State() == w
    {
      pins := w.pins;
      tables := w.tables;
      conflicts := w.conflicts;
    }

    /** The layer's view is there when the table was checked out; its
        triggers read the table's pin. */
    predicate Editable(table: string)
      reads this
    {
      table in tables && PinOf(pins, table).Some?
    }

    /** `INSERT` into a layer's view: the insert trigger. */
    method Insert(table: string, attrs: seq<string>) returns (out: Outcome)
      modifies this
      ensures old(Editable(table)) ==>
        var p := PinOf(old(pins), table).value;
        out == Pass &&
        State() == old(State()).(tables := old(tables)[table := InsertRow(old(tables)[table], p.branch, p.rev, p.maxPk, attrs)])
      ensures !old(Editable(table)) ==> out == Fail(MissingTable) && State() == old(State())
    {
      if !Editable(table) {
        return Fail(MissingTable);
      }
      var p := PinOf(pins, table).value;
      tables := tables[table := InsertRow(tables[table], p.branch, p.rev, p.maxPk, attrs)];
      return Pass;
    }

    /** `UPDATE` of a row of a layer's view: the update trigger. */
    method Update(table: string, fid: Fid, attrs: seq<string>) returns (out: Outcome)
      modifies this
      ensures old(Editable(table)) ==>
        var p := PinOf(old(pins), table).value;
        out == Pass &&
        State() == old(State()).(tables := old(tables)[table := UpdateRow(old(tables)[table], p.branch, p.rev, p.maxPk, fid, attrs)])
      ensures !old(Editable(table)) ==> out == Fail(MissingTable) && State() == old(State())
    {
      if !Editable(table) {
        return Fail(MissingTable);
      }
      var p := PinOf(pins, table).value;
      tables := tables[table := UpdateRow(tables[table], p.branch, p.rev, p.maxPk, fid, attrs)];
      return Pass;
    }

    /** `DELETE` of a row of a layer's view: the delete trigger, as
        corrected. */
    method Delete(table: string, fid: Fid) returns (out: Outcome)
      modifies this
      ensures old(Editable(table)) ==>
        var p := PinOf(old(pins), table).value;
        out == Pass &&
        State() == old(State()).(tables := old(tables)[table := DeleteRow(old(tables)[table], p.branch, p.rev, fid)])
      ensures !old(Editable(table)) ==> out == Fail(MissingTable) && State() == old(State())
    {
      if !Editable(table) {
        return Fail(MissingTable);
      }
      var p := PinOf(pins, table).value;
      tables := tables[table := DeleteRow(tables[table], p.branch, p.rev, fid)];
      return Pass;
    }

    /** `DELETE` of entry `fid` from a layer's conflict table: the trigger
        of the conflict table keeps one side and drops the conflict. */
    method ResolveConflict(table: string, fid: Fid) returns (out: Outcome)
      modifies this
      ensures old(table in conflicts && Editable(table)) ==>
        var (local', ct') := Resolve(old(tables)[table], old(conflicts)[table], PinOf(old(pins), table).value.branch, fid);
        out == Pass &&
        State() == old(State()).(tables := old(tables)[table := local'], conflicts := old(conflicts)[table := ct'])
      ensures !old(table in conflicts && Editable(table)) ==> out == Fail(MissingTable) && State() == old(State())
    {
      if table !in conflicts || !Editable(table) {
        return Fail(MissingTable);
      }
      var branch := PinOf(pins, table).value.branch;
      var (local', ct') := Resolve(tables[table], conflicts[table], branch, fid);
      tables := tables[table := local'];
      conflicts := conflicts[table := ct'];
      return Pass;
    }

    /** `late`: the loop over the pins, largest lag first found. */
    method Late(server: Server) returns (r: Result<int>)
      ensures r == WorkingState.Late(pins, server.State())
    {
      var db := server.State();
      if pins == [] {
        return Err(NoVersionedLayer);
      }
      var lateBy := 0;
      var i := 0;
      while i < |pins|
        invariant 0 <= i <= |pins|
        invariant LateFrom(pins, db, 0) == LateFrom(pins[i..], db, lateBy)
      {
        assert pins[i..][0] == pins[i] && pins[i..][1..] == pins[i + 1..];
        var p := pins[i];
        if !Versioned(db, p.schema) {
          return Err(UnknownSchema);
        }
        var head := BranchHead(LogOf(db, p.schema), p.branch);
        if head.None? {
          return Err(BranchMissing);
        }
        var lag := head.value - p.rev;
        lateBy := if lag > lateBy then lag else lateBy;
        i := i + 1;
      }
      return Ok(lateBy);
    }

    /** `revision`: the loop keeps the first non-zero `rev` and asserts
        every later one equals it. */
    method Revision() returns (r: Result<int>)
      ensures r == RevisionOf(pins)
    {
      var revs := PinRevs(pins);
      var rev := 0;
      var i := 0;
      while i < |pins|
        invariant 0 <= i <= |pins|
        invariant CommonRev(revs, 0) == CommonRev(revs[i..], rev)
      {
        assert revs[i..][0] == pins[i].rev && revs[i..][1..] == revs[i + 1..];
        var res := pins[i].rev;
        if rev != 0 {
          if res != rev {
            return Err(MixedRevisions);
          }
        } else {
          rev := res;
        }
        i := i + 1;
      }
      return Ok(rev + 1);
    }

    /** `update`: refused while a conflict is pending; otherwise each
        layer in turn, the working copy replaced only once all succeed. */
    method UpdateFrom(server: Server, override: Option<string>) returns (out: Outcome)
      modifies this
      ensures var r := AfterUpdate(server.State(), old(State()), override);
        (r.Ok? ==> out == Pass && State() == r.value) &&
        (r.Err? ==> out == Fail(r.error) && State() == old(State()))
    {
      var unresolved := Unresolved(State());
      if unresolved != {} {
        return Fail(UnresolvedConflicts(unresolved));
      }
      var r := UpdateEachLayer(server.State(), State(), override);
      if r.Err? {
        return Fail(r.error);
      }
      pins, tables, conflicts := r.value.pins, r.value.tables, r.value.conflicts;
      return Pass;
    }

    /** `commit`: the gates, then the layer loop, which publishes on the
        server as it goes, then the loop that re-pins every layer. */
    method Commit(server: Server, msg: string, author: string, override: Option<string>) returns (out: Result<nat>)
      modifies this, server
      ensures var c := AfterCommit(old(server.State()), old(State()), msg, author, override);
        server.State() == c.db && State() == c.w && out == c.result
    {
      var unresolved := Unresolved(State());
      if unresolved != {} {
        return Err(UnresolvedConflicts(unresolved));
      }
      var lateBy := Late(server);
      if lateBy.Err? {
        return Err(lateBy.error);
      }
      if lateBy.value != 0 {
        return Err(LateBy(lateBy.value));
      }
      var st, err := PublishEachLayer(server, State(), msg, author, override);
      if err.Some? {
        return Err(err.value);
      }
      if st.count == 0 {
        return Ok(0);
      }
      var repinned := RepinEachLayer(st.db, pins);
      if repinned.Err? {
        return Err(repinned.error);
      }
      pins := repinned.value;
      return Ok(st.count);
    }
  }

  /** The loop of `update` over the pins read at its start, on a copy of
      the working copy's state. */
  method UpdateEachLayer(db: Db, w0: Wc, override: Option<string>) returns (r: Result<Wc>)
    ensures r == UpdateLayers(db, w0, w0.pins, override)
  {
    var w := w0;
    var i := 0;
    while i < |w0.pins|
      invariant 0 <= i <= |w0.pins|
      invariant UpdateLayers(db, w0, w0.pins, override) == UpdateLayers(db, w, w0.pins[i..], override)
    {
      assert w0.pins[i..][0] == w0.pins[i] && w0.pins[i..][1..] == w0.pins[i + 1..];
      var step := UpdateStep(db, w, w0.pins[i], override);
      UpdateLayersTurn(db, w, w0.pins[i..], override, step);
      if step.Err? {
        return Err(step.error);
      }
      w := step.value;
      i := i + 1;
    }
    return Ok(w);
  }

  /** The layer loop of `commit`: each layer's diff is published on the
      server in its own transaction, so a failing layer leaves the earlier
      ones in place. */
  method PublishEachLayer(server: Server, w0: Wc, msg: string, author: string, override: Option<string>)
    returns (st: Progress, err: Option<Error>)
    modifies server
    ensures (st, err) == CommitLayers(Progress(old(server.State()), 0, 0), w0.pins, w0.tables, msg, author, override)
    ensures server.State() == st.db
  {
    st := Progress(server.State(), 0, 0);
    var i := 0;
    while i < |w0.pins|
      invariant 0 <= i <= |w0.pins|
      invariant server.State() == st.db
      invariant CommitLayers(Progress(old(server.State()), 0, 0), w0.pins, w0.tables, msg, author, override) ==
        CommitLayers(st, w0.pins[i..], w0.tables, msg, author, override)
    {
      assert w0.pins[i..][0] == w0.pins[i] && w0.pins[i..][1..] == w0.pins[i + 1..];
      var turn := CommitLayer(st, w0.pins[i], w0.tables, msg, author, override);
      if turn.Err? {
        return st, Some(turn.error);
      }
      st := turn.value;
      server.schemas, server.viewSchemas := st.db.schemas, st.db.viewSchemas;
      i := i + 1;
    }
    return st, None;
  }

  /** The final loop of `commit`: every layer re-pinned at its schema's
      newest revision and its table's largest key. */
  method RepinEachLayer(db: Db, pins: seq<Pin>) returns (r: Result<seq<Pin>>)
    ensures r == RepinAll(db, pins, pins)
  {
    var repinned := pins;
    var j := 0;
    while j < |pins|
      invariant 0 <= j <= |pins|
      invariant RepinAll(db, pins, pins) == RepinAll(db, repinned, pins[j..])
    {
      assert pins[j..][0] == pins[j] && pins[j..][1..] == pins[j + 1..];
      var q := pins[j];
      if q.schema !in db.schemas || q.table !in db.schemas[q.schema].layers {
        return Err(MissingTable);
      }
      if !Versioned(db, q.schema) {
        return Err(UnknownSchema);
      }
      if LogOf(db, q.schema) == [] {
        return Err(RevisionMissing);
      }
      repinned := RepinLayer(db, repinned, q);
      j := j + 1;
    }
    return Ok(repinned);
  }

  /** `checkout`: a new working copy with one pin per name, each pinned
      table copied from the server. */
  method CheckoutWorkingCopy(server: Server, names: seq<string>, fileExists: bool) returns (r: Result<WorkingCopy>)
    ensures var c := AfterCheckout(server.State(), names, fileExists);
      (r.Ok? <==> c.Ok?) &&
      (r.Ok? ==> fresh(r.value) && r.value.State() == c.value) &&
      (r.Err? ==> r.error == c.error)
  {
    var db := server.State();
    if fileExists {
      return Err(FileExists);
    }
    var parsed := ParseNames(names);
    if parsed.Err? {
      return Err(parsed.error);
    }
    var pins := PinEachName(db, parsed.value);
    if pins.Err? {
      return Err(pins.error);
    }
    var wc := new WorkingCopy(Wc(pins.value, TablesOf(db, pins.value), map[]));
    return Ok(wc);
  }

  /** The second loop of `checkout`: one pin per parsed name, in order. */
  method PinEachName(db: Db, parsed: seq<(string, string)>) returns (r: Result<seq<Pin>>)
    ensures r == CheckoutPins(db, [], parsed)
  {
    var pins: seq<Pin> := [];
    var i := 0;
    while i < |parsed|
      invariant 0 <= i <= |parsed|
      invariant CheckoutPins(db, [], parsed) == CheckoutPins(db, pins, parsed[i..])
    {
      assert parsed[i..][0] == parsed[i] && parsed[i..][1..] == parsed[i + 1..];
      var pin := NamePin(db, parsed[i].0, parsed[i].1, TableNames(pins));
      CheckoutPinsTurn(db, pins, parsed[i..], pin);
      if pin.Err? {
        return Err(pin.error);
      }
      pins := pins + [pin.value];
      i := i + 1;
    }
    return Ok(pins);
  }
}
