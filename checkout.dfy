/** `checkout`: validate every `schema.table` name, then copy each table of
    the server into a new working copy and pin it. */
module Checkout {
  import opened Common
  import opened Names
  import opened Lifecycle
  import opened RevisionLog
  import opened Repository
  import opened WorkingState

  /** The first loop: every name must split into a `_rev_head` schema and a
      table; the first name that does not stops the checkout. On success
      the list holds each name split, in order. */
  function ParseNames(names: seq<string>): (r: Result<seq<(string, string)>>)
    ensures r.Ok? ==> |r.value| == |names|
    ensures r.Ok? ==> forall i :: 0 <= i < |names| ==> ParseTableName(names[i]) == Ok(r.value[i])
  {
    if names == [] then Ok([])
    else
      match ParseTableName(names[0])
      case Err(e) => Err(e)
      case Ok(st) =>
        match ParseNames(names[1..])
        case Err(e) => Err(e)
        case Ok(rest) =>
          assert forall i :: 1 <= i < |names| ==> names[i] == names[1..][i - 1];
          Ok([st] + rest)
  }

  /** A failure carries the error of the first name that does not split. */
  lemma {:induction false} ParseNamesStopsAtFirstBadName(names: seq<string>)
    ensures var r := ParseNames(names);
      r.Err? ==> exists i :: 0 <= i < |names| && FirstBadName(names, i) && ParseTableName(names[i]) == Err(r.error)
  {
    if names != [] {
      ParseNamesStopsAtFirstBadName(names[1..]);
      var rest := ParseNames(names[1..]);
      if ParseTableName(names[0]).Ok? {
        if rest.Err? {
          var i :| 0 <= i < |names[1..]| && FirstBadName(names[1..], i) && ParseTableName(names[1..][i]) == Err(rest.error);
          assert names[i + 1] == names[1..][i];
          forall j | 0 <= j < i + 1
            ensures ParseTableName(names[j]).Ok?
          {
            if j > 0 { assert names[j] == names[1..][j - 1]; }
          }
          assert FirstBadName(names, i + 1);
        }
      } else {
        assert FirstBadName(names, 0);
      }
    }
  }

  /** Name `i` is the first that does not split. */
  predicate FirstBadName(names: seq<string>, i: nat)
  {
    i < |names| && ParseTableName(names[i]).Err? &&
    forall j :: 0 <= j < i ==> ParseTableName(names[j]).Ok?
  }

  /** What the second loop needs of `headSchema.table`: a versioned schema
      with a non-empty log, the table among its layers, and the branch in
      its log. */
  predicate Pinnable(db: Db, headSchema: string, table: string)
  {
    var (schema, branch) := SplitHeadSchema(headSchema);
    Versioned(db, schema) && LogOf(db, schema) != [] && HasBranch(LogOf(db, schema), branch) &&
    table in db.schemas[schema].layers
  }

  /** The pin `checkout` records for `headSchema.table`: the global
      `MAX(rev)` of the schema's log, the branch from the schema name, and
      the largest key of the table (`or 0`). */
  predicate PinFor(db: Db, p: Pin, headSchema: string, table: string)
  {
    var (schema, branch) := SplitHeadSchema(headSchema);
    Pinnable(db, headSchema, table) &&
    p == Pin(MaxRev(LogOf(db, schema)), branch, schema, table, MaxOrZero(db.schemas[schema].layers[table].rows.Keys))
  }

  /** The tables already in the working copy. */
  function TableNames(pins: seq<Pin>): set<string>
  {
    if pins == [] then {} else TableNames(pins[..|pins| - 1]) + {pins[|pins| - 1].table}
  }

  /** Every pinned table is among the tables taken. */
  lemma {:induction false} TableNamesHas(pins: seq<Pin>, i: nat)
    requires i < |pins|
    ensures pins[i].table in TableNames(pins)
    decreases |pins|
  {
    if i < |pins| - 1 {
      TableNamesHas(pins[..|pins| - 1], i);
      assert pins[..|pins| - 1][i] == pins[i];
    }
  }

  /** One turn of the second loop. `MAX(rev)` fails on a missing log and
      `int(None)` on an empty one; the primary-key lookup fails on a missing
      table; the view `<table>_view` cannot be created twice, nor without
      the branch's columns. */
  function NamePin(db: Db, headSchema: string, table: string, taken: set<string>): (r: Result<Pin>)
    ensures r.Ok? ==> PinFor(db, r.value, headSchema, table) && table !in taken
    ensures r.Ok? <==> Pinnable(db, headSchema, table) && table !in taken
    ensures var (schema, branch) := SplitHeadSchema(headSchema);
      (r == Err(UnknownSchema) <==> !Versioned(db, schema)) &&
      (r == Err(RevisionMissing) <==> Versioned(db, schema) && LogOf(db, schema) == []) &&
      (r == Err(MissingTable) <==>
        Versioned(db, schema) && LogOf(db, schema) != [] && table !in db.schemas[schema].layers) &&
      (r == Err(DuplicateTable) <==>
        Versioned(db, schema) && LogOf(db, schema) != [] && table in db.schemas[schema].layers && table in taken) &&
      (r == Err(BranchMissing) <==>
        Versioned(db, schema) && LogOf(db, schema) != [] && table in db.schemas[schema].layers && table !in taken &&
        !HasBranch(LogOf(db, schema), branch))
  {
    var (schema, branch) := SplitHeadSchema(headSchema);
    if !Versioned(db, schema) then Err(UnknownSchema)
    else if LogOf(db, schema) == [] then Err(RevisionMissing)
    else if table !in db.schemas[schema].layers then Err(MissingTable)
    else if table in taken then Err(DuplicateTable)
    else if !HasBranch(LogOf(db, schema), branch) then Err(BranchMissing)
    else Ok(Pin(MaxRev(LogOf(db, schema)), branch, schema, table,
                MaxOrZero(db.schemas[schema].layers[table].rows.Keys)))
  }

  /** The second loop, over the parsed names, appending to `pins`. */
  function CheckoutPins(db: Db, pins: seq<Pin>, parsed: seq<(string, string)>): Result<seq<Pin>>
    decreases |parsed|
  {
    if parsed == [] then Ok(pins)
    else
      match NamePin(db, parsed[0].0, parsed[0].1, TableNames(pins))
      case Err(e) => Err(e)
      case Ok(p) => CheckoutPins(db, pins + [p], parsed[1..])
  }

  /** The copy of each pinned table: `ogr2ogr` transfers the whole server
      table, every branch's columns included. */
  function TablesOf(db: Db, pins: seq<Pin>): (r: map<string, Table>)
    ensures forall t :: t in r ==> t in TableNames(pins)
  {
    if pins == [] then map[]
    else
      var p := pins[|pins| - 1];
      var rest := TablesOf(db, pins[..|pins| - 1]);
      if Versioned(db, p.schema) && p.table in db.schemas[p.schema].layers
      then rest[p.table := db.schemas[p.schema].layers[p.table].rows]
      else rest
  }

  /** `checkout`: fails if the file exists, then on the first bad name,
      then table by table. */
  function AfterCheckout(db: Db, names: seq<string>, fileExists: bool): Result<Wc>
  {
    if fileExists then Err(FileExists)
    else
      match ParseNames(names)
      case Err(e) => Err(e)
      case Ok(parsed) =>
        match CheckoutPins(db, [], parsed)
        case Err(e) => Err(e)
        case Ok(pins) => Ok(Wc(pins, TablesOf(db, pins), map[]))
  }

  /** What a checkout of the parsed names needs: every name can be pinned
      and no table is named twice. */
  predicate CheckoutReady(db: Db, parsed: seq<(string, string)>)
  {
    (forall i :: 0 <= i < |parsed| ==> Pinnable(db, parsed[i].0, parsed[i].1)) &&
    (forall i, j :: 0 <= i < j < |parsed| ==> parsed[i].1 != parsed[j].1)
  }

  lemma TableNamesAppend(pins: seq<Pin>, p: Pin)
    ensures TableNames(pins + [p]) == TableNames(pins) + {p.table}
  {
    assert (pins + [p])[..|pins|] == pins;
  }

  /** None of the parsed names is a table in `taken`. */
  predicate FreshNames(parsed: seq<(string, string)>, taken: set<string>)
  {
    forall i :: 0 <= i < |parsed| ==> parsed[i].1 !in taken
  }

  /** Readiness of the names, split into the first name and the rest. */
  lemma ReadyStep(db: Db, parsed: seq<(string, string)>, taken: set<string>)
    requires parsed != []
    ensures CheckoutReady(db, parsed) && FreshNames(parsed, taken) <==>
      Pinnable(db, parsed[0].0, parsed[0].1) && parsed[0].1 !in taken &&
      CheckoutReady(db, parsed[1..]) && FreshNames(parsed[1..], taken + {parsed[0].1})
  {
    var rest := parsed[1..];
    assert forall i :: 1 <= i < |parsed| ==> parsed[i] == rest[i - 1];
    if Pinnable(db, parsed[0].0, parsed[0].1) && parsed[0].1 !in taken &&
       CheckoutReady(db, rest) && FreshNames(rest, taken + {parsed[0].1}) {
      forall i, j | 0 <= i < j < |parsed|
        ensures parsed[i].1 != parsed[j].1
      {
        assert parsed[j] == rest[j - 1];
        if i > 0 {
          assert parsed[i] == rest[i - 1];
        }
      }
    }
  }

  /** The second loop gets through exactly when the names left are ready
      and none names a table already taken. */
  lemma {:induction false} CheckoutPinsOk(db: Db, pins: seq<Pin>, parsed: seq<(string, string)>)
    ensures CheckoutPins(db, pins, parsed).Ok? <==> CheckoutReady(db, parsed) && FreshNames(parsed, TableNames(pins))
    decreases |parsed|
  {
    if parsed != [] {
      var np := NamePin(db, parsed[0].0, parsed[0].1, TableNames(pins));
      ReadyStep(db, parsed, TableNames(pins));
      if np.Ok? {
        CheckoutPinsOk(db, pins + [np.value], parsed[1..]);
        TableNamesAppend(pins, np.value);
      }
    }
  }

  /** `checkout` succeeds exactly when the file is new, every name splits,
      every name can be pinned and no table is named twice. */
  lemma CheckoutSucceeds(db: Db, names: seq<string>, fileExists: bool)
    ensures AfterCheckout(db, names, fileExists).Ok? <==>
      !fileExists && ParseNames(names).Ok? && CheckoutReady(db, ParseNames(names).value)
  {
    if !fileExists && ParseNames(names).Ok? {
      CheckoutPinsOk(db, [], ParseNames(names).value);
    }
  }

  /** The second loop appends one pin per name. */
  lemma {:induction false} CheckoutPinsShape(db: Db, pins: seq<Pin>, parsed: seq<(string, string)>)
    requires CheckoutPins(db, pins, parsed).Ok?
    ensures |CheckoutPins(db, pins, parsed).value| == |pins| + |parsed|
    ensures CheckoutPins(db, pins, parsed).value[..|pins|] == pins
    decreases |parsed|
  {
    if parsed != [] {
      var p := NamePin(db, parsed[0].0, parsed[0].1, TableNames(pins)).value;
      var pins' := pins + [p];
      CheckoutPinsShape(db, pins', parsed[1..]);
      var v := CheckoutPins(db, pins, parsed).value;
      assert v == CheckoutPins(db, pins', parsed[1..]).value;
      assert v[..|pins|] == v[..|pins'|][..|pins|];
    }
  }

  /** One turn of the second loop, unfolded. */
  lemma CheckoutPinsStep(db: Db, pins: seq<Pin>, parsed: seq<(string, string)>)
    requires CheckoutPins(db, pins, parsed).Ok? && parsed != []
    ensures NamePin(db, parsed[0].0, parsed[0].1, TableNames(pins)).Ok?
    ensures CheckoutPins(db, pins, parsed) ==
      CheckoutPins(db, pins + [NamePin(db, parsed[0].0, parsed[0].1, TableNames(pins)).value], parsed[1..])
  {
  }

  /** One turn of the second loop, unfolded: a name that cannot be pinned
      ends it, otherwise its pin is appended. */
  lemma CheckoutPinsTurn(db: Db, pins: seq<Pin>, parsed: seq<(string, string)>, np: Result<Pin>)
    requires parsed != [] && np == NamePin(db, parsed[0].0, parsed[0].1, TableNames(pins))
    ensures np.Err? ==> CheckoutPins(db, pins, parsed) == Err(np.error)
    ensures np.Ok? ==> CheckoutPins(db, pins, parsed) == CheckoutPins(db, pins + [np.value], parsed[1..])
  {
  }

  /** The first name's pin follows the pins already there. */
  lemma CheckoutFirstPin(db: Db, pins: seq<Pin>, parsed: seq<(string, string)>, v: seq<Pin>)
    requires CheckoutPins(db, pins, parsed) == Ok(v) && parsed != []
    ensures |v| == |pins| + |parsed| && v[..|pins|] == pins
    ensures NamePin(db, parsed[0].0, parsed[0].1, TableNames(pins)) == Ok(v[|pins|])
  {
    CheckoutPinsStep(db, pins, parsed);
    var p := NamePin(db, parsed[0].0, parsed[0].1, TableNames(pins)).value;
    var pins' := pins + [p];
    CheckoutPinsShape(db, pins', parsed[1..]);
    assert v[..|pins|] == v[..|pins'|][..|pins|];
    assert v[|pins|] == v[..|pins'|][|pins|];
  }

  /** The `n`-th pin of `v` is what the turn for `name` computes against
      the tables of the pins before it. */
  predicate PinnedIn(db: Db, v: seq<Pin>, n: nat, name: (string, string))
  {
    n < |v| && NamePin(db, name.0, name.1, TableNames(v[..n])) == Ok(v[n])
  }

  /** What the `j`-th turn computes, stated over the whole result `v`. */
  predicate PinnedAt(db: Db, pins: seq<Pin>, parsed: seq<(string, string)>, v: seq<Pin>, j: nat)
    requires j < |parsed|
  {
    |v| == |pins| + |parsed| && PinnedIn(db, v, |pins| + j, parsed[j])
  }

  /** The `j`-th turn after the first is the `j - 1`-th of the rest. */
  lemma PinnedLater(db: Db, pins: seq<Pin>, pins': seq<Pin>, parsed: seq<(string, string)>, v: seq<Pin>, j: nat)
    requires 0 < j < |parsed| && |pins'| == |pins| + 1
    requires PinnedAt(db, pins', parsed[1..], v, j - 1)
    ensures PinnedAt(db, pins, parsed, v, j)
  {
    assert parsed[j] == parsed[1..][j - 1];
  }

  /** The pin of the `j`-th name is the one its turn computes against the
      tables taken by the pins before it. */
  lemma {:induction false} CheckoutPinAt(db: Db, pins: seq<Pin>, parsed: seq<(string, string)>, j: nat)
    requires CheckoutPins(db, pins, parsed).Ok? && j < |parsed|
    ensures PinnedAt(db, pins, parsed, CheckoutPins(db, pins, parsed).value, j)
    decreases |parsed|
  {
    var v := CheckoutPins(db, pins, parsed).value;
    if j == 0 {
      CheckoutFirstPin(db, pins, parsed, v);
    } else {
      CheckoutPinsStep(db, pins, parsed);
      var pins' := pins + [NamePin(db, parsed[0].0, parsed[0].1, TableNames(pins)).value];
      CheckoutPinAt(db, pins', parsed[1..], j - 1);
      PinnedLater(db, pins, pins', parsed, v, j);
    }
  }

  /** The copied tables are the pinned ones, each the server's table. */
  lemma {:induction false} TablesOfPins(db: Db, pins: seq<Pin>, i: nat)
    requires i < |pins|
    requires Versioned(db, pins[i].schema) && pins[i].table in db.schemas[pins[i].schema].layers
    requires forall j :: i < j < |pins| ==> pins[j].table != pins[i].table
    ensures pins[i].table in TablesOf(db, pins)
    ensures TablesOf(db, pins)[pins[i].table] == db.schemas[pins[i].schema].layers[pins[i].table].rows
    decreases |pins|
  {
    if i < |pins| - 1 {
      TablesOfPins(db, pins[..|pins| - 1], i);
    }
  }

  /** The `j`-th pin names a table no earlier pin names. */
  lemma CheckoutPinIsNew(db: Db, parsed: seq<(string, string)>, i: nat, j: nat)
    requires CheckoutPins(db, [], parsed).Ok? && i < j < |parsed|
    ensures |CheckoutPins(db, [], parsed).value| == |parsed|
    ensures CheckoutPins(db, [], parsed).value[i].table != CheckoutPins(db, [], parsed).value[j].table
  {
    CheckoutPinAt(db, [], parsed, j);
    var v := CheckoutPins(db, [], parsed).value;
    assert v[..j][i] == v[i];
    TableNamesHas(v[..j], i);
  }

  /** The `i`-th pin is the one `checkout` records for the `i`-th name. */
  lemma CheckoutPinIsFor(db: Db, parsed: seq<(string, string)>, i: nat)
    requires CheckoutPins(db, [], parsed).Ok? && i < |parsed|
    ensures |CheckoutPins(db, [], parsed).value| == |parsed|
    ensures PinFor(db, CheckoutPins(db, [], parsed).value[i], parsed[i].0, parsed[i].1)
  {
    CheckoutPinAt(db, [], parsed, i);
  }

  /** The `i`-th pin's table is copied whole from the server. */
  lemma CheckoutCopiesTable(db: Db, parsed: seq<(string, string)>, i: nat)
    requires CheckoutPins(db, [], parsed).Ok? && i < |parsed|
    ensures |CheckoutPins(db, [], parsed).value| == |parsed|
    ensures var pins := CheckoutPins(db, [], parsed).value;
      var p := pins[i];
      Versioned(db, p.schema) && p.table in db.schemas[p.schema].layers &&
      p.table in TablesOf(db, pins) && TablesOf(db, pins)[p.table] == db.schemas[p.schema].layers[p.table].rows
  {
    CheckoutPinIsFor(db, parsed, i);
    var pins := CheckoutPins(db, [], parsed).value;
    forall j | i < j < |pins|
      ensures pins[j].table != pins[i].table
    {
      CheckoutPinIsNew(db, parsed, i, j);
    }
    TablesOfPins(db, pins, i);
  }

  /** A checkout copies each named table whole: one pin per name in order,
      at the schema's newest revision, with the server's largest key, and no
      table named twice. */
  lemma CheckoutCopiesServer(db: Db, names: seq<string>, fileExists: bool)
    ensures fileExists ==> AfterCheckout(db, names, fileExists) == Err(FileExists)
    ensures var r := AfterCheckout(db, names, fileExists);
      r.Ok? ==>
        |r.value.pins| == |names| && r.value.conflicts == map[] &&
        (forall i, j :: 0 <= i < j < |names| ==> r.value.pins[i].table != r.value.pins[j].table) &&
        forall i :: 0 <= i < |names| ==>
          var p := r.value.pins[i];
          ParseTableName(names[i]).Ok? &&
          var (headSchema, table) := ParseTableName(names[i]).value;
          PinFor(db, p, headSchema, table) &&
          p.table in r.value.tables && r.value.tables[p.table] == db.schemas[p.schema].layers[p.table].rows
  {
    var r := AfterCheckout(db, names, fileExists);
    if r.Ok? {
      var parsed := ParseNames(names).value;
      var pins := r.value.pins;
      assert pins == CheckoutPins(db, [], parsed).value;
      CheckoutPinsShape(db, [], parsed);
      forall i, j | 0 <= i < j < |names|
        ensures pins[i].table != pins[j].table
      {
        CheckoutPinIsNew(db, parsed, i, j);
      }
      forall i | 0 <= i < |names|
        ensures var p := pins[i];
          PinFor(db, p, parsed[i].0, parsed[i].1) &&
          p.table in r.value.tables && r.value.tables[p.table] == db.schemas[p.schema].layers[p.table].rows
      {
        CheckoutPinIsFor(db, parsed, i);
        CheckoutCopiesTable(db, parsed, i);
      }
    }
  }

  /** A fresh checkout is never late: each pin is the schema's newest
      revision, at or above its branch's head. */
  lemma CheckoutIsNotLate(db: Db, names: seq<string>, fileExists: bool)
    requires AfterCheckout(db, names, fileExists).Ok? && names != []
    ensures Late(AfterCheckout(db, names, fileExists).value.pins, db) == Ok(0)
  {
    CheckoutCopiesServer(db, names, fileExists);
    var pins := AfterCheckout(db, names, fileExists).value.pins;
    forall i | 0 <= i < |pins|
      ensures Tracked(pins[i], db) && Lag(pins[i], db) <= 0
    {
      var (headSchema, table) := ParseTableName(names[i]).value;
      assert PinFor(db, pins[i], headSchema, table);
      var h := BranchHead(LogOf(db, pins[i].schema), pins[i].branch);
      assert h.Some?;
    }
    LateZeroIffUpToDate(pins, db);
  }
}
