/** Shared vocabulary of the versioning engine: optional values (SQL NULL),
    the errors the engine raises, and extrema and ordering over key sets. */
module Common {

  /** A nullable value: `None` stands for SQL NULL. */
  datatype Option<T> = None | Some(value: T)

  /** The outcome of an operation that returns a value or raises. */
  datatype Result<T> = Ok(value: T) | Err(error: Error)

  /** The outcome of an operation that returns nothing or raises. */
  datatype Outcome = Pass | Fail(error: Error)

  /** The conditions under which the engine raises (a `RuntimeError`, a failed
      `assert`, or a database error that aborts the operation). */
  datatype Error =
    | NoSchemaGiven
    | UnknownSchema
    | AlreadyVersioned
    | SchemaExists
    | BranchExists
    | BaseBranchMissing
    | BranchMissing
    | RevisionMissing
    | MalformedTableName
    | NotHeadSchema
    | MissingTable
    | DuplicateTable
    | FileExists
    | GeometryOverrideAbsent
    | GeometryAmbiguous
    | NegativeBump
    | KeyCollision
    | DuplicateConflictFid
    | ChildCycle
    | NullConflictId
    | UnresolvedConflicts(tables: set<string>)
    | LateBy(revisions: int)
    | NoVersionedLayer
    | MixedRevisions

  /** SQL `MAX` over a column: NULL on an empty set. */
  function MaxOrNull(s: set<int>): (r: Option<int>)
    ensures r.None? <==> s == {}
    ensures r.Some? ==> r.value in s && forall y :: y in s ==> y <= r.value
  {
    if s == {} then None else Some(MaxOf(s))
  }

  /** `COALESCE(MAX(...), 0)` and the engine's `max_x or 0` idiom. */
  function MaxOrZero(s: set<int>): (r: int)
    ensures s == {} ==> r == 0
    ensures s != {} ==> r in s && forall y :: y in s ==> y <= r
  {
    if s == {} then 0 else MaxOf(s)
  }

  /** A set other than the empty set has an element. */
  lemma NonEmpty<T>(s: set<T>)
    requires s != {}
    ensures exists x :: x in s
  {
    if forall x :: x !in s {
      assert false;
    }
  }

  /** Some element of a non-empty set. */
  lemma Pick<T>(s: set<T>) returns (x: T)
    requires s != {}
    ensures x in s
  {
    NonEmpty(s);
    x :| x in s;
  }

  /** An element of `s` is `x` or remains once `x` is removed. */
  lemma Removed(s: set<int>, x: int, y: int)
    ensures y in s ==> y == x || y in s - {x}
  {
  }

  lemma {:induction false} MaxExists(s: set<int>)
    requires s != {}
    ensures exists m :: m in s && forall y :: y in s ==> y <= m
  {
    var x := Pick(s);
    var rest := s - {x};
    if rest == {} {
      forall y | y in s
        ensures y <= x
      {
        Removed(s, x, y);
      }
    } else {
      MaxExists(rest);
      var m :| m in rest && forall y :: y in rest ==> y <= m;
      var top := if x > m then x else m;
      forall y | y in s
        ensures y <= top
      {
        if y != x {
          assert y in rest;
        }
      }
      assert top in s;
    }
  }

  lemma {:induction false} MinExists(s: set<int>)
    requires s != {}
    ensures exists m :: m in s && forall y :: y in s ==> m <= y
  {
    var x := Pick(s);
    var rest := s - {x};
    if rest == {} {
      forall y | y in s
        ensures x <= y
      {
        Removed(s, x, y);
      }
    } else {
      MinExists(rest);
      var m :| m in rest && forall y :: y in rest ==> m <= y;
      var bottom := if x < m then x else m;
      forall y | y in s
        ensures bottom <= y
      {
        if y != x {
          assert y in rest;
        }
      }
      assert bottom in s;
    }
  }

  /** The largest element of a non-empty set. */
  function MaxOf(s: set<int>): (m: int)
    requires s != {}
    ensures m in s && forall y :: y in s ==> y <= m
  {
    MaxExists(s);
    var m :| m in s && forall y :: y in s ==> y <= m;
    m
  }

  /** The smallest element of a non-empty set. */
  function MinOf(s: set<int>): (m: int)
    requires s != {}
    ensures m in s && forall y :: y in s ==> m <= y
  {
    MinExists(s);
    var m :| m in s && forall y :: y in s ==> m <= y;
    m
  }

  predicate StrictlyIncreasing(r: seq<int>)
  {
    forall i, j :: 0 <= i < j < |r| ==> r[i] < r[j]
  }

  /** The elements of a finite set in ascending order, the order in which
      the engine walks keys it fetched without an `ORDER BY` over a rowid table. */
  function Ascending(s: set<int>): (r: seq<int>)
    ensures forall x :: x in s <==> x in r
    ensures StrictlyIncreasing(r)
    ensures |r| == |s|
    decreases s
  {
    if s == {} then []
    else
      var m := MinOf(s);
      var rest := Ascending(s - {m});
      var r := [m] + rest;
      forall i, j | 0 <= i < j < |r|
        ensures r[i] < r[j]
      {
        assert r[j] == rest[j - 1];
        if i > 0 {
          assert r[i] == rest[i - 1];
        }
      }
      r
  }
}
