/** The `revisions` table of a versioned schema: one numbering shared by all
    branches, each revision recording the branch it belongs to. */
module RevisionLog {
  import opened Common

  /** A row of `revisions`. The timestamp column is not modelled; `author`
      is NULL for the revision that creates a branch. */
  datatype Revision = Revision(rev: int, branch: string, msg: string, author: Option<string>)

  /** The table in insertion order. */
  type Log = seq<Revision>

  function Revs(log: Log): (s: set<int>)
    ensures forall i :: 0 <= i < |log| ==> log[i].rev in s
    ensures forall r :: r in s ==> exists i :: 0 <= i < |log| && log[i].rev == r
  {
    set i | 0 <= i < |log| :: log[i].rev
  }

  /** `SELECT MAX(rev) FROM revisions`, read with `or 0` for an empty log. */
  function MaxRev(log: Log): (m: int)
    ensures log == [] ==> m == 0
    ensures forall i :: 0 <= i < |log| ==> log[i].rev <= m
    ensures log != [] ==> m in Revs(log)
  {
    if log == [] then 0
    else
      assert log[0].rev in Revs(log);
      MaxOf(Revs(log))
  }

  /** `SELECT * FROM revisions WHERE branch = ...` returns a row. */
  predicate HasBranch(log: Log, branch: string)
  {
    exists i :: 0 <= i < |log| && log[i].branch == branch
  }

  /** `pg_branches`: `SELECT DISTINCT branch FROM revisions`. */
  function Branches(log: Log): (s: set<string>)
    ensures forall b :: b in s <==> HasBranch(log, b)
  {
    set i | 0 <= i < |log| :: log[i].branch
  }

  function BranchRevs(log: Log, branch: string): (s: set<int>)
    ensures forall i :: 0 <= i < |log| && log[i].branch == branch ==> log[i].rev in s
    ensures forall r :: r in s ==> exists i :: 0 <= i < |log| && log[i].branch == branch && log[i].rev == r
  {
    set i | 0 <= i < |log| && log[i].branch == branch :: log[i].rev
  }

  /** `SELECT MAX(rev) FROM revisions WHERE branch = ...`: the head revision
      of a branch, NULL when the branch has no revision. */
  function BranchHead(log: Log, branch: string): (h: Option<int>)
    ensures h.None? <==> !HasBranch(log, branch)
    ensures h.Some? ==> h.value in BranchRevs(log, branch) && h.value <= MaxRev(log)
    ensures h.Some? ==> forall i :: 0 <= i < |log| && log[i].branch == branch ==> log[i].rev <= h.value
  {
    BranchRevsEmpty(log, branch);
    MaxOrNull(BranchRevs(log, branch))
  }

  lemma BranchRevsEmpty(log: Log, branch: string)
    ensures BranchRevs(log, branch) == {} <==> !HasBranch(log, branch)
  {
    var s := BranchRevs(log, branch);
    if s != {} {
      NonEmpty(s);
    }
  }

  /** Appending a revision adds its number to its own branch only. */
  lemma BranchRevsAppend(log: Log, r: Revision, branch: string)
    ensures BranchRevs(log + [r], branch) ==
      BranchRevs(log, branch) + (if r.branch == branch then {r.rev} else {})
  {
    var log' := log + [r];
    forall x | x in BranchRevs(log', branch)
      ensures x in BranchRevs(log, branch) + (if r.branch == branch then {r.rev} else {})
    {
      var i :| 0 <= i < |log'| && log'[i].branch == branch && log'[i].rev == x;
      if i < |log| {
        assert log[i] == log'[i];
      }
    }
    forall x | x in BranchRevs(log, branch)
      ensures x in BranchRevs(log', branch)
    {
      var i :| 0 <= i < |log| && log[i].branch == branch && log[i].rev == x;
      assert log'[i] == log[i];
    }
    if r.branch == branch {
      assert log'[|log|] == r;
    }
  }

  /** The checks of `add_branch`, in their order, and the number it gives
      the new branch's first revision. `baseRev` is `None` for `'head'`. */
  function CheckNewBranch(log: Log, branch: string, baseBranch: string, baseRev: Option<int>): (r: Result<int>)
    ensures r == Err(BranchExists) <==> HasBranch(log, branch)
    ensures r == Err(BaseBranchMissing) <==>
      !HasBranch(log, branch) && branch != "trunk" && !HasBranch(log, baseBranch)
    ensures r == Err(RevisionMissing) <==>
      !HasBranch(log, branch) && (branch == "trunk" || HasBranch(log, baseBranch)) &&
      baseRev.Some? && (baseRev.value > MaxRev(log) || baseRev.value <= 0)
    ensures r.Ok? ==> r.value == MaxRev(log) + 1 && r.value !in Revs(log)
  {
    if HasBranch(log, branch) then Err(BranchExists)
    else if branch != "trunk" && !HasBranch(log, baseBranch) then Err(BaseBranchMissing)
    else if baseRev.Some? && (baseRev.value > MaxRev(log) || baseRev.value <= 0) then Err(RevisionMissing)
    else
      assert log != [] ==> log[0].rev in Revs(log);
      Ok(MaxRev(log) + 1)
  }

  /** The revision `add_branch` logs. */
  function BranchRevision(rev: int, branch: string, msg: string): Revision
  {
    Revision(rev, branch, msg, None)
  }

  /** Commit's allocation: revision `rev` is inserted only if absent. */
  function Allocate(log: Log, rev: int, branch: string, msg: string, author: string): (log': Log)
    ensures rev in Revs(log) ==> log' == log
    ensures rev !in Revs(log) ==> log' == log + [Revision(rev, branch, msg, Some(author))]
    ensures rev in Revs(log')
  {
    if rev in Revs(log) then log
    else
      var log' := log + [Revision(rev, branch, msg, Some(author))];
      assert log'[|log|].rev == rev;
      log'
  }

  /** Recording a revision above every logged one appends it, and it
      becomes its branch's head and the log's maximum. */
  lemma AllocateNewest(log: Log, rev: int, branch: string, msg: string, author: string)
    requires MaxRev(log) < rev
    ensures Allocate(log, rev, branch, msg, author) == log + [Revision(rev, branch, msg, Some(author))]
    ensures BranchHead(Allocate(log, rev, branch, msg, author), branch) == Some(rev)
    ensures MaxRev(Allocate(log, rev, branch, msg, author)) == rev
  {
    var r := Revision(rev, branch, msg, Some(author));
    var log' := log + [r];
    assert rev !in Revs(log);
    assert log'[|log|] == r;
    forall i | 0 <= i < |log'|
      ensures log'[i].rev <= rev
    {
      if i < |log| {
        assert log'[i] == log[i];
      }
    }
    assert HasBranch(log', branch);
  }

  /** Allocating the same revision twice logs it once. */
  lemma AllocateOnce(log: Log, rev: int, b1: string, m1: string, a1: string,
                     b2: string, m2: string, a2: string)
    ensures Allocate(Allocate(log, rev, b1, m1, a1), rev, b2, m2, a2) == Allocate(log, rev, b1, m1, a1)
    ensures |Allocate(log, rev, b1, m1, a1)| <= |log| + 1
  {
  }

  /** The numbers of the log are `1, 2, 3, ...` in insertion order. */
  predicate Sequential(log: Log)
  {
    forall i :: 0 <= i < |log| ==> log[i].rev == i + 1
  }

  lemma SequentialRevs(log: Log)
    requires Sequential(log)
    ensures MaxRev(log) == |log|
    ensures forall r :: r in Revs(log) <==> 1 <= r <= |log|
  {
    if log != [] {
      assert log[|log| - 1].rev == |log|;
    }
    forall r | 1 <= r <= |log|
      ensures r in Revs(log)
    {
      assert log[r - 1].rev == r;
    }
  }

  /** `add_branch` keeps the numbering gap-free. */
  lemma AddBranchKeepsSequential(log: Log, branch: string, baseBranch: string,
                                 baseRev: Option<int>, msg: string)
    requires Sequential(log)
    requires CheckNewBranch(log, branch, baseBranch, baseRev).Ok?
    ensures Sequential(log + [BranchRevision(CheckNewBranch(log, branch, baseBranch, baseRev).value, branch, msg)])
  {
    SequentialRevs(log);
  }

  /** Commit keeps the numbering gap-free when its pin is a revision number
      of the log (or 0 on an empty log): `pin+1` is either already there or
      the next number. */
  lemma AllocateKeepsSequential(log: Log, pin: int, branch: string, msg: string, author: string)
    requires Sequential(log)
    requires 0 <= pin <= MaxRev(log)
    ensures Sequential(Allocate(log, pin + 1, branch, msg, author))
    ensures MaxRev(Allocate(log, pin + 1, branch, msg, author)) == if pin == MaxRev(log) then pin + 1 else MaxRev(log)
  {
    SequentialRevs(log);
    var log' := Allocate(log, pin + 1, branch, msg, author);
    if pin + 1 !in Revs(log) {
      assert pin == |log|;
      assert Sequential(log');
      SequentialRevs(log');
    }
  }
}
