/** `git/status.rs`: status entries, their predicates, the status scan, and the
    two index operations behind the stage and unstage buttons. */
module GitStatus {
  import opened Backend

  /** The bits of `git2::Status` (an empty set is `Status::CURRENT`). */
  datatype StatusFlag =
    | IndexNew | IndexModified | IndexDeleted | IndexRenamed | IndexTypechange
    | WtNew | WtModified | WtDeleted | WtTypechange | WtRenamed | WtUnreadable
    | Ignored | Conflicted

  type Status = set<StatusFlag>

  const IndexFlags: set<StatusFlag> :=
    {IndexNew, IndexModified, IndexDeleted, IndexRenamed, IndexTypechange}
  const WorktreeFlags: set<StatusFlag> :=
    {WtNew, WtModified, WtDeleted, WtTypechange, WtRenamed, WtUnreadable}

  datatype StatusEntry = StatusEntry(path: string, status: Status)

  predicate IsNew(e: StatusEntry) { WtNew in e.status }

  predicate IsModified(e: StatusEntry) { WtModified in e.status }

  predicate IsDeleted(e: StatusEntry) { WtDeleted in e.status }

  predicate IsRenamed(e: StatusEntry) { WtRenamed in e.status }

  /** A change is staged when the index records it as new, modified, deleted or
      renamed; an index type change alone does not count. */
  predicate IsStaged(e: StatusEntry)
  {
    IndexNew in e.status || IndexModified in e.status
    || IndexDeleted in e.status || IndexRenamed in e.status
  }

  /** `is_new`, `is_modified`, `is_deleted` and `is_renamed` look only at the
      working tree, and `is_staged` only at the index. */
  lemma PredicatesSeeOneSide(e: StatusEntry, index: Status, worktree: Status)
    requires index <= IndexFlags && worktree <= WorktreeFlags
    ensures var wt := StatusEntry(e.path, (e.status - IndexFlags) + index);
            IsNew(wt) == IsNew(e) && IsModified(wt) == IsModified(e)
            && IsDeleted(wt) == IsDeleted(e) && IsRenamed(wt) == IsRenamed(e)
    ensures var ix := StatusEntry(e.path, (e.status - WorktreeFlags) + worktree);
            IsStaged(ix) == IsStaged(e)
    ensures IsStaged(StatusEntry(e.path, {IndexTypechange})) == false
  {
  }

  /** A `git2::StatusEntry`: its path is absent when it is not valid UTF-8. */
  datatype RawEntry = RawEntry(path: Option<string>, status: Status)

  /** The entries `get_status` builds, one per backend entry, in backend order. */
  function Entries(raws: seq<RawEntry>): (es: seq<StatusEntry>)
    ensures |es| == |raws|
  {
    seq(|raws|, k requires 0 <= k < |raws| => StatusEntry(raws[k].path.GetOr(""), raws[k].status))
  }

  /** `get_status`: `scan` is the outcome of `repo.statuses(...)`. */
  method GetStatus(scan: Result<seq<RawEntry>>) returns (r: Result<seq<StatusEntry>>)
    ensures scan.Err? ==> r == Err(scan.error)
    ensures scan.Ok? ==> r == Ok(Entries(scan.value))
    ensures scan.Ok? ==>
              forall k :: 0 <= k < |scan.value| ==>
                && r.value[k].status == scan.value[k].status
                && r.value[k].path == (if scan.value[k].path.Some? then scan.value[k].path.value else "")
  {
    var statuses :- scan;
    var result: seq<StatusEntry> := [];
    for i := 0 to |statuses|
      invariant result == Entries(statuses[..i])
    {
      var path := statuses[i].path.GetOr("");
      result := result + [StatusEntry(path, statuses[i].status)];
    }
    assert statuses[..|statuses|] == statuses;
    r := Ok(result);
  }

  /** `stage_file`: open the index, add the path, write the index back. */
  function StageFile(path: string, fails: Call -> Option<GitError>): (t: Trace)
    ensures t.outcome.Ok? <==>
              fails(OpenIndex).None? && fails(IndexAddPath(path)).None? && fails(IndexWrite).None?
    ensures IndexWrite in t.calls ==>
              t.calls == [OpenIndex, IndexAddPath(path), IndexWrite]
              && fails(OpenIndex).None? && fails(IndexAddPath(path)).None?
    ensures fails(OpenIndex).Some? ==> t == Trace([OpenIndex], Err(fails(OpenIndex).value))
  {
    var plan := [OpenIndex, IndexAddPath(path), IndexWrite];
    var t := Run(plan, fails);
    assert AllSucceed(plan, fails) <==>
             fails(plan[0]).None? && fails(plan[1]).None? && fails(plan[2]).None?;
    t
  }

  /** `unstage_file`: read HEAD, peel it to a commit, reset the path's index
      entry to it. */
  function UnstageFile(path: string, fails: Call -> Option<GitError>): (t: Trace)
    ensures t.outcome.Ok? <==>
              fails(ReadHead).None? && fails(PeelToCommit).None? && fails(ResetDefault([path])).None?
    ensures ResetDefault([path]) in t.calls ==>
              t.calls == [ReadHead, PeelToCommit, ResetDefault([path])]
              && fails(ReadHead).None? && fails(PeelToCommit).None?
    ensures fails(ReadHead).Some? || fails(PeelToCommit).Some? ==>
              t.outcome.Err? && ResetDefault([path]) !in t.calls
  {
    var plan := [ReadHead, PeelToCommit, ResetDefault([path])];
    var t := Run(plan, fails);
    assert AllSucceed(plan, fails) <==>
             fails(plan[0]).None? && fails(plan[1]).None? && fails(plan[2]).None?;
    t
  }
}
