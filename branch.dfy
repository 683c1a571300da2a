/** `git/branch.rs`: branches as the listing reports them, the current branch,
    and checking a branch out. */
module GitBranch {
  import opened Backend

  /** A `git2::Branch` as the model sees it: `name()` may fail or be absent (a
      name that is not UTF-8), and `is_head()` says whether HEAD points to it. */
  datatype Branch = Branch(name: Result<Option<string>>, head: bool)

  predicate IsHead(b: Branch) { b.head }

  predicate IsCurrent(b: Branch) { b.head }

  predicate IsCheckedOut(b: Branch) { b.head }

  /** The three wrappers all ask libgit2's `is_head`. */
  lemma HeadPredicatesAgree(b: Branch)
    ensures IsHead(b) == IsCurrent(b) == IsCheckedOut(b)
  {
  }

  /** `get_branches`: `listing` is the outcome of `repo.branches(filter)`; items
      that failed to load are dropped, the rest kept in backend order. */
  method GetBranches(listing: Result<seq<Result<Branch>>>) returns (r: Result<seq<Branch>>)
    ensures listing.Err? ==> r == Err(listing.error)
    ensures listing.Ok? ==> r == Ok(Oks(listing.value))
    ensures listing.Ok? ==> |r.value| == |listing.value| - ErrCount(listing.value)
  {
    var items :- listing;
    var result: seq<Branch> := [];
    for i := 0 to |items|
      invariant result == Oks(items[..i])
    {
      assert items[..i + 1] == items[..i] + [items[i]];
      if items[i].Ok? {
        result := result + [items[i].value];
      }
    }
    assert items[..|items|] == items;
    r := Ok(result);
  }

  /** A `git2::Reference`, known by its full name. */
  datatype Reference = Reference(name: string)

  const BranchPrefix: string := "refs/heads/"

  /** `Reference::is_branch`: the reference lives under `refs/heads/`. */
  predicate IsBranchRef(r: Reference)
  {
    |BranchPrefix| <= |r.name| && r.name[..|BranchPrefix|] == BranchPrefix
  }

  /** `get_current_branch`: `head` is the outcome of `repo.head()`. */
  function GetCurrentBranch(head: Result<Reference>): (r: Result<Reference>)
    ensures head.Err? ==> r == head
    ensures head.Ok? && IsBranchRef(head.value) ==> r == head
    ensures head.Ok? && !IsBranchRef(head.value) ==> r == Err(GitError("HEAD is not a branch"))
    ensures r.Ok? ==> IsBranchRef(r.value)
  {
    match head
    case Err(e) => Err(e)
    case Ok(h) => if !IsBranchRef(h) then Err(GitError("HEAD is not a branch")) else Ok(h)
  }

  /** `format!("refs/heads/{}", name)`. */
  function LocalRef(branchName: string): (refname: string)
    ensures IsBranchRef(Reference(refname))
    ensures refname[|BranchPrefix|..] == branchName
  {
    BranchPrefix + branchName
  }

  /** Different branch names give different reference names. */
  lemma LocalRefInjective(a: string, b: string)
    requires LocalRef(a) == LocalRef(b)
    ensures a == b
  {
    assert a == LocalRef(a)[|BranchPrefix|..];
  }

  /** `checkout_branch`: resolve the branch, check its tree out, then point HEAD
      at it, stopping at the first failure. */
  function CheckoutBranch(branchName: string, fails: Call -> Option<GitError>): (t: Trace)
    ensures t.outcome.Ok? <==>
              && fails(RevParseSingle(LocalRef(branchName))).None?
              && fails(CheckoutTree).None?
              && fails(SetHead(LocalRef(branchName))).None?
    ensures 0 < |t.calls| && t.calls[0] == RevParseSingle(LocalRef(branchName))
    ensures forall c :: c in t.calls && c.SetHead? ==>
              && c.refname == LocalRef(branchName)
              && fails(RevParseSingle(LocalRef(branchName))).None?
              && fails(CheckoutTree).None?
  {
    var refname := LocalRef(branchName);
    var plan := [RevParseSingle(refname), CheckoutTree, SetHead(refname)];
    var t := Run(plan, fails);
    assert AllSucceed(plan, fails) <==>
             fails(plan[0]).None? && fails(plan[1]).None? && fails(plan[2]).None?;
    t
  }
}
