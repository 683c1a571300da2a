/** `models/branch_model.rs`: the sorted list of local branch names and the
    remembered current branch. */
module BranchModels {
  import opened Backend
  import opened Ordering
  import opened GitBranch

  /** The branch carries a usable name (`name()` is `Ok(Some(_))`). */
  predicate Named(b: Branch)
  {
    b.name.Ok? && b.name.value.Some?
  }

  function NameOf(b: Branch): string
    requires Named(b)
  {
    b.name.value.value
  }

  /** How many branches carry no usable name. */
  function Unnamed(bs: seq<Branch>): nat
  {
    if bs == [] then 0
    else Unnamed(bs[..|bs| - 1]) + (if Named(bs[|bs| - 1]) then 0 else 1)
  }

  /** How many branches carry the name `n`. */
  function NamedCount(bs: seq<Branch>, n: string): nat
  {
    if bs == [] then 0
    else
      var last := bs[|bs| - 1];
      NamedCount(bs[..|bs| - 1], n) + (if Named(last) && NameOf(last) == n then 1 else 0)
  }

  /** The names of the named branches, in listing order, duplicates kept: one
      entry per named branch. */
  function Names(bs: seq<Branch>): (names: seq<string>)
    ensures |names| == |bs| - Unnamed(bs)
  {
    if bs == [] then []
    else
      var last := bs[|bs| - 1];
      Names(bs[..|bs| - 1]) + (if Named(last) then [NameOf(last)] else [])
  }

  /** The names listed are exactly those of the named branches. */
  lemma {:induction false} NamesExact(bs: seq<Branch>, n: string)
    ensures n in Names(bs) <==> exists k :: 0 <= k < |bs| && Named(bs[k]) && NameOf(bs[k]) == n
    decreases |bs|
  {
    if bs != [] {
      var init := bs[..|bs| - 1];
      NamesExact(init, n);
      if exists k :: 0 <= k < |init| && Named(init[k]) && NameOf(init[k]) == n {
        var k :| 0 <= k < |init| && Named(init[k]) && NameOf(init[k]) == n;
        assert bs[k] == init[k];
      }
      if exists k :: 0 <= k < |bs| && Named(bs[k]) && NameOf(bs[k]) == n {
        var k :| 0 <= k < |bs| && Named(bs[k]) && NameOf(bs[k]) == n;
        if k < |init| {
          assert init[k] == bs[k];
        }
      }
    }
  }

  /** No de-duplication: each name is listed once per branch carrying it. */
  lemma {:induction false} NamesCount(bs: seq<Branch>, n: string)
    ensures multiset(Names(bs))[n] == NamedCount(bs, n)
    decreases |bs|
  {
    if bs != [] {
      NamesCount(bs[..|bs| - 1], n);
    }
  }

  /** Some named branch reports being HEAD. */
  ghost predicate HasNamedHead(bs: seq<Branch>)
  {
    exists k :: 0 <= k < |bs| && Named(bs[k]) && IsHead(bs[k])
  }

  /** `current_branch` after the loop: overwritten by every named branch that is
      HEAD, so the last one wins; untouched when there is none. */
  function CurrentAfter(bs: seq<Branch>, previous: Option<string>): Option<string>
  {
    if bs == [] then previous
    else
      var last := bs[|bs| - 1];
      if Named(last) && IsHead(last) then Some(NameOf(last))
      else CurrentAfter(bs[..|bs| - 1], previous)
  }

  /** If a branch was HEAD during the refresh, the remembered branch is one of
      the listed names; otherwise the previous value survives, listed or not. */
  lemma {:induction false} CurrentAfterListed(bs: seq<Branch>, previous: Option<string>)
    ensures HasNamedHead(bs) ==>
              CurrentAfter(bs, previous).Some? && CurrentAfter(bs, previous).value in Names(bs)
    ensures !HasNamedHead(bs) ==> CurrentAfter(bs, previous) == previous
    decreases |bs|
  {
    if bs != [] {
      var init, last := bs[..|bs| - 1], bs[|bs| - 1];
      CurrentAfterListed(init, previous);
      assert HasNamedHead(bs) <==> HasNamedHead(init) || (Named(last) && IsHead(last)) by {
        if HasNamedHead(bs) {
          var k :| 0 <= k < |bs| && Named(bs[k]) && IsHead(bs[k]);
          if k < |init| { assert init[k] == bs[k]; }
        }
        if HasNamedHead(init) {
          var k :| 0 <= k < |init| && Named(init[k]) && IsHead(init[k]);
          assert bs[k] == init[k];
        }
      }
    }
  }

  /** The last named HEAD branch is the one remembered. */
  lemma {:induction false} CurrentAfterLastHead(bs: seq<Branch>, previous: Option<string>, k: nat)
    requires k < |bs| && Named(bs[k]) && IsHead(bs[k])
    requires forall j :: k < j < |bs| ==> !(Named(bs[j]) && IsHead(bs[j]))
    ensures CurrentAfter(bs, previous) == Some(NameOf(bs[k]))
    decreases |bs|
  {
    if k < |bs| - 1 {
      var init := bs[..|bs| - 1];
      assert init[k] == bs[k];
      CurrentAfterLastHead(init, previous, k);
    }
  }

  /** A stale branch survives a refresh in which no branch is HEAD (for example
      a detached HEAD), although it is no longer listed. */
  lemma StaleCurrentBranch()
    ensures var bs := [Branch(Ok(Some("main")), false)];
            CurrentAfter(bs, Some("gone")) == Some("gone") && "gone" !in Names(bs)
  {
    var bs := [Branch(Ok(Some("main")), false)];
    assert bs[..0] == [];
  }

  function Itself(s: string): string
  {
    s
  }

  class BranchModel {
    var branches: seq<string>
    var currentBranch: Option<string>

    constructor ()
      ensures branches == [] && currentBranch == None
    {
      branches := [];
      currentBranch := None;
    }

    /** `update`: `listing` is the outcome of listing the local branches. The
        list is emptied first, so a failed listing leaves it empty; the
        remembered branch is never cleared. */
    method Update(listing: Result<seq<Result<Branch>>>) returns (r: Result<()>)
      modifies this
      ensures listing.Err? ==>
                r == Err(listing.error) && branches == [] && currentBranch == old(currentBranch)
      ensures listing.Ok? ==>
                && r == Ok(())
                && branches == SortBy(Names(Oks(listing.value)), Itself)
                && currentBranch == CurrentAfter(Oks(listing.value), old(currentBranch))
    {
      branches := [];
      var found :- GetBranches(listing);
      for i := 0 to |found|
        invariant branches == Names(found[..i])
        invariant currentBranch == CurrentAfter(found[..i], old(currentBranch))
      {
        var branch := found[i];
        assert found[..i + 1][..i] == found[..i];
        if branch.name.Ok? && branch.name.value.Some? {
          var name := branch.name.value.value;
          if IsHead(branch) {
            currentBranch := Some(name);
          }
          branches := branches + [name];
        }
      }
      assert found[..|found|] == found;
      branches := SortBy(branches, Itself);
      r := Ok(());
    }
  }

  /** What a successful refresh shows: the names sorted ascending, each name as
      often as branches carry it, one entry per named branch, and a remembered
      branch that is listed whenever some branch was HEAD. */
  lemma RefreshShows(bs: seq<Branch>, previous: Option<string>)
    ensures SortedBy(SortBy(Names(bs), Itself), Itself)
    ensures forall n :: multiset(SortBy(Names(bs), Itself))[n] == NamedCount(bs, n)
    ensures |SortBy(Names(bs), Itself)| == |bs| - Unnamed(bs)
    ensures HasNamedHead(bs) ==>
              CurrentAfter(bs, previous).Some? && CurrentAfter(bs, previous).value in SortBy(Names(bs), Itself)
    ensures !HasNamedHead(bs) ==> CurrentAfter(bs, previous) == previous
  {
    SortBySorted(Names(bs), Itself);
    forall n ensures multiset(SortBy(Names(bs), Itself))[n] == NamedCount(bs, n) {
      NamesCount(bs, n);
    }
    CurrentAfterListed(bs, previous);
    if HasNamedHead(bs) {
      assert CurrentAfter(bs, previous).value in multiset(Names(bs));
    }
  }
}
