/** The boundary to libgit2. The backend is an oracle: every call the model makes
    either succeeds or fails with a `GitError`, and the model never looks inside
    the repository on disk. */
module Backend {

  datatype Option<+T> = None | Some(value: T) {
    /** Rust's `unwrap_or`. */
    function GetOr(default: T): T {
      if Some? then value else default
    }
  }

  /** A `git2::Error`; only its message is observable. */
  datatype GitError = GitError(message: string)

  /** `Result<T, git2::Error>`, usable with `:-` like Rust's `?`. */
  datatype Result<+T> = Ok(value: T) | Err(error: GitError) {
    predicate IsFailure() {
      Err?
    }

    function PropagateFailure<U>(): Result<U>
      requires Err?
    {
      Err(error)
    }

    function Extract(): T
      requires Ok?
    {
      value
    }
  }

  /** Number of failed items in a sequence of results. */
  function ErrCount<T>(rs: seq<Result<T>>): nat
  {
    if rs == [] then 0
    else ErrCount(rs[..|rs| - 1]) + (if rs[|rs| - 1].Err? then 1 else 0)
  }

  /** The values of the successful items, in order (the `if let Ok(x) = item` filter). */
  function Oks<T>(rs: seq<Result<T>>): (xs: seq<T>)
    ensures |xs| + ErrCount(rs) == |rs|
    ensures forall k :: 0 <= k < |rs| && rs[k].Ok? ==> rs[k].value in xs
    ensures forall j :: 0 <= j < |xs| ==> Ok(xs[j]) in rs
  {
    if rs == [] then []
    else
      var init, last := rs[..|rs| - 1], rs[|rs| - 1];
      assert rs == init + [last];
      Oks(init) + (if last.Ok? then [last.value] else [])
  }

  lemma {:induction false} OksAppend<T>(a: seq<Result<T>>, b: seq<Result<T>>)
    ensures Oks(a + b) == Oks(a) + Oks(b)
    decreases |b|
  {
    if b == [] {
      assert a + b == a;
    } else {
      var init := b[..|b| - 1];
      assert (a + b)[..|a + b| - 1] == a + init;
      OksAppend(a, init);
    }
  }

  /** A libgit2 call made by one of the step-by-step operations. */
  datatype Call =
    | OpenIndex                          // repo.index()
    | IndexAddPath(path: string)         // index.add_path(path)
    | IndexWrite                         // index.write()
    | ReadHead                           // repo.head()
    | PeelToCommit                       // head.peel(ObjectType::Commit)
    | ResetDefault(paths: seq<string>)   // repo.reset_default(Some(&commit), paths)
    | RevParseSingle(spec: string)       // repo.revparse_single(spec)
    | CheckoutTree                       // repo.checkout_tree(&obj, None)
    | SetHead(refname: string)           // repo.set_head(refname)

  /** The calls actually made, in order, and what the operation returned. */
  datatype Trace = Trace(calls: seq<Call>, outcome: Result<()>)

  /** Every call in `calls` succeeds according to the oracle `fails`. */
  ghost predicate AllSucceed(calls: seq<Call>, fails: Call -> Option<GitError>)
  {
    forall k :: 0 <= k < |calls| ==> fails(calls[k]).None?
  }

  /** Runs `plan` one call at a time, stopping at the first failure, as a chain of
      `?` operators does. */
  function Run(plan: seq<Call>, fails: Call -> Option<GitError>): (t: Trace)
    ensures t.calls <= plan
    ensures t.outcome.Ok? <==> AllSucceed(plan, fails)
    ensures t.outcome.Ok? ==> t.calls == plan
    ensures t.outcome.Err? ==>
              0 < |t.calls|
              && AllSucceed(t.calls[..|t.calls| - 1], fails)
              && fails(t.calls[|t.calls| - 1]) == Some(t.outcome.error)
  {
    if plan == [] then Trace([], Ok(()))
    else
      match fails(plan[0])
      case Some(e) => Trace([plan[0]], Err(e))
      case None =>
        var rest := Run(plan[1..], fails);
        assert [plan[0]] + rest.calls <= plan;
        assert AllSucceed(plan, fails) <==> AllSucceed(plan[1..], fails) by {
          if AllSucceed(plan[1..], fails) {
            forall k | 0 <= k < |plan| ensures fails(plan[k]).None? {
              if k > 0 { assert plan[k] == plan[1..][k - 1]; }
            }
          }
        }
        Trace([plan[0]] + rest.calls, rest.outcome)
  }
}
