/** The repository session (`RepositoryModel`): at most one open repository, its
    display path and name, and the callbacks told about every change. */
module Repositories {
  import opened Backend
  import opened Paths

  /** What the session keeps of an opened `git2::Repository`: its `.git`
      directory and, unless it is bare, its working directory. */
  datatype Repo = Repo(gitDir: Path, workdir: Option<Path>)

  /** An opaque identity for a registered `Fn()` callback. */
  type CallbackId = nat

  const NoRepositoryName: string := "No Repository"
  const UnknownName: string := "Unknown"

  /** The path `open` records: the working directory, or the `.git` directory of a
      bare repository. */
  function DisplayPath(repo: Repo): Path
  {
    repo.workdir.GetOr(repo.gitDir)
  }

  /** The name `open` records: the final component of the path when it is a
      normal component and valid Unicode, `"Unknown"` otherwise. */
  function DisplayName(p: Path): (name: string)
    ensures name != UnknownName ==>
              |p.components| > 0 && p.components[|p.components| - 1] == Normal(Unicode(name))
    ensures (|p.components| > 0 && p.components[|p.components| - 1].Normal?
             && p.components[|p.components| - 1].name.Unicode?)
            ==> name == p.components[|p.components| - 1].name.text
    ensures (|p.components| == 0 || !p.components[|p.components| - 1].Normal?) ==> name == UnknownName
  {
    match FileName(p)
    case Some(os) => ToStr(os).GetOr(UnknownName)
    case None => UnknownName
  }

  /** One call of a change callback: its registration slot, and the path and
      name the session holds while it runs. */
  datatype Notification = Notification(slot: nat, path: Option<Path>, name: string)

  /** One notification round over `n` registered callbacks: slot `k` is called
      `k`-th, and every callback observes the same session state. */
  function Round(n: nat, path: Option<Path>, name: string): (log: seq<Notification>)
    ensures |log| == n
    ensures forall k :: 0 <= k < n ==> log[k] == Notification(k, path, name)
  {
    if n == 0 then [] else Round(n - 1, path, name) + [Notification(n - 1, path, name)]
  }

  /** How often the callback in slot `k` is called in `log`. */
  function CallsTo(log: seq<Notification>, k: nat): nat
  {
    if log == [] then 0
    else CallsTo(log[..|log| - 1], k) + (if log[|log| - 1].slot == k then 1 else 0)
  }

  lemma {:induction false} CallsToAppend(a: seq<Notification>, b: seq<Notification>, k: nat)
    ensures CallsTo(a + b, k) == CallsTo(a, k) + CallsTo(b, k)
    decreases |b|
  {
    if b == [] {
      assert a + b == a;
    } else {
      assert (a + b)[..|a + b| - 1] == a + b[..|b| - 1];
      CallsToAppend(a, b[..|b| - 1], k);
    }
  }

  /** One round calls each registered callback exactly once and no other. */
  lemma {:induction false} RoundCallsEachOnce(n: nat, path: Option<Path>, name: string, k: nat)
    ensures CallsTo(Round(n, path, name), k) == if k < n then 1 else 0
  {
    if n > 0 {
      RoundCallsEachOnce(n - 1, path, name, k);
    }
  }

  /** The log `OpenThenClose` adds: each of the `n` callbacks is called exactly
      twice, first seeing the opened repository, then seeing the closed
      session, both rounds in registration order. */
  lemma OpenCloseLog(n: nat, openPath: Path, openName: string, k: nat)
    requires k < n
    ensures var log := Round(n, Some(openPath), openName) + Round(n, None, NoRepositoryName);
            && CallsTo(log, k) == 2
            && log[k] == Notification(k, Some(openPath), openName)
            && log[n + k] == Notification(k, None, NoRepositoryName)
  {
    CallsToAppend(Round(n, Some(openPath), openName), Round(n, None, NoRepositoryName), k);
    RoundCallsEachOnce(n, Some(openPath), openName, k);
    RoundCallsEachOnce(n, None, NoRepositoryName, k);
  }

  /** The name alone does not tell an open session from a closed one: a
      working directory called "No Repository" displays as that name. */
  lemma NameDoesNotDecideOpen()
    ensures DisplayName(Path([RootDir, Normal(Unicode(NoRepositoryName))])) == NoRepositoryName
  {
  }

  class RepositoryModel {
    var repo: Option<Repo>
    var path: Option<Path>
    var name: string
    var callbacks: seq<CallbackId>
    /** The callbacks called so far, in call order, each with the session state
        it observed. */
    var invocations: seq<Notification>

    /** The three fields change together: open with a path and a name derived
        from it, or closed with neither. */
    ghost predicate Valid()
      reads this
    {
      && (repo.Some? <==> path.Some?)
      && (repo.Some? ==> path.value == DisplayPath(repo.value) && name == DisplayName(path.value))
      && (repo.None? ==> name == NoRepositoryName)
    }

    constructor ()
      ensures Valid()
      ensures repo == None && path == None && name == NoRepositoryName
      ensures callbacks == [] && invocations == []
    {
      repo := None;
      path := None;
      name := NoRepositoryName;
      callbacks := [];
      invocations := [];
    }

    /** `connect_changed`: registers a callback after all existing ones. */
    method ConnectChanged(callback: CallbackId)
      modifies this`callbacks
      ensures callbacks == old(callbacks) + [callback]
    {
      callbacks := callbacks + [callback];
    }

    /** `notify_changed`: calls every registered callback once, in registration
        order, each observing the current path and name. */
    method NotifyChanged()
      modifies this`invocations
      ensures invocations == old(invocations) + Round(|callbacks|, path, name)
    {
      var i := 0;
      while i < |callbacks|
        invariant 0 <= i <= |callbacks|
        invariant invocations == old(invocations) + Round(i, path, name)
      {
        invocations := invocations + [Notification(i, path, name)];
        i := i + 1;
      }
    }

    /** `open`: `discovery` is the outcome of `Repository::discover(path)`. A
        failure leaves everything as it was; a success replaces the three fields
        and then notifies once, so every callback sees the new path and name. */
    method Open(discovery: Result<Repo>) returns (r: Result<()>)
      requires Valid()
      modifies this`repo, this`path, this`name, this`invocations
      ensures Valid()
      ensures discovery.Err? ==>
                && r == Err(discovery.error)
                && repo == old(repo) && path == old(path) && name == old(name)
                && invocations == old(invocations)
      ensures discovery.Ok? ==>
                && r == Ok(())
                && repo == Some(discovery.value)
                && path == Some(DisplayPath(discovery.value))
                && name == DisplayName(DisplayPath(discovery.value))
                && invocations == old(invocations)
                     + Round(|callbacks|, Some(DisplayPath(discovery.value)),
                             DisplayName(DisplayPath(discovery.value)))
    {
      var found :- discovery;
      var workdir := DisplayPath(found);
      var displayName := DisplayName(workdir);
      repo := Some(found);
      path := Some(workdir);
      name := displayName;
      NotifyChanged();
      r := Ok(());
    }

    /** `close`: always resets the three fields and always notifies, even when
        nothing was open; every callback sees the closed session. */
    method Close()
      modifies this`repo, this`path, this`name, this`invocations
      ensures Valid()
      ensures repo == None && path == None && name == NoRepositoryName
      ensures invocations == old(invocations) + Round(|callbacks|, None, NoRepositoryName)
    {
      repo := None;
      path := None;
      name := NoRepositoryName;
      NotifyChanged();
    }

    /** `is_open`: whether a repository is held, which under the invariant is
        whether a path is held. */
    function IsOpen(): (b: bool)
      reads this
      requires Valid()
      ensures b <==> path.Some?
      ensures !b ==> name == NoRepositoryName
    {
      repo.Some?
    }
  }

  /** A client of the session: a successful `open` followed by `close` leaves it
      closed and has called every callback twice, in registration order: the
      first round observes the opened repository, the second the closed
      session (see `OpenCloseLog`). */
  method OpenThenClose(m: RepositoryModel, found: Repo)
    requires m.Valid()
    modifies m
    ensures m.Valid() && !m.IsOpen() && m.name == NoRepositoryName
    ensures m.callbacks == old(m.callbacks)
    ensures m.invocations == old(m.invocations)
              + Round(|m.callbacks|, Some(DisplayPath(found)), DisplayName(DisplayPath(found)))
              + Round(|m.callbacks|, None, NoRepositoryName)
  {
    var r := m.Open(Ok(found));
    m.Close();
  }
}
