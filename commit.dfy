/** `git/commit.rs`: commit identifiers and their display, the bounded history
    walk from HEAD, and commit creation. */
module GitCommit {
  import opened Backend

  type Byte = b: int | 0 <= b < 256

  /** A SHA-1 object id: 20 bytes. */
  type Oid = bytes: seq<Byte> | |bytes| == 20 witness seq(20, _ => 0)

  /** The hex digit of a value below 16, lower case. */
  function HexDigit(v: nat): (c: char)
    requires v < 16
    ensures IsHexDigit(c)
  {
    if v < 10 then ('0' as int + v) as char else ('a' as int + v - 10) as char
  }

  predicate IsHexDigit(c: char)
  {
    '0' <= c <= '9' || 'a' <= c <= 'f'
  }

  /** `Oid::to_string`: two lower-case hex digits per byte. */
  function Hex(bytes: seq<Byte>): (s: string)
    ensures |s| == 2 * |bytes|
    ensures forall i :: 0 <= i < |s| ==> IsHexDigit(s[i])
  {
    if bytes == [] then []
    else [HexDigit(bytes[0] / 16), HexDigit(bytes[0] % 16)] + Hex(bytes[1..])
  }

  lemma {:induction false} HexAppend(a: seq<Byte>, b: seq<Byte>)
    ensures Hex(a + b) == Hex(a) + Hex(b)
    decreases |a|
  {
    if a == [] {
      assert a + b == b;
    } else {
      assert (a + b)[1..] == a[1..] + b;
      HexAppend(a[1..], b);
    }
  }

  /** `short_id`: the first seven characters of the hex id. It cannot fail,
      because the hex id always has 40 characters. */
  function ShortId(id: Oid): (s: string)
    ensures |s| == 7 && s == Hex(id)[..7]
  {
    Hex(id)[..7]
  }

  /** The short id depends only on the first four bytes of the id. */
  lemma ShortIdOfPrefix(a: Oid, b: Oid)
    requires a[..4] == b[..4]
    ensures ShortId(a) == ShortId(b)
  {
    assert a == a[..4] + a[4..] && b == b[..4] + b[4..];
    HexAppend(a[..4], a[4..]);
    HexAppend(b[..4], b[4..]);
  }

  /** A git2 `Signature`; `name()` is absent when it is not UTF-8. */
  datatype Signature = Signature(name: Option<string>, email: Option<string>)

  /** What the model reads of a `git2::Commit`. */
  datatype Commit = Commit(id: Oid, summary: Option<string>, author: Signature, time: int)

  /** `Display for Commit`: `"<short id> - <summary>"`, with "no summary" when
      the summary is absent. The "unknown" fallback for a failing `short_id` is
      never taken. */
  function Display(c: Commit): string
  {
    ShortId(c.id) + " - " + c.summary.GetOr("no summary")
  }

  /** The display splits back at fixed positions into the short id and the
      summary; it never starts with "unknown", which is not hex. */
  lemma DisplayParts(c: Commit)
    ensures Display(c)[..7] == ShortId(c.id)
    ensures Display(c)[7..10] == " - "
    ensures Display(c)[10..] == (if c.summary.Some? then c.summary.value else "no summary")
    ensures IsHexDigit(Display(c)[0]) && Display(c)[0] != 'u'
  {
    assert Display(c)[0] == Hex(c.id)[0];
  }

  /** The commits the walk finds for the successful oids, in order; an oid the
      walk failed to produce is skipped, and a failed `find_commit` aborts. */
  function Walked(oids: seq<Result<Oid>>, find: Oid -> Result<Commit>): (r: Result<seq<Commit>>)
    ensures r.Ok? ==>
              |r.value| == |Oks(oids)|
              && forall j :: 0 <= j < |r.value| ==> find(Oks(oids)[j]) == Ok(r.value[j])
  {
    if oids == [] then Ok([])
    else
      var init, last := oids[..|oids| - 1], oids[|oids| - 1];
      assert Oks(oids) == Oks(init) + (if last.Ok? then [last.value] else []);
      match Walked(init, find)
      case Err(e) => Err(e)
      case Ok(cs) =>
        if last.Err? then Ok(cs)
        else
          match find(last.value)
          case Err(e) => Err(e)
          case Ok(c) => Ok(cs + [c])
  }

  /** The `j`-th successful oid is the first whose commit cannot be found. */
  ghost predicate FirstMissing(oids: seq<Result<Oid>>, find: Oid -> Result<Commit>, j: int)
  {
    && 0 <= j < |Oks(oids)|
    && find(Oks(oids)[j]).Err?
    && forall i :: 0 <= i < j ==> find(Oks(oids)[i]).Ok?
  }

  /** The walk fails exactly when the commit of some successful oid cannot be
      found, and then with the error of the first such lookup. */
  lemma {:induction false} WalkedAborts(oids: seq<Result<Oid>>, find: Oid -> Result<Commit>)
    ensures Walked(oids, find).Err? <==>
              exists j :: 0 <= j < |Oks(oids)| && find(Oks(oids)[j]).Err?
    ensures Walked(oids, find).Err? ==>
              exists j :: FirstMissing(oids, find, j) && find(Oks(oids)[j]).error == Walked(oids, find).error
    decreases |oids|
  {
    if oids != [] {
      var init, last := oids[..|oids| - 1], oids[|oids| - 1];
      var okInit := Oks(init);
      assert Oks(oids) == okInit + (if last.Ok? then [last.value] else []);
      WalkedAborts(init, find);
      match Walked(init, find)
      case Err(e) =>
        var j :| FirstMissing(init, find, j) && find(okInit[j]).error == e;
        assert Oks(oids)[j] == okInit[j];
        assert FirstMissing(oids, find, j);
      case Ok(cs) =>
        if last.Ok? {
          var n := |okInit|;
          assert Oks(oids)[n] == last.value;
          if find(last.value).Err? {
            assert FirstMissing(oids, find, n);
          } else {
            forall j | 0 <= j < |Oks(oids)| ensures find(Oks(oids)[j]).Ok? {
              if j < n {
                assert Oks(oids)[j] == okInit[j];
              }
            }
          }
        }
    }
  }

  /** An error among the first oids is the error of the whole walk. */
  lemma {:induction false} WalkedErrPersists(oids: seq<Result<Oid>>, find: Oid -> Result<Commit>, i: nat, n: nat)
    requires i <= n <= |oids|
    requires Walked(oids[..i], find).Err?
    ensures Walked(oids[..n], find) == Walked(oids[..i], find)
    decreases n - i
  {
    if i < n {
      assert oids[..i + 1][..i] == oids[..i];
      WalkedErrPersists(oids, find, i + 1, n);
    }
  }

  function Min(a: nat, b: nat): nat
  {
    if a < b then a else b
  }

  /** The history of at most `count` commits: `walk` is the outcome of creating
      the revwalk and pushing HEAD, then the oids it yields. Only the first
      `count` oids are looked at, so a failed oid still uses up a slot. */
  function History(walk: Result<seq<Result<Oid>>>, find: Oid -> Result<Commit>, count: nat)
    : Result<seq<Commit>>
  {
    match walk
    case Err(e) => Err(e)
    case Ok(oids) => Walked(oids[..Min(count, |oids|)], find)
  }

  /** The history is bounded by `count`, less the failed oids among the first
      `count`, and its commits are those of the successful oids in walk order. */
  lemma HistoryBounded(oids: seq<Result<Oid>>, find: Oid -> Result<Commit>, count: nat)
    requires History(Ok(oids), find, count).Ok?
    ensures var h := History(Ok(oids), find, count).value;
            var looked := oids[..Min(count, |oids|)];
            && |h| == Min(count, |oids|) - ErrCount(looked) <= count
            && forall j :: 0 <= j < |h| ==> find(Oks(looked)[j]) == Ok(h[j])
  {
  }

  /** `get_commit_history`. */
  method GetCommitHistory(walk: Result<seq<Result<Oid>>>, find: Oid -> Result<Commit>, count: nat)
    returns (r: Result<seq<Commit>>)
    ensures r == History(walk, find, count)
  {
    var oids :- walk;
    var commits: seq<Commit> := [];
    var i := 0;
    while i < |oids|
      invariant 0 <= i <= |oids| && i <= Min(count, |oids|)
      invariant Walked(oids[..i], find) == Ok(commits)
    {
      if i >= count {
        break;
      }
      assert oids[..i + 1][..i] == oids[..i];
      if oids[i].Ok? {
        var found := find(oids[i].value);
        if found.Err? {
          WalkedErrPersists(oids, find, i + 1, Min(count, |oids|));
          return Err(found.error);
        }
        commits := commits + [found.value];
      }
      i := i + 1;
    }
    assert oids[..Min(count, |oids|)] == oids[..i];
    r := Ok(commits);
  }

  /** A commit the backend is asked to write. */
  datatype CommitRequest = CommitRequest(
    updateRef: Option<string>, author: Signature, committer: Signature,
    message: string, tree: Oid, parents: seq<Oid>)

  /** `create_commit`: `signature` is the outcome of `repo.signature()`, and
      `write` the backend's `commit`, called only when the signature is there. */
  function CreateCommit(message: string, tree: Oid, parents: seq<Oid>,
                        signature: Result<Signature>, write: CommitRequest -> Result<Oid>)
    : (r: Result<Oid>)
    ensures signature.Err? ==> r == Err(signature.error)
    ensures signature.Ok? ==>
              r == write(CommitRequest(Some("HEAD"), signature.value, signature.value, message, tree, parents))
  {
    match signature
    case Err(e) => Err(e)
    case Ok(sig) =>
      var req := CommitRequest(Some("HEAD"), sig, sig, message, tree, parents);
      write(req)
  }
}
