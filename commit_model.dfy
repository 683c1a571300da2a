/** `models/commit_model.rs`: the history list shown in the UI, one row of text
    fields per commit. */
module CommitModels {
  import opened Backend
  import opened GitCommit

  /** One row of the history list. */
  datatype CommitItem = CommitItem(id: string, summary: string, author: string, date: string)

  /** The row for one commit. `formatDate` stands for turning the commit's
      seconds into a date (falling back to the epoch when out of range) and
      formatting it as `%Y-%m-%d %H:%M`. */
  function CommitItemOf(c: Commit, formatDate: int -> string): (item: CommitItem)
    ensures |item.id| == 7 && forall i :: 0 <= i < 7 ==> IsHexDigit(item.id[i])
    ensures item.id == Hex(c.id)[..7]
    ensures c.summary.Some? ==> item.summary == c.summary.value
    ensures c.summary.None? ==> item.summary == ""
    ensures c.author.name.Some? ==> item.author == c.author.name.value
    ensures c.author.name.None? ==> item.author == "Unknown"
    ensures item.date == formatDate(c.time)
  {
    CommitItem(ShortId(c.id), c.summary.GetOr(""), c.author.name.GetOr("Unknown"), formatDate(c.time))
  }

  /** The rows for a list of commits, in the same order. */
  function CommitItems(cs: seq<Commit>, formatDate: int -> string): (items: seq<CommitItem>)
    ensures |items| == |cs|
  {
    if cs == [] then []
    else CommitItems(cs[..|cs| - 1], formatDate) + [CommitItemOf(cs[|cs| - 1], formatDate)]
  }

  /** Row `k` is the row of commit `k`. */
  lemma {:induction false} CommitItemsAt(cs: seq<Commit>, formatDate: int -> string, k: nat)
    requires k < |cs|
    ensures CommitItems(cs, formatDate)[k] == CommitItemOf(cs[k], formatDate)
    decreases |cs|
  {
    if k < |cs| - 1 {
      var init := cs[..|cs| - 1];
      assert init[k] == cs[k];
      CommitItemsAt(init, formatDate, k);
    }
  }

  class CommitModel {
    var commits: seq<CommitItem>

    constructor ()
      ensures commits == []
    {
      commits := [];
    }

    /** `update`: the list is emptied first, so a failed history leaves it
        empty; otherwise it holds one row per commit of the history. */
    method Update(walk: Result<seq<Result<Oid>>>, find: Oid -> Result<Commit>, count: nat,
                  formatDate: int -> string)
      returns (r: Result<()>)
      modifies this
      ensures History(walk, find, count).Err? ==>
                r == Err(History(walk, find, count).error) && commits == []
      ensures History(walk, find, count).Ok? ==>
                r == Ok(()) && commits == CommitItems(History(walk, find, count).value, formatDate)
    {
      commits := [];
      var history :- GetCommitHistory(walk, find, count);
      for i := 0 to |history|
        invariant commits == CommitItems(history[..i], formatDate)
      {
        assert history[..i + 1][..i] == history[..i];
        var c := history[i];
        var id := ShortId(c.id);
        var summary := c.summary.GetOr("");
        var author := c.author.name.GetOr("Unknown");
        var date := formatDate(c.time);
        commits := commits + [CommitItem(id, summary, author, date)];
      }
      assert history[..|history|] == history;
      r := Ok(());
    }
  }

  /** What a successful refresh shows: at most `count` rows, row `j` being the
      row of the commit of the `j`-th successfully walked oid among the first
      `count`, with a seven-digit hex id and the documented defaults. */
  lemma RefreshShows(oids: seq<Result<Oid>>, find: Oid -> Result<Commit>, count: nat,
                     formatDate: int -> string, j: nat)
    requires History(Ok(oids), find, count).Ok?
    ensures |CommitItems(History(Ok(oids), find, count).value, formatDate)| <= count
    ensures var items := CommitItems(History(Ok(oids), find, count).value, formatDate);
            var looked := Oks(oids[..Min(count, |oids|)]);
            j < |items| ==>
              && find(looked[j]).Ok?
              && items[j] == CommitItemOf(find(looked[j]).value, formatDate)
  {
    var h := History(Ok(oids), find, count).value;
    HistoryBounded(oids, find, count);
    if j < |h| {
      CommitItemsAt(h, formatDate, j);
    }
  }
}
