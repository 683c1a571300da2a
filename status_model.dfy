/** `models/status_model.rs`: the staged and unstaged lists the status panel
    shows, and the label it prints for each entry. */
module StatusModels {
  import opened Backend
  import opened Ordering
  import opened GitStatus

  /** A kind of change, in the order the label chains test them. */
  datatype Change = New | Modified | Deleted | Renamed | TypeChanged

  function ChangeLabel(c: Change): string
  {
    match c
    case New => "New"
    case Modified => "Modified"
    case Deleted => "Deleted"
    case Renamed => "Renamed"
    case TypeChanged => "Type Changed"
  }

  /** The first index change the label chain finds. */
  function IndexChange(status: Status): Option<Change>
  {
    if IndexNew in status then Some(New)
    else if IndexModified in status then Some(Modified)
    else if IndexDeleted in status then Some(Deleted)
    else if IndexRenamed in status then Some(Renamed)
    else if IndexTypechange in status then Some(TypeChanged)
    else None
  }

  /** The first working-tree change the label chain finds. */
  function WorktreeChange(status: Status): Option<Change>
  {
    if WtNew in status then Some(New)
    else if WtModified in status then Some(Modified)
    else if WtDeleted in status then Some(Deleted)
    else if WtRenamed in status then Some(Renamed)
    else if WtTypechange in status then Some(TypeChanged)
    else None
  }

  function OptionalLabel(c: Option<Change>): string
  {
    if c.Some? then ChangeLabel(c.value) else ""
  }

  function SpecialLabel(status: Status): string
  {
    if Conflicted in status then "Conflicted"
    else if Ignored in status then "Ignored"
    else ""
  }

  /** The flags some label reacts to (all but `WT_UNREADABLE`). */
  const LabelledFlags: set<StatusFlag> := IndexFlags + WorktreeFlags - {WtUnreadable} + {Conflicted, Ignored}

  /** `status_to_text`: the index label, then the working-tree label, then
      `Conflicted` or `Ignored`, run together; `"Unknown"` when none applies. */
  function StatusToText(status: Status): (text: string)
    ensures text != []
    ensures text == "Unknown" <==> status * LabelledFlags == {}
  {
    var text := OptionalLabel(IndexChange(status)) + OptionalLabel(WorktreeChange(status))
                + SpecialLabel(status);
    assert text != [] ==> text[0] != 'U';
    if text == [] then "Unknown" else text
  }

  /** An entry is staged exactly when its index label exists and is not
      "Type Changed". */
  lemma StagedIffIndexLabel(e: StatusEntry)
    ensures IsStaged(e) <==> IndexChange(e.status).Some? && IndexChange(e.status) != Some(TypeChanged)
  {
  }

  /** The labels `status_to_text` emits, in order. */
  function Labels(status: Status): seq<string>
  {
    (if IndexChange(status).Some? then [ChangeLabel(IndexChange(status).value)] else [])
    + (if WorktreeChange(status).Some? then [ChangeLabel(WorktreeChange(status).value)] else [])
    + (if SpecialLabel(status) != "" then [SpecialLabel(status)] else [])
  }

  function Concat(ls: seq<string>): string
  {
    if ls == [] then "" else ls[0] + Concat(ls[1..])
  }

  /** The label that can start a text beginning with `c`: every label starts
      with a different letter. */
  function LabelStartingWith(c: char): Option<string>
  {
    match c
    case 'N' => Some("New")
    case 'M' => Some("Modified")
    case 'D' => Some("Deleted")
    case 'R' => Some("Renamed")
    case 'T' => Some("Type Changed")
    case 'C' => Some("Conflicted")
    case 'I' => Some("Ignored")
    case _ => None
  }

  predicate IsLabel(l: string)
  {
    l in {"New", "Modified", "Deleted", "Renamed", "Type Changed", "Conflicted", "Ignored"}
  }

  /** Splits a text back into the labels it was made of. */
  function ParseLabels(text: string): Option<seq<string>>
    decreases |text|
  {
    if text == [] then Some([])
    else
      match LabelStartingWith(text[0])
      case None => None
      case Some(l) =>
        if |l| <= |text| && text[..|l|] == l then
          match ParseLabels(text[|l|..])
          case None => None
          case Some(rest) => Some([l] + rest)
        else None
  }

  lemma {:induction false} ParseConcat(ls: seq<string>)
    requires forall k :: 0 <= k < |ls| ==> IsLabel(ls[k])
    ensures ParseLabels(Concat(ls)) == Some(ls)
    decreases |ls|
  {
    if ls != [] {
      var l := ls[0];
      var text := Concat(ls);
      assert text == l + Concat(ls[1..]);
      assert LabelStartingWith(text[0]) == Some(l);
      assert |l| <= |text| && text[..|l|] == l && text[|l|..] == Concat(ls[1..]);
      ParseConcat(ls[1..]);
      assert ls == [l] + ls[1..];
    }
  }

  /** The label text is unambiguous: it splits back into exactly the labels
      that were emitted, even though they are run together without a
      separator. */
  lemma TextDecodes(status: Status)
    requires status * LabelledFlags != {}
    ensures StatusToText(status) == Concat(Labels(status))
    ensures ParseLabels(StatusToText(status)) == Some(Labels(status))
  {
    var ls := Labels(status);
    assert forall k :: 0 <= k < |ls| ==> IsLabel(ls[k]);
    assert Concat(ls) == OptionalLabel(IndexChange(status)) + OptionalLabel(WorktreeChange(status))
                         + SpecialLabel(status) by {
      ConcatAppend(
        (if IndexChange(status).Some? then [ChangeLabel(IndexChange(status).value)] else [])
        + (if WorktreeChange(status).Some? then [ChangeLabel(WorktreeChange(status).value)] else []),
        (if SpecialLabel(status) != "" then [SpecialLabel(status)] else []));
      ConcatAppend(
        (if IndexChange(status).Some? then [ChangeLabel(IndexChange(status).value)] else []),
        (if WorktreeChange(status).Some? then [ChangeLabel(WorktreeChange(status).value)] else []));
    }
    ParseConcat(ls);
  }

  lemma {:induction false} ConcatAppend(a: seq<string>, b: seq<string>)
    ensures Concat(a + b) == Concat(a) + Concat(b)
    decreases |a|
  {
    if a == [] {
      assert a + b == b;
    } else {
      assert (a + b)[1..] == a[1..] + b;
      ConcatAppend(a[1..], b);
    }
  }

  /** Precedence inside each group: the first flag in the chain wins its slot,
      `Conflicted` ends the text, and `Ignored` ends it only without a conflict. */
  lemma LabelPrecedence(status: Status)
    ensures IndexNew in status ==> StatusToText(status)[..3] == "New"
    ensures Conflicted in status ==> StatusToText(status)[|StatusToText(status)| - 10..] == "Conflicted"
    ensures Ignored in status && Conflicted !in status ==>
              StatusToText(status)[|StatusToText(status)| - 7..] == "Ignored"
  {
  }

  datatype StatusItem = StatusItem(path: string, statusText: string, isStaged: bool)

  function ItemOf(e: StatusEntry): StatusItem
  {
    StatusItem(e.path, StatusToText(e.status), IsStaged(e))
  }

  function PathOf(item: StatusItem): string
  {
    item.path
  }

  /** The items of the entries whose staged-ness is `staged`, in entry order. */
  function ItemsWhere(es: seq<StatusEntry>, staged: bool): (items: seq<StatusItem>)
    ensures |items| <= |es|
    ensures forall j :: 0 <= j < |items| ==> items[j].isStaged == staged
  {
    if es == [] then []
    else
      ItemsWhere(es[..|es| - 1], staged)
      + (if IsStaged(es[|es| - 1]) == staged then [ItemOf(es[|es| - 1])] else [])
  }

  /** All items, one per entry, in entry order. */
  function Items(es: seq<StatusEntry>): seq<StatusItem>
  {
    if es == [] then [] else Items(es[..|es| - 1]) + [ItemOf(es[|es| - 1])]
  }

  /** Every entry lands in exactly one of the two lists: together they hold
      each entry's item once, and nothing else. */
  lemma {:induction false} ItemsPartition(es: seq<StatusEntry>)
    ensures multiset(ItemsWhere(es, true)) + multiset(ItemsWhere(es, false)) == multiset(Items(es))
    ensures |ItemsWhere(es, true)| + |ItemsWhere(es, false)| == |es|
    decreases |es|
  {
    if es != [] {
      ItemsPartition(es[..|es| - 1]);
    }
  }

  /** The list an entry's item is found in is decided by `is_staged`. */
  lemma {:induction false} EntryPlacement(es: seq<StatusEntry>, k: nat, staged: bool)
    requires k < |es|
    ensures ItemOf(es[k]) in ItemsWhere(es, staged) <==> staged == IsStaged(es[k])
    decreases |es|
  {
    var init := es[..|es| - 1];
    if k < |es| - 1 {
      assert es[k] == init[k];
      EntryPlacement(init, k, staged);
    }
    if ItemOf(es[k]) in ItemsWhere(es, staged) {
      var j :| 0 <= j < |ItemsWhere(es, staged)| && ItemsWhere(es, staged)[j] == ItemOf(es[k]);
    }
  }

  /** The two lists after a successful update. */
  function Projection(es: seq<StatusEntry>): (lists: (seq<StatusItem>, seq<StatusItem>))
    ensures SortedBy(lists.0, PathOf) && SortedBy(lists.1, PathOf)
    ensures multiset(lists.0) + multiset(lists.1) == multiset(Items(es))
    ensures |lists.0| + |lists.1| == |es|
    ensures forall j :: 0 <= j < |lists.0| ==> lists.0[j].isStaged
    ensures forall j :: 0 <= j < |lists.1| ==> !lists.1[j].isStaged
    ensures forall p :: KeyRun(lists.0, PathOf, p) == KeyRun(ItemsWhere(es, true), PathOf, p)
    ensures forall p :: KeyRun(lists.1, PathOf, p) == KeyRun(ItemsWhere(es, false), PathOf, p)
  {
    var staged := ItemsWhere(es, true);
    var unstaged := ItemsWhere(es, false);
    SortedList(staged, true);
    SortedList(unstaged, false);
    ItemsPartition(es);
    (SortBy(staged, PathOf), SortBy(unstaged, PathOf))
  }

  lemma SortedList(items: seq<StatusItem>, staged: bool)
    requires forall j :: 0 <= j < |items| ==> items[j].isStaged == staged
    ensures SortedBy(SortBy(items, PathOf), PathOf)
    ensures forall p :: KeyRun(SortBy(items, PathOf), PathOf, p) == KeyRun(items, PathOf, p)
    ensures forall j :: 0 <= j < |SortBy(items, PathOf)| ==> SortBy(items, PathOf)[j].isStaged == staged
  {
    var sorted := SortBy(items, PathOf);
    SortByCorrect(items, PathOf);
    forall j | 0 <= j < |sorted| ensures sorted[j].isStaged == staged {
      assert sorted[j] in multiset(items);
    }
  }

  class StatusModel {
    var stagedItems: seq<StatusItem>
    var unstagedItems: seq<StatusItem>

    constructor ()
      ensures stagedItems == [] && unstagedItems == []
    {
      stagedItems := [];
      unstagedItems := [];
    }

    /** `update`: `scan` is the outcome of the backend's status scan. Both lists
        are emptied first, so a failed scan leaves them empty. */
    method Update(scan: Result<seq<RawEntry>>) returns (r: Result<()>)
      modifies this
      ensures scan.Err? ==> r == Err(scan.error) && stagedItems == [] && unstagedItems == []
      ensures scan.Ok? ==>
                && r == Ok(())
                && stagedItems == Projection(Entries(scan.value)).0
                && unstagedItems == Projection(Entries(scan.value)).1
    {
      stagedItems := [];
      unstagedItems := [];
      var entries :- GetStatus(scan);
      for i := 0 to |entries|
        invariant stagedItems == ItemsWhere(entries[..i], true)
        invariant unstagedItems == ItemsWhere(entries[..i], false)
      {
        var entry := entries[i];
        var item := StatusItem(entry.path, StatusToText(entry.status), IsStaged(entry));
        assert entries[..i + 1][..i] == entries[..i];
        if IsStaged(entry) {
          stagedItems := stagedItems + [item];
        } else {
          unstagedItems := unstagedItems + [item];
        }
      }
      assert entries[..|entries|] == entries;
      stagedItems := SortBy(stagedItems, PathOf);
      unstagedItems := SortBy(unstagedItems, PathOf);
      r := Ok(());
    }
  }
}
