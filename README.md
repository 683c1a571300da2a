# gooey-git model layer in Dafny

gooey-git is a GTK desktop client for git built on libgit2. Between its panels and libgit2 sits a small model layer, and this project models that layer:

- **the repository session** (`RepositoryModel`): at most one open repository, plus its display path, its display name and an ordered list of change callbacks;
- **the status projection** (`StatusModel`, `status_to_text`, `StatusEntry`): the staged and unstaged lists, each sorted by path, with a label per file;
- **the branch projection** (`BranchModel`, `get_branches`, `get_current_branch`, `checkout_branch`);
- **the commit history projection** (`get_commit_history`, `short_id`, `Display for Commit`, `create_commit`, `CommitModel`).

Each source file is a module:

| module | source file |
|---|---|
| `Repositories` | `src/models/repository_model.rs` |
| `GitStatus` | `src/git/status.rs` |
| `StatusModels` | `src/models/status_model.rs` |
| `GitBranch` | `src/git/branch.rs` |
| `BranchModels` | `src/models/branch_model.rs` |
| `GitCommit` | `src/git/commit.rs` |
| `CommitModels` | `src/models/commit_model.rs` |

Three support modules hold the shared machinery:

- `Backend`:
  - the `Option` and `Result` types and `GitError`;
  - `Oks`, which drops failed items;
  - `Run`, which executes a chain of libgit2 calls that ends at the first `?` that fails.
- `Ordering`:
  - Rust's `str` ordering as `Less`;
  - the stable sort `SortBy`, used for `sort` and `sort_by`.
- `Paths`: `Path::file_name` and `OsStr::to_str`.

The four model structs are classes. Their fields are the struct's fields, and each method states the new state in full. Loops in the source are methods with loop invariants, proved against the recursive functions that specify them.

libgit2 is not modelled; every call into it becomes a parameter:

- **A finished outcome.** This covers `Repository::discover`, `statuses`, `branches`, `head`, the revwalk oids and `signature`. The parameter is a `Result` value.
- **A step in a chain.** For `index`, `add_path`, `write`, `head`, `peel`, `reset_default`, `revparse_single`, `checkout_tree` and `set_head`, the parameter is a function `fails: Call -> Option<GitError>`. The operation then returns a `Trace`: the calls it made, in order, and its outcome.
- **A lookup.** `find_commit` and the backend's `commit` are functions `find` and `write`.

Change callbacks are opaque identities. The session records a log of the callbacks it calls, in call order. Each entry holds the callback's registration slot and the path and name the session held when it ran.

### Behaviour a reader might not expect

The model follows the code, including these points, where a reader might expect something different from a client like this one.

- **A path is never in both lists.** One might expect a partially staged file in both the staged and unstaged lists. `update` puts each entry in exactly one list, chosen by `is_staged` (`src/models/status_model.rs:44-48`).
- **Labels are run together.** One might expect one label per file, with Conflicted or Ignored taking precedence. `status_to_text` joins the index label, the working-tree label, and then Conflicted or Ignored (`src/models/status_model.rs:80-111`).
- **Branch names are not de-duplicated.** One might expect unique names. `update` pushes one name per named branch (`src/models/branch_model.rs:25-32`).
- **A stale current branch survives.** One might expect the current branch to clear when HEAD is detached. `update` never clears it, so it can name a branch that is no longer listed (`src/models/branch_model.rs:26-29`).
- **A failed refresh empties the lists.** One might expect a failed refresh to keep the previous lists. `update` empties them before the backend call (`src/models/status_model.rs:30-33`, `src/models/branch_model.rs:20-23`, `src/models/commit_model.rs:23-25`).
- **`close` always notifies,** even when nothing was open (`src/models/repository_model.rs:67-74`).
- **There is no unsubscribe and no re-entrancy guard.** Callbacks can only be added (`src/models/repository_model.rs:27-41`).
- **The name does not decide whether a session is open.** "No Repository" is the closed name, but an open repository whose working directory has that name shows it too (`NameDoesNotDecideOpen`).

## Model

| member | source | states |
|---|---|---|
| Backend.Oks | src/git/branch.rs:43-47 | keeps exactly the successful items: every `Ok` item is kept, nothing else appears, and the count is the number of items less the failures |
| Backend.OksAppend | src/git/branch.rs:43-47 | filtering a concatenation is concatenating the filtered parts (so the order of the items is kept) |
| Backend.Run | src/git/status.rs:57-62 | a `?` chain: the calls made are a prefix of the plan; the result is `Ok` iff every planned call succeeds, and then all were made; on an error every earlier call succeeded and the last call made failed with that error |
| Ordering.LessIrreflexive | src/models/branch_model.rs:35 | no string sorts before itself under Rust's `str` order |
| Ordering.LessTransitive | src/models/branch_model.rs:35 | Rust's `str` order is transitive |
| Ordering.LessTotal | src/models/branch_model.rs:35 | of two different strings, one sorts before the other |
| Ordering.NotAfterTransitive | src/models/branch_model.rs:35 | "not after" is transitive, so it is a total preorder on strings |
| Ordering.NotAfterOfLess | src/models/branch_model.rs:35 | sorting strictly before implies not after |
| Ordering.Insert | src/models/status_model.rs:52-53 | insertion keeps the multiset of elements and adds one to the length |
| Ordering.SortBy | src/models/status_model.rs:52-53 | sorting keeps the multiset of elements and the length |
| Ordering.InsertSorted | src/models/status_model.rs:52-53 | inserting into a sorted list keeps it sorted by key |
| Ordering.SortBySorted | src/models/status_model.rs:52-53 | the sort's result is ascending by key |
| Ordering.KeyRunAppend | src/models/status_model.rs:52-53 | the elements with one key in a concatenation are those of the first part, then those of the second |
| Ordering.KeyRunNone | src/models/status_model.rs:52-53 | a list with no element of key `k` has an empty run for `k` |
| Ordering.InsertKeyRun | src/models/status_model.rs:52-53 | insertion after all elements whose key is not after the new one appends it at the end of its key's run |
| Ordering.SortByStable | src/models/status_model.rs:52-53 | the sort is stable: elements with equal keys keep their relative order |
| Ordering.SortByCorrect | src/models/status_model.rs:52-53 | `sort_by` on a key: ascending, a permutation of the input, and stable |
| Paths.FileName | src/models/repository_model.rs:51-52 | the final component is returned iff the path ends in a normal component |
| Repositories.DisplayName | src/models/repository_model.rs:51-55 | the name is the final component's text when that component is normal and valid Unicode, and "Unknown" when the path is empty or ends in root or `..`; any other name is the final component |
| Repositories.Round | src/models/repository_model.rs:35-41 | in one notification round over `n` callbacks, slot `k` is the `k`-th call, and every call observes the same path and name |
| Repositories.CallsToAppend | src/models/repository_model.rs:35-41 | the calls to a callback in two consecutive logs add up |
| Repositories.RoundCallsEachOnce | src/models/repository_model.rs:35-41 | one notification round calls each registered callback exactly once and no other |
| Repositories.OpenCloseLog | src/models/repository_model.rs:57-73 | after `open` then `close`, each of the `n` callbacks has been called exactly twice: first seeing the opened path and name, then seeing the closed session, both rounds in registration order |
| Repositories.NameDoesNotDecideOpen | src/models/repository_model.rs:51-59 | an open repository whose working directory is called "No Repository" displays the closed name |
| Repositories.RepositoryModel.constructor | src/models/repository_model.rs:17-24 | no repository, no path, name "No Repository", no callbacks; the invariant holds |
| Repositories.RepositoryModel.ConnectChanged | src/models/repository_model.rs:27-32 | the callback is appended after the existing ones, which keep their order |
| Repositories.RepositoryModel.NotifyChanged | src/models/repository_model.rs:35-41 | the log grows by one round: one call per registered callback, in registration order, each observing the current path and name |
| Repositories.RepositoryModel.Open | src/models/repository_model.rs:43-65 | a failed discovery returns its error with the three fields unchanged and no notification; on success the path is the working directory or, for a bare repository, the git directory, the name is derived from it, the invariant holds, and exactly one notification round fires, in which every callback observes the new path and name |
| Repositories.RepositoryModel.Close | src/models/repository_model.rs:67-74 | always clears the repository and path and sets the name to "No Repository", even when already closed; then notifies every callback once, each observing the closed session |
| Repositories.RepositoryModel.IsOpen | src/models/repository_model.rs:76-78 | under the invariant, open iff a path is held; when closed the name is "No Repository" |
| Repositories.OpenThenClose | src/models/repository_model.rs:43-74 | a successful open then close ends closed and valid, with the callbacks unchanged; the log gains a round observing the opened repository, then a round observing the closed session |
| GitStatus.PredicatesSeeOneSide | src/git/status.rs:12-33 | `is_new`, `is_modified`, `is_deleted` and `is_renamed` ignore the index flags; `is_staged` ignores the working-tree flags; an index type change alone is not staged |
| GitStatus.Entries | src/git/status.rs:47-52 | one entry per backend entry |
| GitStatus.GetStatus | src/git/status.rs:36-55 | a failed scan returns its error; otherwise one entry per backend entry, in backend order, with the same flags and the path, or "" when the path is not UTF-8 |
| GitStatus.StageFile | src/git/status.rs:57-62 | succeeds iff opening, adding and writing the index all succeed; the index is written only after the first two succeeded; a failure to open the index stops everything |
| GitStatus.UnstageFile | src/git/status.rs:64-71 | succeeds iff reading HEAD, peeling it and the reset all succeed; if HEAD cannot be read or peeled, no reset is attempted and an error is returned |
| StatusModels.StatusToText | src/models/status_model.rs:75-118 | the label is never empty, and is "Unknown" iff none of the flags a label reacts to is set |
| StatusModels.StagedIffIndexLabel | src/git/status.rs:28-33 | an entry is staged iff its index label exists and is not "Type Changed" |
| StatusModels.ParseConcat | src/models/status_model.rs:80-111 | labels run together split back into the same labels, because no label is a prefix of another's start |
| StatusModels.TextDecodes | src/models/status_model.rs:80-117 | whenever some label applies, the text is the index label, then the working-tree label, then Conflicted or Ignored, run together, and it decodes back to exactly those labels |
| StatusModels.ConcatAppend | src/models/status_model.rs:80-111 | joining two label lists is joining their texts |
| StatusModels.LabelPrecedence | src/models/status_model.rs:81-111 | index-new leads with "New"; Conflicted ends the text; Ignored ends it only without a conflict |
| StatusModels.ItemsWhere | src/models/status_model.rs:44-48 | every item in a list has `is_staged` equal to that list's side |
| StatusModels.ItemsPartition | src/models/status_model.rs:35-49 | the two lists together hold each entry's item exactly once, and their lengths add up to the number of entries |
| StatusModels.EntryPlacement | src/models/status_model.rs:44-48 | an entry's item is in the staged list iff `is_staged`, and in the unstaged list iff not |
| StatusModels.Projection | src/models/status_model.rs:35-53 | both lists are sorted by path; together they are a permutation of all items; every `is_staged` field matches its list; entries with equal paths keep their scan order |
| StatusModels.SortedList | src/models/status_model.rs:52-53 | sorting a list whose items share one side gives a sorted, stable list of that side |
| StatusModels.StatusModel.constructor | src/models/status_model.rs:22-27 | both lists start empty |
| StatusModels.StatusModel.Update | src/models/status_model.rs:29-56 | a failed scan returns its error with both lists empty; otherwise the lists are the projection of the scanned entries |
| GitBranch.HeadPredicatesAgree | src/git/branch.rs:17-27 | `is_head`, `is_current` and `is_checked_out` always agree |
| GitBranch.GetBranches | src/git/branch.rs:39-50 | a failed listing returns its error; otherwise exactly the successfully loaded branches, in backend order, one fewer per failure |
| GitBranch.GetCurrentBranch | src/git/branch.rs:52-60 | HEAD's error is passed on; a HEAD outside `refs/heads/` gives "HEAD is not a branch"; any success is a branch reference |
| GitBranch.LocalRef | src/git/branch.rs:63-67 | the reference name is under `refs/heads/`, and removing that prefix gives back the branch name |
| GitBranch.LocalRefInjective | src/git/branch.rs:63-67 | different branch names give different reference names |
| GitBranch.CheckoutBranch | src/git/branch.rs:62-70 | succeeds iff resolving, checking out and setting HEAD all succeed; resolving `refs/heads/<name>` comes first; HEAD is set only to that same name, and only after the first two steps succeeded |
| BranchModels.Names | src/models/branch_model.rs:25-32 | exactly one name per branch whose name loaded; the branches without a usable name add nothing |
| BranchModels.NamesCount | src/models/branch_model.rs:25-32 | no de-duplication: each name is listed as often as branches carry it |
| BranchModels.NamesExact | src/models/branch_model.rs:26-30 | a string is listed iff some branch whose name loaded has it |
| BranchModels.CurrentAfterListed | src/models/branch_model.rs:26-31 | if a branch was HEAD, the remembered branch is set and listed; if none was, the previous value is kept |
| BranchModels.CurrentAfterLastHead | src/models/branch_model.rs:27-29 | the last named branch reporting HEAD is the one remembered |
| BranchModels.StaleCurrentBranch | src/models/branch_model.rs:20-29 | a branch remembered from before survives a refresh with no HEAD branch, although it is no longer listed |
| BranchModels.RefreshShows | src/models/branch_model.rs:25-35 | the shown names are sorted ascending; each name appears as often as branches carry it, one entry per named branch; the remembered branch is among them whenever a branch was HEAD |
| BranchModels.BranchModel.constructor | src/models/branch_model.rs:12-17 | no branches, no current branch |
| BranchModels.BranchModel.Update | src/models/branch_model.rs:19-38 | a failed listing returns its error, empties the names and keeps the remembered branch; otherwise the names of the loaded, named branches are sorted and the remembered branch is updated by the last HEAD branch |
| GitCommit.HexDigit | src/git/commit.rs:21 | a value below 16 becomes a lower-case hex digit |
| GitCommit.Hex | src/git/commit.rs:21 | two hex digits per byte |
| GitCommit.HexAppend | src/git/commit.rs:21 | the hex text of a concatenation is the concatenation of the hex texts |
| GitCommit.ShortId | src/git/commit.rs:19-22 | the first seven characters of the hex id; it cannot fail, because the hex id has 40 characters |
| GitCommit.ShortIdOfPrefix | src/git/commit.rs:19-22 | the short id depends only on the id's first four bytes |
| GitCommit.DisplayParts | src/git/commit.rs:58-67 | the display is the short id, then " - ", then the summary or "no summary"; it starts with a hex digit, so the "unknown" fallback never shows |
| GitCommit.Walked | src/git/commit.rs:76-85 | a successful walk has one commit per successfully walked oid, in walk order, each found by its oid |
| GitCommit.WalkedAborts | src/git/commit.rs:81-83 | the walk fails iff some walked oid's commit cannot be found, and then with the error of the first such lookup |
| GitCommit.WalkedErrPersists | src/git/commit.rs:82 | once a lookup has failed, looking at more oids does not change the error |
| GitCommit.HistoryBounded | src/git/commit.rs:70-88 | a history has the first `count` oids' length less their failed oids, which is at most `count`, each commit found from those oids in order |
| GitCommit.GetCommitHistory | src/git/commit.rs:70-88 | the history: a revwalk failure, the first failed lookup among the first `count` oids, or the commits of the successful ones among them, in order |
| GitCommit.CreateCommit | src/git/commit.rs:90-98 | without a default signature its error is returned and nothing is written; otherwise the commit written updates "HEAD" with that one signature as author and committer |
| CommitModels.CommitItemOf | src/models/commit_model.rs:28-43 | the row's id is a seven-digit hex prefix of the commit id; the summary defaults to "", the author to "Unknown"; the date comes from the commit time |
| CommitModels.CommitItems | src/models/commit_model.rs:27-46 | one row per commit |
| CommitModels.CommitItemsAt | src/models/commit_model.rs:27-46 | row `k` is the row of commit `k`, so the order is kept |
| CommitModels.CommitModel.constructor | src/models/commit_model.rs:16-20 | no rows |
| CommitModels.CommitModel.Update | src/models/commit_model.rs:22-49 | a failed history returns its error with no rows; otherwise one row per history commit, in the same order |
| CommitModels.RefreshShows | src/models/commit_model.rs:22-49 | at most `count` rows, row `j` being the row of the commit found for the `j`-th successfully walked oid |

## Left out

- The GTK/libadwaita UI (`src/ui/*`) and `src/main.rs` are not modelled: they are widget construction and signal wiring.
  - The empty-message guard in the commit dialog is not modelled either. It never reaches `create_commit`, and `CreateCommit` accepts any message, as the git layer does.
- `src/git/repository.rs` is a pass-through to `git2::Repository` and is not part of this model. Its results arrive as the `Repo` value handed to `Open`.
- libgit2 itself is a set of parameters. This includes:
  - how discovery walks upward;
  - what a status scan, `add_path`, `write`, `reset_default`, `checkout_tree` or `set_head` does to the repository on disk;
  - how a revwalk orders commits.

  Nothing is said about the repository on disk.
- Creating the revwalk and pushing HEAD are one parameter `walk`. It fails if either fails.
- `formatDate` stands in for the chrono date conversion and formatting, including its epoch fallback. The date is an arbitrary function of the commit's seconds.
- Callbacks are identities in a call log. What a callback does is not modelled. Callbacks are assumed not to call back into the session. The code has no guard against that, so a re-entrant `open` or `close` is not modelled.
- `Rc`/`RefCell` sharing and `glib::clone!` capture semantics are not modelled. The session is one object, reached by reference.
- The getters (`name`, `path`, `repo`, `staged_items`, `unstaged_items`, `branches`, `current_branch`, `commits`) are read as the class fields.
- `StatusModel::stage_file`, `StatusModel::unstage_file` and `BranchModel::checkout_branch` pass their arguments straight to `StageFile`, `UnstageFile` and `CheckoutBranch`, and are not modelled separately.
- Ids are SHA-1 only (20 bytes). SHA-256 object ids are not modelled.
- Paths are modelled as their component list. Windows prefixes are not modelled.
- Status flags are modelled as a set. The options passed to the status scan (untracked files, renames, recursion) only shape what the scan returns, so they are not modelled.
- `Commit::id`, `message`, `time`, `author`, `committer`, `parent_count`, `parent_id`, `parent` and `get_commit_by_id` are one-line accessors of libgit2 commits and are not modelled. The fields the model reads are the fields of `Commit`.
- `Branch::upstream`, `Branch::delete` and `create_branch` call libgit2 directly, and no model type uses them. They are not part of this model.
- GitCommit.ShortId: total, with no error result. The source's `Result` can never be `Err`, so the model has no Err case. As a result, the `?` in `CommitModel::update` and the "unknown" branch of `Display` have no counterpart.
- GitCommit.Walked: its own contract covers the successful walk only. The failure case is stated by `WalkedAborts`.
