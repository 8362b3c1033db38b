# git-nomad, modelled in Dafny

git-nomad keeps the branches of one user in sync across the clones ("hosts") that user works
in. Each host pushes its branches to a shared remote under `refs/nomad/<user>/<host>/<branch>`,
fetches the other hosts' branches into local refs `refs/nomad/<host>/<branch>`, and prunes the
tracking refs whose branch is gone. This project models the logic at the heart of that
reconciliation and proves what it promises:

- the namespace codec: ref names and refspecs, in both directions (`Namespace`, `namespace.dfy`);
- the parsers of git's line output: `GitRef` lines and the `LineArity` classification
  (`GitRefs`, `git_ref.dfy`; `Arity`, `line_arity.dfy`);
- the snapshot and the prune engine: which tracking refs to delete, and where
  (`Snapshots`, `snapshot.dfy`), plus the grouped listing `ls` prints (`Listing`, `listing.dfy`);
- the git layer: classification of `git show-ref` output into a snapshot, reading the remote,
  and `prune_nomad_refs`, which deletes from the remote before deleting locally
  (`GitBinary`, `git_binary.dfy`);
- the workflows `sync`, `ls` and `purge` and their dispatch (`Workflows`, `workflow.dfy`).

Git is not run. It is an environment `Git(fails, stdout)`: given the history of commands run so
far (a trace of `Op`s: `Push`, `Fetch`, `ListRemote`, `ShowRef`, `DeleteRef`), it says whether the
latest command fails and what it prints. Every operation threads that trace through an
`Outcome`, which is `Done(trace, value)` or `Failed(trace, cause)`. `:-` plays the part of Rust's
`?`. The ordering properties are stated over the resulting trace. `Faithful` says that a trace
stops at the first command that failed and that every earlier command succeeded.

Supporting modules are `Wrappers` (`Option`, `Result`), `Types` (user, host, branch, nomad ref),
`Strings` (split, join, prefixes), `Seqs` (an order-preserving `FilterMap` with the positions it
keeps) and `Order` (the lexicographic order of Rust strings).

Where the description of the system and the code disagree, the model follows the code:

- The local reader accepts `refs/nomad/<host>` with no branch segment and reads it as the empty
  branch (`Namespace.LocalAcceptsMissingBranch`).
- In this version of the code, `purge` takes a `PurgeFilter`: everything, or a set of hosts.
  There is no general allow/deny filter.
- `sync` and `ls` print their listing. Here the listing is the value the workflow returns.
- `sync` is modelled with the reader of the remote listing as a parameter (`GitBinary.RemoteReader`):
  `FiveSegments` is the program's `from_git_remote_ref`, and `Execute` uses it; `Rejoining` is the
  corrected reader of the finding below. Every ordering and crash-safety property of `sync` is
  proved for both, and `Workflows.SyncReadersAgree` shows the two runs are the same whenever no
  ref of the snapshot has a `/` in its branch.

## Model

| member | source | states |
|---|---|---|
| Namespace.FetchRefspecMapsRemoteToLocal | src/git_binary.rs:58-73 | the fetch refspec is `+` + the list pattern + `:refs/nomad/*`; the pattern matches the remote name of any ref of the user, and the destination expands the match to that ref's local name |
| Namespace.PushRefspecMapsBranches | src/git_binary.rs:75-86 | the push refspec is `+refs/heads/*:refs/nomad/<user>/<host>/*`; it maps each branch `refs/heads/<b>` to the remote name of (user, host, b) |
| Namespace.ListRefspecSelectsUser | src/git_binary.rs:57-60 | for slash-free user names, the list pattern of a user matches the remote name of a ref exactly when that ref belongs to the user |
| Namespace.ListRefspec | src/git_binary.rs:57-60 | `refs/nomad/<user>/*`; what the pattern selects is stated by `ListRefspecSelectsUser` |
| Namespace.FetchRefspec | src/git_binary.rs:62-73 | `+` + the list pattern + `:refs/nomad/*`; the mapping it performs is stated by `FetchRefspecMapsRemoteToLocal` |
| Namespace.PushRefspec | src/git_binary.rs:75-86 | `+refs/heads/*:refs/nomad/<user>/<host>/*`; the mapping it performs is stated by `PushRefspecMapsBranches` |
| Namespace.ToGitLocalRef | src/git_binary.rs:88-93 | `refs/nomad/<host>/<branch>`; inverted by the local reader (`LocalRoundTrip`) |
| Namespace.ToGitRemoteRef | src/git_binary.rs:95-102 | `refs/nomad/<user>/<host>/<branch>`; inverted by the rejoining reader (`RemoteRoundTrip`), and by the program's reader only for slash-free branches |
| Namespace.FromGitLocalRef | src/git_binary.rs:108-128 | a rejected ref comes back unchanged; an accepted one carries the given user, the original ref and a slash-free host |
| Namespace.LocalRoundTrip | src/git_binary.rs:91-93 | for a slash-free host and any branch, slashes included, reading the local name gives back the host, the branch and the supplied user |
| Namespace.LocalAcceptsIff | src/git_binary.rs:112-127 | the local reader accepts a name exactly when it starts with `refs/nomad/` |
| Namespace.LocalAcceptsMissingBranch | src/git_binary.rs:114-122 | `refs/nomad/<host>` with no branch segment is accepted, as the empty branch |
| Namespace.HeadsAreNotNomad | src/git_binary.rs:113-126 | a `refs/heads/...` ref is refused by the local reader |
| Namespace.WrongPrefixRejected | src/git_binary.rs:243-251 | `refs/something/user/host/branch` is refused, unchanged, by the local reader and by both remote readers |
| Namespace.FromGitRemoteRefAsWritten | src/git_binary.rs:132-149 | the remote reader as written: a rejected ref comes back unchanged; an accepted one is the remote name of what it returns, with user, host and branch all slash-free |
| Namespace.RemoteAsWrittenAcceptsIff | src/git_binary.rs:134-148 | the reader as written accepts exactly the names under `refs/nomad/` with four slashes, that is five segments |
| Namespace.RemoteRoundTripAsWritten | src/git_binary.rs:220-239 | with slash-free user, host and branch, the reader as written reads a remote name back to the same user, host and branch |
| Namespace.AsWrittenRejectsSlashedBranch | src/git_binary.rs:97-102 | the remote name of a branch that contains `/` is refused by the reader as written |
| Namespace.FromGitRemoteRef | src/git_binary.rs:132-149 | the corrected remote reader: a rejected ref comes back unchanged; an accepted one is the remote name of what it returns, with slash-free user and host |
| Namespace.RemoteRoundTrip | src/git_binary.rs:97-102 | with slash-free user and host and any branch, the corrected reader reads a remote name back to the same user, host and branch |
| Namespace.RemoteReadersAgree | src/git_binary.rs:132-149 | whatever the five-segment reader accepts, the rejoining reader reads the same way; a rejoined branch without `/` came from a name the five-segment reader accepts identically |
| Namespace.RemoteAcceptsIff | src/git_binary.rs:134-148 | the corrected reader accepts exactly the names under `refs/nomad/` with at least four slashes |
| GitRefs.Display | src/git_ref.rs:27-37 | the rendering of a parse error ends with the offending line, verbatim |
| GitRefs.ParseCharDelimitedLine | src/git_ref.rs:49-65 | every error carries the input line verbatim; a success has non-empty, delimiter-free commit and name and rebuilds the line |
| GitRefs.ParseShowRefLine | src/git_ref.rs:68-70 | a success is commit id, one space, name, neither containing a space; an error carries the line |
| GitRefs.ParseLsRemoteLine | src/git_ref.rs:73-75 | a success is commit id, one tab, name, neither containing a tab; an error carries the line |
| GitRefs.ParseLineRoundTrip | src/git_ref.rs:49-65 | for non-empty, delimiter-free commit and name, parsing `commit + d + name` gives exactly that ref |
| GitRefs.MissingNameIff | src/git_ref.rs:51-54 | `MissingName` exactly when the line is empty or ends with the delimiter |
| GitRefs.SingleFieldMissingCommitId | src/git_ref.rs:55-58 | a non-empty line without a delimiter is `MissingCommitId` |
| GitRefs.EmptyCommitFieldMissingCommitId | src/git_ref.rs:55-58 | an empty field before a valid name is `MissingCommitId` |
| GitRefs.ExtraFieldTooManyParts | src/git_ref.rs:60-62 | a third field in front of a valid commit and name is `TooManyParts` |
| GitRefs.ShowRefParses | src/git_ref.rs:83-91 | `commit_id refs/heads/master` parses as a `show-ref` line into that commit and name |
| GitRefs.ShowRefEmptyLine | src/git_ref.rs:104-106 | the empty `show-ref` line is `MissingName("")` |
| GitRefs.ShowRefMissingCommitId | src/git_ref.rs:109-116 | a name alone, or a name after a leading space, is `MissingCommitId` of that line |
| GitRefs.ShowRefTooManyParts | src/git_ref.rs:119-124 | three space-separated fields are `TooManyParts` of that line |
| Arity.Lines | src/git_binary.rs:711-712 | the lines of an output hold no newline, and there are none exactly for the empty output |
| Arity.LinesOfTerminated | src/git_binary.rs:711-712 | newline-free lines without a trailing carriage return, each written with a newline, are read back unchanged |
| Arity.FromOutput | src/git_binary.rs:707-730 | `Zero` exactly for `""`, `"\n"` and `"\r\n"`; `Many`, keeping the whole output, exactly when a newline comes before the last character; otherwise `One` of the single non-empty line |
| Arity.ExactlyOne | src/git_binary.rs:733-740 | succeeds exactly on `One`, with its line, and the error names the arity it got |
| Arity.ZeroOrOne | src/git_binary.rs:742-749 | fails exactly on `Many`; `Zero` gives no line and `One` its line |
| Arity.NoLineExamples | src/git_binary.rs:753-769 | the outputs `""` and `"\n"` hold no line: `one` fails and `zero_or_one` gives `None` |
| Arity.OneLineExamples | src/git_binary.rs:771-785 | `"line"` and `"line\n"` both give `"line"` from `one` and `Some("line")` from `zero_or_one` |
| Arity.TwoLinesExample | src/git_binary.rs:787-793 | `"line\nanother\n"` makes both conversions fail |
| Snapshots.CheckOwners | src/snapshot.rs:36-38 | the per-ref check passes exactly when every ref belongs to the user |
| Snapshots.New | src/snapshot.rs:31-45 | a snapshot exists exactly when every ref belongs to the user, and it stores both collections unchanged (`None` stands for the panic) |
| Snapshots.PruneDeletedBranches | src/snapshot.rs:52-76 | every entry is about a ref of the snapshot and only a stale one; it is `LocalAndRemote` exactly when the ref is this host's |
| Snapshots.PruneDeletedBranchesOrder | src/snapshot.rs:63-75 | the result is an order-preserving subsequence, one entry per stale ref and none for the others |
| Snapshots.PruneDeletedBranchesMembership | src/snapshot.rs:65-72 | own-host rule: `LocalAndRemote(n)` exactly when `n` is this host's and its branch is gone; other-host rule: `LocalOnly(n)` exactly when `n` is another host's and the remote lacks it |
| Snapshots.PruneDependsOnListedRefs | src/snapshot.rs:70-72 | two remote sets that agree on the identities of the snapshot's refs give the same prune |
| Snapshots.PruneNothingIff | src/snapshot.rs:187-219 | nothing is pruned exactly when every own-host branch exists and the remote has every other-host ref |
| Snapshots.PruneDoesNothing | src/snapshot.rs:187-205 | the unit-test snapshot with all branches and remote refs present prunes nothing |
| Snapshots.PruneRemovesLocalMissingBranch | src/snapshot.rs:231-268 | in the unit-test snapshot, a missing own-host branch is pruned locally and remotely |
| Snapshots.PruneRemovesRemoteMissingBranch | src/snapshot.rs:272-293 | in the unit-test snapshot, an other-host ref the remote lacks is pruned locally only |
| Snapshots.PruneAll | src/snapshot.rs:79-85 | one `LocalAndRemote` entry per ref, position by position |
| Snapshots.PruneAllByHosts | src/snapshot.rs:88-100 | every entry is `LocalAndRemote`, about a ref of the snapshot whose host is in the set |
| Snapshots.PruneAllByHostsOrder | src/snapshot.rs:88-100 | the result keeps, in order, exactly the refs whose host is in the set |
| Snapshots.PruneAllByHostsCoversAll | src/snapshot.rs:327-348 | when the set holds every host of the snapshot, the result is that of `prune_all` |
| Snapshots.PruneHostsExample | src/snapshot.rs:327-348 | in the unit-test snapshot, selecting `host0` prunes exactly its two refs, in order |
| Listing.InsertHost | src/snapshot.rs:106-114 | inserting a host keeps the host list strictly ascending and adds exactly that host |
| Listing.HostsOf | src/snapshot.rs:106-114 | the hosts of the refs: strictly ascending, and exactly the hosts that own a ref |
| Listing.Group | src/snapshot.rs:109-113 | every ref of a host's group has that host, and the group is non-empty exactly when the host owns a ref |
| Listing.InsertByBranch | src/snapshot.rs:119 | inserting into a list ordered by branch keeps it ordered and adds exactly the one ref |
| Listing.SortByBranch | src/snapshot.rs:119 | the result is ordered by branch name and is a permutation of the input |
| Listing.SortedHostsAndBranches | src/snapshot.rs:103-126 | hosts strictly ascending, exactly the hosts that own a ref, every group non-empty, owned by its host and ordered by branch |
| Listing.SortedHostsAndBranchesPermutes | src/snapshot.rs:103-126 | the groups, put one after the other, are a permutation of the snapshot's refs |
| GitBinary.Run | src/verbosity.rs:136-147 | a command appends exactly itself to the trace and fails exactly when the environment says so |
| GitBinary.ParseLines | src/git_binary.rs:438-462 | success parses every line, position by position; failure reports the first line that does not parse |
| GitBinary.FetchRefspecs | src/git_binary.rs:355-380 | one fetch command with exactly the refspecs given, failing as the environment says |
| GitBinary.PushRefspecs | src/git_binary.rs:382-409 | one push command with exactly the refspecs given, failing as the environment says |
| GitBinary.ListRefs | src/git_binary.rs:438-462 | one `show-ref`, whose output lines are parsed with a space delimiter |
| GitBinary.ListRemoteRefs | src/git_binary.rs:464-493 | one `ls-remote`, whose output lines are parsed with a tab delimiter |
| GitBinary.DeleteRefCmd | src/git_binary.rs:495-509 | one delete command for exactly the ref and commit given |
| GitBinary.LocalBranches | src/git_binary.rs:572-574 | a branch is local exactly when some listed ref is `refs/heads/` followed by its name |
| GitBinary.NomadRefsOfSpec | src/git_binary.rs:576-578 | the nomad refs are, in listing order, exactly the listed refs under `refs/nomad/`, each carrying its ref and the snapshot's user |
| GitBinary.ClassifyRefs | src/git_binary.rs:568-579 | the classification loop produces exactly the local branches and the nomad refs above |
| GitBinary.TakeSnapshot | src/git_binary.rs:561-582 | one `show-ref`; success exactly when the listing parses, with the classified branches and refs, all owned by the user |
| GitBinary.RemoteKeysContain | src/git_binary.rs:97-102 | corrected half of the finding: with the rejoining reader, a listed remote name that `to_git_remote_ref` wrote for a slash-free user and host is recognised, whatever its branch |
| GitBinary.SlashedBranchPrunedAsWritten | src/git_binary.rs:621-623 | with the reader as written, another host's ref whose branch holds `/` is pruned locally although the remote lists it; with the corrected reader it is kept |
| GitBinary.FetchNomadRefs | src/git_binary.rs:585-597 | one fetch of the user's fetch refspec |
| GitBinary.ListNomadRefs | src/git_binary.rs:603-624 | one `ls-remote` of the user's pattern; it succeeds exactly when the listing parses, and gives the identities the chosen reader accepts. With `FiveSegments`, the program's reader, refused names are dropped as `.ok()` drops them |
| GitBinary.RemoteKeys | src/git_binary.rs:621-623 | the identities the rejoining reader finds in a listing, characterised by `KeysParsedBy` |
| GitBinary.RemoteKeysAsWritten | src/git_binary.rs:621-623 | the identities the program's five-segment reader finds in a listing, characterised by `KeysParsedBy` |
| GitBinary.KeysParsedBy | src/git_binary.rs:621-623 | an identity is in the set exactly when some listed ref is accepted by the reader and read as that identity |
| GitBinary.RemoteKeysAgree | src/git_binary.rs:621-623 | on every identity whose branch has no `/`, the two readers find the same keys |
| GitBinary.PushNomadRefs | src/git_binary.rs:627-640 | one push of the host's push refspec |
| GitBinary.RemoteDeletesSpec | src/git_binary.rs:652-655 | one `":" + remote name` refspec per `LocalAndRemote` entry, in order, and none for the others |
| GitBinary.RemoteDeletesEmptyIff | src/git_binary.rs:668 | there is no remote refspec exactly when no entry is `LocalAndRemote` |
| GitBinary.PartitionPrune | src/git_binary.rs:649-665 | the partition loop yields exactly those refspecs and one local ref per entry, in order |
| GitBinary.DeleteAll | src/git_binary.rs:684-690 | the deletes run in order and stop at the first failure; all of them run when none fails |
| GitBinary.PruneNomadRefs | src/git_binary.rs:643-693 | what runs is a prefix of the plan (the push if any, then the deletes), all of it when nothing fails, stopping at the first failure |
| GitBinary.PrunePlan | src/git_binary.rs:667-690 | the commands a prune runs when nothing fails; their shape is stated by `PrunePlanShape` |
| GitBinary.PrunePlanShape | src/git_binary.rs:667-690 | the plan is one push first exactly when some entry leaves the remote, then one delete per entry, in order |
| GitBinary.PruneRemoteBeforeLocal | src/git_binary.rs:667-690 | a local delete of a `LocalAndRemote` entry comes after the push, which succeeded and carried that entry's refspec |
| GitBinary.PushCarriesRefspec | src/git_binary.rs:652-655 | the remote-delete push names every `LocalAndRemote` entry |
| GitBinary.PruneLocalOnlyPushesNothing | src/git_binary.rs:668-675 | with no `LocalAndRemote` entry, nothing is pushed: every command run is a local delete |
| Workflows.RunLs | src/workflow.rs:79-91 | `ls` takes one fresh snapshot and returns its refs grouped by host |
| Workflows.RunSync | src/workflow.rs:55-73 | `sync` runs push, fetch, `ls-remote` and `show-ref` first, in that order, and returns a listing when it finishes exactly when output is allowed; it takes the remote reader as a parameter, and the program is `FiveSegments` |
| Workflows.SyncPruneListOfInputs | src/workflow.rs:58-64 | `sync` goes on to prune exactly when its first four commands succeed, and then prunes what `prune_deleted_branches` picks from the snapshot against the identities the reader finds in the raw `ls-remote` listing |
| Workflows.SyncReadersAgree | src/workflow.rs:55-73 | when no ref of the snapshot has a `/` in its branch, the program's `sync` and the one with the rejoining reader prune the same refs and run identically |
| Workflows.SyncDeletesSlashedBranchAsWritten | src/workflow.rs:58-65 | the program's `sync` prunes, locally only, another host's ref whose branch holds `/` while the remote lists it, and a run that finishes has deleted it; the rejoining reader does not prune it |
| Workflows.SyncDeletesEveryEntry | src/workflow.rs:60-65 | a `sync` that finishes has deleted, here, the ref of every entry of its prune list |
| Workflows.PurgeSelection | src/workflow.rs:97-100 | every selected entry is `LocalAndRemote` and about a ref of the snapshot; `All` selects every ref, in order, one entry each; with a host filter, exactly the refs whose host is in the set are selected |
| Workflows.RunPurge | src/workflow.rs:94-103 | `purge` starts with a fetch and then a `show-ref` |
| Workflows.Execute | src/workflow.rs:39-52 | every workflow stops at the first failed command; `ls` always returns a listing, `purge` never does, `sync` exactly when output is allowed; `sync` reads the remote with the program's five-segment reader |
| Workflows.SyncFaithful | src/workflow.rs:55-65 | `sync` runs nothing after a command that failed |
| Workflows.PurgeFaithful | src/workflow.rs:94-102 | `purge` runs nothing after a command that failed |
| Workflows.SyncPrunesAgainstRemoteListing | src/workflow.rs:58-65 | past its first four commands, `sync` prunes what `prune_deleted_branches` picks from the snapshot and the `ls-remote` identities |
| Workflows.SyncRunsPlan | src/workflow.rs:60-70 | after the snapshot, `sync` runs a prefix of the prune plan followed by the listing, all of it when nothing fails |
| Workflows.PruneThenListAfterHead | src/workflow.rs:55-65 | when the commands before the prune delete nothing, a local delete of a `LocalAndRemote` entry comes after them and after the succeeded push carrying its refspec |
| Workflows.SyncRemoteBeforeLocal | src/workflow.rs:60-65 | crash safety in `sync`: every local delete of this host's ref comes after the prune push, which succeeded and carried its refspec |
| Workflows.SyncListsLast | src/workflow.rs:67-70 | an unquiet `sync` that finishes ends with a fresh `show-ref` and returns that snapshot grouped by host |
| Workflows.PruneThenList | src/workflow.rs:60-70 | the end of `sync` runs a prefix of the prune plan and then the listing, all of it when nothing fails, stopping at the first failure |
| Workflows.SyncPruneList | src/workflow.rs:58-64 | the refs `sync` prunes; which they are is stated by `SyncPruneListOfInputs` and `SyncPrunesAgainstRemoteListing` |
| Workflows.PurgePruneList | src/workflow.rs:94-100 | the refs `purge` prunes; which they are is stated by `PurgePrunesSelection` |
| Workflows.PruneThenListTrace | src/workflow.rs:60-70 | the end of `sync` is the prune and then at most one `show-ref` |
| Workflows.PruneThenListRemoteFirst | src/workflow.rs:60-65 | within the end of `sync`, a local delete of a `LocalAndRemote` entry follows the succeeded push carrying its refspec |
| Workflows.PurgePrunesSelection | src/workflow.rs:94-102 | a failed fetch or snapshot ends `purge` with nothing deleted; otherwise it runs the prune of its selection, all of it when nothing fails |
| Workflows.PurgeDeletesAfterHead | src/workflow.rs:95-96 | no local delete happens during the fetch and snapshot of `purge` |
| Workflows.PurgeRemoteBeforeLocal | src/workflow.rs:101 | crash safety in `purge`: every local delete comes after the prune push, which succeeded and deleted that ref on the remote |

## Left out

- Starting processes, reading configuration, and the `git` command lines themselves
  (`git_command`, `GitBinary::new`, `command`, `get_config`, `set_config`, `get_ref`). Each command
  is one abstract `Op`, whose failure and output come from the environment.
- `current_branch`, `create_branch` and `delete_branch`: none of the modelled workflows uses them.
- Verbosity, progress reporting, renderer and output plumbing, and command-line parsing
  (`verbosity.rs`, `progress.rs`, `renderer.rs`, `output.rs`, `main.rs`). `is_output_allowed` is a
  boolean parameter of `sync`.
- The text `ls` prints: the blank line, the host names and the indented refs. The listing is
  returned as a value instead.
- `command.rs` and `backend.rs` are earlier designs, not used by the current workflows. The test
  harness `git_testing.rs` is not part of this model either.
- The remote set `RemoteNomadRefSet` is not defined in `types.rs`. Membership in it is modelled as
  membership of the (user, host, branch) identity in a `set`, which matches how the snapshot unit
  tests build it.
- Listing.SortByBranch: stability (refs with equal branch names keep their order) is built into
  the insertion but not proved; only ordering and permutation are stated.
- Listing.SortedHostsAndBranches: Rust iterates a `HashMap`, so the order of groups before the final
  sort is unspecified. The model builds the hosts already sorted, which gives the same result
  because host names are distinct.
- Workflows.RunSync: interruptions between commands are modelled as a command that fails. Lost
  processes and concurrent runs against the same remote are not modelled.

## Findings

| source | as written | input that shows it | evidently intended | confidence | as-written member | corrected member |
|---|---|---|---|---|---|---|
| src/git_binary.rs:132-149 | `from_git_remote_ref` accepts only names with exactly five `/`-separated segments, so the remote name of a branch that contains `/` is refused and `list_nomad_refs` (src/git_binary.rs:621-623) drops it; `sync` then no longer sees that ref on the remote, prunes another host's tracking ref of such a branch as `LocalOnly`, and every run that finishes deletes it locally | user `u`, host `h`, branch `feature/x`: the remote name `refs/nomad/u/h/feature/x` is refused, and a `sync` on another host whose `ls-remote` lists that name deletes its local `refs/nomad/h/feature/x` | read the segments after the host back as one branch joined with `/`, as `from_git_local_ref` does, so that every name `to_git_remote_ref` writes reads back | not executed | Namespace.AsWrittenRejectsSlashedBranch, GitBinary.SlashedBranchPrunedAsWritten, Workflows.SyncDeletesSlashedBranchAsWritten | Namespace.FromGitRemoteRef, Namespace.RemoteRoundTrip, GitBinary.RemoteKeysContain |
