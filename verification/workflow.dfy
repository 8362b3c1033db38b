/**
 * The user-facing workflows `sync`, `ls` and `purge`, composed from the git layer, and what
 * their traces promise about the order of effects.
 */
module Workflows {
  import opened Wrappers
  import opened Types
  import opened GitRefs
  import opened Namespace
  import opened Snapshots
  import opened Listing
  import opened GitBinary

  /** What `ls` prints: each host, then the refs of its branches. */
  type Listed = seq<(Host, seq<NomadRef<GitRef>>)>

  /** Which nomad refs `purge` deletes, locally and on the remote. */
  datatype PurgeFilter = All | Hosts(hosts: set<Host>)

  /** A command as the command line hands it over. */
  datatype Workflow =
    | Sync(user: User, host: Host, remote: Remote)
    | Ls(user: User)
    | Purge(user: User, remote: Remote, purgeFilter: PurgeFilter)

  /** `ls`: a fresh snapshot of this clone, grouped by host. */
  function RunLs(git: Git, t: seq<Op>, user: User): (o: Outcome<Listed>)
    ensures o.trace == t + [ShowRef]
    ensures Faithful(git, t, o)
    ensures o.Done? <==> TakeSnapshot(git, t, user).Done?
    ensures o.Done? ==> o.value == SortedHostsAndBranches(TakeSnapshot(git, t, user).value)
  {
    var snap :- TakeSnapshot(git, t, user);
    Done(snap.0, SortedHostsAndBranches(snap.1))
  }

  function PushOp(user: User, host: Host, remote: Remote): Op {
    Push(remote, [PushRefspec(user, host)])
  }

  function FetchOp(user: User, remote: Remote): Op {
    Fetch(remote, [FetchRefspec(user)])
  }

  function ListOp(user: User, remote: Remote): Op {
    ListRemote(remote, [ListRefspec(user)])
  }

  /** The commands `sync` always starts with, in order. */
  function SyncHead(user: User, host: Host, remote: Remote): seq<Op> {
    [PushOp(user, host, remote), FetchOp(user, remote), ListOp(user, remote), ShowRef]
  }

  /**
   * `sync`: publish this host's branches, fetch everyone's, read which exist on the remote,
   * prune the stale ones, and, when output is allowed, list what is left. Push, fetch, remote
   * listing and snapshot run strictly in that order, and the first failure ends the run. The
   * program reads the remote listing with the five-segment reader (`FiveSegments`); every
   * property below holds for either reader.
   */
  function RunSync(git: Git, t: seq<Op>, user: User, host: Host, remote: Remote, outputAllowed: bool, reader: RemoteReader): (o: Outcome<Option<Listed>>)
    ensures t < o.trace
    ensures o.trace <= t + SyncHead(user, host, remote) || t + SyncHead(user, host, remote) <= o.trace
    ensures |o.trace| < |t| + 4 ==> o.Failed?
    ensures o.Done? ==> (o.value.Some? <==> outputAllowed)
  {
    var head := SyncHead(user, host, remote);
    HeadPrefixes(t, head);
    var pushed :- PushNomadRefs(git, t, user, host, remote);
    var fetched :- FetchNomadRefs(git, pushed.0, user, remote);
    var listed :- ListNomadRefs(git, fetched.0, user, remote, reader);
    var snap :- TakeSnapshot(git, listed.0, user);
    PruneThenList(git, snap.0, user, remote, PruneDeletedBranches(snap.1, host, listed.1), outputAllowed)
  }

  lemma HeadPrefixes(t: seq<Op>, head: seq<Op>)
    requires |head| == 4
    ensures t + [head[0]] <= t + head
    ensures t + [head[0]] + [head[1]] <= t + head
    ensures t + [head[0]] + [head[1]] + [head[2]] <= t + head
    ensures t + [head[0]] + [head[1]] + [head[2]] + [head[3]] == t + head
  {
    assert head == [head[0], head[1], head[2], head[3]];
  }

  /** The commands that end `sync` when nothing fails. */
  function SyncTail(remote: Remote, prune: seq<PruneFrom<GitRef>>, outputAllowed: bool): seq<Op> {
    PrunePlan(remote, prune) + if outputAllowed then [ShowRef] else []
  }

  lemma AppendAssoc(t: seq<Op>, plan: seq<Op>, tail: seq<Op>)
    ensures t + plan + tail == t + (plan + tail)
    ensures t + plan <= t + (plan + tail)
  {
  }

  /** The end of `sync`: prune, then list when output is allowed. */
  function PruneThenList(git: Git, t: seq<Op>, user: User, remote: Remote, prune: seq<PruneFrom<GitRef>>, outputAllowed: bool)
    : (o: Outcome<Option<Listed>>)
    ensures t <= o.trace <= t + SyncTail(remote, prune, outputAllowed)
    ensures o.Done? ==> o.trace == t + SyncTail(remote, prune, outputAllowed)
    ensures o.Done? ==> (o.value.Some? <==> outputAllowed)
    ensures Faithful(git, t, o)
  {
    var pruned := PruneNomadRefs(git, t, remote, prune);
    AppendAssoc(t, PrunePlan(remote, prune), if outputAllowed then [ShowRef] else []);
    if pruned.Failed? then
      Failed(pruned.trace, pruned.cause)
    else if outputAllowed then
      var shown := RunLs(git, pruned.trace, user);
      RanChain(git, t, pruned.trace, shown.trace, shown.Failed? && shown.cause.CommandFailed?);
      if shown.Failed? then Failed(shown.trace, shown.cause) else Done(shown.trace, Some(shown.value))
    else
      Done(pruned.trace, None)
  }

  /** The refs `purge` selects: every one, or those of the given hosts; all leave the remote too. */
  function PurgeSelection(s: Snapshot<GitRef>, filter: PurgeFilter): (r: seq<PruneFrom<GitRef>>)
    ensures forall k | 0 <= k < |r| :: r[k].LocalAndRemote? && r[k].nomadRef in s.nomadRefs
    ensures filter.All? ==> |r| == |s.nomadRefs| && forall k | 0 <= k < |r| :: r[k] == LocalAndRemote(s.nomadRefs[k])
    ensures filter.Hosts? ==> forall k | 0 <= k < |r| :: r[k].nomadRef.host in filter.hosts
    ensures filter.Hosts? ==> forall n | n in s.nomadRefs && n.host in filter.hosts :: LocalAndRemote(n) in r
  {
    match filter
    case All => PruneAll(s)
    case Hosts(hs) =>
      PruneAllByHostsOrder(s, hs);
      PruneAllByHosts(s, hs)
  }

  /** `purge`: fetch, take a snapshot, select, prune. */
  function RunPurge(git: Git, t: seq<Op>, user: User, remote: Remote, filter: PurgeFilter): (o: Outcome<()>)
    ensures t < o.trace
    ensures o.trace <= t + PurgeHead(user, remote) || t + PurgeHead(user, remote) <= o.trace
  {
    assert t + [FetchOp(user, remote)] + [ShowRef] == t + PurgeHead(user, remote);
    var fetched := FetchNomadRefs(git, t, user, remote);
    if fetched.Failed? then Failed(fetched.trace, fetched.cause) else
    var snap := TakeSnapshot(git, fetched.trace, user);
    if snap.Failed? then Failed(snap.trace, snap.cause) else
    PruneNomadRefs(git, snap.trace, remote, PurgeSelection(snap.value, filter))
  }

  /**
   * `Workflow::execute`: each command to its workflow, `sync` reading the remote as the program
   * does; only `ls` and an unquiet `sync` produce a listing.
   */
  function Execute(git: Git, t: seq<Op>, w: Workflow, outputAllowed: bool): (o: Outcome<Option<Listed>>)
    ensures Faithful(git, t, o)
    ensures o.Done? && w.Ls? ==> o.value.Some?
    ensures o.Done? && w.Purge? ==> o.value.None?
    ensures o.Done? && w.Sync? ==> (o.value.Some? <==> outputAllowed)
  {
    match w
    case Sync(user, host, remote) =>
      SyncFaithful(git, t, user, host, remote, outputAllowed, FiveSegments);
      RunSync(git, t, user, host, remote, outputAllowed, FiveSegments)
    case Ls(user) =>
      var shown :- RunLs(git, t, user);
      Done(shown.0, Some(shown.1))
    case Purge(user, remote, filter) =>
      PurgeFaithful(git, t, user, remote, filter);
      var purged :- RunPurge(git, t, user, remote, filter);
      Done(purged.0, None)
  }

  // ----- What the traces promise -----

  /** `sync` runs nothing after a command that failed. */
  lemma SyncFaithful(git: Git, t: seq<Op>, user: User, host: Host, remote: Remote, outputAllowed: bool, reader: RemoteReader)
    ensures Faithful(git, t, RunSync(git, t, user, host, remote, outputAllowed, reader))
  {
    var o1 := PushNomadRefs(git, t, user, host, remote);
    if o1.Done? {
      var o2 := FetchNomadRefs(git, o1.trace, user, remote);
      if o2.Done? {
        RanChain(git, t, o1.trace, o2.trace, false);
        var o3 := ListNomadRefs(git, o2.trace, user, remote, reader);
        RanChain(git, t, o2.trace, o3.trace, o3.Failed? && o3.cause.CommandFailed?);
        if o3.Done? {
          var o4 := TakeSnapshot(git, o3.trace, user);
          RanChain(git, t, o3.trace, o4.trace, o4.Failed? && o4.cause.CommandFailed?);
          if o4.Done? {
            var o5 := PruneThenList(git, o4.trace, user, remote, PruneDeletedBranches(o4.value, host, o3.value), outputAllowed);
            RanChain(git, t, o4.trace, o5.trace, o5.Failed? && o5.cause.CommandFailed?);
          }
        }
      }
    }
  }

  /** `purge` runs nothing after a command that failed. */
  lemma PurgeFaithful(git: Git, t: seq<Op>, user: User, remote: Remote, filter: PurgeFilter)
    ensures Faithful(git, t, RunPurge(git, t, user, remote, filter))
  {
    var o1 := FetchNomadRefs(git, t, user, remote);
    if o1.Done? {
      var o2 := TakeSnapshot(git, o1.trace, user);
      RanChain(git, t, o1.trace, o2.trace, o2.Failed? && o2.cause.CommandFailed?);
      if o2.Done? {
        var o3 := PruneNomadRefs(git, o2.trace, remote, PurgeSelection(o2.value, filter));
        RanChain(git, t, o2.trace, o3.trace, o3.Failed? && o3.cause.CommandFailed?);
      }
    }
  }

  /** The refs `sync` goes on to prune, when its first four commands succeed. */
  function SyncPruneList(git: Git, t: seq<Op>, user: User, host: Host, remote: Remote, reader: RemoteReader): Option<seq<PruneFrom<GitRef>>> {
    var pushed := PushNomadRefs(git, t, user, host, remote);
    var fetched := FetchNomadRefs(git, pushed.trace, user, remote);
    var listed := ListNomadRefs(git, fetched.trace, user, remote, reader);
    var snap := TakeSnapshot(git, listed.trace, user);
    if pushed.Done? && fetched.Done? && listed.Done? && snap.Done? then
      Some(PruneDeletedBranches(snap.value, host, listed.value))
    else
      None
  }

  /** What `sync` prunes from, when its first four commands succeed: the snapshot and the raw `ls-remote` listing. */
  function SyncInputs(git: Git, t: seq<Op>, user: User, host: Host, remote: Remote): Option<(Snapshot<GitRef>, seq<GitRef>)> {
    var pushed := PushNomadRefs(git, t, user, host, remote);
    var fetched := FetchNomadRefs(git, pushed.trace, user, remote);
    var listed := ListRemoteRefs(git, fetched.trace, remote, [ListRefspec(user)]);
    var snap := TakeSnapshot(git, listed.trace, user);
    if pushed.Done? && fetched.Done? && listed.Done? && snap.Done? then Some((snap.value, listed.value)) else None
  }

  /** Either reader prunes the refs `prune_deleted_branches` picks against the identities it finds in the listing. */
  lemma SyncPruneListOfInputs(git: Git, t: seq<Op>, user: User, host: Host, remote: Remote, reader: RemoteReader)
    ensures var p, inp := SyncPruneList(git, t, user, host, remote, reader), SyncInputs(git, t, user, host, remote);
      && (p.Some? <==> inp.Some?)
      && (inp.Some? ==> p.value == PruneDeletedBranches(inp.value.0, host, ListedKeys(reader, inp.value.1)))
  {
  }

  /**
   * The program and the rejoining reader run the same `sync` whenever no ref of the snapshot
   * has a `/` in its branch.
   */
  lemma SyncReadersAgree(git: Git, t: seq<Op>, user: User, host: Host, remote: Remote, outputAllowed: bool)
    requires var inp := SyncInputs(git, t, user, host, remote);
      inp.Some? && forall n | n in inp.value.0.nomadRefs :: '/' !in n.branch.name
    ensures SyncPruneList(git, t, user, host, remote, FiveSegments) == SyncPruneList(git, t, user, host, remote, Rejoining)
    ensures RunSync(git, t, user, host, remote, outputAllowed, FiveSegments) == RunSync(git, t, user, host, remote, outputAllowed, Rejoining)
  {
    var inp := SyncInputs(git, t, user, host, remote).value;
    SyncPruneListOfInputs(git, t, user, host, remote, FiveSegments);
    SyncPruneListOfInputs(git, t, user, host, remote, Rejoining);
    forall n | n in inp.0.nomadRefs
      ensures Key(n) in ListedKeys(FiveSegments, inp.1) <==> Key(n) in ListedKeys(Rejoining, inp.1)
    {
      RemoteKeysAgree(inp.1, Key(n));
    }
    PruneDependsOnListedRefs(inp.0, host, ListedKeys(FiveSegments, inp.1), ListedKeys(Rejoining, inp.1));
    SyncPrunesAgainstRemoteListing(git, t, user, host, remote, outputAllowed, FiveSegments);
    SyncPrunesAgainstRemoteListing(git, t, user, host, remote, outputAllowed, Rejoining);
  }

  /**
   * The program's `sync` deletes here another host's ref whose branch holds a `/`, although the
   * remote lists it; the rejoining reader keeps it.
   */
  lemma SyncDeletesSlashedBranchAsWritten(git: Git, t: seq<Op>, user: User, host: Host, remote: Remote, outputAllowed: bool,
                                          n: NomadRef<GitRef>, i: nat)
    requires var inp := SyncInputs(git, t, user, host, remote);
      && inp.Some? && n in inp.value.0.nomadRefs && n.host != host
      && '/' !in n.user.name && '/' !in n.host.name && '/' in n.branch.name
      && i < |inp.value.1| && inp.value.1[i].name == ToGitRemoteRef(n)
    ensures LocalOnly(n) in SyncPruneList(git, t, user, host, remote, FiveSegments).value
    ensures LocalOnly(n) !in SyncPruneList(git, t, user, host, remote, Rejoining).value
    ensures var o := RunSync(git, t, user, host, remote, outputAllowed, FiveSegments);
      o.Done? ==> DeleteRef(n.payload) in o.trace
  {
    var inp := SyncInputs(git, t, user, host, remote).value;
    SyncPruneListOfInputs(git, t, user, host, remote, FiveSegments);
    SyncPruneListOfInputs(git, t, user, host, remote, Rejoining);
    SlashedBranchPrunedAsWritten(inp.0, host, inp.1, n, i);
    var o := RunSync(git, t, user, host, remote, outputAllowed, FiveSegments);
    if o.Done? {
      SyncDeletesEveryEntry(git, t, user, host, remote, outputAllowed, FiveSegments, LocalOnly(n));
    }
  }

  /** A `sync` that finishes has deleted, here, the ref of every entry of its prune list. */
  lemma SyncDeletesEveryEntry(git: Git, t: seq<Op>, user: User, host: Host, remote: Remote, outputAllowed: bool,
                              reader: RemoteReader, e: PruneFrom<GitRef>)
    requires var p := SyncPruneList(git, t, user, host, remote, reader); p.Some? && e in p.value
    requires RunSync(git, t, user, host, remote, outputAllowed, reader).Done?
    ensures DeleteRef(e.nomadRef.payload) in RunSync(git, t, user, host, remote, outputAllowed, reader).trace
  {
    var p := SyncPruneList(git, t, user, host, remote, reader).value;
    var start := t + SyncHead(user, host, remote);
    SyncPrunesAgainstRemoteListing(git, t, user, host, remote, outputAllowed, reader);
    var k :| 0 <= k < |p| && p[k] == e;
    PrunePlanShape(remote, p);
    PlanInTrace(start, PrunePlan(remote, p), if outputAllowed then [ShowRef] else [], (if HasRemoteDelete(p) then 1 else 0) + k);
  }

  /** Every command of the plan appears in a trace that ran the plan and then some more. */
  lemma PlanInTrace(start: seq<Op>, plan: seq<Op>, more: seq<Op>, j: nat)
    requires j < |plan|
    ensures plan[j] in start + (plan + more)
  {
    assert (start + (plan + more))[|start| + j] == plan[j];
  }

  /**
   * Once `sync` is past its snapshot, the refs it prunes are those `prune_deleted_branches`
   * picks from the snapshot against the identities read by `ls-remote`, not by the fetch, and
   * it goes on with the prune and then the listing.
   */
  lemma SyncPrunesAgainstRemoteListing(git: Git, t: seq<Op>, user: User, host: Host, remote: Remote, outputAllowed: bool, reader: RemoteReader)
    ensures var o, p := RunSync(git, t, user, host, remote, outputAllowed, reader), SyncPruneList(git, t, user, host, remote, reader);
      var pushed := PushNomadRefs(git, t, user, host, remote);
      var fetched := FetchNomadRefs(git, pushed.trace, user, remote);
      var listed := ListNomadRefs(git, fetched.trace, user, remote, reader);
      var snap := TakeSnapshot(git, listed.trace, user);
      && (|o.trace| > |t| + 4 ==> p.Some?)
      && (p.Some? ==>
            && listed.Done? && snap.Done?
            && snap.trace == t + SyncHead(user, host, remote)
            && p.value == PruneDeletedBranches(snap.value, host, listed.value)
            && o == PruneThenList(git, snap.trace, user, remote, p.value, outputAllowed))
  {
    HeadPrefixes(t, SyncHead(user, host, remote));
  }

  /**
   * After its snapshot, `sync` runs a prefix of the prune plan and then the listing when output
   * is allowed, all of it when nothing fails.
   */
  lemma SyncRunsPlan(git: Git, t: seq<Op>, user: User, host: Host, remote: Remote, outputAllowed: bool, reader: RemoteReader)
    ensures var o, p := RunSync(git, t, user, host, remote, outputAllowed, reader), SyncPruneList(git, t, user, host, remote, reader);
      |o.trace| > |t| + 4 ==>
        && p.Some?
        && var start, rest := t + SyncHead(user, host, remote), SyncTail(remote, p.value, outputAllowed);
           && start <= o.trace <= start + rest
           && (o.Done? ==> o.trace == start + rest)
  {
    SyncPrunesAgainstRemoteListing(git, t, user, host, remote, outputAllowed, reader);
  }

  /** The prune-then-list runs the prune, then possibly one `show-ref`. */
  lemma PruneThenListTrace(git: Git, t: seq<Op>, user: User, remote: Remote, prune: seq<PruneFrom<GitRef>>, outputAllowed: bool)
    ensures var o, pruned := PruneThenList(git, t, user, remote, prune, outputAllowed), PruneNomadRefs(git, t, remote, prune);
      o.trace == pruned.trace || (pruned.Done? && o.trace == pruned.trace + [ShowRef])
  {
  }

  /** Remote first, for the prune-then-list that ends `sync`. */
  lemma PruneThenListRemoteFirst(git: Git, t: seq<Op>, user: User, remote: Remote, prune: seq<PruneFrom<GitRef>>, outputAllowed: bool, i: nat, j: nat)
    requires i < |prune| && prune[i].LocalAndRemote?
    requires var o := PruneThenList(git, t, user, remote, prune, outputAllowed);
      |t| <= j < |o.trace| && o.trace[j] == DeleteRef(prune[i].nomadRef.payload)
    ensures var o := PruneThenList(git, t, user, remote, prune, outputAllowed);
      && |t| < j
      && o.trace[|t|] == Push(remote, RemoteDeletes(prune))
      && DeleteRefspec(prune[i].nomadRef) in o.trace[|t|].refspecs
      && !git.fails(o.trace[..|t| + 1])
  {
    var o := PruneThenList(git, t, user, remote, prune, outputAllowed);
    var pruned := PruneNomadRefs(git, t, remote, prune);
    PruneThenListTrace(git, t, user, remote, prune, outputAllowed);
    ListedAfter(o.trace, pruned.trace, j);
    PruneRemoteBeforeLocal(git, t, remote, prune, i, j);
    ListedAfterPrefix(o.trace, pruned.trace, |t| + 1);
  }

  /** A trace that may end with one more `show-ref` agrees with the shorter one at every delete. */
  lemma ListedAfter(u: seq<Op>, v: seq<Op>, j: nat)
    requires u == v || u == v + [ShowRef]
    requires j < |u| && u[j].DeleteRef?
    ensures j < |v| && u[j] == v[j]
  {
    if u != v {
      assert u[|v|] == ShowRef;
    }
  }

  /** ... and on every prefix of the shorter one. */
  lemma ListedAfterPrefix(u: seq<Op>, v: seq<Op>, n: nat)
    requires u == v || u == v + [ShowRef]
    requires 0 < n <= |v|
    ensures u[..n] == v[..n] && u[n - 1] == v[n - 1]
  {
  }

  /** A trace that agrees with `t + head` cannot delete within `head` when `head` deletes nothing. */
  lemma NoDeleteInHead(u: seq<Op>, t: seq<Op>, head: seq<Op>, j: nat)
    requires u <= t + head || t + head <= u
    requires |t| <= j < |u| && j < |t| + |head|
    requires forall k | 0 <= k < |head| :: !head[k].DeleteRef?
    ensures !u[j].DeleteRef?
  {
    assert u[j] == (t + head)[j] == head[j - |t|];
  }

  /**
   * Remote first, within `sync`: a local delete of one of this host's refs comes after the
   * prune push, which succeeded and carried that ref's remote-delete refspec.
   */
  lemma SyncRemoteBeforeLocal(git: Git, t: seq<Op>, user: User, host: Host, remote: Remote, outputAllowed: bool, reader: RemoteReader,
                              i: nat, j: nat)
    requires var p := SyncPruneList(git, t, user, host, remote, reader);
      p.Some? && i < |p.value| && p.value[i].nomadRef.host == host
    requires var o, p := RunSync(git, t, user, host, remote, outputAllowed, reader), SyncPruneList(git, t, user, host, remote, reader);
      |t| <= j < |o.trace| && o.trace[j] == DeleteRef(p.value[i].nomadRef.payload)
    ensures var o, p := RunSync(git, t, user, host, remote, outputAllowed, reader), SyncPruneList(git, t, user, host, remote, reader);
      && |t| + 4 < j
      && o.trace[|t| + 4] == Push(remote, RemoteDeletes(p.value))
      && DeleteRefspec(p.value[i].nomadRef) in o.trace[|t| + 4].refspecs
      && !git.fails(o.trace[..|t| + 5])
  {
    var prune := SyncPruneList(git, t, user, host, remote, reader).value;
    SyncPrunesAgainstRemoteListing(git, t, user, host, remote, outputAllowed, reader);
    SyncHeadDeletesNothing(user, host, remote);
    PruneThenListAfterHead(git, t, SyncHead(user, host, remote), user, remote, prune, outputAllowed, i, j);
  }

  /** The commands before the prune are four and delete no ref. */
  lemma SyncHeadDeletesNothing(user: User, host: Host, remote: Remote)
    ensures var head := SyncHead(user, host, remote);
      |head| == 4 && forall k | 0 <= k < |head| :: !head[k].DeleteRef?
  {
  }

  /** Remote first, for a prune-then-list that follows commands which delete nothing. */
  lemma PruneThenListAfterHead(git: Git, t: seq<Op>, head: seq<Op>, user: User, remote: Remote, prune: seq<PruneFrom<GitRef>>,
                               outputAllowed: bool, i: nat, j: nat)
    requires forall k | 0 <= k < |head| :: !head[k].DeleteRef?
    requires i < |prune| && prune[i].LocalAndRemote?
    requires var o := PruneThenList(git, t + head, user, remote, prune, outputAllowed);
      |t| <= j < |o.trace| && o.trace[j] == DeleteRef(prune[i].nomadRef.payload)
    ensures var o, n := PruneThenList(git, t + head, user, remote, prune, outputAllowed), |t| + |head|;
      && n < j
      && o.trace[n] == Push(remote, RemoteDeletes(prune))
      && DeleteRefspec(prune[i].nomadRef) in o.trace[n].refspecs
      && !git.fails(o.trace[..n + 1])
  {
    var o := PruneThenList(git, t + head, user, remote, prune, outputAllowed);
    if j < |t| + |head| {
      NoDeleteInHead(o.trace, t, head, j);
    }
    PruneThenListRemoteFirst(git, t + head, user, remote, prune, outputAllowed, i, j);
  }

  /**
   * Listing only after pruning: an unquiet `sync` that finishes ends with a fresh `show-ref`,
   * run after every prune command, and returns that snapshot grouped by host.
   */
  lemma SyncListsLast(git: Git, t: seq<Op>, user: User, host: Host, remote: Remote, outputAllowed: bool, reader: RemoteReader)
    ensures var o := RunSync(git, t, user, host, remote, outputAllowed, reader);
      o.Done? && outputAllowed ==>
        && |o.trace| > |t| + 4
        && o.trace[|o.trace| - 1] == ShowRef
        && var before := o.trace[..|o.trace| - 1];
           && TakeSnapshot(git, before, user).Done?
           && o.value == Some(SortedHostsAndBranches(TakeSnapshot(git, before, user).value))
  {
    var head := SyncHead(user, host, remote);
    HeadPrefixes(t, head);
    var o := RunSync(git, t, user, host, remote, outputAllowed, reader);
    if o.Done? && outputAllowed {
      var o1 := PushNomadRefs(git, t, user, host, remote);
      var o2 := FetchNomadRefs(git, o1.trace, user, remote);
      var o3 := ListNomadRefs(git, o2.trace, user, remote, reader);
      var o4 := TakeSnapshot(git, o3.trace, user);
      var o5 := PruneNomadRefs(git, o4.trace, remote, PruneDeletedBranches(o4.value, host, o3.value));
      assert o.trace == o5.trace + [ShowRef];
      assert o.trace[..|o.trace| - 1] == o5.trace;
    }
  }

  /** The commands `purge` always starts with, in order. */
  function PurgeHead(user: User, remote: Remote): seq<Op> {
    [FetchOp(user, remote), ShowRef]
  }

  /** The commands before the prune of `purge` are two and delete no ref. */
  lemma PurgeHeadDeletesNothing(user: User, remote: Remote)
    ensures var head := PurgeHead(user, remote);
      |head| == 2 && forall k | 0 <= k < |head| :: !head[k].DeleteRef?
  {
  }

  /** The refs `purge` goes on to delete, when its fetch and snapshot succeed. */
  function PurgePruneList(git: Git, t: seq<Op>, user: User, remote: Remote, filter: PurgeFilter): Option<seq<PruneFrom<GitRef>>> {
    var fetched := FetchNomadRefs(git, t, user, remote);
    var snap := TakeSnapshot(git, fetched.trace, user);
    if fetched.Done? && snap.Done? then Some(PurgeSelection(snap.value, filter)) else None
  }

  /**
   * `purge` fetches and takes a snapshot; a failure there ends it before anything is deleted,
   * and otherwise it runs the prune of its selection, all of it when nothing fails.
   */
  lemma PurgePrunesSelection(git: Git, t: seq<Op>, user: User, remote: Remote, filter: PurgeFilter)
    ensures var o, p := RunPurge(git, t, user, remote, filter), PurgePruneList(git, t, user, remote, filter);
      var start := t + PurgeHead(user, remote);
      && (p.None? ==> o.Failed? && o.trace <= start)
      && (p.Some? ==>
            && o == PruneNomadRefs(git, start, remote, p.value)
            && start <= o.trace <= start + PrunePlan(remote, p.value)
            && (o.Done? ==> o.trace == start + PrunePlan(remote, p.value)))
  {
    assert t + [FetchOp(user, remote)] + [ShowRef] == t + PurgeHead(user, remote);
  }

  /**
   * Remote first, within `purge`: every ref it deletes locally was first named in a push that
   * succeeded and deleted it on the remote.
   */
  lemma PurgeRemoteBeforeLocal(git: Git, t: seq<Op>, user: User, remote: Remote, filter: PurgeFilter, i: nat, j: nat)
    requires var p := PurgePruneList(git, t, user, remote, filter);
      p.Some? && i < |p.value|
    requires var o, p := RunPurge(git, t, user, remote, filter), PurgePruneList(git, t, user, remote, filter);
      |t| <= j < |o.trace| && o.trace[j] == DeleteRef(p.value[i].nomadRef.payload)
    ensures var o, p := RunPurge(git, t, user, remote, filter), PurgePruneList(git, t, user, remote, filter);
      && |t| + 2 < j
      && o.trace[|t| + 2] == Push(remote, RemoteDeletes(p.value))
      && DeleteRefspec(p.value[i].nomadRef) in o.trace[|t| + 2].refspecs
      && !git.fails(o.trace[..|t| + 3])
  {
    PurgePrunesSelection(git, t, user, remote, filter);
    PurgeDeletesAfterHead(git, t, user, remote, filter, j);
    PruneRemoteBeforeLocal(git, t + PurgeHead(user, remote), remote, PurgePruneList(git, t, user, remote, filter).value, i, j);
  }

  /** `purge` starts with a fetch and a `show-ref`, neither of which deletes anything. */
  lemma PurgeDeletesAfterHead(git: Git, t: seq<Op>, user: User, remote: Remote, filter: PurgeFilter, j: nat)
    requires var o := RunPurge(git, t, user, remote, filter);
      |t| <= j < |o.trace| && o.trace[j].DeleteRef?
    ensures |t| + 2 <= j
  {
    var o := RunPurge(git, t, user, remote, filter);
    if j < |t| + 2 {
      PurgeHeadDeletesNothing(user, remote);
      NoDeleteInHead(o.trace, t, PurgeHead(user, remote), j);
    }
  }
}
