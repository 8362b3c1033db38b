/**
 * The git-facing layer of nomad. Git itself is abstract: a `Git` value says, for every history
 * of commands ending in the one being run, whether that command fails and what it prints.
 * Every operation returns the trace of commands it ran, so the order of effects can be stated.
 */
module GitBinary {
  import opened Wrappers
  import opened Types
  import opened Strings
  import opened GitRefs
  import opened Namespace
  import opened Arity
  import opened Seqs
  import opened Snapshots

  /** The git commands nomad runs, with the arguments that matter. */
  datatype Op =
    | Push(remote: Remote, refspecs: seq<string>)
    | Fetch(remote: Remote, refspecs: seq<string>)
    | ListRemote(remote: Remote, refspecs: seq<string>)
    | ShowRef
    | DeleteRef(gitRef: GitRef)

  /** Git as seen from nomad: both answers may depend on everything run before. */
  datatype Git = Git(fails: seq<Op> -> bool, stdout: seq<Op> -> string)

  /** Why an operation stopped: a command exited unsuccessfully, or printed a line nomad cannot read. */
  datatype Cause = CommandFailed(op: Op) | BadLine(error: GitRefParseError)

  /** The result of running commands: the commands run, and a value or the reason for stopping. */
  datatype Outcome<+T> = Done(trace: seq<Op>, value: T) | Failed(trace: seq<Op>, cause: Cause)
  {
    predicate IsFailure() {
      Failed?
    }

    function PropagateFailure<U>(): Outcome<U>
      requires Failed?
    {
      Failed(trace, cause)
    }

    function Extract(): (seq<Op>, T)
      requires Done?
    {
      (trace, value)
    }
  }

  /**
   * The commands after `t0` in `t1` all succeeded, except the very last when `failedLast`:
   * nothing runs after a failing command.
   */
  predicate Ran(git: Git, t0: seq<Op>, t1: seq<Op>, failedLast: bool)
    decreases |t1|
  {
    if |t1| <= |t0| then t1 == t0 && !failedLast
    else t0 <= t1 && (git.fails(t1) <==> failedLast) && Ran(git, t0, t1[..|t1| - 1], false)
  }

  predicate Faithful<T>(git: Git, t0: seq<Op>, o: Outcome<T>) {
    Ran(git, t0, o.trace, o.Failed? && o.cause.CommandFailed?)
  }

  lemma {:induction false} RanChain(git: Git, t0: seq<Op>, t1: seq<Op>, t2: seq<Op>, failedLast: bool)
    requires Ran(git, t0, t1, false) && Ran(git, t1, t2, failedLast)
    ensures Ran(git, t0, t2, failedLast)
    decreases |t2|
  {
    if |t2| > |t1| {
      RanChain(git, t0, t1, t2[..|t2| - 1], false);
      assert t0 <= t1 <= t2;
    } else if |t1| > |t0| {
      assert t2 == t1;
    }
  }

  /** Every command of a run, read off the trace, failed exactly when it is the failing last one. */
  lemma {:induction false} RanAt(git: Git, t0: seq<Op>, t1: seq<Op>, failedLast: bool, n: nat)
    requires Ran(git, t0, t1, failedLast)
    requires |t0| < n <= |t1|
    ensures t0 <= t1
    ensures git.fails(t1[..n]) <==> failedLast && n == |t1|
    decreases |t1|
  {
    if n < |t1| {
      RanAt(git, t0, t1[..|t1| - 1], false, n);
      assert t1[..|t1| - 1][..n] == t1[..n];
    } else {
      assert t1[..n] == t1;
    }
  }

  /** Runs one command after the history `t`. */
  function Run(git: Git, t: seq<Op>, op: Op): (o: Outcome<string>)
    ensures o.trace == t + [op]
    ensures o.Failed? <==> git.fails(o.trace)
    ensures o.Failed? ==> o.cause == CommandFailed(op)
    ensures Faithful(git, t, o)
  {
    var t' := t + [op];
    assert t'[..|t'| - 1] == t;
    if git.fails(t') then Failed(t', CommandFailed(op)) else Done(t', git.stdout(t'))
  }

  /**
   * Parses every line, stopping at the first that does not parse: the behaviour of collecting
   * an iterator of results into one result.
   */
  function ParseLines(lines: seq<string>, d: char): (r: Result<seq<GitRef>, GitRefParseError>)
    ensures r.Ok? ==> |r.value| == |lines|
    ensures r.Ok? ==> forall i | 0 <= i < |lines| :: ParseCharDelimitedLine(lines[i], d) == Ok(r.value[i])
    ensures r.Err? ==> exists i | 0 <= i < |lines| ::
      && ParseCharDelimitedLine(lines[i], d) == Err(r.error)
      && forall j | 0 <= j < i :: ParseCharDelimitedLine(lines[j], d).Ok?
  {
    if lines == [] then Ok([])
    else
      match ParseCharDelimitedLine(lines[0], d)
      case Err(e) => Err(e)
      case Ok(g) =>
        match ParseLines(lines[1..], d)
        case Err(e) =>
          ghost var i :| 0 <= i < |lines[1..]| && ParseCharDelimitedLine(lines[1..][i], d) == Err(e)
            && forall j | 0 <= j < i :: ParseCharDelimitedLine(lines[1..][j], d).Ok?;
          assert ParseCharDelimitedLine(lines[i + 1], d) == Err(e);
          Err(e)
        case Ok(gs) => Ok([g] + gs)
  }

  /** `git fetch`; the source refuses an empty refspec list, which would fall back to the configured default. */
  function FetchRefspecs(git: Git, t: seq<Op>, remote: Remote, refspecs: seq<string>): (o: Outcome<()>)
    requires |refspecs| > 0
    ensures o.trace == t + [Fetch(remote, refspecs)]
    ensures Faithful(git, t, o)
  {
    var ran :- Run(git, t, Fetch(remote, refspecs));
    Done(ran.0, ())
  }

  /** `git push --no-verify`; an empty refspec list is refused as for fetch. */
  function PushRefspecs(git: Git, t: seq<Op>, remote: Remote, refspecs: seq<string>): (o: Outcome<()>)
    requires |refspecs| > 0
    ensures o.trace == t + [Push(remote, refspecs)]
    ensures Faithful(git, t, o)
  {
    var ran :- Run(git, t, Push(remote, refspecs));
    Done(ran.0, ())
  }

  /** `git show-ref`, every output line parsed as a ref. */
  function ListRefs(git: Git, t: seq<Op>): (o: Outcome<seq<GitRef>>)
    ensures o.trace == t + [ShowRef]
    ensures Faithful(git, t, o)
    ensures o.Done? <==> !git.fails(o.trace) && ParseLines(Lines(git.stdout(o.trace)), ' ').Ok?
    ensures o.Done? ==> o.value == ParseLines(Lines(git.stdout(o.trace)), ' ').value
  {
    var ran :- Run(git, t, ShowRef);
    match ParseLines(Lines(ran.1), ' ')
    case Ok(refs) => Done(ran.0, refs)
    case Err(e) => Failed(ran.0, BadLine(e))
  }

  /** `git ls-remote`, every output line parsed as a tab-separated ref; an empty pattern list is refused. */
  function ListRemoteRefs(git: Git, t: seq<Op>, remote: Remote, refspecs: seq<string>): (o: Outcome<seq<GitRef>>)
    requires |refspecs| > 0
    ensures o.trace == t + [ListRemote(remote, refspecs)]
    ensures Faithful(git, t, o)
    ensures o.Done? <==> !git.fails(o.trace) && ParseLines(Lines(git.stdout(o.trace)), '\t').Ok?
    ensures o.Done? ==> o.value == ParseLines(Lines(git.stdout(o.trace)), '\t').value
  {
    var ran :- Run(git, t, ListRemote(remote, refspecs));
    match ParseLines(Lines(ran.1), '\t')
    case Ok(refs) => Done(ran.0, refs)
    case Err(e) => Failed(ran.0, BadLine(e))
  }

  /** `git update-ref -d <name> <commit>`: deletes a local ref only while it still points at the commit seen. */
  function DeleteRefCmd(git: Git, t: seq<Op>, r: GitRef): (o: Outcome<()>)
    ensures o.trace == t + [DeleteRef(r)]
    ensures Faithful(git, t, o)
  {
    var ran :- Run(git, t, DeleteRef(r));
    Done(ran.0, ())
  }

  // ----- Classifying the refs of a clone -----

  /** Where git keeps the branches the user works on. */
  const Heads := "refs/heads/"

  /** The branches named by the refs under `refs/heads/`, prefix removed. */
  function LocalBranches(refs: seq<GitRef>): (lb: set<Branch>)
    ensures forall b :: b in lb <==>
      exists i | 0 <= i < |refs| :: StartsWith(refs[i].name, Heads) && b.name == refs[i].name[|Heads|..]
  {
    if refs == [] then {}
    else
      var front, last := refs[..|refs| - 1], refs[|refs| - 1];
      var lb := LocalBranches(front)
        + if StartsWith(last.name, Heads) then {Branch(last.name[|Heads|..])} else {};
      assert forall i | 0 <= i < |front| :: front[i] == refs[i];
      lb
  }

  lemma LocalBranchesSnoc(refs: seq<GitRef>, r: GitRef)
    ensures LocalBranches(refs + [r]) ==
      LocalBranches(refs) + if StartsWith(r.name, Heads) then {Branch(r.name[|Heads|..])} else {}
  {
    assert (refs + [r])[..|refs|] == refs;
  }

  function AsLocalRef(user: User): GitRef -> Option<NomadRef<GitRef>> {
    g => match FromGitLocalRef(user, g) case Ok(n) => Some(n) case Err(_) => None
  }

  /** The refs that read as local nomad refs, attributed to `user`, in the order git listed them. */
  function NomadRefsOf(user: User, refs: seq<GitRef>): seq<NomadRef<GitRef>> {
    FilterMap(refs, AsLocalRef(user))
  }

  /**
   * The nomad refs of a clone are exactly its refs under `refs/nomad/`, in listing order, each
   * carrying the ref it was read from and the user the snapshot is for.
   */
  lemma NomadRefsOfSpec(user: User, refs: seq<GitRef>)
    ensures var nr, idx := NomadRefsOf(user, refs), Kept(refs, AsLocalRef(user));
      && |nr| == |idx|
      && (forall k | 0 <= k < |nr| :: idx[k] < |refs| && nr[k].payload == refs[idx[k]] && nr[k].user == user)
      && (forall i | 0 <= i < |refs| :: StartsWith(refs[i].name, Namespace.Root) <==> i in idx)
      && (forall k, l | 0 <= k < l < |idx| :: idx[k] < idx[l])
      && OwnedBy(nr, user)
  {
    var f := AsLocalRef(user);
    FilterMapAt(refs, f);
    forall i | 0 <= i < |refs| ensures StartsWith(refs[i].name, Namespace.Root) <==> f(refs[i]).Some? {
      LocalAcceptsIff(user, refs[i]);
    }
  }

  /** The classification loop of `GitBinary::snapshot`, one listed ref at a time. */
  method ClassifyRefs(user: User, refs: seq<GitRef>) returns (localBranches: set<Branch>, nomadRefs: seq<NomadRef<GitRef>>)
    ensures localBranches == LocalBranches(refs)
    ensures nomadRefs == NomadRefsOf(user, refs)
  {
    localBranches, nomadRefs := {}, [];
    for i := 0 to |refs|
      invariant localBranches == LocalBranches(refs[..i])
      invariant nomadRefs == NomadRefsOf(user, refs[..i])
    {
      var r := refs[i];
      assert refs[..i + 1] == refs[..i] + [r];
      LocalBranchesSnoc(refs[..i], r);
      if StartsWith(r.name, Heads) {
        localBranches := localBranches + {Branch(r.name[|Heads|..])};
      }
      FilterMapSnoc(refs[..i], r, AsLocalRef(user));
      match FromGitLocalRef(user, r) {
        case Ok(n) => nomadRefs := nomadRefs + [n];
        case Err(_) =>
      }
    }
    assert refs[..|refs|] == refs;
  }

  /**
   * `GitBinary::snapshot`: lists the refs of the clone and classifies them. The ownership check
   * of `Snapshot::new` cannot fail here, since every nomad ref is read for `user`.
   */
  function TakeSnapshot(git: Git, t: seq<Op>, user: User): (o: Outcome<Snapshot<GitRef>>)
    ensures o.trace == t + [ShowRef]
    ensures Faithful(git, t, o)
    ensures o.Done? <==> ListRefs(git, t).Done?
    ensures o.Done? ==> var refs := ListRefs(git, t).value;
      && o.value.localBranches == LocalBranches(refs)
      && o.value.nomadRefs == NomadRefsOf(user, refs)
      && OwnedBy(o.value.nomadRefs, user)
  {
    var listed :- ListRefs(git, t);
    NomadRefsOfSpec(user, listed.1);
    Done(listed.0, New(user, LocalBranches(listed.1), NomadRefsOf(user, listed.1)).value)
  }

  // ----- Reading the remote -----

  /** The identities of the refs that `parse` accepts. */
  function KeysParsedBy(refs: seq<GitRef>, parse: GitRef -> Result<NomadRef<GitRef>, GitRef>): (keys: set<RemoteKey>)
    ensures forall k :: k in keys <==> exists i | 0 <= i < |refs| :: parse(refs[i]).Ok? && Key(parse(refs[i]).value) == k
  {
    if refs == [] then {}
    else
      var front, last := refs[..|refs| - 1], refs[|refs| - 1];
      assert forall i | 0 <= i < |front| :: front[i] == refs[i];
      KeysParsedBy(front, parse) + match parse(last) case Ok(n) => {Key(n)} case Err(_) => {}
  }

  function RemoteKeys(refs: seq<GitRef>): set<RemoteKey> {
    KeysParsedBy(refs, FromGitRemoteRef)
  }

  /** A remote ref written for a slash-free user and host is recognised, whatever its branch. */
  lemma RemoteKeysContain<R>(refs: seq<GitRef>, i: nat, n: NomadRef<R>)
    requires i < |refs| && refs[i].name == ToGitRemoteRef(n)
    requires '/' !in n.user.name && '/' !in n.host.name
    ensures (n.user, n.host, n.branch) in RemoteKeys(refs)
  {
    RemoteRoundTrip(n, refs[i].commitId);
    assert refs[i] == GitRef(refs[i].commitId, ToGitRemoteRef(n));
  }

  /** The identities the source's five-segment reader finds in a remote listing. */
  function RemoteKeysAsWritten(refs: seq<GitRef>): set<RemoteKey> {
    KeysParsedBy(refs, FromGitRemoteRefAsWritten)
  }

  /** On every identity whose branch has no `/`, the two readers find the same keys in a listing. */
  lemma RemoteKeysAgree(refs: seq<GitRef>, k: RemoteKey)
    requires '/' !in k.2.name
    ensures k in RemoteKeysAsWritten(refs) <==> k in RemoteKeys(refs)
  {
    forall i | 0 <= i < |refs| {
      RemoteReadersAgree(refs[i]);
    }
    if k in RemoteKeysAsWritten(refs) {
      var i :| 0 <= i < |refs| && FromGitRemoteRefAsWritten(refs[i]).Ok? && Key(FromGitRemoteRefAsWritten(refs[i]).value) == k;
      assert FromGitRemoteRef(refs[i]).Ok? && Key(FromGitRemoteRef(refs[i]).value) == k;
    }
    if k in RemoteKeys(refs) {
      var i :| 0 <= i < |refs| && FromGitRemoteRef(refs[i]).Ok? && Key(FromGitRemoteRef(refs[i]).value) == k;
      assert FromGitRemoteRefAsWritten(refs[i]).Ok? && Key(FromGitRemoteRefAsWritten(refs[i]).value) == k;
    }
  }

  /**
   * Which reader turns the `ls-remote` listing into identities: the five-segment one the source
   * applies, or the rejoining one that reads back every name `to_git_remote_ref` writes.
   */
  datatype RemoteReader = FiveSegments | Rejoining

  /** The identities `reader` finds in a remote listing. */
  function ListedKeys(reader: RemoteReader, refs: seq<GitRef>): set<RemoteKey> {
    match reader
    case FiveSegments => RemoteKeysAsWritten(refs)
    case Rejoining => RemoteKeys(refs)
  }

  /**
   * With the five-segment reader, a ref of another host whose branch holds a `/` looks gone from
   * the remote even while the remote lists it, so every sync deletes it here; the rejoining
   * reader keeps it.
   */
  lemma SlashedBranchPrunedAsWritten(s: Snapshot<GitRef>, host: Host, refs: seq<GitRef>, n: NomadRef<GitRef>, i: nat)
    requires n in s.nomadRefs && n.host != host
    requires '/' !in n.user.name && '/' !in n.host.name && '/' in n.branch.name
    requires i < |refs| && refs[i].name == ToGitRemoteRef(n)
    ensures LocalOnly(n) in PruneDeletedBranches(s, host, RemoteKeysAsWritten(refs))
    ensures LocalOnly(n) !in PruneDeletedBranches(s, host, RemoteKeys(refs))
  {
    assert Key(n) !in RemoteKeysAsWritten(refs);
    RemoteKeysContain(refs, i, n);
    PruneDeletedBranchesMembership(s, host, RemoteKeysAsWritten(refs), n);
    PruneDeletedBranchesMembership(s, host, RemoteKeys(refs), n);
  }

  /** `git fetch` of the user's nomad refs into this clone. */
  function FetchNomadRefs(git: Git, t: seq<Op>, user: User, remote: Remote): (o: Outcome<()>)
    ensures o.trace == t + [Fetch(remote, [FetchRefspec(user)])]
    ensures Faithful(git, t, o)
  {
    FetchRefspecs(git, t, remote, [FetchRefspec(user)])
  }

  /** `git ls-remote` of the user's nomad refs, reduced to the identities it names. */
  function ListNomadRefs(git: Git, t: seq<Op>, user: User, remote: Remote, reader: RemoteReader): (o: Outcome<set<RemoteKey>>)
    ensures o.trace == t + [ListRemote(remote, [ListRefspec(user)])]
    ensures Faithful(git, t, o)
    ensures o.Done? <==> ListRemoteRefs(git, t, remote, [ListRefspec(user)]).Done?
    ensures o.Done? ==> o.value == ListedKeys(reader, ListRemoteRefs(git, t, remote, [ListRefspec(user)]).value)
  {
    var listed :- ListRemoteRefs(git, t, remote, [ListRefspec(user)]);
    Done(listed.0, ListedKeys(reader, listed.1))
  }

  /** `git push` of every local branch to this host's nomad refs on the remote. */
  function PushNomadRefs(git: Git, t: seq<Op>, user: User, host: Host, remote: Remote): (o: Outcome<()>)
    ensures o.trace == t + [Push(remote, [PushRefspec(user, host)])]
    ensures Faithful(git, t, o)
  {
    PushRefspecs(git, t, remote, [PushRefspec(user, host)])
  }

  // ----- Deleting nomad refs -----

  /** The push refspec that deletes the remote copy of `n`: an empty source. */
  function DeleteRefspec<R>(n: NomadRef<R>): string {
    ":" + ToGitRemoteRef(n)
  }

  function RemoteDelete(p: PruneFrom<GitRef>): Option<string> {
    if p.LocalAndRemote? then Some(DeleteRefspec(p.nomadRef)) else None
  }

  function RemoteDeletes(prune: seq<PruneFrom<GitRef>>): seq<string> {
    FilterMap(prune, RemoteDelete)
  }

  predicate HasRemoteDelete(prune: seq<PruneFrom<GitRef>>) {
    exists i | 0 <= i < |prune| :: prune[i].LocalAndRemote?
  }

  /** The local refs to delete: one per entry, of either kind, in order. */
  function LocalDeletes(prune: seq<PruneFrom<GitRef>>): (refs: seq<GitRef>)
    ensures |refs| == |prune|
    ensures forall i | 0 <= i < |prune| :: refs[i] == prune[i].nomadRef.payload
  {
    if prune == [] then [] else [prune[0].nomadRef.payload] + LocalDeletes(prune[1..])
  }

  /**
   * One remote-delete refspec per entry to be removed from the remote, in order, and none for
   * entries removed only locally.
   */
  lemma RemoteDeletesSpec(prune: seq<PruneFrom<GitRef>>)
    ensures var rs, idx := RemoteDeletes(prune), Kept(prune, RemoteDelete);
      && |rs| == |idx|
      && (forall k | 0 <= k < |rs| :: idx[k] < |prune| && prune[idx[k]].LocalAndRemote?
            && rs[k] == DeleteRefspec(prune[idx[k]].nomadRef))
      && (forall i | 0 <= i < |prune| :: prune[i].LocalAndRemote? <==> i in idx)
      && (forall k, l | 0 <= k < l < |idx| :: idx[k] < idx[l])
  {
    FilterMapAt(prune, RemoteDelete);
  }

  /** The remote is left alone exactly when no entry is to leave it. */
  lemma RemoteDeletesEmptyIff(prune: seq<PruneFrom<GitRef>>)
    ensures RemoteDeletes(prune) == [] <==> !HasRemoteDelete(prune)
  {
    RemoteDeletesSpec(prune);
    var idx := Kept(prune, RemoteDelete);
    if HasRemoteDelete(prune) {
      var i :| 0 <= i < |prune| && prune[i].LocalAndRemote?;
      assert i in idx;
    }
    if |idx| > 0 {
      assert prune[idx[0]].LocalAndRemote?;
    }
  }

  /** The partition loop of `prune_nomad_refs`: refspecs for the remote, refs for this clone. */
  method PartitionPrune(prune: seq<PruneFrom<GitRef>>) returns (refspecs: seq<string>, refs: seq<GitRef>)
    ensures refspecs == RemoteDeletes(prune)
    ensures refs == LocalDeletes(prune)
  {
    refspecs, refs := [], [];
    for i := 0 to |prune|
      invariant refspecs == RemoteDeletes(prune[..i])
      invariant refs == LocalDeletes(prune[..i])
    {
      var p := prune[i];
      assert prune[..i + 1] == prune[..i] + [p];
      FilterMapSnoc(prune[..i], p, RemoteDelete);
      if p.LocalAndRemote? {
        refspecs := refspecs + [DeleteRefspec(p.nomadRef)];
      }
      refs := refs + [p.nomadRef.payload];
    }
    assert prune[..|prune|] == prune;
  }

  function DeleteOps(refs: seq<GitRef>): (ops: seq<Op>)
    ensures |ops| == |refs|
    ensures forall i | 0 <= i < |refs| :: ops[i] == DeleteRef(refs[i])
  {
    if refs == [] then [] else [DeleteRef(refs[0])] + DeleteOps(refs[1..])
  }

  /** The commands `prune_nomad_refs` runs when nothing fails: the remote push, if any, then the local deletes. */
  function PrunePlan(remote: Remote, prune: seq<PruneFrom<GitRef>>): seq<Op> {
    var refspecs := RemoteDeletes(prune);
    (if refspecs != [] then [Push(remote, refspecs)] else []) + DeleteOps(LocalDeletes(prune))
  }

  /** Deletes the local refs one after the other, stopping at the first failure. */
  function DeleteAll(git: Git, t: seq<Op>, refs: seq<GitRef>): (o: Outcome<()>)
    ensures t <= o.trace <= t + DeleteOps(refs)
    ensures o.Done? ==> o.trace == t + DeleteOps(refs)
    ensures Faithful(git, t, o)
    decreases |refs|
  {
    if refs == [] then Done(t, ())
    else
      var deleted := DeleteRefCmd(git, t, refs[0]);
      ExtendPlan(t, DeleteRef(refs[0]), DeleteOps(refs[1..]));
      if deleted.Failed? then
        Failed(deleted.trace, deleted.cause)
      else
        var o := DeleteAll(git, deleted.trace, refs[1..]);
        RanChain(git, t, deleted.trace, o.trace, o.Failed? && o.cause.CommandFailed?);
        o
  }

  /** Running `op` first and then part of `rest` runs part of `[op] + rest`. */
  lemma ExtendPlan(t: seq<Op>, op: Op, rest: seq<Op>)
    ensures t + [op] + rest == t + ([op] + rest)
    ensures t <= t + [op] <= t + ([op] + rest)
  {
  }

  /**
   * `GitBinary::prune_nomad_refs`: what runs is always a prefix of the plan, and all of it when
   * nothing fails.
   */
  function PruneNomadRefs(git: Git, t: seq<Op>, remote: Remote, prune: seq<PruneFrom<GitRef>>): (o: Outcome<()>)
    ensures t <= o.trace <= t + PrunePlan(remote, prune)
    ensures o.Done? ==> o.trace == t + PrunePlan(remote, prune)
    ensures Faithful(git, t, o)
  {
    var refspecs := RemoteDeletes(prune);
    var deletes := DeleteOps(LocalDeletes(prune));
    if refspecs == [] then
      assert PrunePlan(remote, prune) == deletes;
      DeleteAll(git, t, LocalDeletes(prune))
    else
      var pushed := PushRefspecs(git, t, remote, refspecs);
      assert t + PrunePlan(remote, prune) == pushed.trace + deletes;
      if pushed.Failed? then
        Failed(pushed.trace, pushed.cause)
      else
        var o := DeleteAll(git, pushed.trace, LocalDeletes(prune));
        RanChain(git, t, pushed.trace, o.trace, o.Failed? && o.cause.CommandFailed?);
        o
  }

  /**
   * The plan's shape: a single push first exactly when some entry leaves the remote, then one
   * local delete per entry, in order.
   */
  lemma PrunePlanShape(remote: Remote, prune: seq<PruneFrom<GitRef>>)
    ensures var plan, pushes := PrunePlan(remote, prune), if HasRemoteDelete(prune) then 1 else 0;
      && |plan| == pushes + |prune|
      && (HasRemoteDelete(prune) ==> plan[0] == Push(remote, RemoteDeletes(prune)))
      && (forall i | 0 <= i < |prune| :: plan[pushes + i] == DeleteRef(prune[i].nomadRef.payload))
      && (forall j | pushes <= j < |plan| :: plan[j].DeleteRef?)
  {
    RemoteDeletesEmptyIff(prune);
  }

  /**
   * Remote first: any local delete of a ref that is also to leave the remote comes after a
   * push that succeeded and carried that ref's delete refspec. An interruption in between
   * leaves the local ref behind, to be pruned again by the next run.
   */
  lemma PruneRemoteBeforeLocal(git: Git, t: seq<Op>, remote: Remote, prune: seq<PruneFrom<GitRef>>, i: nat, j: nat)
    requires i < |prune| && prune[i].LocalAndRemote?
    requires var o := PruneNomadRefs(git, t, remote, prune);
      |t| <= j < |o.trace| && o.trace[j] == DeleteRef(prune[i].nomadRef.payload)
    ensures var o := PruneNomadRefs(git, t, remote, prune);
      && |t| < j
      && o.trace[|t|] == Push(remote, RemoteDeletes(prune))
      && DeleteRefspec(prune[i].nomadRef) in o.trace[|t|].refspecs
      && !git.fails(o.trace[..|t| + 1])
  {
    var o := PruneNomadRefs(git, t, remote, prune);
    var full := t + PrunePlan(remote, prune);
    assert HasRemoteDelete(prune);
    PrunePlanShape(remote, prune);
    assert o.trace[j] == full[j] && o.trace[|t|] == full[|t|];
    RanAt(git, t, o.trace, o.Failed? && o.cause.CommandFailed?, |t| + 1);
    PushCarriesRefspec(prune, i);
  }

  /** The remote-delete push names every entry that is to leave the remote. */
  lemma PushCarriesRefspec(prune: seq<PruneFrom<GitRef>>, i: nat)
    requires i < |prune| && prune[i].LocalAndRemote?
    ensures DeleteRefspec(prune[i].nomadRef) in RemoteDeletes(prune)
  {
    RemoteDeletesSpec(prune);
    var idx := Kept(prune, RemoteDelete);
    var k :| 0 <= k < |idx| && idx[k] == i;
    assert RemoteDeletes(prune)[k] == DeleteRefspec(prune[i].nomadRef);
  }

  /** Nothing is pushed when every entry is local only. */
  lemma PruneLocalOnlyPushesNothing(git: Git, t: seq<Op>, remote: Remote, prune: seq<PruneFrom<GitRef>>)
    requires !HasRemoteDelete(prune)
    ensures var o := PruneNomadRefs(git, t, remote, prune);
      forall j | |t| <= j < |o.trace| :: o.trace[j].DeleteRef?
  {
    var o := PruneNomadRefs(git, t, remote, prune);
    var full := t + PrunePlan(remote, prune);
    PrunePlanShape(remote, prune);
    forall j | |t| <= j < |o.trace| ensures o.trace[j].DeleteRef? {
      assert o.trace[j] == full[j];
    }
  }
}
