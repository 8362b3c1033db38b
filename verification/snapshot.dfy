/**
 * A point-in-time view of the nomad state of one clone, and the pure decisions about which
 * tracking refs to delete, and where.
 */
module Snapshots {
  import opened Wrappers
  import opened Types
  import opened Seqs

  /** The branches the user works on in this clone, and the nomad refs that follow branches of every host. */
  datatype Snapshot<R> = Snapshot(localBranches: set<Branch>, nomadRefs: seq<NomadRef<R>>)

  /** Where a tracking ref is to be deleted: only in this clone, or on the remote as well. */
  datatype PruneFrom<R> = LocalOnly(nomadRef: NomadRef<R>) | LocalAndRemote(nomadRef: NomadRef<R>)

  /** Every ref belongs to `user`: the invariant a snapshot is built under. */
  predicate OwnedBy<R>(refs: seq<NomadRef<R>>, user: User) {
    forall i | 0 <= i < |refs| :: refs[i].user == user
  }

  /** The check `Snapshot::new` makes of each ref in turn before it builds the snapshot. */
  function CheckOwners<R>(refs: seq<NomadRef<R>>, user: User): (ok: bool)
    ensures ok <==> OwnedBy(refs, user)
  {
    if refs == [] then true
    else refs[0].user == user && CheckOwners(refs[1..], user)
  }

  /**
   * The smart constructor: a snapshot scoped to `user`, with both collections stored as given.
   * The source panics when a ref belongs to another user; that is `None` here.
   */
  function New<R>(user: User, localBranches: set<Branch>, nomadRefs: seq<NomadRef<R>>): (r: Option<Snapshot<R>>)
    ensures r.Some? <==> OwnedBy(nomadRefs, user)
    ensures r.Some? ==> r.value.localBranches == localBranches && r.value.nomadRefs == nomadRefs
  {
    if CheckOwners(nomadRefs, user) then Some(Snapshot(localBranches, nomadRefs)) else None
  }

  /**
   * A ref is stale when it follows a branch of this host that no longer exists locally, or a
   * branch of another host that the remote no longer has.
   */
  predicate Stale<R>(n: NomadRef<R>, localBranches: set<Branch>, host: Host, remote: set<RemoteKey>) {
    if n.host == host then n.branch !in localBranches else Key(n) !in remote
  }

  /** The verdict on one ref during `prune_deleted_branches`. */
  function PruneVerdict<R>(n: NomadRef<R>, localBranches: set<Branch>, host: Host, remote: set<RemoteKey>): Option<PruneFrom<R>> {
    if n.host == host then
      if n.branch !in localBranches then Some(LocalAndRemote(n)) else None
    else if Key(n) !in remote then
      Some(LocalOnly(n))
    else
      None
  }

  function PruneVerdicts<R>(localBranches: set<Branch>, host: Host, remote: set<RemoteKey>): NomadRef<R> -> Option<PruneFrom<R>> {
    n => PruneVerdict(n, localBranches, host, remote)
  }

  /**
   * The automatic policy of every sync: a ref of this host whose branch is gone is deleted here
   * and on the remote; a ref of another host that the remote no longer lists is deleted here only.
   */
  function PruneDeletedBranches<R>(s: Snapshot<R>, host: Host, remote: set<RemoteKey>): (r: seq<PruneFrom<R>>)
    ensures |r| <= |s.nomadRefs|
    ensures forall k | 0 <= k < |r| :: r[k].nomadRef in s.nomadRefs
    ensures forall k | 0 <= k < |r| :: r[k].LocalAndRemote? <==> r[k].nomadRef.host == host
    ensures forall k | 0 <= k < |r| :: Stale(r[k].nomadRef, s.localBranches, host, remote)
  {
    var f := PruneVerdicts(s.localBranches, host, remote);
    var r := FilterMap(s.nomadRefs, f);
    var idx := Kept(s.nomadRefs, f);
    FilterMapAt(s.nomadRefs, f);
    forall k | 0 <= k < |r|
      ensures r[k].nomadRef in s.nomadRefs
      ensures r[k].LocalAndRemote? <==> r[k].nomadRef.host == host
      ensures Stale(r[k].nomadRef, s.localBranches, host, remote)
    {
      VerdictOf(s.nomadRefs[idx[k]], s.localBranches, host, remote, r[k]);
    }
    r
  }

  /** A verdict is about the ref it was given, deletes it from the remote exactly when it is this host's, and only when it is stale. */
  lemma VerdictOf<R>(n: NomadRef<R>, localBranches: set<Branch>, host: Host, remote: set<RemoteKey>, v: PruneFrom<R>)
    requires PruneVerdict(n, localBranches, host, remote) == Some(v)
    ensures v.nomadRef == n
    ensures v.LocalAndRemote? <==> n.host == host
    ensures Stale(n, localBranches, host, remote)
  {
  }

  /** Every ref, to be deleted everywhere: `purge --all`. */
  function PruneAll<R>(s: Snapshot<R>): (r: seq<PruneFrom<R>>)
    ensures |r| == |s.nomadRefs|
    ensures forall i | 0 <= i < |r| :: r[i] == LocalAndRemote(s.nomadRefs[i])
    decreases |s.nomadRefs|
  {
    if s.nomadRefs == [] then []
    else [LocalAndRemote(s.nomadRefs[0])] + PruneAll(Snapshot(s.localBranches, s.nomadRefs[1..]))
  }

  /** The verdict on one ref during `prune_all_by_hosts`. */
  function HostVerdict<R>(n: NomadRef<R>, hosts: set<Host>): Option<PruneFrom<R>> {
    if n.host !in hosts then None else Some(LocalAndRemote(n))
  }

  function HostVerdicts<R>(hosts: set<Host>): NomadRef<R> -> Option<PruneFrom<R>> {
    n => HostVerdict(n, hosts)
  }

  /** The refs of the given hosts, to be deleted everywhere: `purge --host`. */
  function PruneAllByHosts<R>(s: Snapshot<R>, hosts: set<Host>): (r: seq<PruneFrom<R>>)
    ensures |r| <= |s.nomadRefs|
    ensures forall k | 0 <= k < |r| :: r[k].LocalAndRemote? && r[k].nomadRef.host in hosts && r[k].nomadRef in s.nomadRefs
  {
    var f := HostVerdicts(hosts);
    FilterMapAt(s.nomadRefs, f);
    FilterMap(s.nomadRefs, f)
  }

  /**
   * `prune_deleted_branches` keeps the input order and emits at most one entry per ref: entry `k`
   * is about the ref at position `idx[k]`, the positions ascend, and a position is used exactly
   * when its ref is stale.
   */
  lemma PruneDeletedBranchesOrder<R>(s: Snapshot<R>, host: Host, remote: set<RemoteKey>)
    ensures var refs, r := s.nomadRefs, PruneDeletedBranches(s, host, remote);
      var idx := Kept(refs, PruneVerdicts(s.localBranches, host, remote));
      && |idx| == |r|
      && (forall k | 0 <= k < |r| :: idx[k] < |refs| && r[k].nomadRef == refs[idx[k]])
      && (forall k, l | 0 <= k < l < |idx| :: idx[k] < idx[l])
      && (forall i | 0 <= i < |refs| :: i in idx <==> Stale(refs[i], s.localBranches, host, remote))
  {
    FilterMapAt(s.nomadRefs, PruneVerdicts(s.localBranches, host, remote));
  }

  /**
   * Own-host rule and other-host rule: a ref of this host is deleted everywhere exactly when its
   * branch is gone; a ref of another host is deleted locally exactly when the remote no longer
   * has it, and never remotely.
   */
  lemma PruneDeletedBranchesMembership<R>(s: Snapshot<R>, host: Host, remote: set<RemoteKey>, n: NomadRef<R>)
    ensures var r := PruneDeletedBranches(s, host, remote);
      && (LocalAndRemote(n) in r <==> n in s.nomadRefs && n.host == host && n.branch !in s.localBranches)
      && (LocalOnly(n) in r <==> n in s.nomadRefs && n.host != host && Key(n) !in remote)
  {
    var refs, r := s.nomadRefs, PruneDeletedBranches(s, host, remote);
    PruneDeletedBranchesOrder(s, host, remote);
    var idx := Kept(refs, PruneVerdicts(s.localBranches, host, remote));
    FilterMapAt(refs, PruneVerdicts(s.localBranches, host, remote));
    if n in refs && Stale(n, s.localBranches, host, remote) {
      var i :| 0 <= i < |refs| && refs[i] == n;
      var k :| 0 <= k < |idx| && idx[k] == i;
      assert PruneVerdict(refs[idx[k]], s.localBranches, host, remote) == Some(r[k]);
    }
  }

  /** Nothing is pruned exactly when every own-host branch still exists and the remote still has every other-host ref. */
  lemma PruneNothingIff<R>(s: Snapshot<R>, host: Host, remote: set<RemoteKey>)
    ensures PruneDeletedBranches(s, host, remote) == [] <==>
      forall i | 0 <= i < |s.nomadRefs| ::
        if s.nomadRefs[i].host == host then s.nomadRefs[i].branch in s.localBranches
        else Key(s.nomadRefs[i]) in remote
  {
    PruneDeletedBranchesOrder(s, host, remote);
    var refs := s.nomadRefs;
    var idx := Kept(refs, PruneVerdicts(s.localBranches, host, remote));
    if |idx| > 0 {
      assert Stale(refs[idx[0]], s.localBranches, host, remote);
    }
  }

  /**
   * The prune looks at the remote set only through the identities of the snapshot's refs: two
   * remote sets that agree on those prune the same refs.
   */
  lemma PruneDependsOnListedRefs<R>(s: Snapshot<R>, host: Host, a: set<RemoteKey>, b: set<RemoteKey>)
    requires forall n | n in s.nomadRefs :: Key(n) in a <==> Key(n) in b
    ensures PruneDeletedBranches(s, host, a) == PruneDeletedBranches(s, host, b)
  {
    var f, g := PruneVerdicts(s.localBranches, host, a), PruneVerdicts(s.localBranches, host, b);
    forall i | 0 <= i < |s.nomadRefs| ensures f(s.nomadRefs[i]) == g(s.nomadRefs[i]) {
      assert s.nomadRefs[i] in s.nomadRefs;
    }
    FilterMapCongruent(s.nomadRefs, f, g);
  }

  /** `prune_all_by_hosts` keeps, in order, exactly the refs whose host is in the set. */
  lemma PruneAllByHostsOrder<R>(s: Snapshot<R>, hosts: set<Host>)
    ensures var refs, r := s.nomadRefs, PruneAllByHosts(s, hosts);
      var idx := Kept(refs, HostVerdicts(hosts));
      && |idx| == |r|
      && (forall k | 0 <= k < |r| :: idx[k] < |refs| && r[k] == LocalAndRemote(refs[idx[k]]))
      && (forall k, l | 0 <= k < l < |idx| :: idx[k] < idx[l])
      && (forall i | 0 <= i < |refs| :: i in idx <==> refs[i].host in hosts)
  {
    FilterMapAt(s.nomadRefs, HostVerdicts(hosts));
  }

  /** With every host of the snapshot selected, purging by host is purging everything. */
  lemma PruneAllByHostsCoversAll<R>(s: Snapshot<R>, hosts: set<Host>)
    requires forall i | 0 <= i < |s.nomadRefs| :: s.nomadRefs[i].host in hosts
    ensures PruneAllByHosts(s, hosts) == PruneAll(s)
  {
    FilterMapTotal(s.nomadRefs, HostVerdicts(hosts), 0);
  }

  /** The refs of the unit tests: two branches of `host0` and one of `host1`, all of `user0`. */
  function TestRefs(): seq<NomadRef<()>> {
    [ NomadRef(User("user0"), Host("host0"), Branch("branch0"), ()),
      NomadRef(User("user0"), Host("host0"), Branch("branch1"), ()),
      NomadRef(User("user0"), Host("host1"), Branch("branch1"), ()) ]
  }

  /** Existing local branches and a remote that still has the other host's ref: nothing to prune. */
  lemma PruneDoesNothing()
    ensures PruneDeletedBranches(Snapshot({Branch("branch0"), Branch("branch1")}, TestRefs()), Host("host0"),
      {(User("user0"), Host("host1"), Branch("branch1"))}) == []
  {
    var s := Snapshot({Branch("branch0"), Branch("branch1")}, TestRefs());
    PruneNothingIff(s, Host("host0"), {(User("user0"), Host("host1"), Branch("branch1"))});
  }

  /** A deleted local branch of this host is pruned locally and remotely. */
  lemma PruneRemovesLocalMissingBranch()
    ensures PruneDeletedBranches(Snapshot({Branch("branch0")}, TestRefs()), Host("host0"),
      {(User("user0"), Host("host0"), Branch("branch0")), (User("user0"), Host("host0"), Branch("branch1")),
       (User("user0"), Host("host1"), Branch("branch1"))})
      == [LocalAndRemote(NomadRef(User("user0"), Host("host0"), Branch("branch1"), ()))]
  {
    assert Branch("branch1") != Branch("branch0");
    assert Host("host1") != Host("host0");
  }

  /** Another host's ref that the remote no longer has is pruned locally only. */
  lemma PruneRemovesRemoteMissingBranch()
    ensures PruneDeletedBranches(Snapshot({Branch("branch0"), Branch("branch1")}, TestRefs()), Host("host0"),
      {(User("user0"), Host("host0"), Branch("branch0")), (User("user0"), Host("host0"), Branch("branch1"))})
      == [LocalOnly(NomadRef(User("user0"), Host("host1"), Branch("branch1"), ()))]
  {
    assert Host("host1") != Host("host0");
  }

  /** Purging by host keeps only the selected host's refs. */
  lemma PruneHostsExample()
    ensures PruneAllByHosts(Snapshot({Branch("branch0"), Branch("branch1")}, TestRefs()), {Host("host0")})
      == [LocalAndRemote(TestRefs()[0]), LocalAndRemote(TestRefs()[1])]
  {
    assert Host("host1") != Host("host0");
  }
}
