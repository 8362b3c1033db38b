/**
 * The listing behind `git nomad ls`: the nomad refs of a snapshot grouped by host, hosts in
 * ascending order, and each group ordered by branch name.
 */
module Listing {
  import opened Types
  import opened Order
  import opened Snapshots

  predicate HostsAscending(hs: seq<Host>) {
    forall i, j | 0 <= i < j < |hs| :: Below(hs[i].name, hs[j].name)
  }

  predicate BranchesAscending<R>(g: seq<NomadRef<R>>) {
    forall i, j | 0 <= i < j < |g| :: AtMost(g[i].branch.name, g[j].branch.name)
  }

  predicate HasHost<R>(refs: seq<NomadRef<R>>, h: Host) {
    exists i | 0 <= i < |refs| :: refs[i].host == h
  }

  /** Adds `h` to an ascending list of distinct hosts, keeping it ascending and distinct. */
  function InsertHost(hs: seq<Host>, h: Host): (r: seq<Host>)
    requires HostsAscending(hs)
    ensures HostsAscending(r)
    ensures forall x :: x in r <==> x in hs || x == h
  {
    if hs == [] then [h]
    else if h == hs[0] then hs
    else if Below(h.name, hs[0].name) then
      assert forall j | 0 < j < |hs| :: Below(h.name, hs[j].name) by {
        forall j | 0 < j < |hs| ensures Below(h.name, hs[j].name) {
          BelowTransitive(h.name, hs[0].name, hs[j].name);
        }
      }
      [h] + hs
    else
      BelowTotal(h.name, hs[0].name);
      var rest := InsertHost(hs[1..], h);
      assert forall x | x in rest :: Below(hs[0].name, x.name) by {
        forall x | x in rest ensures Below(hs[0].name, x.name) {
          if x != h {
            assert x in hs[1..];
          }
        }
      }
      [hs[0]] + rest
  }

  /** The distinct hosts of `refs`, in ascending order. */
  function HostsOf<R>(refs: seq<NomadRef<R>>): (r: seq<Host>)
    ensures HostsAscending(r)
    ensures forall h :: h in r <==> HasHost(refs, h)
  {
    if refs == [] then []
    else
      var front := refs[..|refs| - 1];
      var r := InsertHost(HostsOf(front), refs[|refs| - 1].host);
      assert forall h :: HasHost(refs, h) <==> HasHost(front, h) || h == refs[|refs| - 1].host by {
        forall h | HasHost(front, h) ensures HasHost(refs, h) {
          var i :| 0 <= i < |front| && front[i].host == h;
          assert refs[i].host == h;
        }
      }
      r
  }

  /** The refs of host `h`, in the order they come in `refs`. */
  function Group<R>(refs: seq<NomadRef<R>>, h: Host): (g: seq<NomadRef<R>>)
    ensures forall i | 0 <= i < |g| :: g[i].host == h
    ensures |g| > 0 <==> HasHost(refs, h)
  {
    if refs == [] then []
    else
      var rest := Group(refs[1..], h);
      assert HasHost(refs, h) <==> refs[0].host == h || HasHost(refs[1..], h) by {
        if HasHost(refs[1..], h) {
          var i :| 0 <= i < |refs[1..]| && refs[1..][i].host == h;
          assert refs[i + 1].host == h;
        }
        if HasHost(refs, h) && refs[0].host != h {
          var i :| 0 <= i < |refs| && refs[i].host == h;
          assert refs[1..][i - 1].host == h;
        }
      }
      (if refs[0].host == h then [refs[0]] else []) + rest
  }

  /** Inserts `n` after every entry whose branch is not above its own, which keeps the sort stable. */
  function InsertByBranch<R>(sorted: seq<NomadRef<R>>, n: NomadRef<R>): (r: seq<NomadRef<R>>)
    requires BranchesAscending(sorted)
    ensures BranchesAscending(r)
    ensures multiset(r) == multiset(sorted) + multiset{n}
  {
    if sorted == [] then [n]
    else if Below(n.branch.name, sorted[0].branch.name) then
      BelowFirstBelowAll(sorted, n);
      [n] + sorted
    else
      BelowTotal(n.branch.name, sorted[0].branch.name);
      var rest := InsertByBranch(sorted[1..], n);
      FirstAtMostInserted(sorted, n, rest);
      assert sorted == [sorted[0]] + sorted[1..];
      [sorted[0]] + rest
  }

  /** A ref whose branch is below the first of an ordered list is at most every one of them. */
  lemma BelowFirstBelowAll<R>(sorted: seq<NomadRef<R>>, n: NomadRef<R>)
    requires BranchesAscending(sorted) && sorted != []
    requires Below(n.branch.name, sorted[0].branch.name)
    ensures BranchesAscending([n] + sorted)
  {
    forall j | 0 < j < |sorted| ensures AtMost(n.branch.name, sorted[j].branch.name) {
      if Below(sorted[0].branch.name, sorted[j].branch.name) {
        BelowTransitive(n.branch.name, sorted[0].branch.name, sorted[j].branch.name);
      }
    }
    var r := [n] + sorted;
    forall i, j | 0 <= i < j < |r| ensures AtMost(r[i].branch.name, r[j].branch.name) {
      if i > 0 {
        assert r[i] == sorted[i - 1] && r[j] == sorted[j - 1];
      } else if j > 1 {
        assert r[j] == sorted[j - 1];
      }
    }
  }

  /** The head of an ordered list stays at most every ref of the tail with `n` inserted, when `n` is not below it. */
  lemma FirstAtMostInserted<R>(sorted: seq<NomadRef<R>>, n: NomadRef<R>, rest: seq<NomadRef<R>>)
    requires BranchesAscending(sorted) && sorted != []
    requires AtMost(sorted[0].branch.name, n.branch.name)
    requires BranchesAscending(rest) && multiset(rest) == multiset(sorted[1..]) + multiset{n}
    ensures BranchesAscending([sorted[0]] + rest)
    ensures multiset([sorted[0]] + rest) == multiset(sorted) + multiset{n}
  {
    forall x | x in rest ensures AtMost(sorted[0].branch.name, x.branch.name) {
      assert x in multiset(rest);
      if x != n {
        assert x in sorted[1..];
      }
    }
    var r := [sorted[0]] + rest;
    forall i, j | 0 <= i < j < |r| ensures AtMost(r[i].branch.name, r[j].branch.name) {
      if i > 0 {
        assert r[i] == rest[i - 1] && r[j] == rest[j - 1];
      } else {
        assert r[j] in rest;
      }
    }
    assert sorted == [sorted[0]] + sorted[1..];
  }

  /** A stable insertion sort by branch name: the behaviour of `sort_by` on the branch. */
  function SortByBranch<R>(g: seq<NomadRef<R>>): (r: seq<NomadRef<R>>)
    ensures BranchesAscending(r)
    ensures multiset(r) == multiset(g)
  {
    if g == [] then []
    else
      assert g == g[..|g| - 1] + [g[|g| - 1]];
      InsertByBranch(SortByBranch(g[..|g| - 1]), g[|g| - 1])
  }

  /** One entry per host in `hs`, carrying that host's refs sorted by branch. */
  function GroupsFor<R>(hs: seq<Host>, refs: seq<NomadRef<R>>): (r: seq<(Host, seq<NomadRef<R>>)>)
    ensures |r| == |hs|
    ensures forall k | 0 <= k < |r| :: r[k].0 == hs[k] && r[k].1 == SortByBranch(Group(refs, hs[k]))
  {
    if hs == [] then [] else [(hs[0], SortByBranch(Group(refs, hs[0])))] + GroupsFor(hs[1..], refs)
  }

  /** The refs of every entry, one entry after the other. */
  function Flatten<R>(entries: seq<(Host, seq<NomadRef<R>>)>): seq<NomadRef<R>> {
    if entries == [] then [] else entries[0].1 + Flatten(entries[1..])
  }

  /**
   * `sorted_hosts_and_branches`: hosts strictly ascending (so each appears once), exactly the
   * hosts that own a ref, every group non-empty, owned by its host and ordered by branch.
   */
  function SortedHostsAndBranches<R>(s: Snapshot<R>): (r: seq<(Host, seq<NomadRef<R>>)>)
    ensures forall i, j | 0 <= i < j < |r| :: Below(r[i].0.name, r[j].0.name)
    ensures forall h :: (exists k | 0 <= k < |r| :: r[k].0 == h) <==> HasHost(s.nomadRefs, h)
    ensures forall k | 0 <= k < |r| :: |r[k].1| > 0 && BranchesAscending(r[k].1)
    ensures forall k, i | 0 <= k < |r| && 0 <= i < |r[k].1| :: r[k].1[i].host == r[k].0
  {
    GroupsOwnedByHost(s.nomadRefs);
    GroupsNonEmpty(s.nomadRefs);
    forall h | HasHost(s.nomadRefs, h)
      ensures exists k | 0 <= k < |GroupsFor(HostsOf(s.nomadRefs), s.nomadRefs)| :: GroupsFor(HostsOf(s.nomadRefs), s.nomadRefs)[k].0 == h
    {
      GroupsCoverHosts(s.nomadRefs, h);
    }
    GroupsFor(HostsOf(s.nomadRefs), s.nomadRefs)
  }

  lemma GroupsOwnedByHost<R>(refs: seq<NomadRef<R>>)
    ensures var r := GroupsFor(HostsOf(refs), refs);
      forall k, i | 0 <= k < |r| && 0 <= i < |r[k].1| :: r[k].1[i].host == r[k].0
  {
    var hs := HostsOf(refs);
    var r := GroupsFor(hs, refs);
    forall k, i | 0 <= k < |r| && 0 <= i < |r[k].1|
      ensures r[k].1[i].host == r[k].0
    {
      var g := Group(refs, hs[k]);
      assert r[k].1[i] in multiset(g);
    }
  }

  lemma GroupsCoverHosts<R>(refs: seq<NomadRef<R>>, h: Host)
    requires HasHost(refs, h)
    ensures exists k | 0 <= k < |GroupsFor(HostsOf(refs), refs)| :: GroupsFor(HostsOf(refs), refs)[k].0 == h
  {
    var hs := HostsOf(refs);
    assert h in hs;
    var k :| 0 <= k < |hs| && hs[k] == h;
    assert GroupsFor(hs, refs)[k].0 == h;
  }

  lemma GroupsNonEmpty<R>(refs: seq<NomadRef<R>>)
    ensures var r := GroupsFor(HostsOf(refs), refs);
      forall k | 0 <= k < |r| :: |r[k].1| > 0
  {
    var hs := HostsOf(refs);
    var r := GroupsFor(hs, refs);
    forall k | 0 <= k < |r| ensures |r[k].1| > 0 {
      assert hs[k] in hs;
      assert |multiset(r[k].1)| == |multiset(Group(refs, hs[k]))|;
    }
  }

  /** The refs the groups of `hs` hold between them, counted with multiplicity. */
  ghost function GroupedRefs<R>(hs: seq<Host>, refs: seq<NomadRef<R>>): multiset<NomadRef<R>> {
    if hs == [] then multiset{} else multiset(Group(refs, hs[0])) + GroupedRefs(hs[1..], refs)
  }

  lemma {:induction false} FlattenGroupsFor<R>(hs: seq<Host>, refs: seq<NomadRef<R>>)
    ensures multiset(Flatten(GroupsFor(hs, refs))) == GroupedRefs(hs, refs)
  {
    if hs != [] {
      FlattenGroupsFor(hs[1..], refs);
      assert GroupsFor(hs, refs)[1..] == GroupsFor(hs[1..], refs);
    }
  }

  /** Peeling the first ref off `refs` removes it from the group of its host and from no other. */
  lemma {:induction false} GroupedRefsCons<R>(hs: seq<Host>, refs: seq<NomadRef<R>>)
    requires refs != []
    requires HostsAscending(hs)
    ensures GroupedRefs(hs, refs)
      == GroupedRefs(hs, refs[1..]) + (if refs[0].host in hs then multiset{refs[0]} else multiset{})
  {
    if hs != [] {
      GroupedRefsCons(hs[1..], refs);
      if refs[0].host == hs[0] {
        BelowIrreflexive(hs[0].name);
        assert hs[0] !in hs[1..];
      }
    }
  }

  /** When every ref's host is listed once in `hs`, the groups of `hs` hold exactly `refs`. */
  lemma {:induction false} GroupsCoverRefs<R>(hs: seq<Host>, refs: seq<NomadRef<R>>)
    requires HostsAscending(hs)
    requires forall i | 0 <= i < |refs| :: refs[i].host in hs
    ensures GroupedRefs(hs, refs) == multiset(refs)
  {
    if refs == [] {
      GroupedRefsEmpty(hs, refs);
    } else {
      assert refs[0].host in hs;
      GroupedRefsCons(hs, refs);
      GroupsCoverRefs(hs, refs[1..]);
      MultisetCons(refs);
    }
  }

  lemma MultisetCons<T>(xs: seq<T>)
    requires xs != []
    ensures multiset(xs) == multiset(xs[1..]) + multiset{xs[0]}
  {
    assert xs == [xs[0]] + xs[1..];
  }

  lemma {:induction false} GroupedRefsEmpty<R>(hs: seq<Host>, refs: seq<NomadRef<R>>)
    requires refs == []
    ensures GroupedRefs(hs, refs) == multiset{}
  {
    if hs != [] {
      GroupedRefsEmpty(hs[1..], refs);
    }
  }

  /** The listing neither loses nor duplicates a ref: its groups together are a permutation of the snapshot's refs. */
  lemma SortedHostsAndBranchesPermutes<R>(s: Snapshot<R>)
    ensures multiset(Flatten(SortedHostsAndBranches(s))) == multiset(s.nomadRefs)
  {
    var hs := HostsOf(s.nomadRefs);
    FlattenGroupsFor(hs, s.nomadRefs);
    forall i | 0 <= i < |s.nomadRefs| ensures s.nomadRefs[i].host in hs {
      assert HasHost(s.nomadRefs, s.nomadRefs[i].host);
    }
    GroupsCoverRefs(hs, s.nomadRefs);
  }
}
