/**
 * The naming scheme nomad claims for itself: the `refs/nomad/...` hierarchy, the encoding of
 * (user, host, branch) into ref names in the local clone and on the remote, and the refspecs that
 * move refs between the two.
 */
module Namespace {
  import opened Wrappers
  import opened Types
  import opened Strings
  import opened GitRefs

  /** The reserved top-level ref segment. */
  const Prefix: string := "nomad"

  /** The pattern matching every nomad ref of `user` on the remote. */
  function ListRefspec(user: User): string {
    "refs/" + Prefix + "/" + user.name + "/*"
  }

  /** Force-fetches every remote nomad ref of `user` into the local clone, dropping the user segment. */
  function FetchRefspec(user: User): string {
    "+" + ListRefspec(user) + ":refs/" + Prefix + "/*"
  }

  /** Force-pushes every local branch into the remote region owned by (`user`, `host`). */
  function PushRefspec(user: User, host: Host): string {
    "+refs/heads/*:refs/" + Prefix + "/" + user.name + "/" + host.name + "/*"
  }

  /** Where a nomad ref lives in this clone: host and branch only, since the clone has one user. */
  function ToGitLocalRef<R>(n: NomadRef<R>): string {
    "refs/" + Prefix + "/" + n.host.name + "/" + n.branch.name
  }

  /** The name of a nomad ref on the remote, where many users may share the hierarchy. */
  function ToGitRemoteRef<R>(n: NomadRef<R>): string {
    "refs/" + Prefix + "/" + n.user.name + "/" + n.host.name + "/" + n.branch.name
  }

  /**
   * Reads a local ref name `refs/nomad/<host>/<branch...>` for `user`. Any number of branch
   * segments is accepted, none included, and they are joined back with `/`.
   */
  function FromGitLocalRef(user: User, gitRef: GitRef): (r: Result<NomadRef<GitRef>, GitRef>)
    ensures r.Err? ==> r.error == gitRef
    ensures r.Ok? ==> r.value.user == user && r.value.payload == gitRef && '/' !in r.value.host.name
  {
    var parts := Split(gitRef.name, '/');
    if |parts| >= 3 && parts[0] == "refs" then
      if parts[1] != Prefix then
        Err(gitRef)
      else
        Ok(NomadRef(user, Host(parts[2]), Branch(Join(parts[3..], '/')), gitRef))
    else
      Err(gitRef)
  }

  /**
   * Reads a remote ref name as the source does: exactly `refs/nomad/<user>/<host>/<branch>`,
   * five segments, so a branch containing `/` is refused.
   */
  function FromGitRemoteRefAsWritten(gitRef: GitRef): (r: Result<NomadRef<GitRef>, GitRef>)
    ensures r.Err? ==> r.error == gitRef
    ensures r.Ok? ==> r.value.payload == gitRef && gitRef.name == ToGitRemoteRef(r.value)
    ensures r.Ok? ==> '/' !in r.value.user.name && '/' !in r.value.host.name && '/' !in r.value.branch.name
  {
    var parts := Split(gitRef.name, '/');
    if |parts| == 5 && parts[0] == "refs" then
      if parts[1] != Prefix then
        Err(gitRef)
      else
        JoinSplit(gitRef.name, '/');
        RemoteNameOfParts(parts);
        assert Join(parts[4..], '/') == parts[4];
        Ok(NomadRef(User(parts[2]), Host(parts[3]), Branch(parts[4]), gitRef))
    else
      Err(gitRef)
  }

  /**
   * Reads a remote ref name `refs/nomad/<user>/<host>/<branch...>`, joining every segment after
   * the host into the branch, the way the local form is read.
   */
  function FromGitRemoteRef(gitRef: GitRef): (r: Result<NomadRef<GitRef>, GitRef>)
    ensures r.Err? ==> r.error == gitRef
    ensures r.Ok? ==> r.value.payload == gitRef && gitRef.name == ToGitRemoteRef(r.value)
    ensures r.Ok? ==> '/' !in r.value.user.name && '/' !in r.value.host.name
  {
    var parts := Split(gitRef.name, '/');
    if |parts| >= 5 && parts[0] == "refs" then
      if parts[1] != Prefix then
        Err(gitRef)
      else
        JoinSplit(gitRef.name, '/');
        RemoteNameOfParts(parts);
        Ok(NomadRef(User(parts[2]), Host(parts[3]), Branch(Join(parts[4..], '/')), gitRef))
    else
      Err(gitRef)
  }

  /** The remote name whose segments are `parts`, read back as user, host and joined branch. */
  lemma RemoteNameOfParts(parts: seq<string>)
    requires |parts| >= 5 && parts[0] == "refs" && parts[1] == Prefix
    ensures Join(parts, '/') == ToGitRemoteRef(NomadRef(User(parts[2]), Host(parts[3]), Branch(Join(parts[4..], '/')), ()))
  {
    var p1, p2, p3 := parts[1..], parts[2..], parts[3..];
    var tail := Join(parts[4..], '/');
    assert p1[1..] == p2 && p2[1..] == p3 && p3[1..] == parts[4..];
    JoinCons(parts, '/');
    JoinCons(p1, '/');
    JoinCons(p2, '/');
    JoinCons(p3, '/');
    assert Join(parts, '/') == parts[0] + "/" + (parts[1] + "/" + (parts[2] + "/" + (parts[3] + "/" + tail)));
    SlashAssoc(parts[0], parts[1], parts[2], parts[3], tail);
    assert parts[0] + "/" == "refs/";
  }

  lemma SlashAssoc(a: string, b: string, c: string, d: string, e: string)
    ensures a + "/" + (b + "/" + (c + "/" + (d + "/" + e))) == a + "/" + b + "/" + c + "/" + d + "/" + e
  {
  }

  /** The root every nomad ref name starts with. */
  const Root: string := "refs/" + Prefix + "/"

  /** A name under the nomad root splits into `refs`, the prefix, and the segments after the root. */
  lemma SplitUnderRoot(rest: string)
    ensures Split(Root + rest, '/') == ["refs", Prefix] + Split(rest, '/')
  {
    assert Root + rest == "refs" + ['/'] + Prefix + ['/'] + rest;
    SplitTwoHeads("refs", Prefix, '/', rest);
  }

  /** A name whose first two segments are `refs` and the prefix, followed by more, lies under the root. */
  lemma UnderRootOfParts(name: string)
    requires var parts := Split(name, '/'); |parts| >= 3 && parts[0] == "refs" && parts[1] == Prefix
    ensures StartsWith(name, Root)
  {
    var parts := Split(name, '/');
    JoinSplit(name, '/');
    assert parts[1..][1..] == parts[2..];
    assert name == "refs" + "/" + (Prefix + "/" + Join(parts[2..], '/'));
    assert name == Root + Join(parts[2..], '/');
  }

  /** Local names: a slash-free host and any branch, slashes included, read back to the same host and branch. */
  lemma LocalRoundTrip<R>(user: User, n: NomadRef<R>, commitId: string)
    requires '/' !in n.host.name
    ensures var g := GitRef(commitId, ToGitLocalRef(n));
      FromGitLocalRef(user, g) == Ok(NomadRef(user, n.host, n.branch, g))
  {
    var h, b := n.host.name, n.branch.name;
    assert ToGitLocalRef(n) == Root + (h + "/" + b);
    SplitUnderRoot(h + "/" + b);
    SplitCons(h, '/', b);
    var parts := Split(ToGitLocalRef(n), '/');
    assert parts == ["refs", Prefix, h] + Split(b, '/');
    assert parts[3..] == Split(b, '/');
    JoinSplit(b, '/');
  }

  /** The segments of a remote name built from a slash-free user and host. */
  lemma SplitRemoteName<R>(n: NomadRef<R>)
    requires '/' !in n.user.name && '/' !in n.host.name
    ensures Split(ToGitRemoteRef(n), '/') == ["refs", Prefix, n.user.name, n.host.name] + Split(n.branch.name, '/')
  {
    var u, h, b := n.user.name, n.host.name, n.branch.name;
    var hb := h + "/" + b;
    var uhb := u + "/" + hb;
    assert ToGitRemoteRef(n) == Root + uhb;
    var tail := Split(b, '/');
    calc {
      Split(ToGitRemoteRef(n), '/');
    == { SplitUnderRoot(uhb); }
      ["refs", Prefix] + Split(uhb, '/');
    == { SplitCons(u, '/', hb); }
      ["refs", Prefix] + ([u] + Split(hb, '/'));
    == { SplitCons(h, '/', b); }
      ["refs", Prefix] + ([u] + ([h] + tail));
    == { assert [u] + ([h] + tail) == [u, h] + tail; }
      ["refs", Prefix, u, h] + tail;
    }
  }

  /** Remote names as the source reads them: round-trip only when user, host and branch are all slash-free. */
  lemma RemoteRoundTripAsWritten<R>(n: NomadRef<R>, commitId: string)
    requires '/' !in n.user.name && '/' !in n.host.name && '/' !in n.branch.name
    ensures var g := GitRef(commitId, ToGitRemoteRef(n));
      FromGitRemoteRefAsWritten(g) == Ok(NomadRef(n.user, n.host, n.branch, g))
  {
    SplitRemoteName(n);
  }

  /** Remote names as the source reads them: a branch with a `/` is never read back. */
  lemma AsWrittenRejectsSlashedBranch<R>(n: NomadRef<R>, commitId: string)
    requires '/' !in n.user.name && '/' !in n.host.name && '/' in n.branch.name
    ensures var g := GitRef(commitId, ToGitRemoteRef(n));
      FromGitRemoteRefAsWritten(g) == Err(g)
  {
    SplitRemoteName(n);
    SplitLength(n.branch.name, '/');
  }

  /**
   * The two remote readers differ only on slashed branches: whatever the five-segment reader
   * accepts, the rejoining one reads the same way, and a rejoined branch without `/` came from
   * exactly five segments.
   */
  lemma RemoteReadersAgree(g: GitRef)
    ensures FromGitRemoteRefAsWritten(g).Ok? ==> FromGitRemoteRef(g) == FromGitRemoteRefAsWritten(g)
    ensures FromGitRemoteRef(g).Ok? && '/' !in FromGitRemoteRef(g).value.branch.name
        ==> FromGitRemoteRefAsWritten(g) == FromGitRemoteRef(g)
  {
    var parts := Split(g.name, '/');
    if |parts| == 5 {
      assert parts[4..] == [parts[4]];
    } else if |parts| > 5 && parts[0] == "refs" && parts[1] == Prefix {
      JoinCons(parts[4..], '/');
      assert Join(parts[4..], '/')[|parts[4]|] == '/';
    }
  }

  /** Remote names read with the branch rejoined: slash-free user and host, and any branch, round-trip. */
  lemma RemoteRoundTrip<R>(n: NomadRef<R>, commitId: string)
    requires '/' !in n.user.name && '/' !in n.host.name
    ensures var g := GitRef(commitId, ToGitRemoteRef(n));
      FromGitRemoteRef(g) == Ok(NomadRef(n.user, n.host, n.branch, g))
  {
    SplitRemoteName(n);
    var parts := Split(ToGitRemoteRef(n), '/');
    assert parts[4..] == Split(n.branch.name, '/');
    JoinSplit(n.branch.name, '/');
  }

  /** The local reader accepts exactly the names under `refs/nomad/`; everything else comes back unchanged. */
  lemma LocalAcceptsIff(user: User, g: GitRef)
    ensures FromGitLocalRef(user, g).Ok? <==> StartsWith(g.name, Root)
  {
    var parts := Split(g.name, '/');
    if StartsWith(g.name, Root) {
      assert g.name == Root + g.name[|Root|..];
      SplitUnderRoot(g.name[|Root|..]);
    }
    if FromGitLocalRef(user, g).Ok? {
      UnderRootOfParts(g.name);
    }
  }

  /** Segments and slashes of a name: under the root there are two more of each than in the rest. */
  lemma CountUnderRoot(name: string)
    ensures var parts := Split(name, '/');
      && |parts| == multiset(name)['/'] + 1
      && (StartsWith(name, Root) <==> |parts| >= 3 && parts[0] == "refs" && parts[1] == Prefix)
  {
    SplitLength(name, '/');
    if StartsWith(name, Root) {
      var rest := name[|Root|..];
      assert name == Root + rest;
      SplitUnderRoot(rest);
    }
    var parts := Split(name, '/');
    if |parts| >= 3 && parts[0] == "refs" && parts[1] == Prefix {
      UnderRootOfParts(name);
    }
  }

  /** The source's remote reader accepts exactly the names under `refs/nomad/` with four slashes in all. */
  lemma RemoteAsWrittenAcceptsIff(g: GitRef)
    ensures FromGitRemoteRefAsWritten(g).Ok? <==> StartsWith(g.name, Root) && multiset(g.name)['/'] == 4
  {
    CountUnderRoot(g.name);
  }

  /** The rejoining remote reader accepts exactly the names under `refs/nomad/` with at least four slashes. */
  lemma RemoteAcceptsIff(g: GitRef)
    ensures FromGitRemoteRef(g).Ok? <==> StartsWith(g.name, Root) && multiset(g.name)['/'] >= 4
  {
    CountUnderRoot(g.name);
  }

  /** A ref under another top-level segment is refused by every reader. */
  lemma WrongPrefixRejected(user: User, commitId: string)
    ensures var g := GitRef(commitId, "refs/something/user/host/branch");
      && FromGitLocalRef(user, g) == Err(g)
      && FromGitRemoteRefAsWritten(g) == Err(g)
      && FromGitRemoteRef(g) == Err(g)
  {
    var g := GitRef(commitId, "refs/something/user/host/branch");
    assert g.name[5] != Root[5];
    LocalAcceptsIff(user, g);
    RemoteAsWrittenAcceptsIff(g);
    RemoteAcceptsIff(g);
  }

  /** A local branch ref is never mistaken for a nomad ref. */
  lemma HeadsAreNotNomad(user: User, g: GitRef)
    requires StartsWith(g.name, "refs/heads/")
    ensures FromGitLocalRef(user, g) == Err(g)
  {
    assert g.name[5] == 'h';
    LocalAcceptsIff(user, g);
  }

  /** The local reader takes `refs/nomad/<host>` with no branch segment at all as the empty branch. */
  lemma LocalAcceptsMissingBranch(user: User, host: Host, commitId: string)
    requires '/' !in host.name
    ensures var g := GitRef(commitId, Root + host.name);
      FromGitLocalRef(user, g) == Ok(NomadRef(user, host, Branch(""), g))
  {
    SplitUnderRoot(host.name);
  }

  /** How git reads a refspec side ending in `*`: the text the star stands for in `name`, if it matches. */
  function GlobMatch(pattern: string, name: string): (r: Option<string>)
    ensures r.Some? ==> |pattern| > 0 && name == pattern[..|pattern| - 1] + r.value
  {
    if |pattern| > 0 && pattern[|pattern| - 1] == '*' && StartsWith(name, pattern[..|pattern| - 1]) then
      Some(name[|pattern| - 1..])
    else
      None
  }

  /** How git writes a refspec side ending in `*`: the star replaced by `text`. */
  function Expand(pattern: string, text: string): string {
    if |pattern| > 0 && pattern[|pattern| - 1] == '*' then pattern[..|pattern| - 1] + text else pattern
  }

  /** The fetch refspec takes each remote nomad ref of the user to the local name of the same host and branch. */
  lemma FetchRefspecMapsRemoteToLocal<R>(n: NomadRef<R>)
    ensures var src := ListRefspec(n.user);
      var dst := Root + "*";
      var matched := n.host.name + "/" + n.branch.name;
      && FetchRefspec(n.user) == "+" + src + ":" + dst
      && GlobMatch(src, ToGitRemoteRef(n)) == Some(matched)
      && Expand(dst, matched) == ToGitLocalRef(n)
  {
    var src := ListRefspec(n.user);
    var matched := n.host.name + "/" + n.branch.name;
    assert src[..|src| - 1] == Root + n.user.name + "/";
    assert ToGitRemoteRef(n) == src[..|src| - 1] + matched;
    assert ToGitLocalRef(n) == Root + matched;
  }

  /** The push refspec takes each local branch to the remote name owned by this user and host. */
  lemma PushRefspecMapsBranches<R>(n: NomadRef<R>)
    ensures var dst := Root + n.user.name + "/" + n.host.name + "/*";
      && PushRefspec(n.user, n.host) == "+refs/heads/*:" + dst
      && GlobMatch("refs/heads/*", "refs/heads/" + n.branch.name) == Some(n.branch.name)
      && Expand(dst, n.branch.name) == ToGitRemoteRef(n)
  {
    var dst := Root + n.user.name + "/" + n.host.name + "/*";
    assert dst[..|dst| - 1] == Root + n.user.name + "/" + n.host.name + "/";
    assert ("refs/heads/" + n.branch.name)[..11] == "refs/heads/";
  }

  /** With slash-free user names, the list pattern of a user matches the remote refs of that user and no other. */
  lemma ListRefspecSelectsUser<R>(user: User, n: NomadRef<R>)
    requires '/' !in user.name && '/' !in n.user.name
    ensures GlobMatch(ListRefspec(user), ToGitRemoteRef(n)).Some? <==> n.user == user
  {
    var src := ListRefspec(user);
    var name := ToGitRemoteRef(n);
    var stem := Root + user.name + "/";
    var rest := n.host.name + "/" + n.branch.name;
    assert src[..|src| - 1] == stem;
    assert name == Root + n.user.name + "/" + rest;
    if n.user == user {
      assert name == stem + rest;
    } else if StartsWith(name, stem) {
      var tail := name[|stem|..];
      assert name[|Root|..] == n.user.name + "/" + rest;
      assert name[|Root|..] == user.name + "/" + tail;
      SameHead(user.name, n.user.name, '/', tail, rest);
    }
  }
}
