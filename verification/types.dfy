/** The identities nomad works with: who owns a branch, where it comes from, and what it is called. */
module Types {

  /** Shared by every clone that belongs to one person. */
  datatype User = User(name: string)

  /** Unique per clone of a given user. */
  datatype Host = Host(name: string)

  /** A branch name; it may itself contain `/`. */
  datatype Branch = Branch(name: string)

  /** The name of a configured remote that the clones share. */
  datatype Remote = Remote(name: string)

  /** A branch managed by nomad, carrying whatever payload the git layer needs to act on it later. */
  datatype NomadRef<R> = NomadRef(user: User, host: Host, branch: Branch, payload: R)

  /** The identity of a nomad ref without its payload, as collected from the remote. */
  type RemoteKey = (User, Host, Branch)

  function Key<R>(n: NomadRef<R>): RemoteKey {
    (n.user, n.host, n.branch)
  }
}
