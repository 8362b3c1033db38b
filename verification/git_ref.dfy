/**
 * Parsing of the `<commit id><delimiter><ref name>` lines that `git show-ref` (space) and
 * `git ls-remote` (tab) print.
 */
module GitRefs {
  import opened Wrappers
  import opened Strings

  /** A ref in some git repository: the commit it points to and its full name, like `refs/heads/master`. */
  datatype GitRef = GitRef(commitId: string, name: string)

  /** All the ways a line can fail to parse; each carries the offending line verbatim. */
  datatype GitRefParseError =
    | MissingName(line: string)
    | MissingCommitId(line: string)
    | TooManyParts(line: string)

  /** The human readable form of an error: a tag, then the line it was about. */
  function Display(e: GitRefParseError): (s: string)
    ensures |e.line| <= |s| && s[|s| - |e.line|..] == e.line
  {
    var tag := match e
      case MissingName(_) => "Missing name"
      case MissingCommitId(_) => "Missing commit ID"
      case TooManyParts(_) => "Too many parts";
    tag + ": " + e.line
  }

  /**
   * Splits `line` on `d`; the last field is the name, the one before it the commit id, and
   * nothing may precede those two. Empty fields count as missing.
   */
  function ParseCharDelimitedLine(line: string, d: char): (r: Result<GitRef, GitRefParseError>)
    ensures r.Err? ==> r.error.line == line
    ensures r.Ok? ==>
      && line == r.value.commitId + [d] + r.value.name
      && r.value.commitId != [] && r.value.name != []
      && d !in r.value.commitId && d !in r.value.name
  {
    var parts := Split(line, d);
    var name := parts[|parts| - 1];
    var rest := parts[..|parts| - 1];
    if name == [] then
      Err(MissingName(line))
    else if |rest| == 0 || rest[|rest| - 1] == [] then
      Err(MissingCommitId(line))
    else if |rest| > 1 then
      Err(TooManyParts(line))
    else
      JoinSplit(line, d);
      assert parts == [rest[0], name];
      Ok(GitRef(rest[0], name))
  }

  /** A `git show-ref` line: commit id and name separated by one space. */
  function ParseShowRefLine(line: string): (r: Result<GitRef, GitRefParseError>)
    ensures r.Err? ==> r.error.line == line
    ensures r.Ok? ==> line == r.value.commitId + " " + r.value.name && ' ' !in r.value.commitId && ' ' !in r.value.name
  {
    ParseCharDelimitedLine(line, ' ')
  }

  /** A `git ls-remote` line: commit id and name separated by one tab. */
  function ParseLsRemoteLine(line: string): (r: Result<GitRef, GitRefParseError>)
    ensures r.Err? ==> r.error.line == line
    ensures r.Ok? ==> line == r.value.commitId + "\t" + r.value.name && '\t' !in r.value.commitId && '\t' !in r.value.name
  {
    ParseCharDelimitedLine(line, '\t')
  }

  /** A line built from a commit id and a name that are non-empty and delimiter-free parses back to them. */
  lemma ParseLineRoundTrip(commitId: string, name: string, d: char)
    requires commitId != [] && name != []
    requires d !in commitId && d !in name
    ensures ParseCharDelimitedLine(commitId + [d] + name, d) == Ok(GitRef(commitId, name))
  {
    SplitCons(commitId, d, name);
  }

  /** The name is missing exactly when the line is empty or ends with the delimiter. */
  lemma MissingNameIff(line: string, d: char)
    ensures ParseCharDelimitedLine(line, d) == Err(MissingName(line)) <==> line == [] || line[|line| - 1] == d
  {
    LastPartEmpty(line, d);
  }

  /** A single non-empty field has a name but no commit id. */
  lemma SingleFieldMissingCommitId(line: string, d: char)
    requires line != [] && d !in line
    ensures ParseCharDelimitedLine(line, d) == Err(MissingCommitId(line))
  {
  }

  /** An empty field right before a non-empty name (a leading or doubled delimiter) is a missing commit id. */
  lemma EmptyCommitFieldMissingCommitId(front: string, name: string, d: char)
    requires name != [] && d !in name
    requires front == [] || front[|front| - 1] == d
    ensures ParseCharDelimitedLine(front + [d] + name, d) == Err(MissingCommitId(front + [d] + name))
  {
    SplitSnoc(front, d, name);
    LastPartEmpty(front, d);
  }

  /** Two non-empty trailing fields with anything in front of them are too many parts. */
  lemma ExtraFieldTooManyParts(front: string, commitId: string, name: string, d: char)
    requires commitId != [] && name != []
    requires d !in commitId && d !in name
    ensures var line := front + [d] + commitId + [d] + name;
      ParseCharDelimitedLine(line, d) == Err(TooManyParts(line))
  {
    var line := front + [d] + commitId + [d] + name;
    assert line == (front + [d] + commitId) + [d] + name;
    SplitSnoc(front + [d] + commitId, d, name);
    SplitSnoc(front, d, commitId);
  }

  /** A well-formed `git show-ref` line parses into its commit id and name. */
  lemma ShowRefParses()
    ensures ParseShowRefLine("commit_id refs/heads/master") == Ok(GitRef("commit_id", "refs/heads/master"))
  {
    assert "commit_id refs/heads/master" == "commit_id" + [' '] + "refs/heads/master";
    ParseLineRoundTrip("commit_id", "refs/heads/master", ' ');
  }

  /** The empty line has no name. */
  lemma ShowRefEmptyLine()
    ensures ParseShowRefLine("") == Err(MissingName(""))
  {
  }

  /** A lone name, or a name after a leading delimiter, has no commit id. */
  lemma ShowRefMissingCommitId()
    ensures ParseShowRefLine("refs/heads/master") == Err(MissingCommitId("refs/heads/master"))
    ensures ParseShowRefLine(" refs/heads/master") == Err(MissingCommitId(" refs/heads/master"))
  {
    SingleFieldMissingCommitId("refs/heads/master", ' ');
    assert " refs/heads/master" == "" + [' '] + "refs/heads/master";
    EmptyCommitFieldMissingCommitId("", "refs/heads/master", ' ');
  }

  /** Three fields are too many. */
  lemma ShowRefTooManyParts()
    ensures ParseShowRefLine("extra commit_id refs/heads/master")
      == Err(TooManyParts("extra commit_id refs/heads/master"))
  {
    assert "extra commit_id refs/heads/master" == "extra" + [' '] + "commit_id" + [' '] + "refs/heads/master";
    ExtraFieldTooManyParts("extra", "commit_id", "refs/heads/master", ' ');
  }
}
