/** The branch record shared by the listing, the filters and the cleanup
    (gitbranches/branch.go). */
module Branches {
  import opened Strings

  /** One reference of the repository: a local branch (empty `remote`) or a
      remote-tracking one. `living` is derived by the resolver; `upstream` is the
      full name of the tracked branch, or empty. */
  datatype Branch = Branch(
    current: bool,
    remote: string,
    name: string,
    upstream: string,
    living: bool,
    committer: string)
  {
    /** The lookup key of the branch: `remote/name`, or just `name` for a local
        branch. The name is always its suffix, and the key equals the name
        exactly when the branch is local. */
    function FullName(): (r: string)
      ensures |name| <= |r| && r[|r| - |name|..] == name
      ensures r == name <==> remote == ""
    {
      if remote == "" then name else remote + "/" + name
    }
  }

  /** Splitting a remote branch's full name on its first `/` recovers the remote
      and the name, as long as the remote itself holds no `/`; the name may. */
  lemma SplitRemoteFullName(b: Branch)
    requires b.remote != "" && '/' !in b.remote
    ensures SplitFirst(b.FullName(), '/') == [b.remote, b.name]
  {
    assert b.FullName() == b.remote + ['/'] + b.name;
    SplitFirstAround(b.remote, b.name, '/');
  }

  /** A local branch whose name holds no `/` splits into its name alone. */
  lemma SplitLocalFullName(b: Branch)
    requires b.remote == "" && '/' !in b.name
    ensures SplitFirst(b.FullName(), '/') == [b.name]
  {
  }
}
