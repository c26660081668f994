/** The `cleanup` command of cleanup.go: resolve the branches, then call git
    with the arguments `-d <name>` (behind `-C <dir>` when a directory is
    given) for every branch that is not living, in listing order, stopping at
    the first failure. No `branch` subcommand is passed, so the call is not
    `git branch -d`. git's answer to each call is an oracle: `reply(k)` is the
    error of the `k`-th call, or nothing when it succeeded. */
module Cleanup {
  import opened Wrappers
  import opened Branches
  import opened Git
  import opened Strings

  /** The branches cleanup tries to delete: the ones that are not living, in
      order, whatever their upstream. */
  function Candidates(bs: seq<Branch>): (r: seq<Branch>)
    ensures |r| <= |bs|
    ensures forall i :: 0 <= i < |r| ==> !r[i].living
  {
    if bs == [] then []
    else Candidates(bs[..|bs| - 1]) + (if bs[|bs| - 1].living then [] else [bs[|bs| - 1]])
  }

  /** A branch is a candidate exactly when it is listed and not living. */
  lemma {:induction false} CandidatesMembers(bs: seq<Branch>, b: Branch)
    ensures b in Candidates(bs) <==> b in bs && !b.living
  {
    if bs != [] {
      var init := bs[..|bs| - 1];
      CandidatesMembers(init, b);
      assert bs == init + [bs[|bs| - 1]];
    }
  }

  /** Candidates of two listings one after the other. */
  lemma {:induction false} CandidatesConcat(a: seq<Branch>, c: seq<Branch>)
    ensures Candidates(a + c) == Candidates(a) + Candidates(c)
  {
    if c != [] {
      CandidatesConcat(a, c[..|c| - 1]);
      assert (a + c)[..|a + c| - 1] == a + c[..|c| - 1];
      assert (a + c)[|a + c| - 1] == c[|c| - 1];
    } else {
      assert a + c == a;
    }
  }

  /** The git argument lists of the deletes of `cands`, in order: `-d` and the
      branch's name (not its full name), behind `-C <dir>` when a directory is
      given. */
  function DeleteCalls(cands: seq<Branch>, directory: string): (calls: seq<seq<string>>)
    ensures |calls| == |cands|
  {
    seq(|cands|, k requires 0 <= k < |cands| => CallGitArgs(["-d", cands[k].name], directory))
  }

  /** The calls issued from the `planned` ones before and including the first
      failure: they are attempted in order while git reports success, and the
      error returned is the failure's, or nothing when every call succeeded. */
  predicate RunsUntilFailure(planned: seq<seq<string>>, reply: nat -> Option<string>,
                             err: Option<string>, calls: seq<seq<string>>)
  {
    && |calls| <= |planned|
    && calls == planned[..|calls|]
    && (forall k :: 0 <= k < |calls| - 1 ==> reply(k).None?)
    && (err.None? ==> calls == planned && forall k :: 0 <= k < |calls| ==> reply(k).None?)
    && (err.Some? ==> |calls| > 0 && err == reply(|calls| - 1))
  }

  /** The loop's state after the first `i` branches: the deletes of their
      candidates were issued in order, each earlier one succeeded, and the
      error is the answer to the last one, if any. */
  ghost predicate Attempted(vs: seq<Branch>, i: nat, directory: string, reply: nat -> Option<string>,
                            err: Option<string>, calls: seq<seq<string>>)
  {
    && i <= |vs|
    && calls == DeleteCalls(Candidates(vs[..i]), directory)
    && (forall k :: 0 <= k < |calls| - 1 ==> reply(k).None?)
    && (err.None? ==> forall k :: 0 <= k < |calls| ==> reply(k).None?)
    && (err.Some? ==> |calls| > 0 && err == reply(|calls| - 1))
  }

  /** The delete loop of `cleanup` over the resolved branches. */
  method DeleteDead(branches: seq<BranchRef>, directory: string, reply: nat -> Option<string>)
    returns (err: Option<string>, calls: seq<seq<string>>)
    ensures RunsUntilFailure(DeleteCalls(Candidates(Values(branches)), directory), reply, err, calls)
  {
    ghost var vs := Values(branches);
    calls, err := [], None;
    var i := 0;
    while i < |branches| && err.None?
      invariant Attempted(vs, i, directory, reply, err, calls)
    {
      var b := branches[i].val;
      ghost var before := calls;
      if !b.living {
        err := reply(|calls|);
        calls := calls + [CallGitArgs(["-d", b.name], directory)];
      }
      AttemptStep(vs, i, directory, reply, before, err, calls);
      i := i + 1;
    }
    Finish(vs, i, directory, reply, err, calls);
  }

  /** One branch more: a living one adds nothing; any other adds its delete,
      whose answer becomes the error. */
  lemma AttemptStep(vs: seq<Branch>, i: nat, directory: string, reply: nat -> Option<string>,
                    before: seq<seq<string>>, err: Option<string>, calls: seq<seq<string>>)
    requires i < |vs| && Attempted(vs, i, directory, reply, None, before)
    requires calls == before + (if vs[i].living then [] else [CallGitArgs(["-d", vs[i].name], directory)])
    requires err == (if vs[i].living then None else reply(|before|))
    ensures Attempted(vs, i + 1, directory, reply, err, calls)
  {
    DeleteStep(vs, i, directory);
  }

  /** One more branch adds its delete exactly when it is not living. */
  lemma DeleteStep(vs: seq<Branch>, i: nat, directory: string)
    requires i < |vs|
    ensures DeleteCalls(Candidates(vs[..i + 1]), directory) ==
      DeleteCalls(Candidates(vs[..i]), directory) + (if vs[i].living then [] else [CallGitArgs(["-d", vs[i].name], directory)])
  {
    assert vs[..i + 1][..i] == vs[..i];
    var cs := Candidates(vs[..i]);
    if !vs[i].living {
      assert Candidates(vs[..i + 1]) == cs + [vs[i]];
    }
  }

  /** Where the loop stops: after the deletes of a prefix of the listing, either
      at a failing delete, whose error ends the run, or at the end of the
      listing with every delete successful. */
  lemma Finish(vs: seq<Branch>, n: nat, directory: string, reply: nat -> Option<string>,
               err: Option<string>, calls: seq<seq<string>>)
    requires Attempted(vs, n, directory, reply, err, calls)
    requires err.None? ==> n == |vs|
    ensures RunsUntilFailure(DeleteCalls(Candidates(vs), directory), reply, err, calls)
  {
    CandidatesPrefix(vs, n, directory);
    if err.None? {
      assert vs[..n] == vs;
    }
  }

  /** The deletes of the candidates of a prefix are the first deletes of all
      candidates. */
  lemma CandidatesPrefix(vs: seq<Branch>, n: nat, directory: string)
    requires n <= |vs|
    ensures |Candidates(vs[..n])| <= |Candidates(vs)|
    ensures DeleteCalls(Candidates(vs[..n]), directory) == DeleteCalls(Candidates(vs), directory)[..|Candidates(vs[..n])|]
  {
    CandidatesConcat(vs[..n], vs[n..]);
    assert vs[..n] + vs[n..] == vs;
    var a := Candidates(vs[..n]);
    var all := Candidates(vs);
    assert forall k :: 0 <= k < |a| ==> all[k] == a[k];
  }

  /** `cleanup` on git's answer to the listing query and to the deletes: the
      listing failure, wrapped, before any delete; otherwise the deletes of the
      branches that are not living, in order, up to the first failure, whose
      error is returned as it is. `force` is accepted and not used. */
  method Cleanup(force: bool, directory: string, listing: Result<seq<string>, string>, reply: nat -> Option<string>)
    returns (err: Option<string>, calls: seq<seq<string>>)
    ensures listing.Err? ==> err == Some("get branch list: " + ("call git-branch: " + listing.error)) && calls == []
    ensures listing.Ok? ==> RunsUntilFailure(DeleteCalls(Candidates(Resolve(listing.value)), directory), reply, err, calls)
  {
    var listed := RetrieveBranchList(listing);
    if listed.Err? {
      return Some("get branch list: " + listed.error), [];
    }
    err, calls := DeleteDead(listed.value, directory, reply);
  }

  /** Every delete names a listed branch that is not living, by its name; a
      living branch is never deleted. */
  lemma DeletedAreDead(bs: seq<Branch>, directory: string, reply: nat -> Option<string>,
                       err: Option<string>, calls: seq<seq<string>>, k: nat)
    requires RunsUntilFailure(DeleteCalls(Candidates(bs), directory), reply, err, calls)
    requires k < |calls|
    ensures exists b :: b in bs && !b.living && calls[k] == CallGitArgs(["-d", b.name], directory)
  {
    var cands := Candidates(bs);
    var b := cands[k];
    CandidatesMembers(bs, b);
    assert calls[k] == DeleteCalls(cands, directory)[k];
  }

  /** When every delete succeeds, each candidate was attempted exactly once, in
      order, and no error is returned. */
  lemma AllSucceed(bs: seq<Branch>, directory: string, reply: nat -> Option<string>,
                   err: Option<string>, calls: seq<seq<string>>)
    requires RunsUntilFailure(DeleteCalls(Candidates(bs), directory), reply, err, calls)
    requires forall k :: 0 <= k < |Candidates(bs)| ==> reply(k).None?
    ensures err.None? && calls == DeleteCalls(Candidates(bs), directory)
  {
  }

  /** A local branch `feature/x` is listed as `feature/x`, read back as remote
      `feature` with name `x`, and so the delete issued for it names `x`. */
  lemma SlashedLocalDeleteCall()
    ensures var b := ParseFields([" ", "feature/x", "a", "", "d"]);
      b.remote == "feature" && b.name == "x" && DeleteCalls([b], "") == [["-d", "x"]]
  {
    assert "feature/x" == "feature" + ['/'] + "x";
    SplitFirstAround("feature", "x", '/');
  }
}
