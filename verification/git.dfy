/** Invoking git and resolving the `for-each-ref` listing into branches with
    their liveness (git.go). */
module Git {
  import opened Wrappers
  import opened Strings
  import opened Branches

  /** `callGit`'s argument list: a non-empty directory is passed to git as
      `-C <dir>` ahead of all other arguments; otherwise the arguments are used
      as given. */
  function CallGitArgs(args: seq<string>, currentDir: string): (r: seq<string>)
    ensures |r| == |args| + (if currentDir == "" then 0 else 2)
    ensures r[|r| - |args|..] == args
    ensures currentDir != "" ==> r[..2] == ["-C", currentDir]
  {
    if currentDir != "" then ["-C", currentDir] + args else args
  }

  /** The record of a listing line with at least five tab-separated fields
      (current marker, short name, author, upstream, date). The short name is
      split at its first `/` into remote and name; the upstream is kept as
      written; later fields are not looked at. */
  function ParseFields(fields: seq<string>): (b: Branch)
    requires |fields| >= 5
    ensures b.current <==> fields[0] == "*"
    ensures b.committer == fields[2] && b.upstream == fields[3] && !b.living
    ensures '/' in fields[1] ==> '/' !in b.remote && b.remote + "/" + b.name == fields[1]
    ensures '/' !in fields[1] ==> b.remote == "" && b.name == fields[1]
  {
    var names := SplitFirst(fields[1], '/');
    Branch(
      current := fields[0] == "*",
      remote := if |names| == 2 then names[0] else "",
      name := if |names| == 2 then names[1] else names[0],
      upstream := fields[3],
      living := false,
      committer := fields[2])
  }

  /** One line of the listing: nothing when it has fewer than five fields
      (fewer than four tabs). */
  function ParseLine(text: string): (r: Option<Branch>)
    ensures r.None? <==> Count(text, '\t') < 4
    ensures r.Some? ==> !r.value.living
  {
    var fields := Split(text, '\t');
    if |fields| < 5 then None else Some(ParseFields(fields))
  }

  /** The five fields git's format string prints for a branch: `%(HEAD)` is
      `*` for the checked-out branch and a space otherwise. */
  function FormatFields(b: Branch, date: string): (fields: seq<string>)
    ensures |fields| == 5
  {
    [if b.current then "*" else " ", b.FullName(), b.committer, b.upstream, date]
  }

  /** A branch written out as git's format string writes it is parsed back into
      the same branch: the listing format and the parser agree. */
  lemma ParseLineRoundTrip(b: Branch, date: string)
    requires !b.living
    requires '\t' !in b.remote && '\t' !in b.name && '\t' !in b.committer && '\t' !in b.upstream && '\t' !in date
    requires b.remote != "" ==> '/' !in b.remote
    requires b.remote == "" ==> '/' !in b.name
    ensures ParseLine(Join(FormatFields(b, date), '\t')) == Some(b)
  {
    var fields := FormatFields(b, date);
    assert '\t' !in b.FullName() by {
      if b.remote != "" {
        assert b.FullName() == b.remote + ['/'] + b.name;
      }
    }
    assert forall i :: 0 <= i < |fields| ==> '\t' !in fields[i];
    SplitJoin(fields, '\t');
    ParseFieldsOfFullName(b, fields);
  }

  /** Fields carrying a branch's marker, full name, author and upstream are parsed
      into that branch. */
  lemma ParseFieldsOfFullName(b: Branch, fields: seq<string>)
    requires |fields| == 5 && !b.living
    requires (fields[0] == "*") == b.current && fields[1] == b.FullName()
    requires fields[2] == b.committer && fields[3] == b.upstream
    requires b.remote != "" ==> '/' !in b.remote
    requires b.remote == "" ==> '/' !in b.name
    ensures ParseFields(fields) == b
  {
    if b.remote != "" {
      SplitRemoteFullName(b);
    } else {
      SplitLocalFullName(b);
    }
  }

  /** A local branch whose name holds a `/` does not come back as itself: the
      short name git prints for it is split like a remote one, so the part
      before the first `/` is read as a remote and only the rest as the name.
      This is why the round trip above needs a local name without `/`. */
  lemma SlashedLocalNameSplits(b: Branch, date: string)
    requires !b.living && b.remote == "" && '/' in b.name
    requires '\t' !in b.name && '\t' !in b.committer && '\t' !in b.upstream && '\t' !in date
    ensures ParseLine(Join(FormatFields(b, date), '\t')).Some?
    ensures var p := ParseLine(Join(FormatFields(b, date), '\t')).value;
      p.remote + "/" + p.name == b.name && '/' !in p.remote && |p.name| < |b.name|
  {
    var fields := FormatFields(b, date);
    assert forall i :: 0 <= i < |fields| ==> '\t' !in fields[i];
    SplitJoin(fields, '\t');
    var p := ParseFields(fields);
    assert |p.remote + "/" + p.name| == |p.remote| + 1 + |p.name|;
  }

  /** The records of the well-formed lines among the first `n`, in listing
      order. */
  function ParsedUpTo(lines: seq<string>, n: nat): (bs: seq<Branch>)
    requires n <= |lines|
    ensures |bs| <= n
    ensures forall i :: 0 <= i < |bs| ==> !bs[i].living
  {
    if n == 0 then []
    else
      var last := ParseLine(lines[n - 1]);
      ParsedUpTo(lines, n - 1) + (if last.Some? then [last.value] else [])
  }

  /** The records of the well-formed lines, in listing order. */
  function Parsed(lines: seq<string>): (bs: seq<Branch>)
  {
    ParsedUpTo(lines, |lines|)
  }

  /** The first `n` lines of a longer listing parse as they do on their own. */
  lemma {:induction false} ParsedUpToPrefix(a: seq<string>, c: seq<string>, n: nat)
    requires n <= |a|
    ensures ParsedUpTo(a + c, n) == ParsedUpTo(a, n)
  {
    if n > 0 {
      ParsedUpToPrefix(a, c, n - 1);
      assert (a + c)[n - 1] == a[n - 1];
    }
  }

  /** Parsing a listing parses its parts independently. */
  lemma ParsedConcat(a: seq<string>, c: seq<string>)
    ensures Parsed(a + c) == Parsed(a) + Parsed(c)
  {
    ParsedConcatUpTo(a, c, |c|);
  }

  /** Parsing the first `|a| + n` lines of `a + c` parses `a` and then the first
      `n` lines of `c`. */
  lemma {:induction false} ParsedConcatUpTo(a: seq<string>, c: seq<string>, n: nat)
    requires n <= |c|
    ensures ParsedUpTo(a + c, |a| + n) == Parsed(a) + ParsedUpTo(c, n)
  {
    if n == 0 {
      ParsedUpToPrefix(a, c, |a|);
    } else {
      ParsedConcatUpTo(a, c, n - 1);
      assert (a + c)[|a| + n - 1] == c[n - 1];
    }
  }

  /** Record `j` is dropped from the output: it, or a record before it, declared
      its full name as upstream. */
  ghost predicate Dropped(bs: seq<Branch>, j: nat)
    requires j < |bs|
  {
    exists k :: 0 <= k <= j && bs[k].upstream != "" && bs[k].upstream == bs[j].FullName()
  }

  /** Line `j` marks record `i` living: its full name is `i`'s upstream and no
      record after `i` up to `j` re-declared that upstream (which would have
      taken the followee entry over). */
  ghost predicate MarksLiving(bs: seq<Branch>, i: nat, j: nat)
  {
    i <= j < |bs| && bs[j].FullName() == bs[i].upstream
    && forall m :: i < m <= j ==> bs[m].upstream != bs[i].upstream
  }

  /** Record `i` is marked living: it declares an upstream and some record at or
      after it marks it living. */
  ghost predicate MarkedLiving(bs: seq<Branch>, i: nat)
    requires i < |bs|
  {
    bs[i].upstream != "" && exists j :: MarksLiving(bs, i, j)
  }

  /** The indices below `n` of the records that are not dropped, ascending. */
  ghost function KeptUpTo(bs: seq<Branch>, n: nat): (ks: seq<nat>)
    requires n <= |bs|
    ensures |ks| <= n
    ensures forall t :: 0 <= t < |ks| ==> ks[t] < n && !Dropped(bs, ks[t])
    ensures forall t, u :: 0 <= t < u < |ks| ==> ks[t] < ks[u]
  {
    if n == 0 then [] else KeptUpTo(bs, n - 1) + (if Dropped(bs, n - 1) then [] else [n - 1])
  }

  /** Every record among the first `n` that is not dropped is kept. */
  lemma {:induction false} KeptComplete(bs: seq<Branch>, n: nat, j: nat)
    requires j < n <= |bs| && !Dropped(bs, j)
    ensures j in KeptUpTo(bs, n)
  {
    if j < n - 1 {
      KeptComplete(bs, n - 1, j);
    }
  }

  /** The records with the liveness the whole listing gives them. */
  ghost function Marked(bs: seq<Branch>): (r: seq<Branch>)
    ensures |r| == |bs|
  {
    seq(|bs|, i requires 0 <= i < |bs| => bs[i].(living := MarkedLiving(bs, i)))
  }

  /** What the resolver returns for a listing: the records that are not dropped,
      in listing order, each with its liveness. */
  ghost function Resolve(lines: seq<string>): seq<Branch>
  {
    var bs := Parsed(lines);
    var ks := KeptUpTo(bs, |bs|);
    seq(|ks|, t requires 0 <= t < |ks| => Marked(bs)[ks[t]])
  }

  /** The heap cell behind a `*Branch`: the resolver hands out these cells and
      later marks a cell living through the followee map. */
  class BranchRef {
    var val: Branch

    constructor (b: Branch)
      ensures val == b
    {
      val := b;
    }

    /** `follower.Living = true`: only this cell changes, so among distinct cells
        holding `vs`, the one at `d` now holds its record marked living. */
    method SetLiving(ghost cells: seq<BranchRef>, ghost vs: seq<Branch>, ghost d: nat)
      requires Distinct(cells) && CellsAre(cells, vs) && d < |cells| && cells[d] == this
      modifies this
      ensures val == old(val).(living := true)
      ensures CellsAre(cells, vs[d := vs[d].(living := true)])
    {
      val := val.(living := true);
      forall i | 0 <= i < |cells|
        ensures cells[i].val == vs[d := vs[d].(living := true)][i]
      {
        if i != d {
          assert cells[i] != this;
        }
      }
    }
  }

  /** The records the cells currently hold. */
  function Values(refs: seq<BranchRef>): (r: seq<Branch>)
    reads refs
    ensures |r| == |refs|
    ensures forall i :: 0 <= i < |refs| ==> r[i] == refs[i].val
  {
    if refs == [] then [] else [refs[0].val] + Values(refs[1..])
  }

  /** Record `d` is the last one declaring upstream `k`. */
  ghost predicate IsLastDeclarer(bs: seq<Branch>, k: string, d: nat)
  {
    d < |bs| && bs[d].upstream == k && forall m :: d < m < |bs| ==> bs[m].upstream != k
  }

  /** `decl` maps every declared upstream to its last declarer: the followee map
      after the records `bs`, with record indices standing for the cells. */
  ghost predicate FolloweesOf(bs: seq<Branch>, decl: map<string, nat>)
  {
    && (forall k :: k in decl ==> k != "" && IsLastDeclarer(bs, k, decl[k]))
    && (forall i :: 0 <= i < |bs| && bs[i].upstream != "" ==> bs[i].upstream in decl)
  }

  /** Registering a record's upstream (when it has one) keeps the followee map
      correct. */
  lemma FolloweesStep(bs: seq<Branch>, decl: map<string, nat>, b: Branch)
    requires FolloweesOf(bs, decl)
    ensures FolloweesOf(bs + [b], if b.upstream != "" then decl[b.upstream := |bs|] else decl)
  {
    var bs' := bs + [b];
    var decl' := if b.upstream != "" then decl[b.upstream := |bs|] else decl;
    forall k | k in decl'
      ensures k != "" && IsLastDeclarer(bs', k, decl'[k])
    {
      if b.upstream != "" && k == b.upstream {
      } else {
        assert IsLastDeclarer(bs, k, decl[k]);
        assert forall m :: 0 <= m < |bs| ==> bs'[m] == bs[m];
      }
    }
    forall i | 0 <= i < |bs'| && bs'[i].upstream != ""
      ensures bs'[i].upstream in decl'
    {
      if i < |bs| {
        assert bs'[i] == bs[i];
      }
    }
  }

  /** The record just appended is dropped exactly when its full name is a key of
      the followee map (which already holds its own upstream). */
  lemma DroppedByFollowees(bs: seq<Branch>, decl: map<string, nat>)
    requires |bs| > 0 && FolloweesOf(bs, decl)
    ensures Dropped(bs, |bs| - 1) <==> bs[|bs| - 1].FullName() in decl
  {
    var key := bs[|bs| - 1].FullName();
    if key in decl {
      assert IsLastDeclarer(bs, key, decl[key]);
    }
  }

  /** After appending `b`, a record is living exactly when it was before or it is
      the last declarer of `b`'s full name: the one the followee map hands out. */
  lemma LivingByFollowees(bs: seq<Branch>, b: Branch, decl: map<string, nat>, i: nat)
    requires i <= |bs| && FolloweesOf(bs + [b], decl)
    ensures MarkedLiving(bs + [b], i) <==>
      (i < |bs| && MarkedLiving(bs, i)) || (b.FullName() in decl && decl[b.FullName()] == i)
  {
    var bs' := bs + [b];
    var key := b.FullName();
    LivingStep(bs, b, i);
    if key in decl {
      var d := decl[key];
      assert IsLastDeclarer(bs', key, d);
      if bs'[i].upstream != "" && MarksLiving(bs', i, |bs|) {
        assert bs'[|bs|] == b;
        assert bs'[i].upstream == key && bs'[d].upstream == key;
        assert d <= i && i <= d;
      }
      if d == i {
        assert bs'[|bs|] == b;
        assert MarksLiving(bs', i, |bs|);
      }
    } else {
      assert bs'[|bs|] == b;
      assert bs'[i].upstream != "" ==> bs'[i].upstream in decl;
    }
  }

  /** The cells are pairwise distinct objects. */
  ghost predicate Distinct(created: seq<BranchRef>)
  {
    forall i, j :: 0 <= i < j < |created| ==> created[i] != created[j]
  }

  /** The cells hold the records `vs`. */
  ghost predicate CellsAre(created: seq<BranchRef>, vs: seq<Branch>)
    reads created
  {
    |created| == |vs| && forall i {:trigger vs[i]} :: 0 <= i < |created| ==> created[i].val == vs[i]
  }

  /** The followee map hands out the cell of each upstream's last declarer. */
  ghost predicate FolloweeCells(followees: map<string, BranchRef>, decl: map<string, nat>, created: seq<BranchRef>)
  {
    && followees.Keys == decl.Keys
    && (forall k :: k in decl ==> decl[k] < |created| && followees[k] == created[decl[k]])
  }

  /** The output so far is the cells of the kept records, in order. */
  ghost predicate KeptCells(branches: seq<BranchRef>, kept: seq<nat>, created: seq<BranchRef>)
  {
    && |branches| == |kept|
    && (forall t :: 0 <= t < |kept| ==> kept[t] < |created| && branches[t] == created[kept[t]])
  }

  /** The resolver's state after the records `bs`: the cells created so far hold
      the records with their liveness, the followee map hands out the cell of
      each upstream's last declarer, and the output holds the kept cells. */
  ghost predicate ResolverState(bs: seq<Branch>, created: seq<BranchRef>, decl: map<string, nat>,
                                followees: map<string, BranchRef>, branches: seq<BranchRef>)
    reads created
  {
    && Distinct(created)
    && CellsAre(created, Marked(bs))
    && FolloweesOf(bs, decl)
    && FolloweeCells(followees, decl, created)
    && KeptCells(branches, KeptUpTo(bs, |bs|), created)
  }

  /** The resolver's state between the registration of record `b` and its
      lookup: the new cell holds `b` as parsed, the followee map already knows
      `b`'s upstream, and the output is still that of the records before it. */
  ghost predicate Registered(bs: seq<Branch>, b: Branch, created: seq<BranchRef>, decl: map<string, nat>,
                             followees: map<string, BranchRef>, branches: seq<BranchRef>)
    reads created
  {
    && Distinct(created)
    && CellsAre(created, Marked(bs) + [b])
    && FolloweesOf(bs + [b], decl)
    && FolloweeCells(followees, decl, created)
    && KeptCells(branches, KeptUpTo(bs, |bs|), created)
  }

  /** One well-formed line of the scan: register the branch, then look it up. */
  method Register(b: Branch, branches: seq<BranchRef>, followees: map<string, BranchRef>,
                  ghost bs: seq<Branch>, ghost created: seq<BranchRef>, ghost decl: map<string, nat>)
    returns (branches': seq<BranchRef>, followees': map<string, BranchRef>,
             ghost created': seq<BranchRef>, ghost decl': map<string, nat>)
    requires !b.living && ResolverState(bs, created, decl, followees, branches)
    modifies created
    ensures ResolverState(bs + [b], created', decl', followees', branches')
    ensures |created'| == |created| + 1 && created' == created + [created'[|created|]]
    ensures fresh(created'[|created|])
  {
    var branch;
    branch, followees', created', decl' := Allocate(b, branches, followees, bs, created, decl);
    branches' := Lookup(b, branch, branches, followees', bs, created', decl');
  }

  /** Allocate the cell of record `b` and register it in the followee map under
      its upstream, when it has one. */
  method Allocate(b: Branch, branches: seq<BranchRef>, followees: map<string, BranchRef>,
                  ghost bs: seq<Branch>, ghost created: seq<BranchRef>, ghost decl: map<string, nat>)
    returns (branch: BranchRef, followees': map<string, BranchRef>,
             ghost created': seq<BranchRef>, ghost decl': map<string, nat>)
    requires ResolverState(bs, created, decl, followees, branches)
    ensures fresh(branch) && created' == created + [branch]
    ensures Registered(bs, b, created', decl', followees', branches)
  {
    branch := new BranchRef(b);
    created' := created + [branch];
    decl' := if b.upstream != "" then decl[b.upstream := |bs|] else decl;
    FolloweesStep(bs, decl, b);
    DistinctAppend(created, branch);
    CellsAppend(created, Marked(bs), branch);
    followees' := followees;
    if branch.val.upstream != "" {
      followees' := followees'[branch.val.upstream := branch];
    }
    FolloweeCellsStep(followees, decl, created, branch, b.upstream);
    KeptCellsAppend(branches, KeptUpTo(bs, |bs|), created, branch);
  }

  /** Look the registered record `b` up by its full name: mark the branch the
      followee map hands out living and drop `b`, or append `b`'s cell to the
      output. */
  method Lookup(b: Branch, branch: BranchRef, branches: seq<BranchRef>, followees: map<string, BranchRef>,
                ghost bs: seq<Branch>, ghost created: seq<BranchRef>, ghost decl: map<string, nat>)
    returns (branches': seq<BranchRef>)
    requires !b.living && |created| == |bs| + 1 && branch == created[|bs|]
    requires Registered(bs, b, created, decl, followees, branches)
    modifies created
    ensures ResolverState(bs + [b], created, decl, followees, branches')
  {
    var key := b.FullName();
    assert key in followees <==> key in decl;
    if key in followees {
      MarkFollower(b, followees[key], bs, created, decl, followees, branches);
      branches' := branches;
    } else {
      branches' := branches + [branch];
      AppendedState(bs, b, created, decl, followees, branches);
    }
  }

  /** `follower.Living = true` for the branch the followee map hands out for
      `b`'s full name; `b` itself is dropped. */
  method MarkFollower(b: Branch, follower: BranchRef, ghost bs: seq<Branch>, ghost created: seq<BranchRef>,
                      ghost decl: map<string, nat>, ghost followees: map<string, BranchRef>, ghost branches: seq<BranchRef>)
    requires !b.living && Registered(bs, b, created, decl, followees, branches)
    requires b.FullName() in followees && follower == followees[b.FullName()]
    modifies created
    ensures ResolverState(bs + [b], created, decl, followees, branches)
  {
    ghost var d := decl[b.FullName()];
    assert follower == created[d];
    follower.SetLiving(created, Marked(bs) + [b], d);
    DroppedState(bs, b, created, decl, followees, branches, d);
  }

  /** After the follower of `b` was marked living, the state is the resolver's
      state after `b`, with `b` dropped. */
  lemma DroppedState(bs: seq<Branch>, b: Branch, created: seq<BranchRef>, decl: map<string, nat>,
                     followees: map<string, BranchRef>, branches: seq<BranchRef>, d: nat)
    requires !b.living && b.FullName() in decl && d == decl[b.FullName()]
    requires Distinct(created) && FolloweesOf(bs + [b], decl) && FolloweeCells(followees, decl, created)
    requires CellsAre(created, (Marked(bs) + [b])[d := (Marked(bs) + [b])[d].(living := true)])
    requires KeptCells(branches, KeptUpTo(bs, |bs|), created)
    ensures ResolverState(bs + [b], created, decl, followees, branches)
  {
    KeptStep(bs, b, decl);
    MarkedStep(bs, b, decl);
  }

  /** A registered record whose full name is not a followee key is appended to
      the output: the state is the resolver's state after it. */
  lemma AppendedState(bs: seq<Branch>, b: Branch, created: seq<BranchRef>, decl: map<string, nat>,
                      followees: map<string, BranchRef>, branches: seq<BranchRef>)
    requires !b.living && |created| == |bs| + 1 && b.FullName() !in decl
    requires Registered(bs, b, created, decl, followees, branches)
    ensures ResolverState(bs + [b], created, decl, followees, branches + [created[|bs|]])
  {
    KeptStep(bs, b, decl);
    MarkedStep(bs, b, decl);
    KeptCellsAdd(branches, KeptUpTo(bs, |bs|), created, |bs|);
  }

  /** Appending cell `n` to the output keeps it in step with the kept indices
      extended by `n`. */
  lemma KeptCellsAdd(branches: seq<BranchRef>, kept: seq<nat>, created: seq<BranchRef>, n: nat)
    requires KeptCells(branches, kept, created) && n < |created|
    ensures KeptCells(branches + [created[n]], kept + [n], created)
  {
  }

  /** A cell that differs from every cell so far keeps them distinct. */
  lemma DistinctAppend(created: seq<BranchRef>, x: BranchRef)
    requires Distinct(created) && forall i :: 0 <= i < |created| ==> created[i] != x
    ensures Distinct(created + [x])
  {
  }

  /** Appending a cell holding `x.val` extends the records held by the cells. */
  lemma CellsAppend(created: seq<BranchRef>, vs: seq<Branch>, x: BranchRef)
    requires CellsAre(created, vs)
    ensures CellsAre(created + [x], vs + [x.val])
  {
  }

  /** Registering the new cell under a non-empty upstream keeps the followee map
      in step with the last declarers. */
  lemma FolloweeCellsStep(followees: map<string, BranchRef>, decl: map<string, nat>, created: seq<BranchRef>,
                          x: BranchRef, up: string)
    requires FolloweeCells(followees, decl, created)
    ensures FolloweeCells(if up != "" then followees[up := x] else followees,
                          if up != "" then decl[up := |created|] else decl, created + [x])
  {
  }

  /** Creating a cell keeps the output's correspondence, whether the new cell is
      dropped or appended to the output. */
  lemma KeptCellsAppend(branches: seq<BranchRef>, kept: seq<nat>, created: seq<BranchRef>, x: BranchRef)
    requires KeptCells(branches, kept, created)
    ensures KeptCells(branches, kept, created + [x])
    ensures KeptCells(branches + [x], kept + [|created|], created + [x])
  {
  }

  /** The scan over the listing lines: every line with enough fields is
      registered in turn; shorter lines are skipped. */
  method ScanListing(lines: seq<string>)
    returns (branches: seq<BranchRef>, ghost created: seq<BranchRef>, ghost decl: map<string, nat>,
             ghost followees: map<string, BranchRef>)
    ensures forall i :: 0 <= i < |created| ==> fresh(created[i])
    ensures ResolverState(Parsed(lines), created, decl, followees, branches)
  {
    branches := [];
    followees := map[];
    ghost var bs: seq<Branch> := [];
    created := [];
    decl := map[];
    var follow: map<string, BranchRef> := map[];
    var line := 0;
    while line < |lines|
      invariant 0 <= line <= |lines|
      invariant bs == ParsedUpTo(lines, line)
      invariant forall i :: 0 <= i < |created| ==> fresh(created[i])
      invariant ResolverState(bs, created, decl, follow, branches)
    {
      var parsed := ParseLine(lines[line]);
      if parsed.Some? {
        branches, follow, created, decl := Register(parsed.value, branches, follow, bs, created, decl);
        bs := bs + [parsed.value];
      }
      line := line + 1;
    }
    followees := follow;
  }

  /** `retrieveBranchList` on git's answer to the listing query (the lines of its
      output, or the message of its failure): the resolved branches, each in a
      cell of its own. */
  method RetrieveBranchList(output: Result<seq<string>, string>) returns (r: Result<seq<BranchRef>, string>)
    ensures output.Err? ==> r == Err("call git-branch: " + output.error)
    ensures output.Ok? ==> r.Ok? && Values(r.value) == Resolve(output.value)
    ensures r.Ok? ==> forall i, j :: 0 <= i < j < |r.value| ==> r.value[i] != r.value[j]
  {
    if output.Err? {
      return Err("call git-branch: " + output.error);
    }
    var branches, created, decl, followees := ScanListing(output.value);
    ResolvedCells(output.value, created, decl, followees, branches);
    r := Ok(branches);
  }

  /** At the end of the scan the kept cells hold exactly the resolved branches. */
  lemma ResolvedCells(lines: seq<string>, created: seq<BranchRef>, decl: map<string, nat>,
                      followees: map<string, BranchRef>, branches: seq<BranchRef>)
    requires ResolverState(Parsed(lines), created, decl, followees, branches)
    ensures Values(branches) == Resolve(lines)
    ensures forall i, j :: 0 <= i < j < |branches| ==> branches[i] != branches[j]
  {
    var bs := Parsed(lines);
    var kept := KeptUpTo(bs, |bs|);
    var vs := Values(branches);
    var rs := Resolve(lines);
    assert |vs| == |rs|;
    forall t | 0 <= t < |vs|
      ensures vs[t] == rs[t]
    {
      assert branches[t] == created[kept[t]];
    }
    forall i, j | 0 <= i < j < |branches|
      ensures branches[i] != branches[j]
    {
      assert kept[i] < kept[j];
    }
  }

  /** One more record, as liveness goes: it is appended as parsed (not living),
      and the last declarer of its full name, if any, becomes living. */
  lemma MarkedStep(bs: seq<Branch>, b: Branch, decl: map<string, nat>)
    requires !b.living && FolloweesOf(bs + [b], decl)
    ensures var vs := Marked(bs) + [b];
      Marked(bs + [b]) ==
        if b.FullName() in decl then vs[decl[b.FullName()] := vs[decl[b.FullName()]].(living := true)] else vs
  {
    var bs' := bs + [b];
    var vs := Marked(bs) + [b];
    var key := b.FullName();
    var target := if key in decl then vs[decl[key] := vs[decl[key]].(living := true)] else vs;
    assert key in decl ==> decl[key] < |bs'|;
    forall i | 0 <= i < |bs'|
      ensures Marked(bs')[i] == target[i]
    {
      LivingByFollowees(bs, b, decl, i);
      if i < |bs| {
        assert bs'[i] == bs[i];
      } else {
        assert bs'[i] == b;
      }
    }
  }

  /** One more record: it is kept exactly when its full name is not a key of the
      followee map, and the records before it keep their fate. */
  lemma KeptStep(bs: seq<Branch>, b: Branch, decl: map<string, nat>)
    requires FolloweesOf(bs + [b], decl)
    ensures KeptUpTo(bs + [b], |bs| + 1) == KeptUpTo(bs, |bs|) + (if b.FullName() in decl then [] else [|bs|])
  {
    KeptExtend(bs, b, |bs|);
    DroppedByFollowees(bs + [b], decl);
    assert (bs + [b])[|bs|] == b;
  }

  /** Appending a record does not change which earlier records are kept. */
  lemma {:induction false} KeptExtend(bs: seq<Branch>, b: Branch, n: nat)
    requires n <= |bs|
    ensures KeptUpTo(bs + [b], n) == KeptUpTo(bs, n)
  {
    if n > 0 {
      KeptExtend(bs, b, n - 1);
      DroppedExtend(bs, b, n - 1);
    }
  }

  /** Appending a record does not change whether an earlier record is dropped. */
  lemma DroppedExtend(bs: seq<Branch>, b: Branch, j: nat)
    requires j < |bs|
    ensures Dropped(bs + [b], j) == Dropped(bs, j)
  {
    var bs' := bs + [b];
    assert forall k :: 0 <= k <= j ==> bs'[k] == bs[k];
  }

  /** Appending a record does not change what the earlier records say about each
      other. */
  lemma MarksLivingExtend(bs: seq<Branch>, b: Branch, i: nat, j: nat)
    requires j < |bs|
    ensures MarksLiving(bs + [b], i, j) == MarksLiving(bs, i, j)
  {
    var bs' := bs + [b];
    if i <= j {
      assert bs'[i] == bs[i] && bs'[j] == bs[j];
      assert forall m :: i < m <= j ==> bs'[m] == bs[m];
    }
  }

  /** How appending record `b` changes liveness: a record is living afterwards
      exactly when it was before, or `b`'s full name is its upstream and no
      record after it re-declared that upstream. */
  lemma LivingStep(bs: seq<Branch>, b: Branch, i: nat)
    requires i <= |bs|
    ensures var bs' := bs + [b];
      MarkedLiving(bs', i) <==>
        (i < |bs| && MarkedLiving(bs, i)) || (bs'[i].upstream != "" && MarksLiving(bs', i, |bs|))
  {
    var bs' := bs + [b];
    if i < |bs| && MarkedLiving(bs, i) {
      var j: nat :| MarksLiving(bs, i, j);
      MarksLivingExtend(bs, b, i, j);
      assert bs'[i] == bs[i];
    }
    if MarkedLiving(bs', i) {
      var j: nat :| MarksLiving(bs', i, j);
      if j < |bs| {
        MarksLivingExtend(bs, b, i, j);
        assert bs'[i] == bs[i];
      }
    }
  }
}
