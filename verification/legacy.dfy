/** The older generation of the tool (main.go). It reads `git branch --list
    --all -vv`, parses each line into a branch, hides the branches that some
    listed branch follows, collects the distinct commits of the others and
    reads their authors from `git show`. The runtime panics of the Go code
    (slicing a line shorter than the cursor, a remote branch without a second
    `/`, an author line without `:`) are modelled as a `Panicked` failure that
    names the line. */
module Legacy {
  import opened Wrappers
  import opened Strings
  import Branches
  import Git

  const RemotesPrefix: string := "remotes/"
  const CurrentCursor: string := "* "
  const HeadCommit: string := "->"

  /** A branch as `git branch -vv` shows it: no liveness and no committer, but
      the abbreviated commit it points at. */
  datatype Branch = Branch(current: bool, remote: string, name: string, commit: string, upstream: string)
  {
    /** `remote/name`, or just `name` for a local branch. */
    function FullName(): (r: string)
      ensures |name| <= |r| && r[|r| - |name|..] == name
      ensures r == name <==> remote == ""
    {
      if remote == "" then name else remote + "/" + name
    }
  }

  /** Both generations of the branch record compute the same full name. */
  lemma FullNameAgrees(b: Branch, living: bool, committer: string)
    ensures b.FullName() == Branches.Branch(b.current, b.remote, b.name, b.upstream, living, committer).FullName()
  {
  }

  /** Why a run stops without a result: an error returned by the code, or a
      runtime panic while handling the given line. */
  datatype Failure = Failed(message: string) | Panicked(line: nat)

  /** `callGit`'s arguments: `-C <dir>` is prepended whenever a directory was
      given, even an empty one. */
  function CallGitArgs(args: seq<string>, currentDir: Option<string>): (r: seq<string>)
    ensures |r| == |args| + (if currentDir.Some? then 2 else 0)
    ensures r[|r| - |args|..] == args
    ensures currentDir.Some? ==> r[..2] == ["-C", currentDir.value]
  {
    if currentDir.Some? then ["-C", currentDir.value] + args else args
  }

  /** The older `callGit` agrees with the newer one except on an empty
      directory, which only the older one passes to git. */
  lemma CallGitAgreesWithNewer(args: seq<string>, currentDir: Option<string>)
    ensures currentDir.None? ==> CallGitArgs(args, currentDir) == Git.CallGitArgs(args, "")
    ensures currentDir.Some? && currentDir.value != "" ==> CallGitArgs(args, currentDir) == Git.CallGitArgs(args, currentDir.value)
    ensures currentDir == Some("") ==> CallGitArgs(args, currentDir) != Git.CallGitArgs(args, "")
  {
    if currentDir == Some("") {
      assert |CallGitArgs(args, currentDir)| == |args| + 2;
    }
  }

  /** The listing query and the author query. */
  function BranchListArgs(currentDir: Option<string>): (r: seq<string>)
    ensures |r| >= 4 && r[|r| - 4..] == ["branch", "--list", "--all", "-vv"]
  {
    CallGitArgs(["branch", "--list", "--all", "-vv"], currentDir)
  }

  function ShowArgs(commits: seq<string>, currentDir: Option<string>): (r: seq<string>)
    ensures |r| >= |commits| + 3 && r[|r| - |commits|..] == commits
    ensures r[|r| - |commits| - 3..|r| - |commits|] == ["show", "--format=%h:%an", "--no-patch"]
  {
    var args := ["show", "--format=%h:%an", "--no-patch"] + commits;
    var r := CallGitArgs(args, currentDir);
    assert r[|r| - |args|..] == args;
    assert r[|r| - |commits|..] == args[3..];
    r
  }

  /** The tracking column: `[origin/main]` or `[origin/main:` (when ahead or
      behind) is an upstream. */
  predicate Bracketed(field: string)
  {
    |field| > 0 && field[0] == '[' && (field[|field| - 1] == ':' || field[|field| - 1] == ']')
  }

  /** The upstream read from the third field: the field without its bracket and
      closing character when it is bracketed, nothing otherwise. */
  function StripUpstream(field: string): (r: string)
    ensures Bracketed(field) ==> field == "[" + r + [field[|field| - 1]]
    ensures !Bracketed(field) ==> r == ""
  {
    if Bracketed(field) then field[1..|field| - 1] else ""
  }

  /** An upstream shown as `[x]` or `[x:` is `x`. */
  lemma StripUpstreamOf(x: string)
    ensures StripUpstream("[" + x + "]") == x
    ensures StripUpstream("[" + x + ":") == x
  {
    var a := "[" + x + "]";
    var c := "[" + x + ":";
    assert a[1..|a| - 1] == x;
    assert c[1..|c| - 1] == x;
  }

  datatype ParseError = CursorOutOfRange | ShortageOfFields | RemotePathOutOfRange

  /** `parseBranchText`: the two-character cursor, then the whitespace-separated
      name, commit and third field. The `->` line of a symbolic ref gives no
      branch; a `remotes/` name is split into remote and name on its first `/`
      and never has an upstream. */
  function ParseBranchText(text: string): (r: Result<Option<Branch>, ParseError>)
    ensures r == Err(CursorOutOfRange) <==> |text| < 2
    ensures r.Ok? && r.value.Some? ==>
      && r.value.value.commit != HeadCommit
      && (r.value.value.remote != "" ==> r.value.value.upstream == "")
  {
    if |text| < 2 then Err(CursorOutOfRange)
    else
      var fields := Fields(text[2..]);
      if |fields| < 3 then Err(ShortageOfFields)
      else if fields[1] == HeadCommit then Ok(None)
      else
        var current := text[..2] == CurrentCursor;
        var name := fields[0];
        if RemotesPrefix <= name then
          var paths := SplitFirst(name[|RemotesPrefix|..], '/');
          if |paths| < 2 then Err(RemotePathOutOfRange)
          else Ok(Some(Branch(current, paths[0], paths[1], fields[1], "")))
        else Ok(Some(Branch(current, "", name, fields[1], StripUpstream(fields[2]))))
  }

  /** The failures of `parseBranchText` besides the short line: the shortage
      error on fewer than three fields, no branch for the `->` link, and the
      panic on a `remotes/` name without a second `/`. */
  lemma ParseOutcomes(text: string)
    ensures ParseBranchText(text) == Err(ShortageOfFields) <==> |text| >= 2 && |Fields(text[2..])| < 3
    ensures ParseBranchText(text) == Ok(None) <==> |text| >= 2 && |Fields(text[2..])| >= 3 && Fields(text[2..])[1] == HeadCommit
    ensures ParseBranchText(text) == Err(RemotePathOutOfRange) <==>
      && |text| >= 2 && |Fields(text[2..])| >= 3 && Fields(text[2..])[1] != HeadCommit
      && RemotesPrefix <= Fields(text[2..])[0]
      && '/' !in Fields(text[2..])[0][|RemotesPrefix|..]
  {
  }

  /** The branch `parseBranchText` gives: current exactly under the `* `
      cursor, the commit from the second field, and for a name outside
      `remotes/` that name with the upstream read from the third field. */
  lemma ParsedBranch(text: string)
    requires ParseBranchText(text).Ok? && ParseBranchText(text).value.Some?
    ensures |text| >= 2 && |Fields(text[2..])| >= 3
    ensures var b := ParseBranchText(text).value.value;
      var fields := Fields(text[2..]);
      && (b.current <==> text[..2] == CurrentCursor)
      && b.commit == fields[1]
      && (!(RemotesPrefix <= fields[0]) ==> b.remote == "" && b.name == fields[0] && b.upstream == StripUpstream(fields[2]))
  {
  }

  /** A `remotes/<remote>/<name>` branch: the remote ends at the first `/`
      after the prefix, and there is no upstream. */
  lemma ParsedRemoteBranch(text: string)
    requires ParseBranchText(text).Ok? && ParseBranchText(text).value.Some?
    requires |text| >= 2 && RemotesPrefix <= Fields(text[2..])[0]
    ensures var b := ParseBranchText(text).value.value;
      && RemotesPrefix + b.remote + "/" + b.name == Fields(text[2..])[0]
      && '/' !in b.remote && b.upstream == ""
  {
    var b := ParseBranchText(text).value.value;
    var name := Fields(text[2..])[0];
    var paths := SplitFirst(name[|RemotesPrefix|..], '/');
    assert |paths| == 2 && b.remote == paths[0] && b.name == paths[1];
    RemoteSplit(name);
  }

  /** A `remotes/` name split at its first `/` after the prefix rejoins to the
      name. */
  lemma RemoteSplit(name: string)
    requires RemotesPrefix <= name
    ensures var paths := SplitFirst(name[|RemotesPrefix|..], '/');
      |paths| == 2 ==> RemotesPrefix + paths[0] + "/" + paths[1] == name && '/' !in paths[0]
  {
    var tail := name[|RemotesPrefix|..];
    var paths := SplitFirst(tail, '/');
    assert name == RemotesPrefix + tail;
    if |paths| == 2 {
      assert RemotesPrefix + paths[0] + "/" + paths[1] == RemotesPrefix + (paths[0] + ['/'] + paths[1]);
    }
  }

  /** The line of a local branch, with its columns padded by any white space
      (`git branch -vv` aligns them): parsing gives the branch with the
      upstream read from the third field, which is the tracking column when
      there is one and otherwise the first word of the commit subject (so a
      subject starting with `[x]` reads as upstream `x`). */
  lemma ParseLocalLine(cursor: string, lead: string, ws: seq<string>, gaps: seq<string>)
    requires |cursor| == 2 && IsBlank(lead) && Gapped(ws, gaps) && |ws| >= 3
    requires ws[1] != HeadCommit && !(RemotesPrefix <= ws[0])
    ensures ParseBranchText(cursor + lead + Spread(ws, gaps)) ==
      Ok(Some(Branch(cursor == CurrentCursor, "", ws[0], ws[1], StripUpstream(ws[2]))))
  {
    var row := lead + Spread(ws, gaps);
    FieldsSpread(lead, ws, gaps);
    CursorSplit(cursor, row);
    assert cursor + lead + Spread(ws, gaps) == cursor + row;
  }

  /** The padded line of a remote-tracking branch `remotes/<remote>/<name>`:
      parsing gives that remote and name, without upstream, whatever the
      third field. */
  lemma ParseRemoteLine(cursor: string, lead: string, remote: string, name: string, ws: seq<string>, gaps: seq<string>)
    requires |cursor| == 2 && IsBlank(lead) && Gapped(ws, gaps) && |ws| >= 3
    requires ws[0] == RemotesPrefix + remote + "/" + name && '/' !in remote
    requires ws[1] != HeadCommit
    ensures ParseBranchText(cursor + lead + Spread(ws, gaps)) ==
      Ok(Some(Branch(cursor == CurrentCursor, remote, name, ws[1], "")))
  {
    var row := lead + Spread(ws, gaps);
    FieldsSpread(lead, ws, gaps);
    CursorSplit(cursor, row);
    assert cursor + lead + Spread(ws, gaps) == cursor + row;
    RemoteTail(remote, name);
    SplitFirstAround(remote, name, '/');
  }

  /** A line is its two-character cursor followed by the rest. */
  lemma CursorSplit(cursor: string, row: string)
    requires |cursor| == 2
    ensures (cursor + row)[..2] == cursor && (cursor + row)[2..] == row
  {
  }

  /** `remotes/<remote>/<name>` without its prefix. */
  lemma RemoteTail(remote: string, name: string)
    ensures var full := RemotesPrefix + remote + "/" + name;
      RemotesPrefix <= full && full[|RemotesPrefix|..] == remote + ['/'] + name
  {
    var tail := remote + ['/'] + name;
    assert RemotesPrefix + remote + "/" + name == RemotesPrefix + tail;
  }

  /** The decimal digits of `n`, as `%d` prints it. */
  function Decimal(n: nat): (r: string)
    ensures |r| >= 1 && forall i :: 0 <= i < |r| ==> '0' <= r[i] <= '9'
  {
    var digit := ["0123456789"[n % 10]];
    if n < 10 then digit else Decimal(n / 10) + digit
  }

  /** The failure a parse error causes at a line: the shortage error is
      returned, wrapped with the line number and text; the other two are
      panics. */
  function LineFailure(line: nat, text: string, e: ParseError): (f: Failure)
    ensures f.Panicked? <==> e != ShortageOfFields
    ensures f.Panicked? ==> f.line == line
  {
    if e == ShortageOfFields then
      Failed("failed to parse branch text at line " + Decimal(line) + " (" + text + "): shortage of fields (<3)")
    else Panicked(line)
  }

  /** The branches of the first `n` lines, in order, or the failure of the
      first line that does not parse. */
  function RecordsUpTo(lines: seq<string>, n: nat): Result<seq<Branch>, Failure>
    requires n <= |lines|
  {
    if n == 0 then Ok([])
    else
      match RecordsUpTo(lines, n - 1)
      case Err(f) => Err(f)
      case Ok(bs) =>
        match ParseBranchText(lines[n - 1])
        case Err(e) => Err(LineFailure(n - 1, lines[n - 1], e))
        case Ok(None) => Ok(bs)
        case Ok(Some(b)) => Ok(bs + [b])
  }

  /** The first `n` lines give branches when each of them parses. */
  lemma {:induction false} RecordsOk(lines: seq<string>, n: nat)
    requires n <= |lines| && forall i :: 0 <= i < n ==> ParseBranchText(lines[i]).Ok?
    ensures RecordsUpTo(lines, n).Ok?
  {
    if n > 0 {
      RecordsOk(lines, n - 1);
      assert ParseBranchText(lines[n - 1]).Ok?;
    }
  }

  /** When the first `n` lines give branches, each of them parses. */
  lemma {:induction false} RecordsOkLine(lines: seq<string>, n: nat, i: nat)
    requires i < n <= |lines| && RecordsUpTo(lines, n).Ok?
    ensures ParseBranchText(lines[i]).Ok?
  {
    if i < n - 1 {
      RecordsOkLine(lines, n - 1, i);
    }
  }

  /** Each line gives at most one branch. */
  lemma {:induction false} RecordsLength(lines: seq<string>, n: nat)
    requires n <= |lines| && RecordsUpTo(lines, n).Ok?
    ensures |RecordsUpTo(lines, n).value| <= n
  {
    if n > 0 {
      RecordsLength(lines, n - 1);
    }
  }

  /** A failure is the failure of one of the first `n` lines that does not
      parse. */
  lemma {:induction false} RecordsFailure(lines: seq<string>, n: nat)
    requires n <= |lines| && RecordsUpTo(lines, n).Err?
    ensures exists i ::
      && 0 <= i < n && ParseBranchText(lines[i]).Err?
      && RecordsUpTo(lines, n).error == LineFailure(i, lines[i], ParseBranchText(lines[i]).error)
  {
    if RecordsUpTo(lines, n - 1).Err? {
      RecordsFailure(lines, n - 1);
    } else {
      assert ParseBranchText(lines[n - 1]).Err?;
    }
  }

  function Records(lines: seq<string>): Result<seq<Branch>, Failure>
  {
    RecordsUpTo(lines, |lines|)
  }

  /** Once a line fails, the run fails with that line's failure. */
  lemma {:induction false} FailureSticks(lines: seq<string>, n: nat, m: nat)
    requires n <= m <= |lines| && RecordsUpTo(lines, n).Err?
    ensures RecordsUpTo(lines, m) == RecordsUpTo(lines, n)
    decreases m
  {
    if m > n {
      FailureSticks(lines, n, m - 1);
    }
  }

  /** The first line that does not parse decides the outcome: its failure is
      the run's, whatever follows. */
  lemma FirstBadLine(lines: seq<string>, i: nat)
    requires i < |lines| && RecordsUpTo(lines, i).Ok? && ParseBranchText(lines[i]).Err?
    ensures Records(lines) == Err(LineFailure(i, lines[i], ParseBranchText(lines[i]).error))
  {
    FailureSticks(lines, i + 1, |lines|);
  }

  /** A line that parses into no branch (the `->` link) changes nothing: the
      run succeeds with or without it, with the same branches. (A later
      failure names a different line number.) */
  lemma HeadLinkIgnored(a: seq<string>, text: string, c: seq<string>)
    requires ParseBranchText(text) == Ok(None)
    ensures Records(a + [text] + c).Ok? <==> Records(a + c).Ok?
    ensures Records(a + c).Ok? ==> Records(a + [text] + c) == Records(a + c)
  {
    HeadLinkSkipped(a, text, c, |c|);
  }

  lemma {:induction false} HeadLinkSkipped(a: seq<string>, text: string, c: seq<string>, k: nat)
    requires ParseBranchText(text) == Ok(None) && k <= |c|
    ensures SameBranches(RecordsUpTo(a + [text] + c, |a| + 1 + k), RecordsUpTo(a + c, |a| + k))
  {
    var l1 := a + [text] + c;
    var l2 := a + c;
    if k == 0 {
      assert l1[..|a|] == l2[..|a|];
      RecordsSame(l1, l2, |a|);
      assert l1[|a|] == text;
      RecordsSkip(l1, |a| + 1);
    } else {
      HeadLinkSkipped(a, text, c, k - 1);
      var n1, n2 := |a| + 1 + k, |a| + k;
      assert l1[n1 - 1] == c[k - 1] == l2[n2 - 1];
      RecordsNext(l1, n1, l2, n2);
    }
  }

  /** A line without a branch leaves the records as they were. */
  lemma RecordsSkip(lines: seq<string>, n: nat)
    requires 0 < n <= |lines| && ParseBranchText(lines[n - 1]) == Ok(None)
    ensures RecordsUpTo(lines, n) == RecordsUpTo(lines, n - 1)
  {
  }

  /** Two outcomes that agree on success and on the branches. */
  predicate SameBranches(r1: Result<seq<Branch>, Failure>, r2: Result<seq<Branch>, Failure>)
  {
    (r1.Ok? <==> r2.Ok?) && (r1.Ok? ==> r1 == r2)
  }

  /** Agreeing records before equal lines still agree after them. */
  lemma RecordsNext(l1: seq<string>, n1: nat, l2: seq<string>, n2: nat)
    requires 0 < n1 <= |l1| && 0 < n2 <= |l2|
    requires SameBranches(RecordsUpTo(l1, n1 - 1), RecordsUpTo(l2, n2 - 1)) && l1[n1 - 1] == l2[n2 - 1]
    ensures SameBranches(RecordsUpTo(l1, n1), RecordsUpTo(l2, n2))
  {
  }

  /** The records of the first `n` lines only depend on those lines. */
  lemma {:induction false} RecordsPrefix(lines: seq<string>, n: nat)
    requires n <= |lines|
    ensures RecordsUpTo(lines, n) == Records(lines[..n])
  {
    RecordsSame(lines, lines[..n], n);
  }

  lemma {:induction false} RecordsSame(l1: seq<string>, l2: seq<string>, n: nat)
    requires n <= |l1| && n <= |l2| && l1[..n] == l2[..n]
    ensures RecordsUpTo(l1, n) == RecordsUpTo(l2, n)
  {
    if n > 0 {
      assert l1[..n - 1] == l2[..n - 1];
      assert l1[n - 1] == l2[..n][n - 1];
      RecordsSame(l1, l2, n - 1);
    }
  }

  /** The upstreams the branches declare: the followee set after them. */
  function Declared(bs: seq<Branch>): set<string>
  {
    set i | 0 <= i < |bs| && bs[i].upstream != "" :: bs[i].upstream
  }

  /** The branches not hidden by a followee registered at or before them (so a
      branch that names itself as upstream hides itself), in order. */
  function Kept(bs: seq<Branch>): (r: seq<Branch>)
    ensures |r| <= |bs|
  {
    if bs == [] then []
    else
      var b := bs[|bs| - 1];
      Kept(bs[..|bs| - 1]) + (if b.FullName() in Declared(bs) then [] else [b])
  }

  /** A branch is hidden exactly when some branch at or before it declares its
      full name as upstream. */
  predicate Hidden(bs: seq<Branch>, j: nat)
    requires j < |bs|
  {
    exists i :: 0 <= i <= j && bs[i].upstream != "" && bs[i].upstream == bs[j].FullName()
  }

  /** The kept branches are exactly the branches that are not hidden. */
  lemma KeptMembers(bs: seq<Branch>, b: Branch)
    ensures b in Kept(bs) <==> exists j :: 0 <= j < |bs| && bs[j] == b && !Hidden(bs, j)
  {
    if b in Kept(bs) {
      KeptSound(bs, b);
    } else if exists j :: 0 <= j < |bs| && bs[j] == b && !Hidden(bs, j) {
      var j :| 0 <= j < |bs| && bs[j] == b && !Hidden(bs, j);
      KeptComplete(bs, j);
    }
  }

  /** Every kept branch is a branch that is not hidden. */
  lemma {:induction false} KeptSound(bs: seq<Branch>, b: Branch)
    requires b in Kept(bs)
    ensures exists j :: 0 <= j < |bs| && bs[j] == b && !Hidden(bs, j)
  {
    var n := |bs| - 1;
    var init := bs[..n];
    HiddenLast(bs);
    assert Kept(bs) == Kept(init) + (if Hidden(bs, n) then [] else [bs[n]]);
    if b in Kept(init) {
      KeptSound(init, b);
      var j :| 0 <= j < n && init[j] == b && !Hidden(init, j);
      HiddenPrefix(bs, j);
      assert bs[j] == b && !Hidden(bs, j);
    } else {
      assert bs[n] == b && !Hidden(bs, n);
    }
  }

  /** Every branch that is not hidden is kept. */
  lemma {:induction false} KeptComplete(bs: seq<Branch>, j: nat)
    requires j < |bs| && !Hidden(bs, j)
    ensures bs[j] in Kept(bs)
  {
    var n := |bs| - 1;
    var init := bs[..n];
    if j < n {
      assert bs[j] in Kept(init) by {
        HiddenPrefix(bs, j);
        KeptComplete(init, j);
        assert init[j] == bs[j];
      }
      KeptGrows(bs);
    } else {
      KeptLast(bs);
    }
  }

  /** The branches kept before the last one are still kept after it. */
  lemma KeptGrows(bs: seq<Branch>)
    requires |bs| > 0
    ensures forall b :: b in Kept(bs[..|bs| - 1]) ==> b in Kept(bs)
  {
  }

  /** The last branch is kept when it is not hidden. */
  lemma KeptLast(bs: seq<Branch>)
    requires |bs| > 0 && !Hidden(bs, |bs| - 1)
    ensures bs[|bs| - 1] in Kept(bs)
  {
    HiddenLast(bs);
  }

  /** Hiding a branch depends only on the branches up to it. */
  lemma HiddenPrefix(bs: seq<Branch>, j: nat)
    requires j < |bs| - 1
    ensures Hidden(bs[..|bs| - 1], j) <==> Hidden(bs, j)
  {
    var init := bs[..|bs| - 1];
    if Hidden(bs, j) {
      var i :| 0 <= i <= j && bs[i].upstream != "" && bs[i].upstream == bs[j].FullName();
      assert init[i] == bs[i];
    }
  }

  /** The last branch is hidden exactly when the followee set after it holds
      its full name. */
  lemma HiddenLast(bs: seq<Branch>)
    requires |bs| > 0
    ensures bs[|bs| - 1].FullName() in Declared(bs) <==> Hidden(bs, |bs| - 1)
  {
    var n := |bs| - 1;
    if bs[n].FullName() in Declared(bs) {
      var i :| 0 <= i < |bs| && bs[i].upstream != "" && bs[i].upstream == bs[n].FullName();
    }
  }

  /** The commits of the branches, in order. */
  function Commits(bs: seq<Branch>): (r: seq<string>)
    ensures |r| == |bs|
  {
    seq(|bs|, i requires 0 <= i < |bs| => bs[i].commit)
  }

  predicate Distinct(xs: seq<string>)
  {
    forall i, j :: 0 <= i < j < |xs| ==> xs[i] != xs[j]
  }

  /** The elements of `xs`, each once, in order of first occurrence. */
  function Dedup(xs: seq<string>): (r: seq<string>)
    ensures Distinct(r)
    ensures forall x :: x in r <==> x in xs
  {
    if xs == [] then []
    else
      var d := Dedup(xs[..|xs| - 1]);
      var x := xs[|xs| - 1];
      assert forall y :: y in xs <==> y in xs[..|xs| - 1] || y == x by {
        assert xs == xs[..|xs| - 1] + [x];
      }
      if x in d then d else d + [x]
  }

  /** Deduplicating a prefix gives a prefix of the deduplication: the order of
      first occurrences is kept. */
  lemma {:induction false} DedupPrefix(xs: seq<string>, n: nat)
    requires n <= |xs|
    ensures Dedup(xs[..n]) <= Dedup(xs)
    decreases |xs| - n
  {
    if n < |xs| {
      DedupPrefix(xs, n + 1);
      assert xs[..n + 1][..n] == xs[..n];
    } else {
      assert xs[..n] == xs;
    }
  }

  /** `retrieveBranchList` as a whole: the git failure, wrapped; the failure
      of the first line that does not parse; or the kept branches with the
      distinct commits they point at. */
  function BranchListing(output: Result<seq<string>, string>): (r: Result<(seq<Branch>, seq<string>), Failure>)
    ensures output.Err? ==> r.Err? && r.error.Failed?
    ensures r.Ok? ==> Distinct(r.value.1)
  {
    if output.Err? then Err(Failed("failed to call git-branch: " + output.error))
    else
      match Records(output.value)
      case Err(f) => Err(f)
      case Ok(bs) => Ok((Kept(bs), Dedup(Commits(Kept(bs)))))
  }

  /** The registration and the lookup of one more branch. */
  lemma RecordStep(bs: seq<Branch>, b: Branch)
    ensures Declared(bs + [b]) == Declared(bs) + (if b.upstream != "" then {b.upstream} else {})
    ensures Kept(bs + [b]) == Kept(bs) + (if b.FullName() in Declared(bs + [b]) then [] else [b])
  {
    var bs' := bs + [b];
    assert bs'[..|bs|] == bs;
    assert bs'[|bs|] == b;
    forall x | x in Declared(bs')
      ensures x in Declared(bs) || (b.upstream != "" && x == b.upstream)
    {
      var i :| 0 <= i < |bs'| && bs'[i].upstream != "" && bs'[i].upstream == x;
      if i < |bs| {
        assert bs[i] == bs'[i];
      }
    }
    forall x | x in Declared(bs)
      ensures x in Declared(bs')
    {
      var i :| 0 <= i < |bs| && bs[i].upstream != "" && bs[i].upstream == x;
      assert bs'[i] == bs[i];
    }
  }

  /** One more kept branch adds its commit unless it was already there. */
  lemma CommitStep(branches: seq<Branch>, b: Branch)
    ensures Dedup(Commits(branches + [b])) ==
      Dedup(Commits(branches)) + (if b.commit in Dedup(Commits(branches)) then [] else [b.commit])
  {
    var cs := Commits(branches + [b]);
    assert cs[..|branches|] == Commits(branches);
    assert cs[|branches|] == b.commit;
    assert cs[..|cs| - 1] == Commits(branches);
  }

  /** The loop of `retrieveBranchList` over the listing lines. */
  method RetrieveBranchList(output: Result<seq<string>, string>) returns (r: Result<(seq<Branch>, seq<string>), Failure>)
    ensures r == BranchListing(output)
  {
    if output.Err? {
      return Err(Failed("failed to call git-branch: " + output.error));
    }
    var lines := output.value;
    var commitMap: set<string> := {};
    var commits: seq<string> := [];
    var branches: seq<Branch> := [];
    var followees: set<string> := {};
    ghost var bs: seq<Branch> := [];
    for line := 0 to |lines|
      invariant RecordsUpTo(lines, line) == Ok(bs)
      invariant followees == Declared(bs)
      invariant branches == Kept(bs)
      invariant commits == Dedup(Commits(branches))
      invariant forall c :: c in commitMap <==> c in commits
    {
      var text := lines[line];
      var parsed := ParseBranchText(text);
      if parsed.Err? {
        FirstBadLine(lines, line);
        return Err(LineFailure(line, text, parsed.error));
      }
      if parsed.value.None? {
        continue;
      }
      var branch := parsed.value.value;
      RecordStep(bs, branch);
      bs := bs + [branch];
      if branch.upstream != "" {
        followees := followees + {branch.upstream};
      }
      if branch.FullName() in followees {
        continue;
      }
      CommitStep(branches, branch);
      if branch.commit !in commitMap {
        commitMap := commitMap + {branch.commit};
        commits := commits + [branch.commit];
      }
      branches := branches + [branch];
    }
    assert lines[..|lines|] == lines;
    return Ok((branches, commits));
  }

  /** The abbreviated commit of a `git show --format=%h:%an` line: the text
      before its first `:` (all of it when there is none). */
  function CommitOf(text: string): (r: string)
    ensures r <= text
  {
    SplitFirst(text, ':')[0]
  }

  /** The authors read from the first `n` lines of `git show`: each line maps
      the text before its first `:` to the rest, a later line overwriting an
      earlier one; a line without `:` panics. */
  function AuthorsUpTo(lines: seq<string>, n: nat): (r: Result<map<string, string>, Failure>)
    requires n <= |lines|
    ensures r.Err? ==> r.error.Panicked? && r.error.line < n && ':' !in lines[r.error.line]
  {
    if n == 0 then Ok(map[])
    else
      match AuthorsUpTo(lines, n - 1)
      case Err(f) => Err(f)
      case Ok(authors) =>
        var terms := SplitFirst(lines[n - 1], ':');
        if |terms| < 2 then Err(Panicked(n - 1)) else Ok(authors[terms[0] := terms[1]])
  }

  /** `retrieveCommitAuthors` as a whole, on git's answer to the author
      query. */
  function Authors(output: Result<seq<string>, string>): (r: Result<map<string, string>, Failure>)
    ensures output.Err? ==> r.Err? && r.error.Failed?
    ensures output.Ok? && r.Err? ==> r.error.Panicked? && r.error.line < |output.value|
  {
    if output.Err? then Err(Failed("failed to call git-show: " + output.error))
    else AuthorsUpTo(output.value, |output.value|)
  }

  /** The loop of `retrieveCommitAuthors` over the `git show` lines. */
  method RetrieveCommitAuthors(output: Result<seq<string>, string>) returns (r: Result<map<string, string>, Failure>)
    ensures r == Authors(output)
  {
    if output.Err? {
      return Err(Failed("failed to call git-show: " + output.error));
    }
    var lines := output.value;
    var authors: map<string, string> := map[];
    for line := 0 to |lines|
      invariant AuthorsUpTo(lines, line) == Ok(authors)
    {
      var terms := SplitFirst(lines[line], ':');
      if |terms| < 2 {
        AuthorsFailureSticks(lines, line + 1, |lines|);
        return Err(Panicked(line));
      }
      authors := authors[terms[0] := terms[1]];
    }
    return Ok(authors);
  }

  /** Once a line panics, the run ends with that panic. */
  lemma {:induction false} AuthorsFailureSticks(lines: seq<string>, n: nat, m: nat)
    requires n <= m <= |lines| && AuthorsUpTo(lines, n).Err?
    ensures AuthorsUpTo(lines, m) == AuthorsUpTo(lines, n)
    decreases m
  {
    if m > n {
      AuthorsFailureSticks(lines, n, m - 1);
    }
  }

  /** The run succeeds exactly when every line holds a `:`. */
  lemma {:induction false} AuthorsOk(lines: seq<string>, n: nat)
    requires n <= |lines|
    ensures AuthorsUpTo(lines, n).Ok? <==> forall i :: 0 <= i < n ==> ':' in lines[i]
  {
    if n > 0 {
      AuthorsOk(lines, n - 1);
    }
  }

  /** The commits a successful run knows are exactly those of the lines. */
  lemma {:induction false} AuthorsKeys(lines: seq<string>, n: nat)
    requires n <= |lines| && AuthorsUpTo(lines, n).Ok?
    ensures forall c :: c in AuthorsUpTo(lines, n).value <==> exists i :: 0 <= i < n && CommitOf(lines[i]) == c
  {
    if n > 0 {
      AuthorsKeys(lines, n - 1);
      var m := AuthorsUpTo(lines, n).value;
      var c0 := CommitOf(lines[n - 1]);
      forall c | c in m
        ensures exists i :: 0 <= i < n && CommitOf(lines[i]) == c
      {
        if c != c0 {
          var i :| 0 <= i < n - 1 && CommitOf(lines[i]) == c;
        }
      }
    }
  }

  /** The author of a commit is taken from the last line that names it. */
  lemma {:induction false} LastLineWins(lines: seq<string>, n: nat, i: nat)
    requires i < n <= |lines| && AuthorsUpTo(lines, n).Ok?
    requires forall j :: i < j < n ==> CommitOf(lines[j]) != CommitOf(lines[i])
    ensures |SplitFirst(lines[i], ':')| == 2 && CommitOf(lines[i]) in AuthorsUpTo(lines, n).value
    ensures AuthorsUpTo(lines, n).value[CommitOf(lines[i])] == SplitFirst(lines[i], ':')[1]
  {
    assert AuthorsUpTo(lines, n - 1).Ok?;
    if i < n - 1 {
      LastLineWins(lines, n - 1, i);
    }
  }

  /** The first line without `:` panics the run. */
  lemma FirstLineWithoutColon(lines: seq<string>, i: nat)
    requires i < |lines| && ':' !in lines[i]
    requires forall j :: 0 <= j < i ==> ':' in lines[j]
    ensures Authors(Ok(lines)) == Err(Panicked(i))
  {
    AuthorsOk(lines, i);
    AuthorsFailureSticks(lines, i + 1, |lines|);
  }

  /** The commits returned with the kept branches: each commit of a branch
      exactly once, in the order the branches first point at them. */
  lemma CommitsOnce(branches: seq<Branch>, n: nat)
    requires n <= |branches|
    ensures Distinct(Dedup(Commits(branches)))
    ensures forall c :: c in Dedup(Commits(branches)) <==> exists b :: b in branches && b.commit == c
    ensures Dedup(Commits(branches[..n])) <= Dedup(Commits(branches))
  {
    var cs := Commits(branches);
    forall c | c in cs
      ensures exists b :: b in branches && b.commit == c
    {
      var i :| 0 <= i < |cs| && cs[i] == c;
      assert branches[i] in branches;
    }
    forall b | b in branches
      ensures b.commit in cs
    {
      var i :| 0 <= i < |branches| && branches[i] == b;
      assert cs[i] == b.commit;
    }
    DedupPrefix(cs, n);
    assert cs[..n] == Commits(branches[..n]);
  }
}
