/** The `list` command of list.go: resolve the branches, keep those the filter
    accepts, and write one row per branch (remote, name, author, upstream
    column) with tabs in the fields escaped. Only the uncoloured formatters are
    modelled. */
module Listing {
  import opened Wrappers
  import opened Strings
  import opened Branches
  import opened Filters
  import opened Git

  /** The upstream column: empty without an upstream, `=> <upstream>` for a
      living branch, `DEAD` otherwise. The three cases never produce the same
      text, so the column tells which case holds. */
  function FormatUpstream(b: Branch): (r: string)
    ensures r == "" <==> b.upstream == ""
    ensures r == "DEAD" <==> b.upstream != "" && !b.living
    ensures (|r| >= 3 && r[..3] == "=> ") <==> b.upstream != "" && b.living
    ensures b.upstream != "" && b.living ==> r[3..] == b.upstream
  {
    if b.upstream == "" then ""
    else if b.living then
      var r := "=> " + b.upstream;
      assert r[..3] == "=> " && r[0] == '=';
      r
    else
      assert "DEAD"[0] == 'D';
      "DEAD"
  }

  /** The remote column without colour: `local` for a local branch, the remote
      otherwise. */
  function FormatRemote(b: Branch): (r: string)
    ensures b.remote == "" ==> r == "local"
    ensures b.remote != "" ==> r == b.remote
  {
    if b.remote == "" then "local" else b.remote
  }

  /** The author column without colour: the committer as given. */
  function FormatAuthor(b: Branch): (r: string)
    ensures r == b.committer
  {
    b.committer
  }

  /** The four fields written for a branch, before escaping. */
  function Row(b: Branch): (r: seq<string>)
    ensures |r| == 4 && r[1] == b.name && r[2] == b.committer
  {
    [FormatRemote(b), b.name, FormatAuthor(b), FormatUpstream(b)]
  }

  /** A field as the column writer escapes it: every tab becomes `_`. */
  function Escape(f: string): (r: string)
    ensures |r| == |f| && '\t' !in r
  {
    ReplaceAll(f, '\t', '_')
  }

  /** The escaping step of `columnWriter`'s write function: one escaped field
      per field, in order, none of them holding a tab. */
  method EscapeFields(fields: seq<string>) returns (escaped: seq<string>)
    ensures |escaped| == |fields|
    ensures forall i :: 0 <= i < |fields| ==> escaped[i] == Escape(fields[i])
    ensures forall i :: 0 <= i < |escaped| ==> '\t' !in escaped[i]
  {
    escaped := [];
    for i := 0 to |fields|
      invariant |escaped| == i
      invariant forall k :: 0 <= k < i ==> escaped[k] == Escape(fields[k])
    {
      escaped := escaped + [ReplaceAll(fields[i], '\t', '_')];
    }
  }

  /** A field without tabs is written unchanged, and escaping twice is escaping
      once. */
  lemma EscapeKeepsPlainFields(f: string)
    ensures '\t' !in f ==> Escape(f) == f
    ensures Escape(Escape(f)) == Escape(f)
  {
    if '\t' !in f {
      assert forall i :: 0 <= i < |f| ==> f[i] != '\t';
    }
  }

  /** The branches the filter accepts, in their order. */
  function Select(specs: seq<string>, bs: seq<Branch>): (r: seq<Branch>)
    ensures |r| <= |bs|
    ensures forall i :: 0 <= i < |r| ==> Accepts(specs, r[i])
  {
    if bs == [] then []
    else Select(specs, bs[..|bs| - 1]) + (if Accepts(specs, bs[|bs| - 1]) then [bs[|bs| - 1]] else [])
  }

  /** Selecting from two listings one after the other selects from their
      concatenation. */
  lemma {:induction false} SelectConcat(specs: seq<string>, a: seq<Branch>, c: seq<Branch>)
    ensures Select(specs, a + c) == Select(specs, a) + Select(specs, c)
  {
    if c != [] {
      SelectConcat(specs, a, c[..|c| - 1]);
      assert (a + c)[..|a + c| - 1] == a + c[..|c| - 1];
      assert (a + c)[|a + c| - 1] == c[|c| - 1];
    } else {
      assert a + c == a;
    }
  }

  /** A branch is selected exactly when it is listed and accepted. */
  lemma {:induction false} SelectMembers(specs: seq<string>, bs: seq<Branch>, b: Branch)
    ensures b in Select(specs, bs) <==> b in bs && Accepts(specs, b)
  {
    if bs != [] {
      var init := bs[..|bs| - 1];
      SelectMembers(specs, init, b);
      assert bs == init + [bs[|bs| - 1]];
    }
  }

  /** Without filter tokens every branch is listed. */
  lemma {:induction false} SelectWithoutSpecs(bs: seq<Branch>)
    ensures Select([], bs) == bs
  {
    if bs != [] {
      SelectWithoutSpecs(bs[..|bs| - 1]);
      assert bs == bs[..|bs| - 1] + [bs[|bs| - 1]];
    }
  }

  /** The row written for a branch: its four fields, escaped. */
  function EscapedRow(b: Branch): (r: seq<string>)
    ensures |r| == 4
    ensures forall k :: 0 <= k < 4 ==> r[k] == Escape(Row(b)[k])
  {
    [Escape(FormatRemote(b)), Escape(b.name), Escape(FormatAuthor(b)), Escape(FormatUpstream(b))]
  }

  /** The rows written for the branches, in order. */
  function Rows(bs: seq<Branch>): (rows: seq<seq<string>>)
    ensures |rows| == |bs|
  {
    seq(|bs|, i requires 0 <= i < |bs| => EscapedRow(bs[i]))
  }

  /** One more branch adds its row exactly when the filter accepts it. */
  lemma SelectRowsStep(specs: seq<string>, vs: seq<Branch>, i: nat)
    requires i < |vs|
    ensures Rows(Select(specs, vs[..i + 1])) ==
      Rows(Select(specs, vs[..i])) + (if Accepts(specs, vs[i]) then [EscapedRow(vs[i])] else [])
  {
    assert vs[..i + 1][..i] == vs[..i];
    var sel := Select(specs, vs[..i]);
    if Accepts(specs, vs[i]) {
      assert Select(specs, vs[..i + 1]) == sel + [vs[i]];
    } else {
      assert Select(specs, vs[..i + 1]) == sel;
    }
  }

  /** Escaping the fields of a branch one by one gives its row. */
  lemma EscapedRowOf(b: Branch, escaped: seq<string>)
    requires |escaped| == 4 && forall k :: 0 <= k < 4 ==> escaped[k] == Escape(Row(b)[k])
    ensures escaped == EscapedRow(b)
  {
  }

  /** The loop of `list`: a row for each branch the filter accepts, in order. */
  method EmitRows(specs: seq<string>, branches: seq<BranchRef>) returns (rows: seq<seq<string>>)
    ensures rows == Rows(Select(specs, Values(branches)))
  {
    ghost var vs := Values(branches);
    rows := [];
    for i := 0 to |branches|
      invariant rows == Rows(Select(specs, vs[..i]))
    {
      var b := branches[i].val;
      SelectRowsStep(specs, vs, i);
      if Accepts(specs, b) {
        var row := EscapeFields(Row(b));
        EscapedRowOf(b, row);
        rows := rows + [row];
      }
    }
    assert vs[..|branches|] == vs;
  }

  /** `list` on git's answer to the listing query: the failure of the branch
      listing, wrapped, or one escaped row for each resolved branch the filter
      accepts, in resolver order. */
  method List(specs: seq<string>, output: Result<seq<string>, string>) returns (r: Result<seq<seq<string>>, string>)
    ensures output.Err? ==> r == Err("get branch list: " + ("call git-branch: " + output.error))
    ensures output.Ok? ==> r == Ok(Rows(Select(specs, Resolve(output.value))))
  {
    var listed := RetrieveBranchList(output);
    if listed.Err? {
      return Err("get branch list: " + listed.error);
    }
    var rows := EmitRows(specs, listed.value);
    r := Ok(rows);
  }
}
