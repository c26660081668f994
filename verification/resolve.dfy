/** What the resolver of git.go promises about its output, stated over the
    declarative `Git.Resolve` that `Git.RetrieveBranchList` is proved to
    compute. */
module Resolution {
  import opened Wrappers
  import opened Strings
  import opened Branches
  import opened Git

  /** The output never holds more branches than there are lines. */
  lemma ResolveBound(lines: seq<string>)
    ensures |Resolve(lines)| <= |Parsed(lines)| <= |lines|
  {
  }

  /** A line with fewer than five tab-separated fields contributes nothing:
      removing it from anywhere in the listing leaves the records, the followee
      registrations and the output unchanged. */
  lemma ShortLineIgnored(a: seq<string>, text: string, c: seq<string>)
    requires Count(text, '\t') < 4
    ensures Parsed(a + [text] + c) == Parsed(a + c)
    ensures Resolve(a + [text] + c) == Resolve(a + c)
  {
    assert Parsed([text]) == [] by {
      assert ParseLine([text][0]).None?;
      assert Parsed([text]) == ParsedUpTo([text], 0) + [];
    }
    ParsedConcat(a, [text]);
    assert Parsed(a + [text]) == Parsed(a) + [] == Parsed(a);
    ParsedConcat(a + [text], c);
    ParsedConcat(a, c);
  }

  /** A record is kept in the output exactly when neither it nor any record
      before it declared its full name as upstream; the kept records come in
      listing order. */
  lemma KeptExactly(lines: seq<string>, i: nat)
    requires i < |Parsed(lines)|
    ensures var bs := Parsed(lines);
      i in KeptUpTo(bs, |bs|) <==> forall k :: 0 <= k <= i ==> bs[k].upstream == "" || bs[k].upstream != bs[i].FullName()
  {
    var bs := Parsed(lines);
    if !Dropped(bs, i) {
      KeptComplete(bs, |bs|, i);
    }
  }

  /** A branch that names itself as upstream registers itself before the lookup,
      so it marks itself living and is dropped. */
  lemma SelfFollowerDropped(lines: seq<string>, i: nat)
    requires i < |Parsed(lines)|
    requires Parsed(lines)[i].upstream != "" && Parsed(lines)[i].upstream == Parsed(lines)[i].FullName()
    ensures var bs := Parsed(lines); i !in KeptUpTo(bs, |bs|) && Marked(bs)[i].living
  {
    var bs := Parsed(lines);
    assert Dropped(bs, i);
    assert MarksLiving(bs, i, i);
  }

  /** Only a branch that declares an upstream is ever living, and only when a
      record at or after it (never one before it) carries that upstream as its
      full name. */
  lemma LivingNeedsLaterMatch(bs: seq<Branch>, i: nat)
    requires i < |bs| && Marked(bs)[i].living
    ensures bs[i].upstream != ""
    ensures exists j :: i <= j < |bs| && bs[j].FullName() == bs[i].upstream
  {
    var j: nat :| MarksLiving(bs, i, j);
  }

  /** A record whose upstream no record at or after it carries as full name is
      not living, even when an earlier record does. */
  lemma EarlierMatchIgnored(bs: seq<Branch>, i: nat)
    requires i < |bs|
    requires forall j :: i <= j < |bs| ==> bs[j].FullName() != bs[i].upstream
    ensures !Marked(bs)[i].living
  {
    if Marked(bs)[i].living {
      LivingNeedsLaterMatch(bs, i);
    }
  }

  /** When two records declare the same upstream, a matching line after both
      marks only the later declarer: the followee entry was overwritten. */
  lemma LastDeclarerWins(bs: seq<Branch>, i: nat, m: nat, j: nat)
    requires i < m <= j < |bs|
    requires bs[i].upstream == bs[m].upstream && bs[j].FullName() == bs[m].upstream
    ensures !MarksLiving(bs, i, j)
    ensures (forall n :: m < n <= j ==> bs[n].upstream != bs[m].upstream) ==> MarksLiving(bs, m, j)
  {
  }

  /** A branch declaring an upstream that its own line or a later line carries
      as full name, with no re-declaration in between, is living. */
  lemma MatchMakesLiving(bs: seq<Branch>, i: nat, j: nat)
    requires i <= j < |bs| && bs[i].upstream != "" && bs[j].FullName() == bs[i].upstream
    requires forall n :: i < n <= j ==> bs[n].upstream != bs[i].upstream
    ensures Marked(bs)[i].living
  {
    assert MarksLiving(bs, i, j);
  }

  /** Every branch of the output is a kept record of the listing, with the
      liveness its followers give it, and a living one declares an upstream
      that some record at or after it carries as full name. */
  lemma OutputBranches(lines: seq<string>, t: nat)
    requires t < |Resolve(lines)|
    ensures var bs := Parsed(lines);
      exists i :: 0 <= i < |bs| && i in KeptUpTo(bs, |bs|) && Resolve(lines)[t] == bs[i].(living := Marked(bs)[i].living)
    ensures Resolve(lines)[t].living ==> Resolve(lines)[t].upstream != ""
  {
    var bs := Parsed(lines);
    var ks := KeptUpTo(bs, |bs|);
    var i := ks[t];
    assert Resolve(lines)[t] == Marked(bs)[i];
    if Marked(bs)[i].living {
      LivingNeedsLaterMatch(bs, i);
    }
  }

  /** The branches of the two-line listings below. */
  function MainBranch(): Branch
  {
    Branch(current := true, remote := "", name := "main", upstream := "", living := false, committer := "alice")
  }

  /** Its upstream is written as `"origin" + "/" + "feature"`, the shape of
      `OriginFeatureBranch().FullName()`, so the examples below see the match
      without comparing the strings character by character. */
  function FeatureBranch(): Branch
  {
    Branch(current := false, remote := "", name := "feature", upstream := "origin" + "/" + "feature", living := false, committer := "bob")
  }

  function OriginFeatureBranch(): Branch
  {
    Branch(current := false, remote := "origin", name := "feature", upstream := "", living := false, committer := "bob")
  }

  /** Two lines that parse into `b1` and `b2`. */
  lemma ParsedTwo(l1: string, l2: string, b1: Branch, b2: Branch)
    requires ParseLine(l1) == Some(b1) && ParseLine(l2) == Some(b2)
    ensures Parsed([l1, l2]) == [b1, b2]
  {
    assert ParsedUpTo([l1, l2], 1) == [b1];
  }

  /** Two records that do not refer to each other (nor to themselves) are both
      kept, neither living. */
  lemma ResolveUnrelated(lines: seq<string>, b1: Branch, b2: Branch)
    requires Parsed(lines) == [b1, b2]
    requires b1.upstream != b1.FullName() && b1.upstream != b2.FullName() && b2.upstream != b2.FullName()
    ensures Resolve(lines) == [b1, b2]
  {
    var bs := [b1, b2];
    assert !MarkedLiving(bs, 0) by {
      EarlierMatchIgnored(bs, 0);
    }
    assert !MarkedLiving(bs, 1) by {
      EarlierMatchIgnored(bs, 1);
    }
    assert Marked(bs) == bs;
    assert !Dropped(bs, 0) && !Dropped(bs, 1);
    assert KeptUpTo(bs, 1) == [0];
    assert KeptUpTo(bs, 2) == [0, 1];
  }

  /** A record followed by the record its upstream names: the first is kept and
      living, the second is dropped. */
  lemma ResolveFollowed(lines: seq<string>, b1: Branch, b2: Branch)
    requires Parsed(lines) == [b1, b2]
    requires b1.upstream != "" && b1.upstream != b1.FullName() && b1.upstream == b2.FullName()
    requires b2.upstream == ""
    ensures Resolve(lines) == [b1.(living := true)]
  {
    var bs := [b1, b2];
    MatchMakesLiving(bs, 0, 1);
    assert !Dropped(bs, 0);
    assert Dropped(bs, 1);
    assert KeptUpTo(bs, 1) == [0];
    assert KeptUpTo(bs, 2) == [0];
    assert Marked(bs)[0] == b1.(living := true);
  }

  /** The line git prints for a branch with the listing's date. */
  function Listed(b: Branch, date: string): string
  {
    Join(FormatFields(b, date), '\t')
  }

  /** A local `main` without upstream and a local `feature` tracking
      `origin/feature`, with no line for `origin/feature`: both are kept, `main`
      is current, and `feature` is dead. */
  lemma NoFolloweeExample(d1: string, d2: string)
    requires '\t' !in d1 && '\t' !in d2
    ensures Resolve([Listed(MainBranch(), d1), Listed(FeatureBranch(), d2)]) == [MainBranch(), FeatureBranch()]
  {
    var lines := [Listed(MainBranch(), d1), Listed(FeatureBranch(), d2)];
    ParseLineRoundTrip(MainBranch(), d1);
    ParseLineRoundTrip(FeatureBranch(), d2);
    ParsedTwo(lines[0], lines[1], MainBranch(), FeatureBranch());
    ResolveUnrelated(lines, MainBranch(), FeatureBranch());
  }

  /** `feature` tracking `origin/feature`, followed by the line of
      `origin/feature`: the later line marks `feature` living and is itself
      dropped. */
  lemma ForwardReferenceExample(d1: string, d2: string)
    requires '\t' !in d1 && '\t' !in d2
    ensures Resolve([Listed(FeatureBranch(), d1), Listed(OriginFeatureBranch(), d2)]) == [FeatureBranch().(living := true)]
  {
    var lines := [Listed(FeatureBranch(), d1), Listed(OriginFeatureBranch(), d2)];
    ParseLineRoundTrip(FeatureBranch(), d1);
    ParseLineRoundTrip(OriginFeatureBranch(), d2);
    ParsedTwo(lines[0], lines[1], FeatureBranch(), OriginFeatureBranch());
    ResolveFollowed(lines, FeatureBranch(), OriginFeatureBranch());
  }

  /** The same two lines in the other order: the line of `origin/feature` comes
      before anyone declared it, so both branches are kept and `feature` is
      dead. */
  lemma BackwardReferenceExample(d1: string, d2: string)
    requires '\t' !in d1 && '\t' !in d2
    ensures Resolve([Listed(OriginFeatureBranch(), d1), Listed(FeatureBranch(), d2)]) == [OriginFeatureBranch(), FeatureBranch()]
  {
    var lines := [Listed(OriginFeatureBranch(), d1), Listed(FeatureBranch(), d2)];
    ParseLineRoundTrip(OriginFeatureBranch(), d1);
    ParseLineRoundTrip(FeatureBranch(), d2);
    ParsedTwo(lines[0], lines[1], OriginFeatureBranch(), FeatureBranch());
    ResolveUnrelated(lines, OriginFeatureBranch(), FeatureBranch());
  }
}
