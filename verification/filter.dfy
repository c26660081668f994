/** The `list` sub-command's filter tokens (gitbranches/filter.go). */
module Filters {
  import opened Branches

  /** The six predicates a filter token can name. */
  datatype Predicate = IsCurrent | NotCurrent | IsLiving | NotLiving | HasUpstream | NoUpstream

  /** What each predicate says of a branch. */
  function Holds(p: Predicate, b: Branch): (r: bool)
    ensures (p.IsCurrent? || p.NotCurrent?) ==> (r <==> b.current == p.IsCurrent?)
    ensures (p.IsLiving? || p.NotLiving?) ==> (r <==> b.living == p.IsLiving?)
    ensures (p.HasUpstream? || p.NoUpstream?) ==> (r <==> (b.upstream != "") == p.HasUpstream?)
  {
    match p
    case IsCurrent => b.current
    case NotCurrent => !b.current
    case IsLiving => b.living
    case NotLiving => !b.living
    case HasUpstream => b.upstream != ""
    case NoUpstream => b.upstream == ""
  }

  /** `filterFuncs`: the recognised tokens. */
  const FilterFuncs: map<string, Predicate> := map[
    "current" := IsCurrent,
    "!current" := NotCurrent,
    "living" := IsLiving,
    "!living" := NotLiving,
    "upstream" := HasUpstream,
    "!upstream" := NoUpstream]

  /** `filterNames`: the tokens offered on the command line. */
  const FilterNames: seq<string> := ["current", "!current", "living", "!living", "upstream", "!upstream"]

  /** The filter `ParseFilter(specs)` applied to `b`: the tokens are scanned in
      order, unknown ones are skipped, and the first recognised token whose
      predicate fails rejects the branch. It accepts exactly when every
      recognised token's predicate holds. */
  function Accepts(specs: seq<string>, b: Branch): (r: bool)
    ensures r <==> forall i :: 0 <= i < |specs| && specs[i] in FilterFuncs ==> Holds(FilterFuncs[specs[i]], b)
  {
    if specs == [] then true
    else if specs[0] in FilterFuncs && !Holds(FilterFuncs[specs[0]], b) then false
    else
      var rest := Accepts(specs[1..], b);
      assert forall i :: 1 <= i < |specs| ==> specs[i] == specs[1..][i - 1];
      rest
  }

  /** A filter accepts whatever a filter with more recognised tokens accepts. */
  lemma {:induction false} FewerTokensAcceptMore(more: seq<string>, fewer: seq<string>, b: Branch)
    requires forall s :: s in fewer && s in FilterFuncs ==> s in more
    ensures Accepts(more, b) ==> Accepts(fewer, b)
  {
    if Accepts(more, b) {
      forall j | 0 <= j < |fewer| && fewer[j] in FilterFuncs
        ensures Holds(FilterFuncs[fewer[j]], b)
      {
        var i :| 0 <= i < |more| && more[i] == fewer[j];
      }
    }
  }

  /** The answer depends only on which tokens occur, not on their order or on
      repetitions. */
  lemma SameTokensSameAnswer(specs1: seq<string>, specs2: seq<string>, b: Branch)
    requires forall s :: s in specs1 <==> s in specs2
    ensures Accepts(specs1, b) == Accepts(specs2, b)
  {
    FewerTokensAcceptMore(specs1, specs2, b);
    FewerTokensAcceptMore(specs2, specs1, b);
  }

  /** An unrecognised token can be removed from anywhere without changing the
      answer. */
  lemma UnknownTokenIgnored(before: seq<string>, s: string, after: seq<string>, b: Branch)
    requires s !in FilterFuncs
    ensures Accepts(before + [s] + after, b) == Accepts(before + after, b)
  {
    var with, without := before + [s] + after, before + after;
    forall x | x in without
      ensures x in with
    {
      var i :| 0 <= i < |without| && without[i] == x;
      if i < |before| {
        assert with[i] == x;
      } else {
        assert with[i + 1] == x;
      }
    }
    forall x | x in with && x in FilterFuncs
      ensures x in without
    {
      var i :| 0 <= i < |with| && with[i] == x;
      if i < |before| {
        assert without[i] == x;
      } else {
        assert i != |before|;
        assert without[i - 1] == x;
      }
    }
    FewerTokensAcceptMore(with, without, b);
    FewerTokensAcceptMore(without, with, b);
  }

  /** Every branch passes the empty filter; each token of a pair accepts exactly
      the branches its partner rejects, so asking for both accepts nothing. */
  lemma TokenPairsAreComplements(b: Branch)
    ensures Accepts([], b)
    ensures Accepts(["current"], b) == b.current
    ensures Accepts(["!current"], b) == !Accepts(["current"], b)
    ensures Accepts(["living"], b) == b.living
    ensures Accepts(["!living"], b) == !Accepts(["living"], b)
    ensures Accepts(["upstream"], b) == (b.upstream != "")
    ensures Accepts(["!upstream"], b) == !Accepts(["upstream"], b)
    ensures !Accepts(["current", "!current"], b)
  {
  }

  /** `filterNames` lists exactly the keys of `filterFuncs`, each once. */
  lemma FilterNamesAreKeys()
    ensures |FilterNames| == |FilterFuncs.Keys| == 6
    ensures forall s :: s in FilterNames <==> s in FilterFuncs
    ensures forall i, j :: 0 <= i < j < |FilterNames| ==> FilterNames[i] != FilterNames[j]
  {
    assert FilterFuncs.Keys == {"current", "!current", "living", "!living", "upstream", "!upstream"};
  }
}
