# git-branches, modelled in Dafny

git-branches lists the branches of a git repository and tells which ones are
*living*. A branch that declares an upstream is meant to be living when a
branch with that full name still appears in the listing; the exact rule the
code applies is narrower, as the notes below say. The tool also offers to
delete the branches that are not living. This project models the logic of that tool over
lines of text and small records. It proves what each step returns and how the
steps fit together. git itself is an oracle: its answer to a query is either a
list of output lines or an error.

The modules follow the program's files:

- `Wrappers` (wrappers.dfy): `Option` and `Result`.
- `Strings` (strings.dfy): the pieces of Go's `strings` package the code uses:
  `Split`, `SplitN(…, 2)` (as `SplitFirst`), `Fields` with `unicode.IsSpace`,
  and `Replace(…, -1)` (as `ReplaceAll`). `Split`, `SplitFirst` and `Fields`
  each come with the round trip that the parsers rely on; for `Fields` that
  round trip holds whatever white space pads the words, as in the aligned
  columns of `git branch -vv`. `ReplaceAll` is stated character by character.
- `Branches` (branch.dfy): the `Branch` record of gitbranches/branch.go and its
  `FullName`.
- `Git` (git.dfy): `callGit`'s argument rewriting and the `retrieveBranchList`
  resolver of git.go.
  - The resolver is imperative. Each parsed line allocates a `BranchRef` cell,
    which stands for the Go `*Branch`.
  - The followee map holds references to those cells. A later line marks an
    earlier cell living through that map, as `follower.Living = true` does.
  - `RetrieveBranchList` is proved to hand out distinct cells whose values are
    `Resolve(lines)`. `Resolve` is a declarative description of the output.
- `Resolution` (resolve.dfy): the properties of `Resolve`. These cover:
  - which lines are dropped;
  - who is marked living, and by which line;
  - the overwrite of a followee entry by a later declarer;
  - worked two-line listings.
- `Filters` (filter.dfy): `ParseFilter`'s conjunction over the recognised
  tokens, `filterFuncs` and `filterNames`.
- `Listing` (list.dfy): the uncoloured formatters, the tab escaping of
  `columnWriter`, and the filter-then-emit loop of `list`.
- `Cleanup` (cleanup.dfy): the delete loop of `cleanup`. The reply to the k-th
  delete is an oracle, `reply(k)`.
- `Legacy` (legacy.dfy): the older `git branch -vv` generation in main.go. It
  has its own `Branch` type, `parseBranchText`, the followee-set filter with
  commit de-duplication, the `git show` author parsing, and its `callGit`.

The model follows the code as written. Some of its behaviour is easy to
misread:

- **Living is set on the declarer.** The code marks the branch that *declares*
  an upstream as living when a line with that full name shows up at or after
  it (git.go:70-76), provided it is the last declarer of that upstream before
  the matching line. The line that matched is then dropped. Lines before the
  declarer never count.
- **Only the last declarer of an upstream is marked.** git.go:71 overwrites
  the followee entry, so when `feature` and then `feature2` both track
  `origin/feature`, the later line `origin/feature` marks only `feature2`
  (`Resolution.LastDeclarerWins`). `feature` is reported DEAD by `list` and
  is a candidate for `cleanup`, though its upstream is still listed.
- **A branch can mark itself.** Registration comes before the lookup, so a
  branch that names itself as upstream marks itself living and is dropped
  (`Resolution.SelfFollowerDropped`).
- **A local name with a `/` is read as remote and name.** For a local branch
  `feature/x`, `%(refname:lstrip=2)` (git.go:28) prints `feature/x`, and git.go:63-69
  splits every short name at its first `/`. The branch comes back with remote
  `feature` and name `x` (`Git.SlashedLocalNameSplits`). So `list` shows it
  under remote `feature`, and cleanup passes `-d x` for it (cleanup.go:14,
  `Cleanup.SlashedLocalDeleteCall`). The round trip `Git.ParseLineRoundTrip`
  therefore holds only for local names without `/`.
- **Cleanup does not look at the upstream.** The `cleanup` command is
  described as removing branches whose upstream is lost
  (gitbranches/facade.go:25), but the loop tries to delete every branch that
  is not living, including those that never had an upstream
  (cleanup.go:10-14). It deletes by `Name`, not `FullName`.
- **The delete call has no `branch` subcommand.** cleanup.go:14 passes
  `-d <name>` straight to git, behind `-C <dir>` when a directory is given, so
  the call is `git -d <name>` and not `git branch -d <name>`. git has no
  top-level `-d` option, so as written the first attempted delete fails and
  its error ends the run. The model keeps the arguments as written
  (`Cleanup.DeleteDead`) and leaves git's answer to the oracle `reply`.
- **Cleanup has no confirmation and no forced delete.** The `--force` flag is
  described as switching to `git branch -D` (gitbranches/facade.go:26), but
  cleanup.go:18 is only a TODO and the `force` argument is never read. The
  loop does not inspect git's diagnostics either: the first delete error is
  returned unchanged and ends the run.
- **An odd call in the command-line wiring.** gitbranches/facade.go:34 calls
  `cleanup(directory, force)`, while cleanup.go:5 declares
  `cleanup(force bool, directory string)`. The wiring is not part of this
  model. `Cleanup.Cleanup` takes the parameters in the declared order.

Two quirks of the older parser are modelled as written:

- **A commit subject can read as an upstream.** The third whitespace field is
  taken as the tracking column, so a branch without upstream whose commit
  subject starts with `[x]` or `[x:` reads as tracking `x`
  (`Legacy.StripUpstreamOf`).
- **`callGit` prepends an empty directory.** It prepends `-C ""` when given a
  pointer to an empty directory (`Legacy.CallGitAgreesWithNewer`).

Go's run-time panics (a slice out of range, `terms[1]` on a line without `:`)
become the failure `Legacy.Panicked(line)`. Line numbers count from 0, as the
Go loop counter does.

## Model

| member | source | states |
|---|---|---|
| Strings.Split | git.go:52 | the number of fields is the number of separators plus one, and no field holds the separator |
| Strings.SplitJoin | git.go:52 | splitting a tab-joined list of tab-free fields gives back the fields |
| Strings.SplitFirst | git.go:63 | one part (the whole text) exactly when the separator is absent; otherwise a separator-free head and the rest, which rejoin to the text |
| Strings.SplitFirstAround | git.go:63-69 | splitting `a/b` with no `/` in `a` gives `[a, b]`, whatever `b` holds |
| Strings.ReplaceAll | list.go:97 | same length, every `from` replaced by `to` and nothing else changed, so no `from` is left |
| Strings.Fields | main.go:200 | every field is non-empty and free of white space |
| Strings.FieldsJoin | main.go:200 | the fields of non-empty white-space-free words joined by spaces are those words |
| Strings.FieldsBlank | main.go:200 | leading white space of any length adds no field |
| Strings.FieldsWord | main.go:200 | a word followed by a non-empty run of white space of any length is the first field, and the rest are the fields of what follows the run |
| Strings.FieldsSpread | main.go:199-200 | words laid out with any white space before, between (at least one character) and after them have exactly those words as fields |
| Branches.Branch.FullName | gitbranches/branch.go:14-19 | the name is a suffix of the full name, and they are equal exactly when the remote is empty |
| Branches.SplitRemoteFullName | gitbranches/branch.go:14-19 | splitting a remote branch's full name at its first `/` gives remote and name back when the remote holds no `/` |
| Branches.SplitLocalFullName | gitbranches/branch.go:14-19 | a local name without `/` splits into itself alone |
| Filters.Holds | gitbranches/filter.go:19-38 | `current`/`!current` test the current flag, `living`/`!living` the living flag and `upstream`/`!upstream` whether there is an upstream, each pair in opposite senses |
| Filters.Accepts | gitbranches/filter.go:5-16 | a branch is accepted exactly when the predicate of every recognised token holds |
| Filters.FewerTokensAcceptMore | gitbranches/filter.go:7-14 | dropping recognised tokens never rejects a branch that was accepted |
| Filters.SameTokensSameAnswer | gitbranches/filter.go:7-14 | the answer depends only on which tokens occur, not on their order or repetition |
| Filters.UnknownTokenIgnored | gitbranches/filter.go:8 | an unrecognised token can be removed anywhere without changing the answer |
| Filters.TokenPairsAreComplements | gitbranches/filter.go:19-38 | the empty filter accepts everything; `current`, `living` and `upstream` test their fields; each `!` token is the complement of its partner; `current` with `!current` accepts nothing |
| Filters.FilterNamesAreKeys | gitbranches/filter.go:19-47 | `filterNames` lists the six keys of `filterFuncs`, each once |
| Git.CallGitArgs | git.go:11-14 | a non-empty directory adds exactly `-C <dir>` in front; otherwise the arguments are unchanged |
| Git.ParseFields | git.go:57-69 | current iff field 0 is `*`; committer and upstream copied from fields 2 and 3; not living; remote and name from the first `/` of field 1, or an empty remote and all of field 1 |
| Git.ParseLine | git.go:50-55 | a line yields a record exactly when it holds at least four tabs (five fields), and that record is not living |
| Git.ParseLineRoundTrip | git.go:52-69 | a branch written as five tab-separated fields, with its full name, parses back into the same branch |
| Git.SlashedLocalNameSplits | git.go:63-69 | a local branch whose name holds a `/` parses back with the part before the first `/` as remote and a strictly shorter name |
| Git.ParseFieldsOfFullName | git.go:57-69 | fields carrying a branch's marker, full name, author and upstream parse into that branch |
| Git.ParsedUpTo | git.go:49-55 | at most one record per line, none of them living |
| Git.ParsedConcat | git.go:49-55 | the records of two listings one after the other are the records of each, concatenated |
| Git.KeptUpTo | git.go:73-77 | the kept indices are ascending and below the bound, and none of them is dropped |
| Git.KeptComplete | git.go:73-77 | every record that is not dropped is kept |
| Git.BranchRef.constructor | git.go:57-61 | a new cell holds the parsed record |
| Git.BranchRef.SetLiving | git.go:74 | marking a cell living changes only that cell's record, and only its `living` field |
| Git.Values | git.go:46 | the records held by the cells, one per cell, in order |
| Git.FolloweesStep | git.go:70-72 | registering a record's upstream keeps the followee map equal to "each declared upstream to its last declarer" |
| Git.DroppedByFollowees | git.go:73-76 | the new record is dropped exactly when its full name is a key of the followee map |
| Git.LivingByFollowees | git.go:73-74 | after a new record, a record is living exactly when it was before, or it is the declarer the map gives for the new record's full name |
| Git.MarkedStep | git.go:70-76 | one more line changes liveness only of the declarer the map names for its full name |
| Git.KeptStep | git.go:73-77 | one more line is appended to the output exactly when its full name is not a followee key |
| Git.LivingStep | git.go:70-74 | how appending a record changes which earlier records are living |
| Git.Register | git.go:57-77 | one parsed line: a fresh cell is created and the resolver state of the records before it becomes that of the records including it |
| Git.Allocate | git.go:57-72 | the new cell holds the parsed record and the followee map gives it as the last declarer of its upstream, while the output is unchanged |
| Git.Lookup | git.go:73-77 | the registered record is dropped when its full name is a followee key and appended otherwise, giving the resolver state after it |
| Git.MarkFollower | git.go:73-75 | marking the branch the map hands out for the new full name living, and dropping the new record, gives the resolver state after it |
| Git.DroppedState | git.go:73-75 | once the last declarer of the new full name is living, the cells hold the resolved records and the output is unchanged |
| Git.AppendedState | git.go:77 | a record whose full name no branch declares is appended, giving the resolver state after it |
| Git.ScanListing | git.go:46-78 | after the scan, the cells, the followee map and the output are the resolver state of all parsed records |
| Git.ResolvedCells | git.go:46-82 | at the end of the scan the output cells are distinct and hold exactly `Resolve(lines)` |
| Git.RetrieveBranchList | git.go:39-83 | git's error wrapped as `call git-branch: …`; otherwise distinct cells holding `Resolve(lines)` |
| Resolution.ResolveBound | git.go:46-77 | the output has no more branches than there are records, nor more records than lines |
| Resolution.ShortLineIgnored | git.go:52-55 | a line with fewer than five fields can be removed anywhere without changing the records or the output |
| Resolution.KeptExactly | git.go:70-77 | a record is output exactly when no record at or before it declared its full name as upstream |
| Resolution.SelfFollowerDropped | git.go:70-76 | a branch naming itself as upstream marks itself living and is dropped |
| Resolution.LivingNeedsLaterMatch | git.go:70-74 | only a record with an upstream is living, and only when some record at or after it carries that upstream as full name |
| Resolution.EarlierMatchIgnored | git.go:70-74 | a match that appears only before the declarer does not make it living |
| Resolution.LastDeclarerWins | git.go:71 | with two declarers of the same upstream, a matching line after both marks only the later one |
| Resolution.MatchMakesLiving | git.go:70-74 | a declarer followed by its match, with no re-declaration in between, is living |
| Resolution.OutputBranches | git.go:46-77 | each output branch is a kept record with its resolved liveness, and a living one has an upstream |
| Resolution.ParsedTwo | git.go:49-55 | two well-formed lines give their two records in order |
| Resolution.ResolveUnrelated | git.go:70-77 | two records that name neither each other nor themselves are both output, neither living |
| Resolution.ResolveFollowed | git.go:70-77 | a record followed by the record its upstream names: the first is living, the second dropped |
| Resolution.NoFolloweeExample | git.go:39-83 | `main` and `feature` tracking an absent `origin/feature`: both kept, `feature` dead |
| Resolution.ForwardReferenceExample | git.go:39-83 | `feature` then `origin/feature`: `feature` living, `origin/feature` dropped |
| Resolution.BackwardReferenceExample | git.go:39-83 | `origin/feature` then `feature`: both kept, `feature` dead |
| Listing.FormatUpstream | list.go:46-54 | empty iff there is no upstream; `DEAD` iff an upstream that is not living; `=> ` followed by the upstream iff a living upstream |
| Listing.FormatRemote | list.go:67-72 | `local` for a local branch, the remote otherwise |
| Listing.FormatAuthor | list.go:82-84 | the committer unchanged |
| Listing.Row | list.go:36-41 | four fields, with the name second and the committer third |
| Listing.Escape | list.go:97 | same length and no tab |
| Listing.EscapeFields | list.go:94-98 | one escaped field per field, in order, none holding a tab |
| Listing.EscapeKeepsPlainFields | list.go:97 | a tab-free field is unchanged, and escaping is idempotent |
| Listing.Select | list.go:31-34 | only accepted branches, never more than given |
| Listing.SelectConcat | list.go:31-34 | selecting from two listings is selecting from each |
| Listing.SelectMembers | list.go:31-34 | a branch is selected exactly when it is listed and accepted |
| Listing.SelectWithoutSpecs | gitbranches/filter.go:6-15 | without tokens every branch is listed |
| Listing.EscapedRow | list.go:36-41 | the row is the four fields, each escaped |
| Listing.Rows | list.go:31-42 | one row per branch |
| Listing.SelectRowsStep | list.go:31-42 | one more branch adds its row exactly when the filter accepts it |
| Listing.EscapedRowOf | list.go:94-98 | escaping a branch's fields one by one gives its row |
| Listing.EmitRows | list.go:31-42 | the rows are exactly those of the accepted branches, in resolver order |
| Listing.List | list.go:14-44 | the listing failure wrapped as `get branch list: call git-branch: …`; otherwise the rows of the accepted resolved branches |
| Cleanup.Candidates | cleanup.go:10-13 | never more than listed, and none of them living |
| Cleanup.CandidatesMembers | cleanup.go:10-13 | a branch is a candidate exactly when it is listed and not living, whatever its upstream |
| Cleanup.CandidatesConcat | cleanup.go:10-13 | the candidates of two listings are the candidates of each |
| Cleanup.DeleteCalls | cleanup.go:14 | one delete per candidate |
| Cleanup.DeleteStep | cleanup.go:10-14 | one more branch adds a delete exactly when it is not living |
| Cleanup.CandidatesPrefix | cleanup.go:10-14 | the deletes for a prefix of the listing come first, in order |
| Cleanup.AttemptStep | cleanup.go:10-17 | one more branch: a living one adds no delete and keeps the error empty; any other adds `-d <name>`, and the reply to that delete becomes the error |
| Cleanup.Finish | cleanup.go:15-21 | stopping on a failing delete, or at the end of the listing with no failure, is a run up to the first failure over all candidates |
| Cleanup.DeleteDead | cleanup.go:10-21 | the deletes of the non-living branches, each `-d <name>`, in order, up to and including the first failure, whose error is returned; no error only when all succeed |
| Cleanup.Cleanup | cleanup.go:5-22 | a listing failure wrapped and returned before any delete; otherwise as `DeleteDead` over the resolved branches |
| Cleanup.DeletedAreDead | cleanup.go:11-14 | every delete names a listed non-living branch by its name |
| Cleanup.AllSucceed | cleanup.go:21 | when every delete succeeds, all candidates are attempted in order and no error is returned |
| Cleanup.SlashedLocalDeleteCall | cleanup.go:14 | the listed local branch `feature/x` reads as remote `feature`, name `x`, and its delete call is `-d x` |
| Legacy.Branch.FullName | main.go:116-121 | the name is a suffix of the full name, equal exactly when the remote is empty |
| Legacy.FullNameAgrees | main.go:116-121 | both generations of the record compute the same full name |
| Legacy.CallGitArgs | main.go:184-187 | a given directory, even an empty one, adds exactly `-C <dir>` in front |
| Legacy.CallGitAgreesWithNewer | main.go:184-187 | the two `callGit`s agree except on an empty directory given explicitly |
| Legacy.BranchListArgs | main.go:124 | the query ends in `branch --list --all -vv` |
| Legacy.ShowArgs | main.go:165 | the query ends in `show --format=%h:%an --no-patch` followed by the commits |
| Legacy.StripUpstream | main.go:211-217 | a bracketed field is `[`, the result, then `]` or `:`; any other field gives an empty upstream |
| Legacy.StripUpstreamOf | main.go:211-217 | `[x]` and `[x:` both give `x` |
| Legacy.ParseBranchText | main.go:197-238 | exactly the lines shorter than the two-character cursor are the cursor panic; a branch it gives never has `->` as commit, and a remote one has no upstream |
| Legacy.ParseOutcomes | main.go:200-230 | exactly the lines with fewer than three fields give the shortage error, exactly those whose second field is `->` give no branch, and exactly those whose `remotes/` name has no further `/` give the path panic |
| Legacy.ParsedBranch | main.go:197-238 | a parsed branch is current iff the cursor is `* `, its commit is the second field, and a name outside `remotes/` is the name with the upstream read from the third field |
| Legacy.ParsedRemoteBranch | main.go:224-230 | a `remotes/` name splits into a remote without `/` and a name that rejoin to the first field, with no upstream |
| Legacy.ParseLocalLine | main.go:197-238 | a local branch line, its columns padded by any white space, parses back into that branch with the upstream read from the third column |
| Legacy.ParseRemoteLine | main.go:224-230 | a padded `remotes/<remote>/<name>` line parses back into that remote branch with its upstream cleared |
| Legacy.Decimal | main.go:138 | a non-empty string of decimal digits |
| Legacy.LineFailure | main.go:136-139 | the shortage error is returned as a failure, and the other two parse errors are panics at that line |
| Legacy.RecordsOk | main.go:134-156 | the run over the first lines succeeds when every one of them parses |
| Legacy.RecordsOkLine | main.go:134-156 | every line of a successful run parses |
| Legacy.RecordsLength | main.go:134-156 | a successful run gives at most one branch per line |
| Legacy.RecordsFailure | main.go:134-156 | a failed run fails with the failure of some line that does not parse |
| Legacy.FailureSticks | main.go:136-139 | once a line fails, the run fails with that line's failure |
| Legacy.FirstBadLine | main.go:136-139 | the first line that does not parse decides the run's failure |
| Legacy.HeadLinkIgnored | main.go:140-142 | a `->` line changes neither whether the run succeeds nor, when it does, its branches |
| Legacy.RecordsUpTo | main.go:134-142 | the parse-and-skip run over the first `n` lines; its contract is stated by `RecordsOk`, `RecordsOkLine`, `RecordsLength`, `RecordsFailure` and `RecordsSkip` |
| Legacy.RecordsSkip | main.go:140-142 | a line with no branch leaves the records unchanged |
| Legacy.RecordsPrefix | main.go:134-156 | the records of the first lines depend only on those lines |
| Legacy.Kept | main.go:144-150 | never more branches than listed |
| Legacy.KeptMembers | main.go:144-150 | a branch is kept exactly when it is listed and no branch at or before it declares its full name |
| Legacy.HiddenLast | main.go:144-147 | the newest branch is hidden exactly when the followee set after it holds its full name |
| Legacy.RecordStep | main.go:144-150 | one more branch adds its upstream to the followee set, and is kept exactly when its full name is not in it |
| Legacy.Dedup | main.go:151-155 | each element once, with the same elements as the input |
| Legacy.DedupPrefix | main.go:151-155 | de-duplicating a prefix gives a prefix, so first occurrences keep their order |
| Legacy.CommitStep | main.go:151-155 | one more kept branch appends its commit only when it is new |
| Legacy.CommitsOnce | main.go:151-155 | the returned commits are distinct, exactly the commits of the kept branches, in first-occurrence order |
| Legacy.BranchListing | main.go:123-161 | git's error becomes a returned failure, and the commits returned are distinct |
| Legacy.RetrieveBranchList | main.go:123-161 | git's error wrapped as `failed to call git-branch: …`; the first bad line's failure; otherwise the kept branches and their distinct commits |
| Legacy.CommitOf | main.go:174 | the commit is a prefix of its line |
| Legacy.RetrieveCommitAuthors | main.go:163-182 | git's error wrapped as `failed to call git-show: …`; otherwise the author map, or a panic at the first line without `:` |
| Legacy.AuthorsFailureSticks | main.go:172-177 | once a line panics, the run ends with that panic |
| Legacy.AuthorsUpTo | main.go:172-177 | a failure is a panic at a line before the bound that holds no `:` |
| Legacy.Authors | main.go:163-182 | git's error becomes a returned failure; otherwise a failure is a panic at a line of the output |
| Legacy.AuthorsOk | main.go:172-177 | the run succeeds exactly when every line holds `:` |
| Legacy.AuthorsKeys | main.go:172-177 | after a successful run the keys are exactly the commits of the lines |
| Legacy.LastLineWins | main.go:176 | a commit's author comes from the last line naming it: the text after the first `:` |
| Legacy.FirstLineWithoutColon | main.go:174-175 | the first line without `:` panics the run at that line |

## Left out

- Running git (`exec.Command` at git.go:15 and main.go:189). Every query is a
  parameter that holds git's output lines or its error, and each delete's
  answer is the oracle `reply`.
- `bufio.Scanner`: its token-size limit and `scanner.Err()`. That includes the
  `parse git-branch output` and `parse git-show output` errors at git.go:79-81,
  main.go:157-159 and main.go:178-180. The input is already a sequence of
  lines.
- The `for-each-ref` format string (git.go:22-37). It is a constant that git
  interprets, so the lines are taken as git would print them.
- Colour, `tabwriter` and `csv` output: list.go:56-66, 75-81 and 87-106 apart
  from the escape loop, and main.go:77-104 and 240-257. This includes the older
  writer's escaping of spaces (main.go:250).
- The display loop of the older `main()` (main.go:35-75): flag parsing, the
  column writer and colouring. Its display logic is not modelled either:
  - the `-X`/`--exclude-current` flag skips the checked-out branch
    (main.go:60-62);
  - every non-empty upstream is shown as `=> <upstream>`, with no mark for a
    dead one (main.go:64-67);
  - the author is looked up by commit, and a commit missing from the map
    shows as the empty string (main.go:71).
- gitbranches/facade.go (command-line wiring and `log.Fatal`), and log/log.go
  with log/release.go (logger set-up).
- Confirmation and forced delete. They do not exist in the code, and the
  `force` argument of `Cleanup.Cleanup` is unused as in cleanup.go.
- Strings are sequences of characters, not bytes. Slicing by byte offset only
  differs for multi-byte text, and the cursor, prefix and separators used here
  are ASCII.
- Legacy.HeadLinkIgnored: the failure is not the same with and without the
  `->` line, only whether there is one. Removing a line shifts the line number
  that a later failure reports.
- Legacy.Decimal: only the shape of `%d` output (decimal digits) is stated.
  Its exact digits are not proved.
- Git.BranchRef.SetLiving: the aliasing of the Go pointers is modelled by
  distinct cells in a ghost sequence. Any other alias of a cell outside that
  sequence is not considered.
