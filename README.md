# git-branch-manager, modelled in Dafny

`git_branch_manager.go` is a command-line wrapper around `git branch` with three commands:

- `list` prints the local branches, sorted and numbered from 1.
- `keep`/`Keep <branches…>` deletes every branch that is not in the keep list.
- `delete`/`Delete <pattern>` deletes every branch that matches a pattern with an optional leading or trailing `*`.

The capitalised forms pass `-D` (force) to `git branch` instead of `-d`. A deletion run takes these steps:

1. It drops the checked-out branch.
2. It lists the candidates.
3. It waits for `yes` or `no` on standard input.
4. It deletes the branches one at a time and never stops on a failure.
5. It reports how many branches were deleted and which ones failed.

This project models that core:

| module | file | what it holds |
|---|---|---|
| `Wrappers` | wrappers.dfy | `Option` and `Result` |
| `Strings` | strings.dfy | The parts of Go's `strings` package the program uses: `Trim`, `TrimSpace` (with the whole `unicode.IsSpace` set), `HasPrefix`, `HasSuffix`, `Contains`, `Split`, and the string order `sort.Strings` uses. |
| `Seqs` | seqs.dfy | `Filter`, a subsequence relation, "value at the last matching element", and distinctness. These are the specification functions for the program's loops. |
| `BranchSource` | branch_source.dfy | How `listBranches` parses the output of `git branch`. |
| `Selection` | selection.dfy | `contains`, the keep-list loop, the pattern rules and their loop, and `filterCurrentBranch`. |
| `Deletion` | deletion.dfy | `confirmDeletion`, `_deleteBranches`, `deleteBranches` and `confirmAndDeleteBranches`. |
| `Cli` | cli.dfy | The argument `switch` of `main`, `listSortedBranches`, and one whole run of a command. |
| `Scenarios` | scenarios.dfy | What the model yields on small concrete inputs. |

The modelled core has no object whose fields change. Its loops build slices and a map. Each loop is therefore a Dafny `method`, and its loop invariant ties the partial result to a pure specification function over the prefix read so far. For example, `SelectByPattern` keeps `toDelete == Filter(branches[..i], Matches(raw))`. The properties the program promises are then proved as lemmas about those functions.

The program has three outside inputs:

- The text that `git branch` prints is a parameter. It is `Result<string, string>`, which covers a git failure.
- Each `git branch -d|-D <name>` call goes through an oracle of type `Git = seq<string> -> Option<string>`. The oracle maps the argument vector to `None` (exit status 0) or to `Some(output)` (failure, with git's combined output).
- Standard input is a sequence of whitespace-free tokens, one per `fmt.Scanln`.

A line marks the current branch when, once trimmed, it starts with `*`. The rest of that line is trimmed again and becomes the current branch, and also an entry when it is not empty.

## Model

| member | source | states |
|---|---|---|
| Strings.TrimLeft | git_branch_manager.go:225 | The result is a suffix of the input, everything dropped is in the cut set, and the result does not start with a cut character. |
| Strings.TrimRight | git_branch_manager.go:225 | The result is a prefix of the input, everything dropped is in the cut set, and the result does not end with a cut character. |
| Strings.Trim | git_branch_manager.go:225 | `strings.Trim` returns a string that neither starts nor ends with a cut character and is no longer than its input. |
| Strings.TrimRemovesOnlyCut | git_branch_manager.go:225 | The trimmed string sits inside the input at some index, and only cut characters surround it on either side. |
| Strings.TrimUnique | git_branch_manager.go:225 | For any split of a string into cut-only, trimmed and cut-only parts, `Trim` returns exactly the middle part. |
| Strings.TrimIdempotent | git_branch_manager.go:326-328 | Trimming twice is the same as trimming once, as with the repeated `TrimSpace` on a marked line. |
| Strings.TrimFixes | git_branch_manager.go:326-328 | `Trim` returns a string unchanged exactly when the string neither starts nor ends with a cut character. |
| Strings.TrimSpace | git_branch_manager.go:326-328 | `strings.TrimSpace` leaves no whitespace at either end, never lengthens, and returns the string unchanged exactly when it had none. |
| Strings.HasPrefix | git_branch_manager.go:236 | Definition of `strings.HasPrefix`: the prefix fits and the string starts with it. With `Selection.MatchRuleIsGlob` it gives the placement at offset 0. |
| Strings.HasSuffix | git_branch_manager.go:234 | Definition of `strings.HasSuffix`: the suffix fits and the string ends with it. With `Selection.MatchRuleIsGlob` it gives the placement at the last offset. |
| Strings.Contains | git_branch_manager.go:232 | Definition of `strings.Contains`: the substring starts at some offset, and the empty string occurs everywhere. With `Selection.MatchRuleIsGlob` it gives the placement at any offset. |
| Strings.Split | git_branch_manager.go:321 | `strings.Split` yields at least one piece, and no piece contains the separator. |
| Strings.JoinSplit | git_branch_manager.go:321 | Joining the pieces of `Split` with the separator gives back the original output. |
| Strings.SplitJoin | git_branch_manager.go:321 | Splitting a join of separator-free pieces gives back the pieces. |
| Strings.SplitCount | git_branch_manager.go:321 | The number of lines is the number of `\n` characters plus one. |
| Strings.LessEq | git_branch_manager.go:303 | Definition of the string order `sort.Strings` uses: lexicographic by code point, with a prefix first. It is total, reflexive, transitive and antisymmetric by the `LessEq*` lemmas. |
| Strings.LessEqTotal | git_branch_manager.go:303 | The string order used by `sort.Strings` is total. |
| Strings.LessEqTransitive | git_branch_manager.go:303 | The string order is transitive. |
| Strings.LessEqAntisymmetric | git_branch_manager.go:303 | The string order is antisymmetric, so two names that are each at most the other are equal. |
| Strings.LessEqReflexive | git_branch_manager.go:303 | The string order is reflexive. |
| Seqs.Filter | git_branch_manager.go:172-176 | The selected slice is no longer than its source, and its elements come from the source and satisfy the condition. |
| Seqs.FilterMembership | git_branch_manager.go:241-243 | A value is selected exactly when it is in the source and satisfies the condition. |
| Seqs.FilterMultiplicity | git_branch_manager.go:202-207 | The filter keeps every copy of a satisfying value and no copy of any other value. |
| Seqs.FilterIsSubseq | git_branch_manager.go:228-244 | The selection keeps the enumeration order, because it is a subsequence of the source. |
| Seqs.FilterKeepsAll | git_branch_manager.go:202-207 | When every element satisfies the condition, the filter returns its input unchanged. |
| Seqs.LastMatchAt | git_branch_manager.go:327-329 | The value left after the loop comes from the last element that matched. |
| Seqs.LastMatchNone | git_branch_manager.go:322 | When no element matches, the initial value (`""`) remains. |
| Seqs.ElementsCard | git_branch_manager.go:256 | A list has at least as many entries as distinct values, and exactly as many when no value repeats. |
| Seqs.FilterDistinct | git_branch_manager.go:256 | Filtering a list without repeats gives a list without repeats. |
| BranchSource.CleanLine | git_branch_manager.go:326-328 | A cleaned line has no surrounding whitespace and is no longer than the raw line. |
| BranchSource.Parse | git_branch_manager.go:321-336 | What the whole loop computes. Entries are non-empty and trimmed, a non-empty current branch is one of the entries and is trimmed, and there are no more entries than `\n`-separated lines. |
| BranchSource.EntriesWellFormed | git_branch_manager.go:331-333 | No entry is empty or has surrounding whitespace, and there are no more entries than lines. |
| BranchSource.CurrentOfIsLastMarked | git_branch_manager.go:327-330 | With no `*` line the current branch is `""`. Otherwise it is the cleaned text of the last line that starts with `*` after trimming. |
| BranchSource.CurrentIsListed | git_branch_manager.go:327-333 | A non-empty current branch is one of the entries, and it carries no surrounding whitespace. |
| BranchSource.ListBranches | git_branch_manager.go:321-336 | The loop computes the parse of the output. Entries are non-empty and trimmed, a non-empty current branch is listed, and there are at most as many entries as `\n`-separated lines. |
| Selection.ContainsItem | git_branch_manager.go:339-347 | `contains` answers true exactly when the item is an element of the slice. |
| Selection.SelectForKeep | git_branch_manager.go:171-176 | The loop keeps, in order, exactly the listed branches that are non-empty and absent from the keep list. |
| Selection.KeepIsDifference | git_branch_manager.go:171-176 | A branch is a candidate exactly when it is listed, non-empty and not kept. The candidates as a set are the listed names minus the keep list and `""`, and they appear in listing order. |
| Selection.ParsePattern | git_branch_manager.go:223-225 | Definition: the bare text is `strings.Trim(pattern, "*")`, and the two flags are `HasPrefix`/`HasSuffix` with `*`. It is characterised by ParsePatternReads and ParseGlob. |
| Selection.ParsePatternReads | git_branch_manager.go:223-225 | The leading (trailing) wildcard flag is set exactly when the raw pattern's first (last) character is `*`. The bare text has no `*` at either end and is no longer than the raw pattern. |
| Selection.MatchRule | git_branch_manager.go:230-239 | The four-way switch: contains, ends-with, starts-with or equality, chosen by the flags. Every rule accepts the bare text itself, and no rule accepts a branch shorter than the bare text. MatchRuleIsGlob characterises it fully. |
| Selection.MatchRuleIsGlob | git_branch_manager.go:230-239 | The four-way switch is glob matching: a branch matches exactly when the bare pattern can be placed in it at an offset that the anchoring allows. Without `*` the match is exact, with a trailing `*` the bare pattern is a prefix, with a leading `*` it is a suffix, and with both it is a substring. |
| Selection.StarsMatchEverything | git_branch_manager.go:223-225 | A pattern made only of stars (`*`, `**`, …) matches every branch, because `Trim` leaves it empty with both flags set. |
| Selection.GlobFlags | git_branch_manager.go:223-224 | The wildcard flags read back from a written pattern are the flags it was written with. |
| Selection.ParseGlob | git_branch_manager.go:223-225 | Reading back a written pattern recovers the bare text and both flags. Every pattern shape is therefore reachable from some command line. |
| Selection.SelectByPattern | git_branch_manager.go:223-244 | The loop returns exactly the ordered filter of the branches by the pattern's rule. |
| Selection.PatternSelection | git_branch_manager.go:227-244 | A branch is selected exactly when it is listed and matches. The selection is a subsequence of the listing. |
| Selection.RemovedCount | git_branch_manager.go:199-215 | Removing the current branch shortens the list by the number of times that branch occurs in it. |
| Selection.FilterCurrentBranch | git_branch_manager.go:199-215 | The result is the input without the current branch, in order. The notice flag is set exactly when something was removed. When nothing was removed, the input comes back unchanged. |
| Deletion.DecisionIsFirstAnswer | git_branch_manager.go:132-145 | There is no decision exactly when no token is `yes` or `no`. Otherwise the first such token decides, and every other token is ignored. |
| Deletion.Decision | git_branch_manager.go:132-145 | Definition of the answer the confirmation loop reaches: the first `yes` or `no`. It is characterised by DecisionIsFirstAnswer, and ConfirmDeletion is proved to compute it. |
| Deletion.ConfirmDeletion | git_branch_manager.go:132-145 | The loop returns the first answer. It consumes tokens up to and including that answer, or all of them when there is none. |
| Deletion.DeleteCommand | git_branch_manager.go:349-353 | `deleteBranch` runs `git branch -D <name>` exactly when forced, and `git branch -d <name>` when not forced. |
| Deletion.FailureMessage | git_branch_manager.go:356 | The error text starts with `Error deleting branch `, carries the branch name right after it, and ends with git's combined output. |
| Deletion.Failures | git_branch_manager.go:147-161 | A branch is a key of the failure map exactly when it is in the batch and git failed on it. Its value is `Error deleting branch <name>: <output>`. |
| Deletion.DeleteEach | git_branch_manager.go:147-161 | The batch issues one git command per branch, in order, whatever failed before. It collects exactly the failure map, and the map's keys are branches of the batch. |
| Deletion.OutcomesPartition | git_branch_manager.go:155-160 | Every branch of the batch either fails or succeeds, so the two counts add up to the batch size. |
| Deletion.FailureCount | git_branch_manager.go:147-161 | The failure map has at most one key per branch. Without repeated names, it has exactly one key per failed git call. |
| Deletion.DeleteBranches | git_branch_manager.go:254-281 | The report holds the commands and failures of the batch. The deleted count is the batch size less the failures and lies between 0 and the batch size. Without repeated names, it equals the number of successful git calls. |
| Deletion.ConfirmAndDeleteBranches | git_branch_manager.go:181-197 | The method satisfies `Settles`. No question is asked when only the current branch was selected. After a `no` the run is cancelled. Only after a `yes` does the batch run, and then on exactly the selection without the current branch. The notice is shown exactly when the current branch was selected. |
| Deletion.Settles | git_branch_manager.go:181-197 | The promise of `confirmAndDeleteBranches` for a selection: the notice iff the current branch was selected; one of four outcomes fixed by whether anything is left and by the first answer; the batch's commands, failure map and deleted count over the protected list. |
| Cli.InsertCorrect | git_branch_manager.go:303 | Inserting into a sorted list keeps it sorted and adds exactly the one name. |
| Cli.SortStrings | git_branch_manager.go:303 | The sorted list has as many names as the input. SortStringsCorrect proves it ordered and a permutation of the input. |
| Cli.SortStringsCorrect | git_branch_manager.go:303 | The sorted listing is ordered and is a permutation of the parsed branches. |
| Cli.SortedPermutationUnique | git_branch_manager.go:303 | Two sorted permutations of the same list are equal, so every correct sort, `sort.Strings` included, prints this order. |
| Cli.ListSortedBranches | git_branch_manager.go:303-311 | Line `i` of the listing carries number `i+1`, and the names are sorted and a permutation of the branches. |
| Cli.ParseArgs | git_branch_manager.go:66-91 | Arguments are accepted exactly for `list`, or for `keep`/`Keep`/`delete`/`Delete` with at least one more argument. An accepted command is List, Keep or Delete exactly as the first argument is `list`, `keep`/`Keep` or `delete`/`Delete`. Force is set exactly for the capitalised forms. `keep` takes all remaining arguments and `delete` takes the first one. |
| Cli.TargetsAreSafe | git_branch_manager.go:171-197 | A command targets a branch only if it is listed, selected by the command and not checked out. A keep target is outside the keep list and non-empty, and a delete target matches the pattern. |
| Cli.KeepBranches | git_branch_manager.go:164-179 | The keep command always reaches confirm-and-delete. Its outcome, notice and report satisfy `Settles` over the non-kept branches. It issues git commands only after a `yes`, and only for the non-kept branches without the current one. |
| Cli.DeleteBranchesByPattern | git_branch_manager.go:217-252 | Nothing matching means no question and no deletion. Otherwise the outcome, notice and report satisfy `Settles` over the matching branches. Git commands are issued only after a `yes`, for the matching branches without the current one. |
| Cli.ConfirmUnlessEmpty | git_branch_manager.go:246-251 | An empty selection stops the run before confirmation. Otherwise the run goes on to confirm-and-delete, and its outcome satisfies `Settles` over the selection. |
| Cli.Dispatch | git_branch_manager.go:73-90 | Once arguments are accepted and the branches listed, `list` gives the numbered sorted listing. `keep` always finishes. `delete` finishes unless nothing matches. A finished run satisfies `Settles` over the command's selection. |
| Cli.Run | git_branch_manager.go:66-91 | Usage errors occur exactly for rejected arguments, and listing errors exactly for accepted arguments with a failed listing. `list` prints a sorted permutation of the parsed branches, numbered from 1. A pattern run stops early exactly when nothing matches. Any other keep or delete run finishes with an outcome that satisfies `Settles` over the command's selection. The git commands issued are exactly the deletions of the command's targets, and only after a `yes`. |
| Scenarios.PrefixScenario | git_branch_manager.go:223-244 | Over the listing `test-a`, `test-b`, `other`, the pattern `test*` selects `test-a` and `test-b`. |
| Scenarios.SuffixScenario | git_branch_manager.go:223-244 | Over the same listing, `*-a` selects only `test-a`. |
| Scenarios.SubstringScenario | git_branch_manager.go:223-244 | Over the same listing, `*est*` selects `test-a` and `test-b`. |
| Scenarios.LiteralPattern | git_branch_manager.go:223-225 | A pattern that neither starts nor ends with `*` is taken literally, with neither wildcard flag. |
| Scenarios.ExactScenario | git_branch_manager.go:223-244 | Over the same listing, `test-a` selects only `test-a`. |
| Scenarios.StarScenario | git_branch_manager.go:223-244 | Over the same listing, a lone `*` selects every branch. |
| Scenarios.KeepScenario | git_branch_manager.go:171-176 | Over the same listing, `keep test-a` makes `test-b` and `other` the candidates. |
| Scenarios.ProtectionScenario | git_branch_manager.go:199-215 | With `test-b` checked out, the listing loses `test-b` and keeps `test-a` and `other` in order. |
| Scenarios.ConfirmationScenarios | git_branch_manager.go:138-143 | `maybe no` cancels, `yes` confirms at once, and `maybe y YES` holds no answer. |
| Scenarios.BatchScenario | git_branch_manager.go:155-160 | When git refuses only `b` in the batch `a b c`, the failure map is `{b: …}` and `a` and `c` count as deleted. |

## Left out

- `SineWave`, `Stream`, `Err` and `playBeepSound` (lines 30-35 and 93-130) are left out: they synthesise floating-point audio through an external library and wait on a channel.
- `init`, the colour printers and the `lastColor` toggle in `info` (lines 22-64) are left out: they affect presentation only.
- The `exec.Command` calls (lines 315-319 and 349-356) are left out. The listing output is a parameter, and each deletion goes through the `Git` oracle. The oracle is a function, so repeating a command gives the same outcome.
- Printed text is left out: titles, the candidate list shown by `confirmBranchesToDelete` (lines 283-292), pluralisation and the final counts message. The model keeps the data those messages report: the notice flag, the outcome and the `Report`.
- `fmt.Scanln` line handling is left out: a token is one word.
- `Deletion.ConfirmDeletion` does not loop forever. At the end of the token sequence the Go loop would keep prompting; the model stops and returns `None`, which becomes the `Unanswered` outcome.
- `log.Fatal(f)` and `os.Exit(1)` are results (`UsageError` and `ListingFailed`), not process exits.
- `sort.Strings` is modelled by value as an insertion sort. Its own algorithm is not modelled. `Cli.SortedPermutationUnique` shows the order does not depend on the algorithm.
- Strings are sequences of Unicode code points, not UTF-8 bytes. Lexicographic code-point order equals the byte order `sort.Strings` uses, and trimming and splitting work on whole characters either way. Input that is not valid UTF-8 is not modelled.
- `Deletion.DeleteBranches` does not equate the deleted count with the number of successful git calls when a name repeats, because the failure map then holds one key for several failures. `git branch` never lists a name twice, so the contract requires distinct names for that clause.

