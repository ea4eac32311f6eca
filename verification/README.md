# Branch commit comparison — a Dafny model

This project models the core of `diff`, a small tool that lists the commits
of one git branch that are missing from another. Commits are matched by
their summary (the first line of the message), not by hash. The model
covers the pure logic in `src/git.rs`:

- **splitting `git log` output into lines** (`parse_git_output`, which uses `str::lines`);
- **parsing one `hash|date|summary` line** (`parse_commit_message`). A line
  whose summary contains an excluded word is dropped. Otherwise the line
  becomes a `Commit { date, summary }`;
- **the one-sided difference** (`compare`). It keeps the commits of the
  first branch whose summary appears nowhere on the second branch and
  contains no excluded word, in their original order;
- **the pipeline** in `compare_branches`. It parses both branches with the
  exclusion filter, then compares them with the same filter.

Modules:

- `Wrappers` (`wrappers.dfy`): `Option` and `Result`.
- `Text` (`text.dfy`): the standard-library string operations the code
  relies on. These are character search, `str::contains`, `str::split`
  on a character, and `str::lines`.
- `Git` (`git.dfy`): the `Commit` datatype and the operations above.
- `GitProperties` (`git_properties.dfy`): lemmas relating the operations.
- `GitScenarios` (`git_scenarios.dfy`): worked examples.

Modelling decisions:

- **Malformed lines.** The source reads `fields[2]` without checking the
  field count, so a line with fewer than two `|` panics. The model makes
  this an explicit error, `Err(MalformedLogLine(line))`. Like the panic,
  that error aborts the whole comparison. The first branch is parsed
  completely before the second, so a malformed line in the first branch is
  the one reported. The log format has three fields (`%h|%ad|%s`). The
  code accepts more than three and ignores the extras, and the model
  follows the code.
- **`str::contains`.** The empty word occurs in every string. So an
  exclusion list that contains `""` drops every commit.
- **`str::lines`.** A line ends at `\n`. One `\r` directly before that
  `\n` is removed with it. A final line with no `\n` is kept verbatim,
  including a trailing `\r`. A trailing `\n` adds no empty line.
- **Exclusion list.** `Some([])` filters nothing, the same as `None`. Both
  exclusion passes are kept. `SecondExclusionPassRedundant` proves that
  the second pass removes nothing from already-parsed commits.
- **The hash set.** The source's `HashSet` of second-branch summaries is
  the mathematical set `Summaries(commits2)`.

## Model

| member | source | states |
|---|---|---|
| Git.Compare | src/git.rs:55-83 | The result is a subsequence of the first list (order kept). No result summary equals any summary of the second list. No result summary contains an excluded word. Every commit passing both tests keeps its full multiplicity, so duplicates are not collapsed. |
| Git.KeepReported | src/git.rs:71-82 | The loop over the first list returns a subsequence of it in which every commit passes the check. Each commit that passes the check is kept as often as it occurs. |
| GitProperties.InsertSummariesIsSummaries | src/git.rs:60-63 | Folding the second branch's commits into a set by inserting each summary in turn yields the starting set plus exactly the summaries of those commits; from the empty set, this is the set `Compare` tests against. |
| Git.ParseCommitMessage | src/git.rs:106-120 | Fails, naming the line, exactly when the line has fewer than two `\|` (fewer than three fields). A dropped line needs a non-empty exclusion list. A parsed commit's date and summary hold no `\|`, and its summary contains no excluded word. |
| Git.ParseGitOutput | src/git.rs:97-104 | Empty output gives no lines, and no line contains a line feed. |
| Git.ParseLines | src/git.rs:41-48 | Fails exactly when some line is malformed, and then reports the first malformed line. On success it yields at most one commit per line, none excluded, none with `\|` in its summary. |
| Git.CompareLogLines | src/git.rs:41-50 | Succeeds exactly when every line of both branches is well-formed. A malformed first branch is the one reported. No reported commit is excluded. |
| Git.CompareBranches | src/git.rs:39-50 | Succeeds exactly when every line of both logs has at least three fields. An empty first log reports nothing. |
| Text.Lines | src/git.rs:99-102 | No line contains a line feed. The number of lines is the number of line feeds, plus one when the text ends in an unterminated line. |
| Text.LinesTerminated | src/git.rs:99-102 | Splitting newline-terminated plain lines returns exactly those lines. |
| Text.TrailingLineFeedOptional | src/git.rs:99-102 | A final line feed after a plain last line does not change the lines. |
| Text.Split | src/git.rs:107 | A split yields one more field than there are delimiters, and no field contains the delimiter. |
| Text.JoinSplit | src/git.rs:107 | Joining the fields of a split with the delimiter restores the line. |
| Text.SplitJoin | src/git.rs:107 | Splitting a join of delimiter-free fields returns the fields. |
| Text.ContainsIffOccurs | src/git.rs:74-76 | The recursive substring test holds exactly when the word occurs at some position of the summary. |
| Text.ContainsKeepsCharacters | src/git.rs:112 | If a word occurs in a string, every character of the word occurs in that string. |
| GitProperties.CompareDisjointIsIdentity | src/git.rs:60-82 | With no exclusion list, and no summary shared with the second list (including an empty second list), the first list is returned unchanged. |
| GitProperties.CompareIdempotent | src/git.rs:73-80 | Comparing the result against the same second list and words again returns it unchanged. |
| GitProperties.SecondExclusionPassRedundant | src/git.rs:65-80 | On a list that contains no excluded summary, comparing with the exclusion list equals comparing without one. |
| GitProperties.ExcludedIffOccurs | src/git.rs:74-76 | A summary is excluded exactly when an exclusion list is given and one of its words occurs at some position in the summary. |
| GitProperties.EmptyWordExcludesAll | src/git.rs:111-113 | An empty exclusion word drops every well-formed line. |
| GitProperties.DelimiterWordsNeverExclude | src/git.rs:107-113 | Words containing `\|` never match a summary. Parsing with only such words equals parsing with no exclusion list. |
| GitProperties.ParseJoined | src/git.rs:106-119 | A line of three or more delimiter-free fields is dropped exactly when its third field is excluded. Otherwise it parses to the second and third fields verbatim, and later fields are ignored. |
| GitProperties.ParseFormatted | src/git.rs:106-119 | Parsing inverts the `%h\|%ad\|%s` log format. A commit comes back unchanged unless its summary is excluded, in which case the line is dropped. |
| GitProperties.ParseLinesSoundAndComplete | src/git.rs:41-48 | After a successful parse, every commit comes from some line. Every line whose summary is not excluded yields its commit. |
| GitProperties.ParseLinesFilters | src/git.rs:41-48 | With any exclusion list, parsing a well-formed log equals filtering its one-to-one parse: the commits whose summary is not excluded are kept, in order. |
| GitProperties.ParseLinesOrdered | src/git.rs:41-48 | The parsed commits are a subsequence of the one-to-one parse (input order kept). Each non-excluded commit keeps its multiplicity, so duplicates are not collapsed. |
| GitProperties.ParseLinesNoExclusion | src/git.rs:41-48 | Without an exclusion list, well-formed lines parse one-to-one and in order into their commits. |
| GitProperties.CompareFromFirst | src/git.rs:71-82 | Every reported commit is a commit of the first list. |
| GitProperties.ReportedAvoidsSecondBranch | src/git.rs:45-50 | No reported commit has the summary of any second-branch line, whether that line was kept or excluded. |
| GitProperties.CompareLogLinesReports | src/git.rs:39-50 | The pipeline reports only commits described by first-branch lines. None of them shares a summary with any second-branch line. |
| GitProperties.CompareLogLinesSingleFilter | src/git.rs:41-50 | The pipeline's result equals comparing the parsed branches without an exclusion list. The exclusion pass in the comparison drops nothing further. |
| GitScenarios.SharedSummaryIsHidden | src/git.rs:73-80 | A commit whose summary is on both branches is hidden, and the other commit is reported. |
| GitScenarios.ExcludedWordHidesRest | src/git.rs:74-77 | An exclusion word hides the one remaining commit, so nothing is reported. |
| GitScenarios.DuplicatesKept | src/git.rs:73-80 | Two commits with the same summary, against an empty second branch, are both reported. |

## Left out

- Resolving the repository root (`compare_branches`, src/git.rs:18-37). It spawns `git rev-parse`, checks the exit status and trims the output. This is process I/O, so the model starts from the log text of each branch.
- `get_branch_commits` (src/git.rs:85-95). It runs `git log`, and its output is an input of the model. Only the line format it asks for (`%h|%ad|%s`) is modelled, as `GitProperties.FormatLogLine`.
- Lossy UTF-8 decoding of process output (src/git.rs:32, 98). Strings are taken as already-decoded character sequences.
- Hashing inside `HashSet`. The model uses a mathematical set of summaries.
- `Box<dyn Error>` and the `unwrap()` calls on process results. These are error plumbing for the process I/O above.
- Git.CompareBranches: its own contract states only when the pipeline succeeds and the empty-log case. What it reports is stated for `Git.CompareLogLines`, which `CompareBranches` applies to the split logs.
