/**
 * The pure part of the branch comparison: splitting `git log` output into
 * lines, parsing each `hash|date|summary` line into a commit, and keeping
 * the commits of the first branch whose summary the second branch lacks.
 */
module Git {
  import opened Wrappers
  import opened Text

  /** A parsed log entry. The hash is read but not kept: commits are compared by summary only. */
  datatype Commit = Commit(date: string, summary: string)

  /**
   * Why a log line could not be parsed. `parse_commit_message` indexes
   * the third `|`-separated field without a length check and panics;
   * here that panic is an error value naming the offending line.
   */
  datatype ParseError = MalformedLogLine(line: string)

  /** The field delimiter of the `%h|%ad|%s` log format. */
  const Delimiter: char := '|'

  /** A log line has the three fields hash, date and summary (it may have more). */
  predicate WellFormed(line: string) {
    Occurrences(line, Delimiter) >= 2
  }

  /** The `index`-th `|`-separated field of a well-formed line (0 = hash, 1 = date, 2 = summary). */
  function Field(line: string, index: nat): string
    requires WellFormed(line) && index <= 2
  {
    Split(line, Delimiter)[index]
  }

  // ---------------------------------------------------------------------
  // Exclusion words
  // ---------------------------------------------------------------------

  /** The words to filter on: none when no exclusion list is given. */
  function WordsToExclude(exclude: Option<seq<string>>): seq<string> {
    exclude.GetOr([])
  }

  /** Some word of `words` is a substring of `summary`. */
  predicate ContainsAnyWord(summary: string, words: seq<string>) {
    exists w :: w in words && Contains(summary, w)
  }

  /** `summary` is filtered out by the optional exclusion list. */
  predicate Excluded(summary: string, exclude: Option<seq<string>>) {
    ContainsAnyWord(summary, WordsToExclude(exclude))
  }

  // ---------------------------------------------------------------------
  // Parsing
  // ---------------------------------------------------------------------

  /** The log output of one branch as an ordered list of lines. */
  function ParseGitOutput(raw: string): (lines: seq<string>)
    ensures raw == "" ==> lines == []
    ensures forall i :: 0 <= i < |lines| ==> '\n' !in lines[i]
  {
    Lines(raw)
  }

  /**
   * Parses one `hash|date|summary` line. `Ok(None)` means the line was
   * dropped because its summary contains an excluded word; fields after
   * the third are ignored; date and summary are taken verbatim.
   */
  function ParseCommitMessage(msg: string, exclude: Option<seq<string>>): (r: Result<Option<Commit>, ParseError>)
    ensures r.Err? <==> Occurrences(msg, Delimiter) < 2
    ensures r.Err? ==> r.error == MalformedLogLine(msg)
    ensures r == Ok(None) ==> exclude.Some? && |exclude.value| > 0
    ensures r.Ok? && r.value.Some? ==>
              && Delimiter !in r.value.value.date
              && Delimiter !in r.value.value.summary
              && !Excluded(r.value.value.summary, exclude)
  {
    var fields := Split(msg, Delimiter);
    if |fields| < 3 then Err(MalformedLogLine(msg))
    else
      var summary := fields[2];
      if exclude.Some? && ContainsAnyWord(summary, exclude.value) then Ok(None)
      else Ok(Some(Commit(fields[1], summary)))
  }

  /** A malformed line exists among `lines[..k]`. */
  predicate HasMalformedBefore(lines: seq<string>, k: nat)
    requires k <= |lines|
  {
    exists j :: 0 <= j < k && !WellFormed(lines[j])
  }

  /**
   * Parses the lines of one branch, keeping the commits that survive the
   * exclusion filter, in order. The first malformed line aborts the whole
   * branch, as the panic of `parse_commit_message` inside the
   * `filter_map` of `compare_branches` does.
   */
  function ParseLines(lines: seq<string>, exclude: Option<seq<string>>): (r: Result<seq<Commit>, ParseError>)
    ensures r.Err? <==> HasMalformedBefore(lines, |lines|)
    ensures r.Err? ==> exists k :: 0 <= k < |lines| && r.error == MalformedLogLine(lines[k])
                                   && !WellFormed(lines[k]) && !HasMalformedBefore(lines, k)
    ensures r.Ok? ==> |r.value| <= |lines|
    ensures r.Ok? ==> forall i :: 0 <= i < |r.value| ==> !Excluded(r.value[i].summary, exclude)
    ensures r.Ok? ==> forall i :: 0 <= i < |r.value| ==> Delimiter !in r.value[i].summary
    decreases |lines|
  {
    if |lines| == 0 then Ok([])
    else
      match ParseCommitMessage(lines[0], exclude)
      case Err(e) =>
        assert !HasMalformedBefore(lines, 0);
        Err(e)
      case Ok(head) =>
        match ParseLines(lines[1..], exclude)
        case Err(e) =>
          var k :| 0 <= k < |lines| - 1 && e == MalformedLogLine(lines[1..][k])
                   && !WellFormed(lines[1..][k]) && !HasMalformedBefore(lines[1..], k);
          assert lines[k + 1] == lines[1..][k];
          assert !HasMalformedBefore(lines, k + 1) by {
            forall j | 0 <= j < k + 1
              ensures WellFormed(lines[j])
            {
              if j > 0 {
                assert lines[j] == lines[1..][j - 1];
              }
            }
          }
          Err(e)
        case Ok(tail) =>
          assert !HasMalformedBefore(lines, |lines|) by {
            forall j | 0 <= j < |lines|
              ensures WellFormed(lines[j])
            {
              if j > 0 {
                assert lines[j] == lines[1..][j - 1];
              }
            }
          }
          match head
          case None => Ok(tail)
          case Some(c) => Ok([c] + tail)
  }

  // ---------------------------------------------------------------------
  // Comparison
  // ---------------------------------------------------------------------

  /** `xs` is obtained from `ys` by deleting elements: order is kept. */
  predicate SubsequenceOf<T(==)>(xs: seq<T>, ys: seq<T>)
    decreases |ys|
  {
    |xs| == 0 || (|ys| > 0 && ((xs[0] == ys[0] && SubsequenceOf(xs[1..], ys[1..])) || SubsequenceOf(xs, ys[1..])))
  }

  /** The set of summaries of `commits` (the hash set built from the second branch). */
  function Summaries(commits: seq<Commit>): (hash: set<string>)
    ensures forall s :: s in hash <==> exists j :: 0 <= j < |commits| && commits[j].summary == s
  {
    set c | c in commits :: c.summary
  }

  /**
   * The fold that builds the hash set: starting from `hash`, inserts the
   * summary of each commit in turn.
   */
  function InsertSummaries(hash: set<string>, commits: seq<Commit>): set<string>
    decreases |commits|
  {
    if |commits| == 0 then hash else InsertSummaries(hash + {commits[0].summary}, commits[1..])
  }

  /** The commit is reported: its summary is not in the hash set and contains no excluded word. */
  predicate Reported(c: Commit, hash: set<string>, words: seq<string>) {
    c.summary !in hash && !ContainsAnyWord(c.summary, words)
  }

  /** The loop over the first branch: keeps, in order, the commits that are reported. */
  function KeepReported(commits: seq<Commit>, hash: set<string>, words: seq<string>): (kept: seq<Commit>)
    ensures SubsequenceOf(kept, commits)
    ensures forall i :: 0 <= i < |kept| ==> Reported(kept[i], hash, words)
    ensures forall c: Commit :: Reported(c, hash, words) ==> multiset(kept)[c] == multiset(commits)[c]
    decreases |commits|
  {
    if |commits| == 0 then []
    else
      var rest := KeepReported(commits[1..], hash, words);
      assert commits == [commits[0]] + commits[1..];
      if Reported(commits[0], hash, words) then [commits[0]] + rest else rest
  }

  /**
   * The commits of `commits1` whose summary appears nowhere in `commits2`
   * and contains no excluded word, in their original order.
   */
  function Compare(commits1: seq<Commit>, commits2: seq<Commit>, exclude: Option<seq<string>>): (r: seq<Commit>)
    ensures SubsequenceOf(r, commits1)
    ensures forall i, j :: 0 <= i < |r| && 0 <= j < |commits2| ==> r[i].summary != commits2[j].summary
    ensures forall i :: 0 <= i < |r| ==> !Excluded(r[i].summary, exclude)
    ensures forall c: Commit :: c.summary !in Summaries(commits2) && !Excluded(c.summary, exclude) ==>
                          multiset(r)[c] == multiset(commits1)[c]
  {
    KeepReported(commits1, Summaries(commits2), WordsToExclude(exclude))
  }

  /**
   * Parses the lines of both branches with the exclusion filter (the
   * first branch first, so its malformed line is the one reported), then
   * compares them with the same filter.
   */
  function CompareLogLines(lines1: seq<string>, lines2: seq<string>, exclude: Option<seq<string>>): (r: Result<seq<Commit>, ParseError>)
    ensures r.Ok? <==> !HasMalformedBefore(lines1, |lines1|) && !HasMalformedBefore(lines2, |lines2|)
    ensures r.Err? && HasMalformedBefore(lines1, |lines1|) ==> exists k :: 0 <= k < |lines1| && r.error == MalformedLogLine(lines1[k])
    ensures r.Ok? ==> forall i :: 0 <= i < |r.value| ==> !Excluded(r.value[i].summary, exclude)
  {
    match ParseLines(lines1, exclude)
    case Err(e) => Err(e)
    case Ok(branch1) =>
      match ParseLines(lines2, exclude)
      case Err(e) => Err(e)
      case Ok(branch2) => Ok(Compare(branch1, branch2, exclude))
  }

  /** The whole pipeline over the raw log text of two branches. */
  function CompareBranches(log1: string, log2: string, exclude: Option<seq<string>>): (r: Result<seq<Commit>, ParseError>)
    ensures r.Ok? <==> (forall i :: 0 <= i < |ParseGitOutput(log1)| ==> WellFormed(ParseGitOutput(log1)[i]))
                       && (forall j :: 0 <= j < |ParseGitOutput(log2)| ==> WellFormed(ParseGitOutput(log2)[j]))
    ensures r.Ok? && log1 == "" ==> r.value == []
  {
    var lines1, lines2 := ParseGitOutput(log1), ParseGitOutput(log2);
    assert !HasMalformedBefore(lines1, |lines1|) <==> forall i :: 0 <= i < |lines1| ==> WellFormed(lines1[i]);
    assert !HasMalformedBefore(lines2, |lines2|) <==> forall j :: 0 <= j < |lines2| ==> WellFormed(lines2[j]);
    CompareLogLines(lines1, lines2, exclude)
  }
}
