/**
 * Properties relating the operations of the branch comparison: when the
 * comparison returns its input unchanged, that it is idempotent, that the
 * second exclusion pass is redundant after parsing, that parsing inverts
 * the `%h|%ad|%s` log format, and what the whole pipeline reports.
 */
module GitProperties {
  import opened Wrappers
  import opened Text
  import opened Git

  // ---------------------------------------------------------------------
  // Comparison
  // ---------------------------------------------------------------------

  /**
   * The insertion fold over the second branch builds exactly the set of
   * its summaries, added to the set it starts from.
   */
  lemma {:induction false} InsertSummariesIsSummaries(hash: set<string>, commits: seq<Commit>)
    ensures InsertSummaries(hash, commits) == hash + Summaries(commits)
    decreases |commits|
  {
    if |commits| > 0 {
      InsertSummariesIsSummaries(hash + {commits[0].summary}, commits[1..]);
      assert commits == [commits[0]] + commits[1..];
    }
  }

  /** When every commit is reported, the loop keeps the whole list. */
  lemma {:induction false} KeepReportedAll(commits: seq<Commit>, hash: set<string>, words: seq<string>)
    requires forall i :: 0 <= i < |commits| ==> Reported(commits[i], hash, words)
    ensures KeepReported(commits, hash, words) == commits
    decreases |commits|
  {
    if |commits| > 0 {
      KeepReportedAll(commits[1..], hash, words);
      assert commits == [commits[0]] + commits[1..];
    }
  }

  /**
   * Without an exclusion list, and with no summary shared with the second
   * list (an empty second list included), the first list comes back unchanged.
   */
  lemma CompareDisjointIsIdentity(commits1: seq<Commit>, commits2: seq<Commit>)
    requires forall i, j :: 0 <= i < |commits1| && 0 <= j < |commits2| ==> commits1[i].summary != commits2[j].summary
    ensures Compare(commits1, commits2, None) == commits1
  {
    KeepReportedAll(commits1, Summaries(commits2), WordsToExclude(None));
  }

  /** Comparing the result against the same second list again changes nothing. */
  lemma CompareIdempotent(commits1: seq<Commit>, commits2: seq<Commit>, exclude: Option<seq<string>>)
    ensures Compare(Compare(commits1, commits2, exclude), commits2, exclude) == Compare(commits1, commits2, exclude)
  {
    var r := Compare(commits1, commits2, exclude);
    KeepReportedAll(r, Summaries(commits2), WordsToExclude(exclude));
  }

  /** Words that no commit of the list contains never drop anything. */
  lemma {:induction false} KeepReportedUnmatchedWords(commits: seq<Commit>, hash: set<string>, words: seq<string>)
    requires forall i :: 0 <= i < |commits| ==> !ContainsAnyWord(commits[i].summary, words)
    ensures KeepReported(commits, hash, words) == KeepReported(commits, hash, [])
    decreases |commits|
  {
    if |commits| > 0 {
      KeepReportedUnmatchedWords(commits[1..], hash, words);
    }
  }

  /**
   * The exclusion pass of the comparison drops nothing from a list that
   * has already been filtered with the same words: the result is exactly
   * the commits whose summary the second list lacks.
   */
  lemma SecondExclusionPassRedundant(commits1: seq<Commit>, commits2: seq<Commit>, exclude: Option<seq<string>>)
    requires forall i :: 0 <= i < |commits1| ==> !Excluded(commits1[i].summary, exclude)
    ensures Compare(commits1, commits2, exclude) == Compare(commits1, commits2, None)
  {
    KeepReportedUnmatchedWords(commits1, Summaries(commits2), WordsToExclude(exclude));
  }

  // ---------------------------------------------------------------------
  // Exclusion words
  // ---------------------------------------------------------------------

  /** A summary is excluded exactly when some exclusion word occurs in it at some position. */
  lemma ExcludedIffOccurs(summary: string, exclude: Option<seq<string>>)
    ensures Excluded(summary, exclude) <==>
              exclude.Some? && exists w, i :: w in exclude.value && OccursAt(summary, w, i)
  {
    forall w | w in WordsToExclude(exclude)
      ensures Contains(summary, w) <==> exists i :: OccursAt(summary, w, i)
    {
      ContainsIffOccurs(summary, w);
    }
  }

  /** The empty word occurs in every summary, so it drops every well-formed line. */
  lemma EmptyWordExcludesAll(msg: string, words: seq<string>)
    requires WellFormed(msg)
    requires "" in words
    ensures ParseCommitMessage(msg, Some(words)) == Ok(None)
  {
  }

  /**
   * A parsed summary never holds the delimiter, so exclusion words that
   * hold it never drop a line.
   */
  lemma DelimiterWordsNeverExclude(msg: string, words: seq<string>)
    requires forall w :: w in words ==> Delimiter in w
    ensures ParseCommitMessage(msg, Some(words)) == ParseCommitMessage(msg, None)
  {
    if WellFormed(msg) {
      var summary := Field(msg, 2);
      forall w | w in words
        ensures !Contains(summary, w)
      {
        if Contains(summary, w) {
          ContainsKeepsCharacters(summary, w, Delimiter);
        }
      }
    }
  }

  // ---------------------------------------------------------------------
  // Parsing
  // ---------------------------------------------------------------------

  /**
   * Parsing a line made of delimiter-free fields: the line is dropped
   * exactly when its third field is excluded, otherwise the commit holds
   * the second and third fields verbatim and any further fields are ignored.
   */
  lemma ParseJoined(fields: seq<string>, exclude: Option<seq<string>>)
    requires |fields| >= 3
    requires forall k :: 0 <= k < |fields| ==> Delimiter !in fields[k]
    ensures ParseCommitMessage(Join(fields, Delimiter), exclude)
            == if Excluded(fields[2], exclude) then Ok(None) else Ok(Some(Commit(fields[1], fields[2])))
  {
    SplitJoin(fields, Delimiter);
  }

  /** The line `git log --pretty=format:%h|%ad|%s` prints for a commit. */
  function FormatLogLine(hash: string, c: Commit): string {
    hash + [Delimiter] + c.date + [Delimiter] + c.summary
  }

  /**
   * Parsing inverts the log format: a commit whose fields hold no
   * delimiter comes back unchanged unless its summary is excluded.
   */
  lemma ParseFormatted(hash: string, c: Commit, exclude: Option<seq<string>>)
    requires Delimiter !in hash && Delimiter !in c.date && Delimiter !in c.summary
    ensures ParseCommitMessage(FormatLogLine(hash, c), exclude)
            == if Excluded(c.summary, exclude) then Ok(None) else Ok(Some(c))
  {
    var fields := [hash, c.date, c.summary];
    assert fields[1..] == [c.date, c.summary];
    assert fields[1..][1..] == [c.summary];
    assert Join(fields[1..], Delimiter) == c.date + [Delimiter] + c.summary;
    assert Join(fields, Delimiter) == hash + [Delimiter] + (c.date + [Delimiter] + c.summary);
    assert Join(fields, Delimiter) == FormatLogLine(hash, c);
    ParseJoined(fields, exclude);
  }

  /**
   * A well-formed line is dropped exactly when an exclusion list is given
   * and one of its words occurs in the third field; otherwise its commit
   * carries the second and third fields verbatim.
   */
  lemma ParseCommitMessageFields(msg: string, exclude: Option<seq<string>>)
    requires WellFormed(msg)
    ensures ParseCommitMessage(msg, exclude) == Ok(None) <==>
              exclude.Some? && exists w :: w in exclude.value && Contains(Field(msg, 2), w)
    ensures ParseCommitMessage(msg, exclude).Ok?
    ensures ParseCommitMessage(msg, exclude).value.Some? ==>
              ParseCommitMessage(msg, exclude).value.value == Commit(Field(msg, 1), Field(msg, 2))
  {
  }

  /** The commit a well-formed line describes. */
  function LineCommit(line: string): Commit
    requires WellFormed(line)
  {
    Commit(Field(line, 1), Field(line, 2))
  }

  /**
   * Parsing a branch loses nothing but excluded lines: every commit comes
   * from one of its lines, and every line whose summary is not excluded
   * yields its commit.
   */
  lemma {:induction false} ParseLinesSoundAndComplete(lines: seq<string>, exclude: Option<seq<string>>)
    requires ParseLines(lines, exclude).Ok?
    ensures forall j :: 0 <= j < |lines| ==> WellFormed(lines[j])
    ensures forall c :: c in ParseLines(lines, exclude).value ==>
              exists j :: 0 <= j < |lines| && WellFormed(lines[j]) && c == LineCommit(lines[j])
    ensures forall j :: 0 <= j < |lines| && WellFormed(lines[j]) && !Excluded(Field(lines[j], 2), exclude) ==>
              LineCommit(lines[j]) in ParseLines(lines, exclude).value
    decreases |lines|
  {
    if |lines| > 0 {
      ParseCommitMessageFields(lines[0], exclude);
      ParseLinesSoundAndComplete(lines[1..], exclude);
      var parsed := ParseLines(lines, exclude).value;
      var tail := ParseLines(lines[1..], exclude).value;
      assert forall j :: 1 <= j < |lines| ==> lines[j] == lines[1..][j - 1];
      forall c | c in parsed
        ensures exists j :: 0 <= j < |lines| && WellFormed(lines[j]) && c == LineCommit(lines[j])
      {
        if c in tail {
          var j :| 0 <= j < |lines| - 1 && WellFormed(lines[1..][j]) && c == LineCommit(lines[1..][j]);
          assert lines[j + 1] == lines[1..][j];
        } else {
          assert c == LineCommit(lines[0]);
        }
      }
    }
  }

  /** Without an exclusion list every line of a well-formed log becomes a commit. */
  lemma {:induction false} ParseLinesNoExclusion(lines: seq<string>)
    requires forall j :: 0 <= j < |lines| ==> WellFormed(lines[j])
    ensures ParseLines(lines, None).Ok?
    ensures |ParseLines(lines, None).value| == |lines|
    ensures forall j :: 0 <= j < |lines| ==> ParseLines(lines, None).value[j] == LineCommit(lines[j])
    decreases |lines|
  {
    if |lines| > 0 {
      ParseCommitMessageFields(lines[0], None);
      ParseLinesNoExclusion(lines[1..]);
    }
  }

  /**
   * With an exclusion list, parsing a well-formed log keeps the commits of
   * the unfiltered parse whose summary is not excluded, in their order and
   * with their multiplicity: the parse is the filter loop applied to the
   * one-to-one parse.
   */
  lemma {:induction false} ParseLinesFilters(lines: seq<string>, exclude: Option<seq<string>>)
    requires forall j :: 0 <= j < |lines| ==> WellFormed(lines[j])
    ensures ParseLines(lines, exclude).Ok? && ParseLines(lines, None).Ok?
    ensures ParseLines(lines, exclude).value == KeepReported(ParseLines(lines, None).value, {}, WordsToExclude(exclude))
    decreases |lines|
  {
    if |lines| > 0 {
      ParseCommitMessageFields(lines[0], exclude);
      ParseCommitMessageFields(lines[0], None);
      ParseLinesFilters(lines[1..], exclude);
      var all := ParseLines(lines, None).value;
      assert all == [LineCommit(lines[0])] + ParseLines(lines[1..], None).value;
      assert all[1..] == ParseLines(lines[1..], None).value;
    }
  }

  /**
   * Parsing keeps order and multiplicity: the parsed commits are a
   * subsequence of the unfiltered parse, none is excluded, and each
   * commit that is not excluded occurs as often as in the unfiltered parse.
   */
  lemma {:induction false} ParseLinesOrdered(lines: seq<string>, exclude: Option<seq<string>>)
    requires forall j :: 0 <= j < |lines| ==> WellFormed(lines[j])
    ensures ParseLines(lines, exclude).Ok? && ParseLines(lines, None).Ok?
    ensures SubsequenceOf(ParseLines(lines, exclude).value, ParseLines(lines, None).value)
    ensures forall c: Commit :: !Excluded(c.summary, exclude) ==>
              multiset(ParseLines(lines, exclude).value)[c] == multiset(ParseLines(lines, None).value)[c]
  {
    ParseLinesFilters(lines, exclude);
  }

  // ---------------------------------------------------------------------
  // The pipeline
  // ---------------------------------------------------------------------

  /** Every reported commit is a commit of the first list. */
  lemma CompareFromFirst(commits1: seq<Commit>, commits2: seq<Commit>, exclude: Option<seq<string>>)
    ensures forall c :: c in Compare(commits1, commits2, exclude) ==> c in commits1
  {
  }

  /**
   * No reported commit shares its summary with any line of the second
   * branch's parsed log, whether that line was kept or excluded.
   */
  lemma ReportedAvoidsSecondBranch(commits1: seq<Commit>, lines2: seq<string>, exclude: Option<seq<string>>)
    requires ParseLines(lines2, exclude).Ok?
    ensures forall c, j :: c in Compare(commits1, ParseLines(lines2, exclude).value, exclude) && 0 <= j < |lines2| ==>
              WellFormed(lines2[j]) && c.summary != Field(lines2[j], 2)
  {
  }

  /**
   * What the pipeline reports: commits described by lines of the first
   * branch only, none excluded, and none whose summary is the third field
   * of any line of the second branch, excluded lines included.
   */
  lemma CompareLogLinesReports(lines1: seq<string>, lines2: seq<string>, exclude: Option<seq<string>>)
    requires CompareLogLines(lines1, lines2, exclude).Ok?
    ensures forall c :: c in CompareLogLines(lines1, lines2, exclude).value ==>
              exists i :: 0 <= i < |lines1| && WellFormed(lines1[i]) && c == LineCommit(lines1[i])
    ensures forall c, j :: c in CompareLogLines(lines1, lines2, exclude).value && 0 <= j < |lines2| ==>
              WellFormed(lines2[j]) && c.summary != Field(lines2[j], 2)
  {
    var branch1 := ParseLines(lines1, exclude).value;
    var branch2 := ParseLines(lines2, exclude).value;
    CompareFromFirst(branch1, branch2, exclude);
    ParseLinesSoundAndComplete(lines1, exclude);
    ReportedAvoidsSecondBranch(branch1, lines2, exclude);
  }

  /**
   * The comparison inside the pipeline drops nothing for exclusion: its
   * result is exactly the parsed first branch minus the summaries of the
   * parsed second branch.
   */
  lemma CompareLogLinesSingleFilter(lines1: seq<string>, lines2: seq<string>, exclude: Option<seq<string>>)
    requires CompareLogLines(lines1, lines2, exclude).Ok?
    ensures ParseLines(lines1, exclude).Ok? && ParseLines(lines2, exclude).Ok?
    ensures CompareLogLines(lines1, lines2, exclude).value
            == Compare(ParseLines(lines1, exclude).value, ParseLines(lines2, exclude).value, None)
  {
    SecondExclusionPassRedundant(ParseLines(lines1, exclude).value, ParseLines(lines2, exclude).value, exclude);
  }
}
