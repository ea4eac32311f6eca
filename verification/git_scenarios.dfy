/**
 * Worked examples of the comparison on the commits of small branches.
 */
module GitScenarios {
  import opened Wrappers
  import opened Text
  import opened Git

  /** A commit present on both branches is not reported; the other one is. */
  lemma SharedSummaryIsHidden()
    ensures Compare([Commit("2024-01-01", "Fix bug"), Commit("2024-01-02", "Add feature")],
                    [Commit("2024-01-03", "Fix bug")], None)
            == [Commit("2024-01-02", "Add feature")]
  {
  }

  /** An exclusion word drops the commit the other branch lacks. */
  lemma ExcludedWordHidesRest()
    ensures Compare([Commit("2024-01-01", "Fix bug"), Commit("2024-01-02", "Add feature")],
                    [Commit("2024-01-03", "Fix bug")], Some(["feature"]))
            == []
  {
    var fix, feature := Commit("2024-01-01", "Fix bug"), Commit("2024-01-02", "Add feature");
    var hash := Summaries([Commit("2024-01-03", "Fix bug")]);
    assert hash == {"Fix bug"};
    assert Excluded(feature.summary, Some(["feature"])) by {
      assert "Add feature"[4..11] == "feature";
      assert OccursAt("Add feature", "feature", 4);
      ContainsIffOccurs("Add feature", "feature");
      assert "feature" in ["feature"];
    }
    assert [fix, feature][1..] == [feature];
  }

  /** Two commits with the same summary on one branch are both reported. */
  lemma DuplicatesKept()
    ensures Compare([Commit("2024-03-01", "Update docs"), Commit("2024-03-02", "Update docs")], [], None)
            == [Commit("2024-03-01", "Update docs"), Commit("2024-03-02", "Update docs")]
  {
  }
}
