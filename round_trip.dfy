/**
  * What the import reads back from the cells the export writes: the story cell
  * of every exported row parses into the story's role, action and result, and
  * each criteria cell splits into the criteria's three clauses.
  */
module RoundTrip {
  import opened Wrappers
  import opened Text
  import opened StoryMap
  import Export
  import BulkImportDialog
  import BulkImport

  /** Clauses the criteria splitter gives back unchanged: non-empty, trimmed, comma-free. */
  predicate ReimportableCriteria(c: AcceptanceCriteria) {
    && c.given != "" && c.when != "" && c.outcome != ""
    && IsTrimmed(c.given) && IsTrimmed(c.when) && IsTrimmed(c.outcome)
    && ',' !in c.given && ',' !in c.when && ',' !in c.outcome
  }

  /** A story whose sentence and every criteria sentence parse back to its fields. */
  predicate ReimportableStory(s: UserStory) {
    && BulkImportDialog.ParsableFields(s.user, s.action, s.result)
    && forall c :: c in s.acceptanceCriteria ==> ReimportableCriteria(c)
  }

  /**
    * Every row exported for a story carries a story cell that parses back to the
    * story's role, action and result. With no criteria, the one row's criteria
    * cell reads as no criteria; otherwise row i's criteria cell is kept by the
    * import and splits into the clauses of criteria i.
    */
  lemma ExportedStoryRowsReimport(theme: string, epic: string, s: UserStory)
    requires ReimportableStory(s)
    ensures var rows := Export.StoryRows(theme, epic, s);
      && (s.acceptanceCriteria == [] ==> |rows| == 1 && BulkImport.CriteriaText(Some(rows[0][3])) == None)
      && (s.acceptanceCriteria != [] ==> |rows| == |s.acceptanceCriteria|)
      && forall i :: 0 <= i < |rows| ==>
           && |rows[i]| == 4
           && BulkImportDialog.ParseUserStory(rows[i][2]) == BulkImportDialog.ParsedStory(s.user, s.action, s.result)
           && (s.acceptanceCriteria != [] ==>
                 && BulkImport.CriteriaText(Some(rows[i][3])) == Some(rows[i][3])
                 && rows[i][3] != ""
                 && BulkImport.ParseCriteria(rows[i][3])
                    == BulkImport.CriteriaRec("", s.acceptanceCriteria[i].given,
                                              s.acceptanceCriteria[i].when, s.acceptanceCriteria[i].outcome))
  {
    var rows := Export.StoryRows(theme, epic, s);
    Export.StoryRowsEach(theme, epic, s);
    BulkImportDialog.ParseStorySentence(s.user, s.action, s.result);
    forall i | 0 <= i < |rows| && s.acceptanceCriteria != []
      ensures BulkImport.CriteriaText(Some(rows[i][3])) == Some(rows[i][3])
      ensures rows[i][3] != ""
      ensures BulkImport.ParseCriteria(rows[i][3])
              == BulkImport.CriteriaRec("", s.acceptanceCriteria[i].given,
                                        s.acceptanceCriteria[i].when, s.acceptanceCriteria[i].outcome)
    {
      var c := s.acceptanceCriteria[i];
      assert ReimportableCriteria(c);
      BulkImport.CriteriaRoundTrip(c.given, c.when, c.outcome);
    }
  }
}
