/**
  * The entity tree Theme -> Epic -> User Story -> Acceptance Criteria, as plain
  * values, and the two sentence templates the application renders them with.
  */
module StoryMap {
  import opened Wrappers

  /** `outcome` is the source's `then` field (a reserved word here). */
  datatype AcceptanceCriteria = AcceptanceCriteria(id: string, given: string, when: string, outcome: string)

  /** `user` is the role of "As a {user}". */
  datatype UserStory = UserStory(id: string, user: string, action: string, result: string,
                                 acceptanceCriteria: seq<AcceptanceCriteria>)

  datatype Epic = Epic(id: string, title: string, userStories: seq<UserStory>)

  datatype Theme = Theme(id: string, title: string, description: string, epics: seq<Epic>,
                         createdAt: Option<string>, dueDate: Option<string>)

  function CriteriaId(c: AcceptanceCriteria): string { c.id }
  function StoryId(s: UserStory): string { s.id }
  function EpicId(e: Epic): string { e.id }

  /** "As a {user}, I want to {action}, so that {result}". */
  function StorySentence(user: string, action: string, result: string): string {
    "As a " + user + ", I want to " + action + ", so that " + result
  }

  /** "Given {given}, When {when}, Then {then}". */
  function CriteriaSentence(given: string, when: string, outcome: string): string {
    "Given " + given + ", When " + when + ", Then " + outcome
  }

  /**
    * One row handed from the spreadsheet dialog to the import: the epic title,
    * the parsed role, action and result, and the optional criteria text.
    */
  datatype ImportData = ImportData(epic: string, userStory: string, action: string, result: string,
                                   acceptanceCriteria: Option<string>)
}
