/**
  * The list edits a user story card makes on its own acceptance criteria when
  * no database callback is supplied, its own field edit, its drop guard and the
  * drag-and-drop reorder of its criteria.
  */
module UserStoryCard {
  import opened Wrappers
  import opened StoryMap
  import Siblings
  import EpicCard

  /**
    * Fallback branch of `addAcceptanceCriteria`: a criterion with id `newId`
    * (the source's `Date.now()`) and the given clauses goes last.
    */
  function AddAcceptanceCriteria(story: UserStory, newId: string, given: string, when: string, outcome: string)
    : (r: UserStory)
    ensures r.id == story.id && r.user == story.user && r.action == story.action && r.result == story.result
    ensures |r.acceptanceCriteria| == |story.acceptanceCriteria| + 1
    ensures r.acceptanceCriteria[..|story.acceptanceCriteria|] == story.acceptanceCriteria
    ensures r.acceptanceCriteria[|story.acceptanceCriteria|] == AcceptanceCriteria(newId, given, when, outcome)
  {
    story.(acceptanceCriteria := Siblings.Append(story.acceptanceCriteria, AcceptanceCriteria(newId, given, when, outcome)))
  }

  /** Fallback branch of `updateAcceptanceCriteria`: criteria whose id matches are replaced. */
  function UpdateAcceptanceCriteria(story: UserStory, updated: AcceptanceCriteria): (r: UserStory)
    ensures r.id == story.id && r.user == story.user && r.action == story.action && r.result == story.result
    ensures |r.acceptanceCriteria| == |story.acceptanceCriteria|
    ensures forall j :: 0 <= j < |story.acceptanceCriteria| ==>
      r.acceptanceCriteria[j] ==
        if story.acceptanceCriteria[j].id == updated.id then updated else story.acceptanceCriteria[j]
  {
    story.(acceptanceCriteria := Siblings.ReplaceById(story.acceptanceCriteria, CriteriaId, updated.id, updated))
  }

  /** Fallback branch of `deleteAcceptanceCriteria`: exactly the criteria with that id disappear. */
  function DeleteAcceptanceCriteria(story: UserStory, criteriaId: string): (r: UserStory)
    ensures r.id == story.id && r.user == story.user && r.action == story.action && r.result == story.result
    ensures forall j :: 0 <= j < |r.acceptanceCriteria| ==> r.acceptanceCriteria[j].id != criteriaId
    ensures forall c :: multiset(r.acceptanceCriteria)[c] ==
                        if c.id == criteriaId then 0 else multiset(story.acceptanceCriteria)[c]
  {
    Siblings.RemoveByIdCounts(story.acceptanceCriteria, CriteriaId, criteriaId);
    story.(acceptanceCriteria := Siblings.RemoveById(story.acceptanceCriteria, CriteriaId, criteriaId))
  }

  /** `updateUserStory`: the three sentence fields change; the id and the criteria do not. */
  function UpdateUserStory(story: UserStory, user: string, action: string, result: string): (r: UserStory)
    ensures r.id == story.id && r.acceptanceCriteria == story.acceptanceCriteria
    ensures r.user == user && r.action == action && r.result == result
  {
    story.(user := user, action := action, result := result)
  }

  /** Adding a criterion with a fresh id and deleting that id restores the story. */
  lemma AddThenDeleteAcceptanceCriteria(story: UserStory, newId: string, given: string, when: string, outcome: string)
    requires forall j :: 0 <= j < |story.acceptanceCriteria| ==> story.acceptanceCriteria[j].id != newId
    ensures DeleteAcceptanceCriteria(AddAcceptanceCriteria(story, newId, given, when, outcome), newId) == story
  {
    Siblings.AppendThenRemove(story.acceptanceCriteria, CriteriaId, AcceptanceCriteria(newId, given, when, outcome));
  }

  /**
    * `handleDrop` on a story card: the `onReorder(draggedId, story.id)` call it
    * makes, or None (empty payload, the story itself, or no `onReorder`).
    */
  function HandleDrop(story: UserStory, plain: string, typed: string, hasOnReorder: bool)
    : (r: Option<(string, string)>)
    ensures r.Some? <==>
      EpicCard.DraggedId(plain, typed) != "" && EpicCard.DraggedId(plain, typed) != story.id && hasOnReorder
    ensures r.Some? ==> r.value == (EpicCard.DraggedId(plain, typed), story.id) && r.value.0 != r.value.1
  {
    var draggedId := EpicCard.DraggedId(plain, typed);
    if draggedId != "" && draggedId != story.id && hasOnReorder then Some((draggedId, story.id)) else None
  }

  /**
    * A story card's `onReorder` is its epic's `handleUserStoryReorder`. A drop
    * whose payload is not a story of that epic (a story of another epic, a
    * criterion) passes the guard but the reorder finds no index: nothing moves,
    * and in particular nothing is re-parented.
    */
  lemma ForeignDropIsNoop(epic: Epic, target: UserStory, plain: string, typed: string)
    requires target in epic.userStories
    requires !Siblings.HasKey(epic.userStories, StoryId, EpicCard.DraggedId(plain, typed))
    ensures HandleDrop(target, plain, typed, true).Some?
            <==> EpicCard.DraggedId(plain, typed) != "" && EpicCard.DraggedId(plain, typed) != target.id
    ensures HandleDrop(target, plain, typed, true).Some? ==>
      var (draggedId, targetId) := HandleDrop(target, plain, typed, true).value;
      Siblings.Reorder(epic.userStories, StoryId, draggedId, targetId).None?
  {
  }

  /**
    * `handleAcceptanceCriteriaReorder`: None when either id is not one of this
    * story's criteria (no update is issued); otherwise the story with the
    * dragged criterion moved to the target's index and nothing else changed.
    */
  method HandleAcceptanceCriteriaReorder(story: UserStory, draggedCriteriaId: string, targetCriteriaId: string)
    returns (update: Option<UserStory>)
    ensures update.None? <==>
      || !Siblings.HasKey(story.acceptanceCriteria, CriteriaId, draggedCriteriaId)
      || !Siblings.HasKey(story.acceptanceCriteria, CriteriaId, targetCriteriaId)
    ensures update.Some? ==>
      update.value.id == story.id && update.value.user == story.user &&
      update.value.action == story.action && update.value.result == story.result
    ensures update.Some? ==>
      Some(update.value.acceptanceCriteria) ==
        Siblings.Reorder(story.acceptanceCriteria, CriteriaId, draggedCriteriaId, targetCriteriaId)
  {
    var criteria := Siblings.ReorderCopy(story.acceptanceCriteria, CriteriaId, draggedCriteriaId, targetCriteriaId);
    if criteria.Some? {
      update := Some(story.(acceptanceCriteria := criteria.value));
    } else {
      update := None;
    }
  }
}
