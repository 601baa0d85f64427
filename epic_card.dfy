/**
  * The list edits an epic card makes on its own user stories when no
  * database callback is supplied, its title edit, its drop guard and the
  * drag-and-drop reorder of its stories.
  */
module EpicCard {
  import opened Wrappers
  import opened StoryMap
  import Siblings

  /**
    * Fallback branch of `addUserStory`: a story with id `newId` (the source's
    * `Date.now()`), the given fields and no criteria goes last.
    */
  function AddUserStory(epic: Epic, newId: string, user: string, action: string, result: string): (r: Epic)
    ensures r.id == epic.id && r.title == epic.title
    ensures |r.userStories| == |epic.userStories| + 1
    ensures r.userStories[..|epic.userStories|] == epic.userStories
    ensures r.userStories[|epic.userStories|] == UserStory(newId, user, action, result, [])
  {
    epic.(userStories := Siblings.Append(epic.userStories, UserStory(newId, user, action, result, [])))
  }

  /** Fallback branch of `updateUserStory`: stories whose id matches are replaced, the rest stay. */
  function UpdateUserStory(epic: Epic, updated: UserStory): (r: Epic)
    ensures r.id == epic.id && r.title == epic.title
    ensures |r.userStories| == |epic.userStories|
    ensures forall j :: 0 <= j < |epic.userStories| ==>
      r.userStories[j] == if epic.userStories[j].id == updated.id then updated else epic.userStories[j]
  {
    epic.(userStories := Siblings.ReplaceById(epic.userStories, StoryId, updated.id, updated))
  }

  /** Fallback branch of `deleteUserStory`: exactly the stories with that id disappear. */
  function DeleteUserStory(epic: Epic, storyId: string): (r: Epic)
    ensures r.id == epic.id && r.title == epic.title
    ensures forall j :: 0 <= j < |r.userStories| ==> r.userStories[j].id != storyId
    ensures forall s :: multiset(r.userStories)[s] == if s.id == storyId then 0 else multiset(epic.userStories)[s]
  {
    Siblings.RemoveByIdCounts(epic.userStories, StoryId, storyId);
    epic.(userStories := Siblings.RemoveById(epic.userStories, StoryId, storyId))
  }

  /** `updateEpic`: the title changes, the id and the stories do not. */
  function UpdateEpic(epic: Epic, title: string): (r: Epic)
    ensures r.id == epic.id && r.userStories == epic.userStories && r.title == title
  {
    epic.(title := title)
  }

  /** Adding a story with a fresh id and deleting that id restores the epic. */
  lemma AddThenDeleteUserStory(epic: Epic, newId: string, user: string, action: string, result: string)
    requires forall j :: 0 <= j < |epic.userStories| ==> epic.userStories[j].id != newId
    ensures DeleteUserStory(AddUserStory(epic, newId, user, action, result), newId) == epic
  {
    Siblings.AppendThenRemove(epic.userStories, StoryId, UserStory(newId, user, action, result, []));
  }

  /** Deleting a story after editing it is the same as deleting it straight away. */
  lemma UpdateThenDeleteUserStory(epic: Epic, updated: UserStory)
    ensures DeleteUserStory(UpdateUserStory(epic, updated), updated.id) == DeleteUserStory(epic, updated.id)
  {
    Siblings.ReplaceThenRemove(epic.userStories, StoryId, updated.id, updated);
  }

  /** `getData('text/plain') || getData('application/x-...-id')`: the first non-empty payload. */
  function DraggedId(plain: string, typed: string): (r: string)
    ensures r == "" <==> plain == "" && typed == ""
    ensures plain != "" ==> r == plain
    ensures plain == "" ==> r == typed
  {
    if plain != "" then plain else typed
  }

  /**
    * `handleDrop`: the `onReorder(draggedId, epic.id)` call it makes, or None.
    * It calls only for a non-empty payload that is not the epic itself, and
    * only when the parent supplied `onReorder`.
    */
  function HandleDrop(epic: Epic, plain: string, typed: string, hasOnReorder: bool): (r: Option<(string, string)>)
    ensures r.Some? <==> DraggedId(plain, typed) != "" && DraggedId(plain, typed) != epic.id && hasOnReorder
    ensures r.Some? ==> r.value == (DraggedId(plain, typed), epic.id) && r.value.0 != r.value.1
  {
    var draggedId := DraggedId(plain, typed);
    if draggedId != "" && draggedId != epic.id && hasOnReorder then Some((draggedId, epic.id)) else None
  }

  /**
    * `handleUserStoryReorder`: None when either id is not one of this epic's
    * stories (so `onUpdate` is not called); otherwise the epic with the dragged
    * story moved to the target's index and nothing else changed.
    */
  method HandleUserStoryReorder(epic: Epic, draggedStoryId: string, targetStoryId: string)
    returns (update: Option<Epic>)
    ensures update.None? <==>
      !Siblings.HasKey(epic.userStories, StoryId, draggedStoryId) || !Siblings.HasKey(epic.userStories, StoryId, targetStoryId)
    ensures update.Some? ==> update.value.id == epic.id && update.value.title == epic.title
    ensures update.Some? ==>
      Some(update.value.userStories) == Siblings.Reorder(epic.userStories, StoryId, draggedStoryId, targetStoryId)
  {
    var stories := Siblings.ReorderCopy(epic.userStories, StoryId, draggedStoryId, targetStoryId);
    if stories.Some? {
      update := Some(epic.(userStories := stories.value));
    } else {
      update := None;
    }
  }
}
