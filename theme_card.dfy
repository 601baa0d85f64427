/** A theme card's edits of its epics and of its own fields, and its story counter. */
module ThemeCard {
  import opened StoryMap
  import Siblings

  /** `addEpic`: an epic with id `newId` (the source's `Date.now()`), the title and no stories goes last. */
  function AddEpic(theme: Theme, newId: string, title: string): (r: Theme)
    ensures r == theme.(epics := r.epics)
    ensures |r.epics| == |theme.epics| + 1
    ensures r.epics[..|theme.epics|] == theme.epics
    ensures r.epics[|theme.epics|] == Epic(newId, title, [])
  {
    theme.(epics := Siblings.Append(theme.epics, Epic(newId, title, [])))
  }

  /** `updateEpic`: epics whose id matches are replaced; length and order are kept. */
  function UpdateEpic(theme: Theme, updated: Epic): (r: Theme)
    ensures r == theme.(epics := r.epics)
    ensures |r.epics| == |theme.epics|
    ensures forall j :: 0 <= j < |theme.epics| ==>
      r.epics[j] == if theme.epics[j].id == updated.id then updated else theme.epics[j]
  {
    theme.(epics := Siblings.ReplaceById(theme.epics, EpicId, updated.id, updated))
  }

  /** `deleteEpic`: exactly the epics with that id disappear. */
  function DeleteEpic(theme: Theme, epicId: string): (r: Theme)
    ensures r == theme.(epics := r.epics)
    ensures forall j :: 0 <= j < |r.epics| ==> r.epics[j].id != epicId
    ensures forall e :: multiset(r.epics)[e] == if e.id == epicId then 0 else multiset(theme.epics)[e]
  {
    Siblings.RemoveByIdCounts(theme.epics, EpicId, epicId);
    theme.(epics := Siblings.RemoveById(theme.epics, EpicId, epicId))
  }

  /** `updateTheme`: title and description change; id, epics and dates do not. */
  function UpdateTheme(theme: Theme, title: string, description: string): (r: Theme)
    ensures r.id == theme.id && r.epics == theme.epics
    ensures r.createdAt == theme.createdAt && r.dueDate == theme.dueDate
    ensures r.title == title && r.description == description
  {
    theme.(title := title, description := description)
  }

  /** `epics.reduce((total, epic) => total + epic.userStories.length, 0)`. */
  function StoryCount(epics: seq<Epic>): (n: nat)
    ensures forall i :: 0 <= i < |epics| ==> |epics[i].userStories| <= n
    ensures n == 0 <==> forall i :: 0 <= i < |epics| ==> epics[i].userStories == []
  {
    if epics == [] then 0 else StoryCount(epics[..|epics| - 1]) + |epics[|epics| - 1].userStories|
  }

  /** The theme card's story total: every epic's stories are counted, and it is 0 exactly when no epic has any. */
  function TotalUserStories(theme: Theme): (n: nat)
    ensures forall i :: 0 <= i < |theme.epics| ==> |theme.epics[i].userStories| <= n
    ensures n == 0 <==> forall i :: 0 <= i < |theme.epics| ==> theme.epics[i].userStories == []
  {
    StoryCount(theme.epics)
  }

  /** The count adds up over any split of the epic list. */
  lemma {:induction false} StoryCountConcat(a: seq<Epic>, b: seq<Epic>)
    ensures StoryCount(a + b) == StoryCount(a) + StoryCount(b)
  {
    if b == [] {
      assert a + b == a;
    } else {
      assert (a + b)[..|a + b| - 1] == a + b[..|b| - 1];
      StoryCountConcat(a, b[..|b| - 1]);
    }
  }

  /** The count is the sum of `userStories.length` over the epics, first to last. */
  lemma {:induction false} StoryCountFirst(epics: seq<Epic>)
    requires epics != []
    ensures StoryCount(epics) == |epics[0].userStories| + StoryCount(epics[1..])
  {
    assert epics == [epics[0]] + epics[1..];
    StoryCountConcat([epics[0]], epics[1..]);
    assert [epics[0]][..0] == [];
  }

  /** A new epic has no stories, so adding it leaves the total unchanged. */
  lemma AddEpicKeepsTotal(theme: Theme, newId: string, title: string)
    ensures TotalUserStories(AddEpic(theme, newId, title)) == TotalUserStories(theme)
  {
    assert AddEpic(theme, newId, title).epics[..|theme.epics|] == theme.epics;
  }

  /** Deleting epics can only lower the total; deleting an absent id keeps it. */
  lemma {:induction false} DeleteEpicTotal(theme: Theme, epicId: string)
    ensures TotalUserStories(DeleteEpic(theme, epicId)) <= TotalUserStories(theme)
    ensures !Siblings.HasKey(theme.epics, EpicId, epicId) ==>
      TotalUserStories(DeleteEpic(theme, epicId)) == TotalUserStories(theme)
  {
    RemovedCount(theme.epics, epicId);
    if !Siblings.HasKey(theme.epics, EpicId, epicId) {
      Siblings.RemoveAbsent(theme.epics, EpicId, epicId);
    }
  }

  lemma {:induction false} RemovedCount(epics: seq<Epic>, epicId: string)
    ensures StoryCount(Siblings.RemoveById(epics, EpicId, epicId)) <= StoryCount(epics)
  {
    if epics != [] {
      RemovedCount(epics[1..], epicId);
      StoryCountFirst(epics);
      var rest := Siblings.RemoveById(epics[1..], EpicId, epicId);
      if epics[0].id != epicId {
        assert Siblings.RemoveById(epics, EpicId, epicId) == [epics[0]] + rest;
        StoryCountConcat([epics[0]], rest);
        assert [epics[0]][..0] == [];
      }
    }
  }
}
