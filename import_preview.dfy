/**
  * The editable preview of imported rows: a list of rows, at most one of them
  * open for editing with a draft copy, and the edit, save, cancel and delete
  * handlers that change them.
  *
  * The table's state is given twice: as the value `Preview` with one function
  * per handler (the specification, about which the lemmas speak), and as the
  * class `PreviewTable` whose methods update its fields in place and are proved
  * to follow those functions.
  */
module ImportPreview {
  import opened Wrappers
  import opened StoryMap
  import BulkImportDialog

  /** The rows shown (`data`), the index of the row being edited and its draft. */
  datatype Preview = Preview(data: seq<ImportData>, editingIndex: Option<nat>, editData: Option<ImportData>)

  /**
    * The handlers set the index and the draft together and clear them together,
    * and only a row that is shown can be open for editing.
    */
  ghost predicate Valid(s: Preview) {
    && (s.editingIndex.Some? <==> s.editData.Some?)
    && (s.editingIndex.Some? ==> s.editingIndex.value < |s.data|)
  }

  predicate Editing(s: Preview) {
    s.editingIndex.Some? && s.editData.Some?
  }

  /** The state before any row is opened. */
  function Initial(rows: seq<ImportData>): Preview {
    Preview(rows, None, None)
  }

  /** The row list without the entry at `index`; any other index keeps every row. */
  function RemoveAt(data: seq<ImportData>, index: int): (r: seq<ImportData>)
    ensures |r| == if 0 <= index < |data| then |data| - 1 else |data|
    ensures forall k :: 0 <= k < |r| ==> r[k] == data[if 0 <= index <= k then k + 1 else k]
  {
    if 0 <= index < |data| then data[..index] + data[index + 1..] else data
  }

  /** Opens row `index` for editing with a copy of it as the draft. */
  function EditRow(s: Preview, index: nat): (r: Preview)
    requires index < |s.data|
    ensures Valid(r) && Editing(r)
    ensures r.data == s.data && r.editingIndex == Some(index) && r.editData == Some(s.data[index])
  {
    Preview(s.data, Some(index), Some(s.data[index]))
  }

  /** The fields of the draft that the editing row's inputs change. */
  datatype Field = EpicField | UserStoryField | ActionField | ResultField | CriteriaField

  function WithField(d: ImportData, f: Field, value: string): ImportData {
    match f
    case EpicField => d.(epic := value)
    case UserStoryField => d.(userStory := value)
    case ActionField => d.(action := value)
    case ResultField => d.(result := value)
    case CriteriaField => d.(acceptanceCriteria := Some(value))
  }

  /** Typing into one input of the editing row; with no draft there is nothing to change. */
  function TypeInto(s: Preview, f: Field, value: string): (r: Preview)
    ensures r.data == s.data && r.editingIndex == s.editingIndex
    ensures r.editData.Some? <==> s.editData.Some?
    ensures Valid(s) ==> Valid(r)
  {
    if s.editData.Some? then s.(editData := Some(WithField(s.editData.value, f, value))) else s
  }

  /** Writes the draft over the row being edited and closes the editor; idle, it does nothing. */
  function SaveEdit(s: Preview): (r: Preview)
    requires Valid(s)
    ensures Valid(r) && !Editing(r) && |r.data| == |s.data|
  {
    if Editing(s) then Preview(s.data[s.editingIndex.value := s.editData.value], None, None) else s
  }

  /** Closes the editor and drops the draft. */
  function CancelEdit(s: Preview): (r: Preview)
    ensures Valid(r) && !Editing(r) && r.data == s.data
  {
    Preview(s.data, None, None)
  }

  /** Delete as the handler is written: the rows lose entry `index`, the editor state is kept as it was. */
  function DeleteAsWritten(s: Preview, index: int): (r: Preview)
    ensures r.editingIndex == s.editingIndex && r.editData == s.editData
    ensures r.data == RemoveAt(s.data, index)
    ensures |r.data| == if 0 <= index < |s.data| then |s.data| - 1 else |s.data|
  {
    s.(data := RemoveAt(s.data, index))
  }

  /**
    * Delete with the editor kept on the row it was opened for: a row removed
    * above it moves the index up by one, and removing that row itself closes
    * the editor.
    */
  function DeleteRow(s: Preview, index: int): Preview {
    var data := RemoveAt(s.data, index);
    match s.editingIndex
    case None => s.(data := data)
    case Some(e) =>
      if 0 <= index < e then Preview(data, Some(e - 1), s.editData)
      else if index == e then Preview(data, None, None)
      else s.(data := data)
  }

  /** The story cell of a row that is not being edited: a sentence the import dialog parses back into the three fields. */
  function FormatUserStory(userStory: string, action: string, result: string): (r: string)
    ensures BulkImportDialog.ParsableFields(userStory, action, result) ==>
      BulkImportDialog.ParseUserStory(r) == BulkImportDialog.ParsedStory(userStory, action, result)
  {
    var r := StorySentence(userStory, action, result);
    assert BulkImportDialog.ParsableFields(userStory, action, result) ==>
      BulkImportDialog.ParseUserStory(r) == BulkImportDialog.ParsedStory(userStory, action, result) by {
      if BulkImportDialog.ParsableFields(userStory, action, result) {
        BulkImportDialog.ParseStorySentence(userStory, action, result);
      }
    }
    r
  }

  // ----- What each handler does to the rows and the editor -----

  /** Opening a row copies it into the draft and changes no row. */
  lemma EditOpensCopy(s: Preview, index: nat)
    requires Valid(s) && index < |s.data|
    ensures Valid(EditRow(s, index)) && Editing(EditRow(s, index))
    ensures EditRow(s, index).data == s.data
    ensures EditRow(s, index).editData == Some(s.data[index])
  {
  }

  /**
    * Saving replaces exactly the row being edited with the draft, keeps the
    * length and every other row, and closes the editor.
    */
  lemma SaveReplacesEditedRow(s: Preview)
    requires Valid(s) && Editing(s)
    ensures Valid(SaveEdit(s)) && !Editing(SaveEdit(s))
    ensures |SaveEdit(s).data| == |s.data|
    ensures SaveEdit(s).data[s.editingIndex.value] == s.editData.value
    ensures forall k :: 0 <= k < |s.data| && k != s.editingIndex.value ==> SaveEdit(s).data[k] == s.data[k]
  {
  }

  /** Saving with no row open changes nothing. */
  lemma SaveIdle(s: Preview)
    requires Valid(s) && !Editing(s)
    ensures SaveEdit(s) == s
  {
  }

  /** Saving a draft nobody typed into leaves the rows as they were. */
  lemma SaveUntouchedDraft(s: Preview, index: nat)
    requires Valid(s) && index < |s.data|
    ensures SaveEdit(EditRow(s, index)) == Initial(s.data)
  {
  }

  /** Cancel after opening a row gives back the idle state it started from. */
  lemma EditThenCancel(s: Preview, index: nat)
    requires Valid(s) && !Editing(s) && index < |s.data|
    ensures CancelEdit(EditRow(s, index)) == s
  {
  }

  /** Typing changes only the named field of the draft, never the rows or the index. */
  lemma TypeIntoDraft(s: Preview, f: Field, value: string)
    requires Valid(s) && Editing(s)
    ensures Valid(TypeInto(s, f, value)) && Editing(TypeInto(s, f, value))
    ensures TypeInto(s, f, value).data == s.data
    ensures TypeInto(s, f, value).editingIndex == s.editingIndex
    ensures var d, d' := s.editData.value, TypeInto(s, f, value).editData.value;
      && (d'.epic == if f == EpicField then value else d.epic)
      && (d'.userStory == if f == UserStoryField then value else d.userStory)
      && (d'.action == if f == ActionField then value else d.action)
      && (d'.result == if f == ResultField then value else d.result)
      && (d'.acceptanceCriteria == if f == CriteriaField then Some(value) else d.acceptanceCriteria)
  {
  }

  /** Removing an entry is a multiset removal of that row. */
  lemma {:induction false} RemoveAtCounts(data: seq<ImportData>, index: int)
    ensures 0 <= index < |data| ==> multiset(RemoveAt(data, index)) + multiset{data[index]} == multiset(data)
    ensures !(0 <= index < |data|) ==> RemoveAt(data, index) == data
  {
    if 0 <= index < |data| {
      assert data == data[..index] + [data[index]] + data[index + 1..];
    }
  }

  /** Entries kept by a removal appear in the same order, each one position earlier past `index`. */
  lemma RemoveAtKeepsOrder(data: seq<ImportData>, index: nat, k: nat)
    requires index < |data| && k < |data| && k != index
    ensures var k' := if k < index then k else k - 1;
      k' < |RemoveAt(data, index)| && RemoveAt(data, index)[k'] == data[k]
  {
  }

  // ----- Delete while a row is open -----

  /** The corrected delete keeps the editor valid: an open row is still a shown row. */
  lemma DeleteRowValid(s: Preview, index: int)
    requires Valid(s)
    ensures Valid(DeleteRow(s, index))
  {
  }

  /**
    * The corrected delete leaves the editor on the row it was opened for: the
    * shown row at the new index is the row that was being edited.
    */
  lemma DeleteRowKeepsTarget(s: Preview, index: int)
    requires Valid(s) && Editing(s) && index != s.editingIndex.value
    ensures Editing(DeleteRow(s, index)) && DeleteRow(s, index).editData == s.editData
    ensures DeleteRow(s, index).data[DeleteRow(s, index).editingIndex.value] == s.data[s.editingIndex.value]
  {
  }

  /**
    * With the corrected delete, deleting another row while a draft is open and
    * then saving gives the same rows as saving first and deleting afterwards:
    * the draft lands on the row that was opened.
    */
  lemma {:induction false} SaveAfterDeleteRow(s: Preview, index: int)
    requires Valid(s) && Editing(s) && index != s.editingIndex.value
    ensures SaveEdit(DeleteRow(s, index)) == DeleteRow(SaveEdit(s), index)
  {
    DeleteRowValid(s, index);
    var e, d := s.editingIndex.value, s.editData.value;
    var a, b := SaveEdit(DeleteRow(s, index)).data, DeleteRow(SaveEdit(s), index).data;
    assert |a| == |b|;
    forall k | 0 <= k < |a| ensures a[k] == b[k] {
      if 0 <= index < e {
        assert a[k] == if k == e - 1 then d else RemoveAt(s.data, index)[k];
      }
    }
  }

  /** Four distinct rows for the example below. */
  const RowA := ImportData("E", "a", "x", "y", None)
  const RowB := ImportData("E", "b", "x", "y", None)
  const RowC := ImportData("E", "c", "x", "y", None)
  const RowD := ImportData("E", "d", "x", "y", None)

  /**
    * As written, the delete keeps the old index: with rows A, B, C, D, opening
    * C, changing its action to "z", deleting A and saving gives B, C, C' — the
    * edit lands on D, which is lost, and C keeps its old text. The corrected
    * delete gives B, C', D.
    */
  lemma StaleIndexAfterDelete()
    ensures var open := TypeInto(EditRow(Initial([RowA, RowB, RowC, RowD]), 2), ActionField, "z");
      && SaveEdit(DeleteAsWritten(open, 0)).data == [RowB, RowC, RowC.(action := "z")]
      && SaveEdit(DeleteRow(open, 0)).data == [RowB, RowC.(action := "z"), RowD]
  {
    var open := TypeInto(EditRow(Initial([RowA, RowB, RowC, RowD]), 2), ActionField, "z");
    assert RemoveAt(open.data, 0) == [RowB, RowC, RowD];
  }

  /** As written, deleting a row above the last row while the last row is open leaves an index past the end. */
  lemma StaleIndexPastEnd()
    ensures var open := EditRow(Initial([RowA, RowB]), 1);
      Valid(open) && !Valid(DeleteAsWritten(open, 0))
  {
    var open := EditRow(Initial([RowA, RowB]), 1);
    assert |RemoveAt(open.data, 0)| == 1;
  }

  // ----- The component, with its state updated in place -----

  /**
    * The table component: `data` is the row list it is given (replaced through
    * its change callback), `editingIndex` and `editData` its own state.
    */
  class PreviewTable {
    var data: seq<ImportData>
    var editingIndex: Option<nat>
    var editData: Option<ImportData>

    function State(): Preview
      reads this
    {
      Preview(data, editingIndex, editData)
    }

    constructor (rows: seq<ImportData>)
      ensures State() == Initial(rows) && Valid(State())
    {
      data := rows;
      editingIndex := None;
      editData := None;
    }

    method Edit(index: nat)
      requires Valid(State()) && index < |data|
      modifies this
      ensures State() == EditRow(old(State()), index) && Valid(State())
    {
      editingIndex := Some(index);
      editData := Some(data[index]);
    }

    method Type(f: Field, value: string)
      requires Valid(State())
      modifies this
      ensures State() == TypeInto(old(State()), f, value) && Valid(State())
    {
      if editData.Some? {
        editData := Some(WithField(editData.value, f, value));
      }
    }

    method Save()
      requires Valid(State())
      modifies this
      ensures State() == SaveEdit(old(State())) && Valid(State())
    {
      if editingIndex.Some? && editData.Some? {
        data := data[editingIndex.value := editData.value];
        editingIndex := None;
        editData := None;
      }
    }

    method Cancel()
      requires Valid(State())
      modifies this
      ensures State() == CancelEdit(old(State())) && Valid(State())
    {
      editingIndex := None;
      editData := None;
    }

    method Delete(index: int)
      requires Valid(State())
      modifies this
      ensures State() == DeleteRow(old(State()), index) && Valid(State())
    {
      DeleteRowValid(State(), index);
      data := RemoveAt(data, index);
      if editingIndex.Some? {
        var e := editingIndex.value;
        if 0 <= index < e {
          editingIndex := Some(e - 1);
        } else if index == e {
          editingIndex := None;
          editData := None;
        }
      }
    }
  }
}
