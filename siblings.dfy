/**
  * Edits of an ordered list of sibling entities keyed by id, shared by the
  * cards that own such a list (a theme's epics, an epic's user stories, a user
  * story's acceptance criteria): append, replace-by-id (`map`), remove-by-id
  * (`filter`) and the drag-and-drop reorder (`findIndex` + two `splice`s).
  * `key` is the entity's `id` accessor.
  */
module Siblings {
  import opened Wrappers

  predicate HasKey<T>(s: seq<T>, key: T -> string, id: string) {
    exists j :: 0 <= j < |s| && key(s[j]) == id
  }

  /** `findIndex(x => x.id === id)`: the first position holding `id`, None for -1. */
  function FindIndex<T>(s: seq<T>, key: T -> string, id: string): (r: Option<nat>)
    ensures r.Some? ==> r.value < |s| && key(s[r.value]) == id
    ensures r.Some? ==> forall j :: 0 <= j < r.value ==> key(s[j]) != id
    ensures r.None? <==> !HasKey(s, key, id)
  {
    if |s| == 0 then None
    else if key(s[0]) == id then Some(0)
    else
      match FindIndex(s[1..], key, id)
      case None =>
        assert forall j :: 1 <= j < |s| ==> key(s[j]) == key(s[1..][j - 1]);
        None
      case Some(i) => Some(i + 1)
  }

  /** `splice(i, 1)`: the list without position `i`. */
  function RemoveAt<T>(s: seq<T>, i: nat): (r: seq<T>)
    requires i < |s|
    ensures |r| == |s| - 1
    ensures forall k :: 0 <= k < i ==> r[k] == s[k]
    ensures forall k :: i <= k < |r| ==> r[k] == s[k + 1]
  {
    s[..i] + s[i + 1..]
  }

  /** `splice(i, 0, x)`: `x` inserted before position `i`. */
  function InsertAt<T>(s: seq<T>, i: nat, x: T): (r: seq<T>)
    requires i <= |s|
    ensures |r| == |s| + 1
    ensures r[i] == x
    ensures forall k :: 0 <= k < i ==> r[k] == s[k]
    ensures forall k :: i < k < |r| ==> r[k] == s[k - 1]
  {
    s[..i] + [x] + s[i..]
  }

  /**
    * The element at `from` taken out and put back at `to`, where `to` is an index
    * of the original list, used against the shortened one. The element lands at
    * `to`; everything strictly between the two positions shifts by one towards
    * `from`; everything outside that range stays where it was.
    */
  function Move<T>(s: seq<T>, from: nat, to: nat): (r: seq<T>)
    requires from < |s| && to < |s|
    ensures |r| == |s|
    ensures r[to] == s[from]
    ensures forall j :: 0 <= j < |s| && j < from && j < to ==> r[j] == s[j]
    ensures forall j :: 0 <= j < |s| && j > from && j > to ==> r[j] == s[j]
    ensures forall j :: from <= j < to ==> r[j] == s[j + 1]
    ensures forall j :: to < j <= from ==> r[j] == s[j - 1]
  {
    var shortened := RemoveAt(s, from);
    assert forall j :: 0 <= j < from ==> shortened[j] == s[j];
    assert forall j :: from <= j < |shortened| ==> shortened[j] == s[j + 1];
    InsertAt(shortened, to, s[from])
  }

  /** The reorder is a permutation: same length, same elements, same multiplicities. */
  lemma MovePermutes<T>(s: seq<T>, from: nat, to: nat)
    requires from < |s| && to < |s|
    ensures multiset(Move(s, from, to)) == multiset(s)
  {
    var shortened := RemoveAt(s, from);
    assert s == s[..from] + [s[from]] + s[from + 1..];
    assert multiset(s) == multiset(shortened) + multiset{s[from]};
    assert shortened == shortened[..to] + shortened[to..];
  }

  /** All the elements other than the dragged one keep their relative order. */
  lemma MoveKeepsOthersInOrder<T>(s: seq<T>, from: nat, to: nat)
    requires from < |s| && to < |s|
    ensures RemoveAt(Move(s, from, to), to) == RemoveAt(s, from)
  {
    var shortened := RemoveAt(s, from);
    assert Move(s, from, to) == shortened[..to] + [s[from]] + shortened[to..];
    assert RemoveAt(Move(s, from, to), to) == shortened[..to] + shortened[to..];
  }

  /** Dropping an element onto its own position changes nothing. */
  lemma MoveOntoItself<T>(s: seq<T>, i: nat)
    requires i < |s|
    ensures Move(s, i, i) == s
  {
  }

  /** Moving back from `to` to `from` undoes a move. */
  lemma MoveUndo<T>(s: seq<T>, from: nat, to: nat)
    requires from < |s| && to < |s|
    ensures Move(Move(s, from, to), to, from) == s
  {
  }

  /**
    * `handleUserStoryReorder` / `handleAcceptanceCriteriaReorder` without the
    * final `onUpdate`: None when either id is missing (nothing is updated),
    * otherwise the list with the dragged element moved to the target's index.
    */
  function Reorder<T>(s: seq<T>, key: T -> string, draggedId: string, targetId: string): (r: Option<seq<T>>)
    ensures r.None? <==> !HasKey(s, key, draggedId) || !HasKey(s, key, targetId)
    ensures r.Some? ==> |r.value| == |s| && multiset(r.value) == multiset(s)
    ensures r.Some? ==> r.value[FindIndex(s, key, targetId).value] == s[FindIndex(s, key, draggedId).value]
    ensures r.Some? ==> r.value == Move(s, FindIndex(s, key, draggedId).value, FindIndex(s, key, targetId).value)
  {
    var d, t := FindIndex(s, key, draggedId), FindIndex(s, key, targetId);
    if d.Some? && t.Some? then
      MovePermutes(s, d.value, t.value);
      Some(Move(s, d.value, t.value))
    else None
  }

  /** Reordering an element onto itself leaves the list as it was. */
  lemma ReorderOntoItself<T>(s: seq<T>, key: T -> string, id: string)
    requires HasKey(s, key, id)
    ensures Reorder(s, key, id, id) == Some(s)
  {
    MoveOntoItself(s, FindIndex(s, key, id).value);
  }

  /**
    * The two `splice` calls on the copied array, done in place: the elements
    * between `from` and `to` shift by one and the dragged one is written at `to`.
    */
  method MoveInPlace<T>(a: array<T>, from: nat, to: nat)
    requires from < a.Length && to < a.Length
    modifies a
    ensures a[..] == Move(old(a[..]), from, to)
  {
    var dragged := a[from];
    if from < to {
      var k := from;
      while k < to
        invariant from <= k <= to
        invariant forall j :: 0 <= j < from ==> a[j] == old(a[j])
        invariant forall j :: from <= j < k ==> a[j] == old(a[j + 1])
        invariant forall j :: k <= j < a.Length ==> a[j] == old(a[j])
      {
        a[k] := a[k + 1];
        k := k + 1;
      }
    } else {
      var k := from;
      while k > to
        invariant to <= k <= from
        invariant forall j :: 0 <= j <= k ==> a[j] == old(a[j])
        invariant forall j :: k < j <= from ==> a[j] == old(a[j - 1])
        invariant forall j :: from < j < a.Length ==> a[j] == old(a[j])
      {
        a[k] := a[k - 1];
        k := k - 1;
      }
    }
    a[to] := dragged;
    ghost var moved := Move(old(a[..]), from, to);
    assert forall j :: 0 <= j < a.Length ==> a[j] == moved[j];
  }

  /** `[...list]`, two `findIndex` calls and the in-place move on the copy. */
  method ReorderCopy<T>(s: seq<T>, key: T -> string, draggedId: string, targetId: string)
    returns (r: Option<seq<T>>)
    ensures r == Reorder(s, key, draggedId, targetId)
  {
    var draggedIndex := FindIndex(s, key, draggedId);
    var targetIndex := FindIndex(s, key, targetId);
    if draggedIndex.Some? && targetIndex.Some? {
      var copy := new T[|s|](i requires 0 <= i < |s| => s[i]);
      assert copy[..] == s;
      MoveInPlace(copy, draggedIndex.value, targetIndex.value);
      r := Some(copy[..]);
    } else {
      r := None;
    }
  }

  /** `[...list, x]`: one element added at the end, the others untouched. */
  function Append<T>(s: seq<T>, x: T): (r: seq<T>)
    ensures |r| == |s| + 1 && r[..|s|] == s && r[|s|] == x
  {
    s + [x]
  }

  /** `list.map(e => e.id === id ? x : e)`. */
  function ReplaceById<T>(s: seq<T>, key: T -> string, id: string, x: T): (r: seq<T>)
    ensures |r| == |s|
    ensures forall j :: 0 <= j < |s| && key(s[j]) == id ==> r[j] == x
    ensures forall j :: 0 <= j < |s| && key(s[j]) != id ==> r[j] == s[j]
  {
    if s == [] then []
    else [if key(s[0]) == id then x else s[0]] + ReplaceById(s[1..], key, id, x)
  }

  /** `list.filter(e => e.id !== id)`. */
  function RemoveById<T>(s: seq<T>, key: T -> string, id: string): (r: seq<T>)
    ensures |r| <= |s|
    ensures !HasKey(r, key, id)
  {
    if s == [] then []
    else
      var rest := RemoveById(s[1..], key, id);
      if key(s[0]) == id then rest
      else
        assert !HasKey([s[0]] + rest, key, id) by {
          forall j | 0 <= j < |rest| + 1 ensures key(([s[0]] + rest)[j]) != id {
            if j > 0 { assert ([s[0]] + rest)[j] == rest[j - 1]; }
          }
        }
        [s[0]] + rest
  }

  /** The filter drops every copy of each element with that id and keeps every copy of the others. */
  lemma {:induction false} RemoveByIdCounts<T>(s: seq<T>, key: T -> string, id: string)
    ensures forall x :: multiset(RemoveById(s, key, id))[x] == if key(x) == id then 0 else multiset(s)[x]
  {
    if s != [] {
      var rest := RemoveById(s[1..], key, id);
      RemoveByIdCounts(s[1..], key, id);
      assert s == [s[0]] + s[1..];
      assert multiset(s) == multiset{s[0]} + multiset(s[1..]);
      if key(s[0]) != id {
        assert multiset([s[0]] + rest) == multiset{s[0]} + multiset(rest);
      }
    }
  }

  /** The filter works element by element, so it keeps the survivors in their order. */
  lemma {:induction false} RemoveByIdDistributes<T>(a: seq<T>, b: seq<T>, key: T -> string, id: string)
    ensures RemoveById(a + b, key, id) == RemoveById(a, key, id) + RemoveById(b, key, id)
  {
    if a == [] {
      assert a + b == b;
    } else {
      assert (a + b)[0] == a[0] && (a + b)[1..] == a[1..] + b;
      RemoveByIdDistributes(a[1..], b, key, id);
      var ra, rb := RemoveById(a[1..], key, id), RemoveById(b, key, id);
      if key(a[0]) != id {
        assert RemoveById(a + b, key, id) == [a[0]] + (ra + rb);
        assert [a[0]] + (ra + rb) == ([a[0]] + ra) + rb;
      }
    }
  }

  /** Deleting a freshly appended element by its (fresh) id gives back the original list. */
  lemma {:induction false} AppendThenRemove<T>(s: seq<T>, key: T -> string, x: T)
    requires !HasKey(s, key, key(x))
    ensures RemoveById(Append(s, x), key, key(x)) == s
  {
    RemoveByIdDistributes(s, [x], key, key(x));
    RemoveAbsent(s, key, key(x));
  }

  /** Deleting an id that is not there changes nothing. */
  lemma {:induction false} RemoveAbsent<T>(s: seq<T>, key: T -> string, id: string)
    requires !HasKey(s, key, id)
    ensures RemoveById(s, key, id) == s
  {
    if s != [] {
      assert key(s[0]) != id;
      assert !HasKey(s[1..], key, id) by {
        forall j | 0 <= j < |s| - 1 ensures key(s[1..][j]) != id {
          assert s[1..][j] == s[j + 1];
        }
      }
      RemoveAbsent(s[1..], key, id);
    }
  }

  /** Replacing an element and then deleting its id is the same as deleting it. */
  lemma {:induction false} ReplaceThenRemove<T>(s: seq<T>, key: T -> string, id: string, x: T)
    requires key(x) == id
    ensures RemoveById(ReplaceById(s, key, id, x), key, id) == RemoveById(s, key, id)
  {
    if s != [] {
      ReplaceThenRemove(s[1..], key, id, x);
    }
  }
}
