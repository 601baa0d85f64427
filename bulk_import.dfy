/**
  * The import loop of `useBulkImport`: for each row, find the epic by its
  * normalised title or create it, skip the row when an equal story already
  * sits under that epic, otherwise create the story and, when the row has
  * criteria text, one acceptance criterion split out of it. Two counters
  * record what happened; an error on one row is caught and the loop goes on.
  *
  * The database is an in-memory store. What an insert returns (the fresh id
  * it assigns, or an error) is given per row as `RowEffects`.
  */
module BulkImport {
  import opened Wrappers
  import opened Text
  import opened StoryMap

  /** An epic row as the import reads it: id and title. */
  datatype EpicRec = EpicRec(id: string, title: string)

  /** A story row as the import reads it for duplicate detection. */
  datatype StoryRec = StoryRec(userRole: string, action: string, result: string, epicId: string)

  /** An acceptance criterion row as the import inserts it. */
  datatype CriteriaRec = CriteriaRec(userStoryId: string, given: string, when: string, outcome: string)

  /** The epics and stories the loop knows, and the criteria it inserted. */
  datatype Store = Store(epics: seq<EpicRec>, stories: seq<StoryRec>, criteria: seq<CriteriaRec>)

  /**
    * What the database does for one row: the id a new epic or story receives,
    * and whether the epic insert, the story insert or the criteria insert fails.
    */
  datatype RowEffects = RowEffects(newEpicId: string, epicInsertFails: bool,
                                   newStoryId: string, storyInsertFails: bool,
                                   criteriaInsertFails: bool)

  /** How a row ended: a new story, a skipped duplicate, or an error caught by the loop. */
  datatype Outcome = Created | Duplicate | Failed

  /** The counters of the returned summary. */
  datatype ImportResult = ImportResult(totalRows: nat, newUserStories: nat, duplicatesSkipped: nat)

  /** Titles and story fields are compared lower-cased and trimmed. */
  predicate SameTitle(a: string, b: string) {
    Norm(a) == Norm(b)
  }

  /** Epic `i` is the first one whose title normalises like `title`. */
  predicate FirstEpicAt(epics: seq<EpicRec>, title: string, i: int) {
    && 0 <= i < |epics| && SameTitle(epics[i].title, title)
    && forall j :: 0 <= j < i ==> !SameTitle(epics[j].title, title)
  }

  /** `existingEpics.find(...)`: the first epic whose normalised title is that of `title`. */
  function FindEpic(epics: seq<EpicRec>, title: string): (r: Option<EpicRec>)
    ensures r.Some? ==> r.value in epics && SameTitle(r.value.title, title)
    ensures r.Some? ==> exists i :: FirstEpicAt(epics, title, i) && epics[i] == r.value
    ensures forall i :: FirstEpicAt(epics, title, i) ==> r == Some(epics[i])
  {
    if epics == [] then None
    else if SameTitle(epics[0].title, title) then
      assert FirstEpicAt(epics, title, 0);
      Some(epics[0])
    else
      var r := FindEpic(epics[1..], title);
      assert forall i :: FirstEpicAt(epics, title, i) ==> i > 0 && FirstEpicAt(epics[1..], title, i - 1) by {
        forall i | FirstEpicAt(epics, title, i) ensures i > 0 && FirstEpicAt(epics[1..], title, i - 1) {
          assert forall j :: 0 <= j < i - 1 ==> epics[1..][j] == epics[j + 1];
        }
      }
      assert r.Some? ==> exists i :: FirstEpicAt(epics, title, i) && epics[i] == r.value by {
        if r.Some? {
          var i :| FirstEpicAt(epics[1..], title, i) && epics[1..][i] == r.value;
          assert forall j :: 1 <= j < i + 1 ==> epics[j] == epics[1..][j - 1];
          assert FirstEpicAt(epics, title, i + 1);
        }
      }
      r
  }

  /** The search finds nothing exactly when no epic has the same normalised title. */
  lemma {:induction false} FindEpicNone(epics: seq<EpicRec>, title: string)
    ensures FindEpic(epics, title).None? <==> forall e :: e in epics ==> !SameTitle(e.title, title)
  {
    if epics != [] {
      FindEpicNone(epics[1..], title);
      assert forall e :: e in epics ==> e == epics[0] || e in epics[1..];
    }
  }

  /** Appending an epic leaves the search unchanged, unless it found nothing and the new epic matches. */
  lemma {:induction false} FindEpicAppend(epics: seq<EpicRec>, e: EpicRec, title: string)
    ensures FindEpic(epics + [e], title)
         == if FindEpic(epics, title).Some? then FindEpic(epics, title)
            else if SameTitle(e.title, title) then Some(e) else None
  {
    if epics == [] {
      assert epics + [e] == [e];
    } else {
      assert (epics + [e])[0] == epics[0] && (epics + [e])[1..] == epics[1..] + [e];
      FindEpicAppend(epics[1..], e, title);
    }
  }

  /** A known story is the row's story: same epic, and role, action and result equal once normalised. */
  predicate SameStory(us: StoryRec, epicId: string, item: ImportData) {
    && us.epicId == epicId
    && SameTitle(us.userRole, item.userStory)
    && SameTitle(us.action, item.action)
    && SameTitle(us.result, item.result)
  }

  /** `Array.prototype.some`: the elements are tried one after the other. */
  predicate Any<T>(s: seq<T>, p: T -> bool) {
    s != [] && (p(s[0]) || Any(s[1..], p))
  }

  /** An element the scan stops at. */
  lemma {:induction false} AnyWitness<T>(s: seq<T>, p: T -> bool) returns (j: nat)
    requires Any(s, p)
    ensures j < |s| && p(s[j])
  {
    if p(s[0]) {
      j := 0;
    } else {
      var k := AnyWitness(s[1..], p);
      j := k + 1;
      assert s[1..][k] == s[j];
    }
  }

  /** The scan does not miss an element that satisfies `p`. */
  lemma {:induction false} AnyFound<T>(s: seq<T>, p: T -> bool, j: nat)
    requires j < |s| && p(s[j])
    ensures Any(s, p)
  {
    if j > 0 {
      assert s[1..][j - 1] == s[j];
      AnyFound(s[1..], p, j - 1);
    }
  }

  /** `existingUserStories.some(...)` with the comparison of SameStory. */
  predicate IsDuplicate(stories: seq<StoryRec>, epicId: string, item: ImportData) {
    Any(stories, us => SameStory(us, epicId, item))
  }

  /** The scan finds a duplicate exactly when some known story is the row's story. */
  lemma IsDuplicateExactly(stories: seq<StoryRec>, epicId: string, item: ImportData)
    ensures IsDuplicate(stories, epicId, item) <==> exists j :: 0 <= j < |stories| && SameStory(stories[j], epicId, item)
  {
    var p := us => SameStory(us, epicId, item);
    if Any(stories, p) {
      var j := AnyWitness(stories, p);
      assert p(stories[j]);
    }
    if exists j :: 0 <= j < |stories| && SameStory(stories[j], epicId, item) {
      var j :| 0 <= j < |stories| && SameStory(stories[j], epicId, item);
      assert p(stories[j]);
      AnyFound(stories, p, j);
    }
  }

  /** A story appended to the known ones is found by the scan. */
  lemma IsDuplicateAppend(stories: seq<StoryRec>, us: StoryRec, epicId: string, item: ImportData)
    requires SameStory(us, epicId, item)
    ensures IsDuplicate(stories + [us], epicId, item)
  {
    var p := x => SameStory(x, epicId, item);
    assert (stories + [us])[|stories|] == us;
    assert p(us);
    AnyFound(stories + [us], p, |stories|);
  }

  /** `item.acceptanceCriteria && item.acceptanceCriteria.trim()`: the trimmed text, if not blank. */
  function CriteriaText(text: Option<string>): (r: Option<string>)
    ensures r.Some? <==> text.Some? && !AllSpace(text.value)
    ensures r.Some? ==> r.value == Trim(text.value) && r.value != ""
  {
    if text.Some? && Trim(text.value) != "" then Some(Trim(text.value)) else None
  }

  // ---------------------------------------------------------------------------
  // The criteria splitter
  // ---------------------------------------------------------------------------

  /** `t[i..]` starts with the keyword `kw` in any letter case. */
  predicate StartsWithWord(t: string, i: nat, kw: string) {
    i + |kw| <= |t| && Lower(t[i..i + |kw|]) == kw
  }

  /** The number of white-space characters from `i` on. */
  function SpaceRun(t: string, i: nat): (n: nat)
    requires i <= |t|
    ensures i + n <= |t|
    ensures forall k :: i <= k < i + n ==> IsSpace(t[k])
    ensures i + n < |t| ==> !IsSpace(t[i + n])
    decreases |t| - i
  {
    if i < |t| && IsSpace(t[i]) then 1 + SpaceRun(t, i + 1) else 0
  }

  /**
    * A separator of `/,\s*(?=When|Then)/i` starts at `i`: a comma, then white
    * space, then "when" or "then" in any case. The greedy `\s*` stops only
    * where the look-ahead can hold, at the end of the white space.
    */
  predicate SeparatorAt(t: string, i: nat)
    requires i < |t|
  {
    var j := i + 1 + SpaceRun(t, i + 1);
    t[i] == ',' && (StartsWithWord(t, j, "when") || StartsWithWord(t, j, "then"))
  }

  /** `t.split(/,\s*(?=When|Then)/i)` from the part that starts at `start`, searching from `i`. */
  function SplitFrom(t: string, start: nat, i: nat): (parts: seq<string>)
    requires start <= i <= |t|
    ensures |parts| >= 1
    decreases |t| - i
  {
    if i == |t| then [t[start..]]
    else if SeparatorAt(t, i) then
      var next := i + 1 + SpaceRun(t, i + 1);
      [t[start..i]] + SplitFrom(t, next, next)
    else SplitFrom(t, start, i + 1)
  }

  /** `criteria.split(/,\s*(?=When|Then)/i)`: the parts of the whole text. */
  function SplitCriteria(t: string): (parts: seq<string>)
    ensures |parts| >= 1
  {
    SplitFrom(t, 0, 0)
  }

  /** The first part split from `start` on begins there. */
  lemma {:induction false} SplitFromFirst(t: string, start: nat, i: nat)
    requires start <= i <= |t|
    ensures var first := SplitFrom(t, start, i)[0];
      start + |first| <= |t| && first == t[start..start + |first|]
    decreases |t| - i
  {
    if i < |t| && !SeparatorAt(t, i) {
      SplitFromFirst(t, start, i + 1);
    }
  }

  /** `x` ends `t`. */
  predicate EndsWith(t: string, x: string) {
    |x| <= |t| && t[|t| - |x|..] == x
  }

  /** The last of the parts. */
  function Last(parts: seq<string>): string
    requires parts != []
  {
    parts[|parts| - 1]
  }

  /** The last part split from `start` on ends the text. */
  lemma {:induction false} SplitFromLast(t: string, start: nat, i: nat)
    requires start <= i <= |t|
    ensures EndsWith(t, Last(SplitFrom(t, start, i)))
    decreases |t| - i
  {
    if i < |t| {
      if SeparatorAt(t, i) {
        var next := i + 1 + SpaceRun(t, i + 1);
        SplitFromLast(t, next, next);
        assert Last(SplitFrom(t, start, i)) == Last(SplitFrom(t, next, next));
      } else {
        SplitFromLast(t, start, i + 1);
      }
    }
  }

  /** The parts of a criteria text are pieces of it: the first one starts it, the last one ends it. */
  lemma SplitCriteriaEnds(t: string)
    ensures var parts := SplitCriteria(t);
      && |parts[0]| <= |t| && parts[0] == t[..|parts[0]|]
      && |parts[|parts| - 1]| <= |t| && parts[|parts| - 1] == t[|t| - |parts[|parts| - 1]|..]
  {
    SplitFromFirst(t, 0, 0);
    SplitFromLast(t, 0, 0);
    assert EndsWith(t, Last(SplitCriteria(t)));
  }

  /** No part starts with the keyword. */
  predicate NoPart(parts: seq<string>, kw: string) {
    forall j :: 0 <= j < |parts| ==> !StartsWithWord(parts[j], 0, kw)
  }

  /** Part `i` is the first one that starts with the keyword. */
  predicate FirstPartAt(parts: seq<string>, kw: string, i: int) {
    0 <= i < |parts| && StartsWithWord(parts[i], 0, kw) && forall j :: 0 <= j < i ==> !StartsWithWord(parts[j], 0, kw)
  }

  /** `parts.find(p => p.toLowerCase().startsWith(kw))`: the first part that starts with the keyword. */
  function FindPart(parts: seq<string>, kw: string): (r: Option<string>)
    ensures r.Some? ==> r.value in parts && StartsWithWord(r.value, 0, kw)
    ensures r.None? <==> NoPart(parts, kw)
    ensures forall i :: FirstPartAt(parts, kw, i) ==> r == Some(parts[i])
  {
    if parts == [] then None
    else if StartsWithWord(parts[0], 0, kw) then
      assert FirstPartAt(parts, kw, 0);
      Some(parts[0])
    else
      var r := FindPart(parts[1..], kw);
      assert r.None? ==> NoPart(parts, kw) by {
        if r.None? {
          forall j | 1 <= j < |parts| ensures !StartsWithWord(parts[j], 0, kw) {
            assert parts[j] == parts[1..][j - 1];
          }
        }
      }
      assert forall i :: FirstPartAt(parts, kw, i) ==> i > 0 && FirstPartAt(parts[1..], kw, i - 1) by {
        forall i | FirstPartAt(parts, kw, i) ensures i > 0 && FirstPartAt(parts[1..], kw, i - 1) {
          assert forall j :: 0 <= j < i - 1 ==> parts[1..][j] == parts[j + 1];
        }
      }
      r
  }

  /** `/^kw\s+/i` matches at the start of `p`: the keyword, then at least one white space. */
  predicate Strips(p: string, kw: string) {
    StartsWithWord(p, 0, kw) && |kw| < |p| && IsSpace(p[|kw|])
  }

  /**
    * `p.replace(/^kw\s+/i, '')`: when the pattern matches, the keyword and the
    * whole white-space run after it (the `+` is greedy) are removed and the
    * rest of `p` is kept; otherwise `p` is unchanged.
    */
  function StripKeyword(p: string, kw: string): (r: string)
    ensures |r| <= |p|
    ensures !Strips(p, kw) ==> r == p
    ensures Strips(p, kw) ==> |r| < |p| - |kw| && r == p[|p| - |r|..]
    ensures Strips(p, kw) ==> forall k :: |kw| <= k < |p| - |r| ==> IsSpace(p[k])
    ensures Strips(p, kw) && r != "" ==> !IsSpace(r[0])
  {
    if Strips(p, kw) then
      p[|kw| + SpaceRun(p, |kw|)..]
    else p
  }

  /** JavaScript's `x || fallback` on strings: the empty string is falsy. */
  function OrElse(x: string, fallback: string): (r: string)
    ensures r == fallback || r == x
    ensures r != "" <==> x != "" || fallback != ""
  {
    if x == "" then fallback else x
  }

  /**
    * `parts.find(...)?.replace(...) || fallback`: the first part with the
    * keyword, stripped of it, or the fallback when no part has the keyword or
    * nothing is left after stripping.
    */
  function Field(parts: seq<string>, kw: string, fallback: string): (r: string)
    ensures fallback != "" ==> r != ""
    ensures NoPart(parts, kw) ==> r == fallback
    ensures forall i :: FirstPartAt(parts, kw, i) ==> r == OrElse(StripKeyword(parts[i], kw), fallback)
  {
    match FindPart(parts, kw)
    case Some(part) => OrElse(StripKeyword(part, kw), fallback)
    case None => fallback
  }

  /** The fallbacks of the "when" and "then" fields. */
  const DefaultWhen: string := "action is performed"
  const DefaultThen: string := "result is achieved"

  /**
    * The three fields split out of a (trimmed, non-blank) criteria text. Each
    * comes from the first part that starts with its keyword, stripped of it;
    * when no part has the keyword, or nothing is left after stripping, "given"
    * is the whole text, "when" is DefaultWhen and "then" is DefaultThen.
    */
  function ParseCriteria(criteria: string): (r: CriteriaRec)
    requires criteria != ""
    ensures r.userStoryId == ""
    ensures r.given != "" && r.when != "" && r.outcome != ""
    ensures NoPart(SplitCriteria(criteria), "given") ==> r.given == criteria
    ensures NoPart(SplitCriteria(criteria), "when") ==> r.when == DefaultWhen
    ensures NoPart(SplitCriteria(criteria), "then") ==> r.outcome == DefaultThen
    ensures forall i :: FirstPartAt(SplitCriteria(criteria), "given", i) ==>
      r.given == OrElse(StripKeyword(SplitCriteria(criteria)[i], "given"), criteria)
    ensures forall i :: FirstPartAt(SplitCriteria(criteria), "when", i) ==>
      r.when == OrElse(StripKeyword(SplitCriteria(criteria)[i], "when"), DefaultWhen)
    ensures forall i :: FirstPartAt(SplitCriteria(criteria), "then", i) ==>
      r.outcome == OrElse(StripKeyword(SplitCriteria(criteria)[i], "then"), DefaultThen)
  {
    var parts := SplitCriteria(criteria);
    CriteriaRec("", Field(parts, "given", criteria), Field(parts, "when", DefaultWhen), Field(parts, "then", DefaultThen))
  }

  /** Parts joined with ", ", as the export writes a criterion's clauses. */
  function JoinClauses(parts: seq<string>): (t: string)
    requires parts != []
    ensures |t| >= |parts[0]| && t[..|parts[0]|] == parts[0]
  {
    if |parts| == 1 then parts[0] else parts[0] + ", " + JoinClauses(parts[1..])
  }

  /** The splitter skips over text with no comma. */
  lemma {:induction false} SplitSkip(t: string, start: nat, i: nat, j: nat)
    requires start <= i <= j <= |t|
    requires forall k :: i <= k < j ==> t[k] != ','
    ensures SplitFrom(t, start, i) == SplitFrom(t, start, j)
    decreases j - i
  {
    if i < j {
      SplitSkip(t, start, i + 1, j);
    }
  }

  /** A text with no comma is one part. */
  lemma SplitNoComma(t: string)
    requires ',' !in t
    ensures SplitCriteria(t) == [t]
  {
    SplitSkip(t, 0, 0, |t|);
  }

  /** ", " then a clause keyword: a separator, and the next part starts after the space. */
  lemma SeparatorBefore(t: string, c: nat, kw: string)
    requires c + 2 <= |t| && t[c] == ',' && t[c + 1] == ' '
    requires kw == "when" || kw == "then"
    requires StartsWithWord(t, c + 2, kw)
    ensures SeparatorAt(t, c) && c + 1 + SpaceRun(t, c + 1) == c + 2
  {
    assert LowerChar(t[c + 2]) == kw[0];
    assert SpaceRun(t, c + 2) == 0;
  }

  /** Where the first part, the separator after it and the rest sit in a text that ends with `JoinClauses(parts)`. */
  lemma JoinLayout(t: string, a: nat, parts: seq<string>)
    requires |parts| > 1 && a <= |t| && t[a..] == JoinClauses(parts)
    ensures var c := a + |parts[0]|;
      && c + 2 <= |t| && t[a..c] == parts[0] && t[c] == ',' && t[c + 1] == ' '
      && t[c + 2..] == JoinClauses(parts[1..])
  {
    var c := a + |parts[0]|;
    assert t[a..] == parts[0] + ", " + JoinClauses(parts[1..]);
    assert t[a..c] == t[a..][..|parts[0]|];
    assert t[c + 2..] == t[a..][|parts[0]| + 2..];
  }

  /** A keyword at the start of the first part is seen where the joined parts start. */
  lemma FirstPartWord(t: string, a: nat, parts: seq<string>, kw: string)
    requires parts != [] && a <= |t| && t[a..] == JoinClauses(parts)
    requires StartsWithWord(parts[0], 0, kw)
    ensures StartsWithWord(t, a, kw)
  {
    assert t[a..a + |kw|] == t[a..][..|parts[0]|][..|kw|];
  }

  /**
    * Splitting parts joined with ", " gives the parts back, when no part has a
    * comma and every part after the first starts with "when" or "then".
    */
  lemma {:induction false} SplitJoinFrom(t: string, a: nat, parts: seq<string>)
    requires parts != [] && a <= |t| && t[a..] == JoinClauses(parts)
    requires forall j :: 0 <= j < |parts| ==> ',' !in parts[j]
    requires forall j :: 1 <= j < |parts| ==> StartsWithWord(parts[j], 0, "when") || StartsWithWord(parts[j], 0, "then")
    ensures SplitFrom(t, a, a) == parts
    decreases |parts|
  {
    if |parts| > 1 {
      var kw := if StartsWithWord(parts[1], 0, "when") then "when" else "then";
      var c := a + |parts[0]|;
      SplitJoinHead(t, a, parts, kw);
      assert forall j :: 0 <= j < |parts| - 1 ==> parts[1..][j] == parts[j + 1];
      SplitJoinFrom(t, c + 2, parts[1..]);
      assert parts == [parts[0]] + parts[1..];
    } else {
      SplitJoinLast(t, a, parts);
    }
  }

  /** The first of several parts is split off, and the split goes on after its separator. */
  lemma SplitJoinHead(t: string, a: nat, parts: seq<string>, kw: string)
    requires |parts| > 1 && a <= |t| && t[a..] == JoinClauses(parts) && ',' !in parts[0]
    requires (kw == "when" || kw == "then") && StartsWithWord(parts[1], 0, kw)
    ensures a + |parts[0]| + 2 <= |t| && t[a + |parts[0]| + 2..] == JoinClauses(parts[1..])
    ensures SplitFrom(t, a, a) == [parts[0]] + SplitFrom(t, a + |parts[0]| + 2, a + |parts[0]| + 2)
  {
    var c := a + |parts[0]|;
    JoinLayout(t, a, parts);
    assert StartsWithWord(t, c + 2, kw) by {
      assert parts[1..][0] == parts[1];
      FirstPartWord(t, c + 2, parts[1..], kw);
    }
    SplitCut(t, a, parts[0], kw);
  }

  /** The last part runs to the end of the text. */
  lemma SplitJoinLast(t: string, a: nat, parts: seq<string>)
    requires |parts| == 1 && a <= |t| && t[a..] == JoinClauses(parts) && ',' !in parts[0]
    ensures SplitFrom(t, a, a) == parts
  {
    NoCommaBetween(t, a, |t|);
    SplitSkip(t, a, a, |t|);
  }

  /** A comma-free part at `a`, then ", " and a clause keyword: the part is split off. */
  lemma SplitCut(t: string, a: nat, part: string, kw: string)
    requires a + |part| + 2 <= |t| && t[a..a + |part|] == part && ',' !in part
    requires t[a + |part|] == ',' && t[a + |part| + 1] == ' '
    requires (kw == "when" || kw == "then") && StartsWithWord(t, a + |part| + 2, kw)
    ensures SplitFrom(t, a, a) == [part] + SplitFrom(t, a + |part| + 2, a + |part| + 2)
  {
    var c := a + |part|;
    SeparatorBefore(t, c, kw);
    NoCommaBetween(t, a, c);
    SplitSkip(t, a, a, c);
    SplitAtSeparator(t, a, c);
  }

  /** No comma between `a` and `c` when the slice there has none. */
  lemma NoCommaBetween(t: string, a: nat, c: nat)
    requires a <= c <= |t| && ',' !in t[a..c]
    ensures forall k :: a <= k < c ==> t[k] != ','
  {
    assert forall k :: a <= k < c ==> t[k] == t[a..c][k - a];
  }

  /** At a separator the part so far ends, and the next one starts after the white space. */
  lemma SplitAtSeparator(t: string, start: nat, c: nat)
    requires start <= c < |t| && SeparatorAt(t, c) && c + 1 + SpaceRun(t, c + 1) == c + 2
    ensures SplitFrom(t, start, c) == [t[start..c]] + SplitFrom(t, c + 2, c + 2)
  {
  }

  lemma SplitJoin(parts: seq<string>)
    requires parts != []
    requires forall j :: 0 <= j < |parts| ==> ',' !in parts[j]
    requires forall j :: 1 <= j < |parts| ==> StartsWithWord(parts[j], 0, "when") || StartsWithWord(parts[j], 0, "then")
    ensures SplitCriteria(JoinClauses(parts)) == parts
  {
    var t := JoinClauses(parts);
    assert t[0..] == t;
    SplitJoinFrom(t, 0, parts);
  }

  lemma KeywordsLower()
    ensures Lower("Given") == "given" && Lower("Give") == "give"
    ensures Lower("When") == "when" && Lower("Then") == "then"
  {
  }

  /** A clause `lead + x`, where `lead` is a keyword and a space: its keyword is found, and stripping it gives `x`. */
  lemma ClauseStripped(lead: string, kw: string, x: string)
    requires |lead| == |kw| + 1 && Lower(lead[..|kw|]) == kw && lead[|kw|] == ' '
    requires x != "" && !IsSpace(x[0])
    ensures StartsWithWord(lead + x, 0, kw)
    ensures StripKeyword(lead + x, kw) == x
  {
    var p := lead + x;
    assert p[..|kw|] == lead[..|kw|];
    assert p[|kw| + 1] == x[0];
    assert SpaceRun(p, |kw| + 1) == 0;
    assert p[|kw| + 1..] == x;
  }

  /**
    * A criteria text with no comma that starts with none of the keywords
    * keeps every default: "given" is the whole text.
    */
  lemma ParseCriteriaPlain(criteria: string)
    requires criteria != "" && ',' !in criteria
    requires !StartsWithWord(criteria, 0, "given") && !StartsWithWord(criteria, 0, "when")
    requires !StartsWithWord(criteria, 0, "then")
    ensures ParseCriteria(criteria) == CriteriaRec("", criteria, DefaultWhen, DefaultThen)
  {
    SplitNoComma(criteria);
  }

  /** The three clauses of a criterion sentence. */
  function Clauses(g: string, w: string, o: string): seq<string> {
    ["Given " + g, "When " + w, "Then " + o]
  }

  /** The splitter cuts a criterion sentence at its two separators. */
  lemma SplitSentence(g: string, w: string, o: string)
    requires ',' !in g && ',' !in w && ',' !in o
    ensures SplitCriteria(CriteriaSentence(g, w, o)) == Clauses(g, w, o)
  {
    var parts := Clauses(g, w, o);
    assert JoinClauses(parts[2..]) == "Then " + o;
    assert JoinClauses(parts[1..]) == "When " + w + ", " + "Then " + o;
    assert CriteriaSentence(g, w, o) == JoinClauses(parts);
    KeywordsLower();
    assert StartsWithWord(parts[1], 0, "when") by {
      assert parts[1][..4] == "When";
    }
    assert StartsWithWord(parts[2], 0, "then") by {
      assert parts[2][..4] == "Then";
    }
    assert forall j :: 0 <= j < 3 ==> ',' !in parts[j];
    SplitJoin(parts);
  }

  /** "given" finds the first clause, and stripping the keyword leaves g. */
  lemma GivenField(g: string, w: string, o: string, fallback: string)
    requires g != "" && !IsSpace(g[0])
    ensures Field(Clauses(g, w, o), "given", fallback) == g
  {
    var parts := Clauses(g, w, o);
    KeywordsLower();
    assert "Given "[..5] == "Given";
    ClauseStripped("Given ", "given", g);
    assert FindPart(parts, "given") == Some(parts[0]);
  }

  /** "when" passes over the first clause and finds the second. */
  lemma WhenField(g: string, w: string, o: string)
    requires w != "" && !IsSpace(w[0])
    ensures Field(Clauses(g, w, o), "when", DefaultWhen) == w
  {
    var parts := Clauses(g, w, o);
    KeywordsLower();
    assert "When "[..4] == "When";
    ClauseStripped("When ", "when", w);
    assert !StartsWithWord(parts[0], 0, "when") by {
      assert parts[0][..4] == "Give";
    }
    assert FindPart(parts[1..], "when") == Some(parts[1]);
  }

  /** "then" passes over the first two clauses and finds the third. */
  lemma ThenField(g: string, w: string, o: string)
    requires o != "" && !IsSpace(o[0])
    ensures Field(Clauses(g, w, o), "then", DefaultThen) == o
  {
    var parts := Clauses(g, w, o);
    KeywordsLower();
    assert "Then "[..4] == "Then";
    ClauseStripped("Then ", "then", o);
    assert !StartsWithWord(parts[0], 0, "then") by {
      assert parts[0][..4] == "Give";
    }
    assert !StartsWithWord(parts[1], 0, "then") by {
      assert parts[1][..4] == "When";
    }
    assert FindPart(parts[2..], "then") == Some(parts[2]);
    assert FindPart(parts[1..], "then") == Some(parts[2]);
  }

  /**
    * The criterion text the export writes, "Given g, When w, Then o", is split
    * back into g, w and o by the import, when each is non-empty, trimmed and
    * free of commas.
    */
  lemma CriteriaRoundTrip(g: string, w: string, o: string)
    requires g != "" && w != "" && o != ""
    requires IsTrimmed(g) && IsTrimmed(w) && IsTrimmed(o)
    requires ',' !in g && ',' !in w && ',' !in o
    ensures CriteriaText(Some(CriteriaSentence(g, w, o))) == Some(CriteriaSentence(g, w, o))
    ensures ParseCriteria(CriteriaSentence(g, w, o)) == CriteriaRec("", g, w, o)
  {
    var t := CriteriaSentence(g, w, o);
    assert IsTrimmed(t) by {
      assert t[0] == 'G' && t[|t| - 1] == o[|o| - 1];
    }
    SplitSentence(g, w, o);
    GivenField(g, w, o, t);
    WhenField(g, w, o);
    ThenField(g, w, o);
  }

  // ---------------------------------------------------------------------------
  // One row, and the loop
  // ---------------------------------------------------------------------------

  /** The story a created row stores: its fields trimmed, under the epic found or created. */
  function NewStory(item: ImportData, epicId: string): StoryRec {
    StoryRec(Trim(item.userStory), Trim(item.action), Trim(item.result), epicId)
  }

  /** `a` is a prefix of `b`. */
  predicate Prefix<T(==)>(a: seq<T>, b: seq<T>) {
    |a| <= |b| && b[..|a|] == a
  }

  /**
    * The criteria step of a created story: one criterion split out of the
    * row's criteria text, tied to the new story, when there is such text and
    * its insert does not fail.
    */
  function AddCriteria(s: Store, text: Option<string>, fx: RowEffects): Store {
    match CriteriaText(text)
    case Some(criteria) =>
      if fx.criteriaInsertFails then s
      else s.(criteria := s.criteria + [ParseCriteria(criteria).(userStoryId := fx.newStoryId)])
    case None => s
  }

  /** The row once its epic `epic` is known: duplicate check, story insert, criteria step. */
  function AfterEpic(s: Store, epic: EpicRec, item: ImportData, fx: RowEffects): (Store, Outcome) {
    if IsDuplicate(s.stories, epic.id, item) then (s, Duplicate)
    else if fx.storyInsertFails then (s, Failed)
    else (AddCriteria(s.(stories := s.stories + [NewStory(item, epic.id)]), item.acceptanceCriteria, fx), Created)
  }

  /**
    * The epic a row goes under: the first known epic with the same normalised
    * title, else a new one with the trimmed title, or None when its insert fails.
    */
  function RowEpic(epics: seq<EpicRec>, item: ImportData, fx: RowEffects): Option<EpicRec> {
    match FindEpic(epics, item.epic)
    case Some(epic) => Some(epic)
    case None => if fx.epicInsertFails then None else Some(EpicRec(fx.newEpicId, Trim(item.epic)))
  }

  /** The known epics after the epic step: the new epic, if one was created, added at the end. */
  function EpicsAfter(epics: seq<EpicRec>, item: ImportData, fx: RowEffects): seq<EpicRec> {
    if FindEpic(epics, item.epic).None? && !fx.epicInsertFails then epics + [EpicRec(fx.newEpicId, Trim(item.epic))]
    else epics
  }

  /** One pass of the loop body over `item`. */
  function ImportRow(s: Store, item: ImportData, fx: RowEffects): (Store, Outcome) {
    match RowEpic(s.epics, item, fx)
    case None => (s, Failed)
    case Some(epic) => AfterEpic(s.(epics := EpicsAfter(s.epics, item, fx)), epic, item, fx)
  }

  /**
    * What one row does. It fails when its epic cannot be created, or when
    * its story insert fails; it is a duplicate exactly when its epic already
    * has an equal story; otherwise it creates the story, trimmed, under its
    * epic. Only a created story changes the stories and the criteria, and an
    * epic is added exactly when none matched and its insert succeeded.
    */
  lemma RowOutcome(s: Store, item: ImportData, fx: RowEffects)
    ensures var (t, outcome) := ImportRow(s, item, fx);
      && (t.epics != s.epics <==> FindEpic(s.epics, item.epic).None? && !fx.epicInsertFails)
      && (t.epics != s.epics ==> t.epics == s.epics + [EpicRec(fx.newEpicId, Trim(item.epic))])
      && (outcome == Failed <==>
            (RowEpic(s.epics, item, fx).None? ||
             (!IsDuplicate(s.stories, RowEpic(s.epics, item, fx).value.id, item) && fx.storyInsertFails)))
      && (outcome == Duplicate <==>
            RowEpic(s.epics, item, fx).Some? && IsDuplicate(s.stories, RowEpic(s.epics, item, fx).value.id, item))
      && (outcome != Created ==> t.stories == s.stories && t.criteria == s.criteria)
      && (outcome == Created ==>
            && RowEpic(s.epics, item, fx).Some?
            && t.stories == s.stories + [NewStory(item, RowEpic(s.epics, item, fx).value.id)]
            && Prefix(s.criteria, t.criteria))
  {
    match RowEpic(s.epics, item, fx)
    case None =>
    case Some(epic) =>
      var s1 := s.(epics := EpicsAfter(s.epics, item, fx));
      if !IsDuplicate(s.stories, epic.id, item) && !fx.storyInsertFails {
        var t := AddCriteria(s1.(stories := s1.stories + [NewStory(item, epic.id)]), item.acceptanceCriteria, fx);
        assert t.criteria == s.criteria || t.criteria[..|s.criteria|] == s.criteria;
      }
  }

  /** The store and the two counters as the loop goes. */
  datatype Progress = Progress(store: Store, newUserStories: nat, duplicatesSkipped: nat)

  function Tally(p: Progress, r: (Store, Outcome)): Progress {
    match r.1
    case Created => Progress(r.0, p.newUserStories + 1, p.duplicatesSkipped)
    case Duplicate => Progress(r.0, p.newUserStories, p.duplicatesSkipped + 1)
    case Failed => Progress(r.0, p.newUserStories, p.duplicatesSkipped)
  }

  /** The loop over `items`, in order, from progress `p`. */
  function ImportAll(p: Progress, items: seq<ImportData>, effects: seq<RowEffects>): Progress
    requires |effects| == |items|
    decreases |items|
  {
    if items == [] then p
    else
      var n := |items| - 1;
      var before := ImportAll(p, items[..n], effects[..n]);
      Tally(before, ImportRow(before.store, items[n], effects[n]))
  }

  /** The loop over the first `i + 1` rows is the loop over the first `i`, then row `i`. */
  lemma ImportAllStep(p: Progress, items: seq<ImportData>, effects: seq<RowEffects>, i: nat)
    requires |effects| == |items| && i < |items|
    ensures ImportAll(p, items[..i + 1], effects[..i + 1])
         == Tally(ImportAll(p, items[..i], effects[..i]),
                  ImportRow(ImportAll(p, items[..i], effects[..i]).store, items[i], effects[i]))
  {
    assert items[..i + 1][..i] == items[..i] && effects[..i + 1][..i] == effects[..i];
  }

  /** The state before the first row: the epics and stories read at the start, no criteria yet. */
  function Start(epics: seq<EpicRec>, stories: seq<StoryRec>): Progress {
    Progress(Store(epics, stories, []), 0, 0)
  }

  /**
    * `mutationFn`: the loop over the rows, with the counters and the known
    * epics and stories updated in place.
    */
  method BulkImport(items: seq<ImportData>, existingEpics: seq<EpicRec>, existingStories: seq<StoryRec>,
                    effects: seq<RowEffects>)
    returns (summary: ImportResult, store: Store)
    requires |effects| == |items|
    ensures var p := ImportAll(Start(existingEpics, existingStories), items, effects);
      store == p.store && summary == ImportResult(|items|, p.newUserStories, p.duplicatesSkipped)
  {
    var newUserStories, duplicatesSkipped := 0, 0;
    var totalRows := |items|;
    var epics, stories, criteria := existingEpics, existingStories, [];
    for i := 0 to |items|
      invariant ImportAll(Start(existingEpics, existingStories), items[..i], effects[..i])
             == Progress(Store(epics, stories, criteria), newUserStories, duplicatesSkipped)
    {
      ImportAllStep(Start(existingEpics, existingStories), items, effects, i);
      var item, fx := items[i], effects[i];
      var epic := FindEpic(epics, item.epic);
      if epic.None? {
        if fx.epicInsertFails {
          continue;
        }
        epic := Some(EpicRec(fx.newEpicId, Trim(item.epic)));
        epics := epics + [epic.value];
      }
      if IsDuplicate(stories, epic.value.id, item) {
        duplicatesSkipped := duplicatesSkipped + 1;
        continue;
      }
      if fx.storyInsertFails {
        continue;
      }
      stories := stories + [NewStory(item, epic.value.id)];
      newUserStories := newUserStories + 1;
      var text := CriteriaText(item.acceptanceCriteria);
      if text.Some? && !fx.criteriaInsertFails {
        var c := ParseCriteria(text.value);
        criteria := criteria + [c.(userStoryId := fx.newStoryId)];
      }
    }
    assert items[..|items|] == items && effects[..|effects|] == effects;
    summary := ImportResult(totalRows, newUserStories, duplicatesSkipped);
    store := Store(epics, stories, criteria);
  }

  // ---------------------------------------------------------------------------
  // What the loop promises
  // ---------------------------------------------------------------------------

  /** Each row adds one to at most one counter. */
  lemma {:induction false} CountersBounded(p: Progress, items: seq<ImportData>, effects: seq<RowEffects>)
    requires |effects| == |items|
    ensures var q := ImportAll(p, items, effects);
      q.newUserStories + q.duplicatesSkipped <= p.newUserStories + p.duplicatesSkipped + |items|
    ensures ImportAll(p, items, effects).newUserStories >= p.newUserStories
    ensures ImportAll(p, items, effects).duplicatesSkipped >= p.duplicatesSkipped
    decreases |items|
  {
    if items != [] {
      var n := |items| - 1;
      CountersBounded(p, items[..n], effects[..n]);
    }
  }

  /** The summary: all rows counted, and the new stories and duplicates among them. */
  lemma SummaryBounded(items: seq<ImportData>, epics: seq<EpicRec>, stories: seq<StoryRec>, effects: seq<RowEffects>)
    requires |effects| == |items|
    ensures var q := ImportAll(Start(epics, stories), items, effects);
      q.newUserStories + q.duplicatesSkipped <= |items|
  {
    CountersBounded(Start(epics, stories), items, effects);
  }

  /** A row only adds to what is known: no epic, story or criterion is dropped or changed. */
  lemma RowOnlyAdds(s: Store, item: ImportData, fx: RowEffects)
    ensures var t := ImportRow(s, item, fx).0;
      Prefix(s.epics, t.epics) && Prefix(s.stories, t.stories) && Prefix(s.criteria, t.criteria)
  {
    RowOutcome(s, item, fx);
  }

  lemma {:induction false} ImportOnlyAdds(p: Progress, items: seq<ImportData>, effects: seq<RowEffects>)
    requires |effects| == |items|
    ensures var t := ImportAll(p, items, effects).store;
      Prefix(p.store.epics, t.epics) && Prefix(p.store.stories, t.stories) && Prefix(p.store.criteria, t.criteria)
    decreases |items|
  {
    if items != [] {
      var n := |items| - 1;
      ImportOnlyAdds(p, items[..n], effects[..n]);
      var before := ImportAll(p, items[..n], effects[..n]);
      var t := ImportRow(before.store, items[n], effects[n]).0;
      assert ImportAll(p, items, effects).store == t;
      RowOnlyAdds(before.store, items[n], effects[n]);
      PrefixTrans(p.store.epics, before.store.epics, t.epics);
      PrefixTrans(p.store.stories, before.store.stories, t.stories);
      PrefixTrans(p.store.criteria, before.store.criteria, t.criteria);
    }
  }

  lemma PrefixTrans<T>(a: seq<T>, b: seq<T>, c: seq<T>)
    requires Prefix(a, b) && Prefix(b, c)
    ensures Prefix(a, c)
  {
    assert c[..|a|] == c[..|b|][..|a|];
  }

  /** Normalising a trimmed text is normalising the text. */
  lemma SameTitleTrim(x: string)
    ensures SameTitle(Trim(x), x)
  {
    LowerTrim(x);
  }

  /**
    * A row whose epic title matches no known epic creates it, under its
    * trimmed title, unless the insert fails; from then on every title that
    * normalises alike finds that epic.
    */
  lemma NewEpicReused(s: Store, item: ImportData, fx: RowEffects, title: string)
    requires FindEpic(s.epics, item.epic).None? && !fx.epicInsertFails
    requires SameTitle(title, item.epic)
    ensures ImportRow(s, item, fx).0.epics == s.epics + [EpicRec(fx.newEpicId, Trim(item.epic))]
    ensures FindEpic(ImportRow(s, item, fx).0.epics, title) == Some(EpicRec(fx.newEpicId, Trim(item.epic)))
  {
    var e := EpicRec(fx.newEpicId, Trim(item.epic));
    SameTitleTrim(item.epic);
    assert FindEpic(s.epics, title).None? by {
      FindEpicNone(s.epics, item.epic);
      FindEpicNone(s.epics, title);
    }
    FindEpicAppend(s.epics, e, title);
  }

  /**
    * A row is skipped as a duplicate exactly when the epic it finds (or
    * creates) already has a story equal to it once normalised; a skipped row
    * stores no story and no criterion.
    */
  lemma DuplicateExactly(s: Store, item: ImportData, fx: RowEffects)
    ensures ImportRow(s, item, fx).1 == Duplicate <==>
      match FindEpic(s.epics, item.epic)
      case Some(epic) => IsDuplicate(s.stories, epic.id, item)
      case None => !fx.epicInsertFails && IsDuplicate(s.stories, fx.newEpicId, item)
    ensures ImportRow(s, item, fx).1 == Duplicate ==>
      ImportRow(s, item, fx).0.stories == s.stories && ImportRow(s, item, fx).0.criteria == s.criteria
  {
    var e := RowEpic(s.epics, item, fx);
    if FindEpic(s.epics, item.epic).Some? {
      assert e == FindEpic(s.epics, item.epic);
    } else if !fx.epicInsertFails {
      assert e == Some(EpicRec(fx.newEpicId, Trim(item.epic)));
    } else {
      assert e.None?;
    }
  }

  /** No known story sits under the epic `id`. */
  predicate FreshEpicId(stories: seq<StoryRec>, id: string) {
    forall j :: 0 <= j < |stories| ==> stories[j].epicId != id
  }

  /** When the database gives a new epic an id no story uses, a row under a new epic is never a duplicate. */
  lemma NewEpicNoDuplicate(s: Store, item: ImportData, fx: RowEffects)
    requires FindEpic(s.epics, item.epic).None? && FreshEpicId(s.stories, fx.newEpicId)
    ensures ImportRow(s, item, fx).1 != Duplicate
  {
    DuplicateExactly(s, item, fx);
    IsDuplicateExactly(s.stories, fx.newEpicId, item);
  }

  /**
    * A created story is stored with trimmed fields under its epic; the same
    * row, or any row equal to it once normalised, comes next as a duplicate.
    */
  lemma CreatedThenDuplicate(s: Store, item: ImportData, fx: RowEffects, again: ImportData, fx2: RowEffects)
    requires ImportRow(s, item, fx).1 == Created
    requires SameTitle(again.epic, item.epic) && SameTitle(again.userStory, item.userStory)
    requires SameTitle(again.action, item.action) && SameTitle(again.result, item.result)
    ensures exists id :: ImportRow(s, item, fx).0.stories == s.stories + [NewStory(item, id)]
    ensures ImportRow(ImportRow(s, item, fx).0, again, fx2).1 == Duplicate
  {
    var t := ImportRow(s, item, fx).0;
    var epic := RowEpic(s.epics, item, fx).value;
    RowEpicFoundAgain(s, item, fx, again.epic);
    assert RowEpic(t.epics, again, fx2) == Some(epic);
    SameTitleTrim(item.userStory);
    SameTitleTrim(item.action);
    SameTitleTrim(item.result);
    IsDuplicateAppend(s.stories, NewStory(item, epic.id), epic.id, again);
  }

  /** The loop over `a + b` is the loop over `a`, then over `b`. */
  lemma {:induction false} ImportAllConcat(p: Progress, a: seq<ImportData>, b: seq<ImportData>,
                                           ea: seq<RowEffects>, eb: seq<RowEffects>)
    requires |ea| == |a| && |eb| == |b|
    ensures ImportAll(p, a + b, ea + eb) == ImportAll(ImportAll(p, a, ea), b, eb)
    decreases |b|
  {
    if b == [] {
      assert a + b == a && ea + eb == ea;
    } else {
      ImportAllConcat(p, a, b[..|b| - 1], ea, eb[..|b| - 1]);
      ImportAllConcatMore(p, a, b, ea, eb);
    }
  }

  /** The step of ImportAllConcat: one more row at the end of `b`. */
  lemma ImportAllConcatMore(p: Progress, a: seq<ImportData>, b: seq<ImportData>, ea: seq<RowEffects>, eb: seq<RowEffects>)
    requires |ea| == |a| && |eb| == |b| && b != []
    requires ImportAll(p, a + b[..|b| - 1], ea + eb[..|b| - 1]) == ImportAll(ImportAll(p, a, ea), b[..|b| - 1], eb[..|b| - 1])
    ensures ImportAll(p, a + b, ea + eb) == ImportAll(ImportAll(p, a, ea), b, eb)
  {
    var n := |b| - 1;
    SplitLast(a, b);
    SplitLast(ea, eb);
    ImportAllSame(p, a + b, ea + eb, a + b[..n], ea + eb[..n], ImportAll(p, a, ea), b, eb, b[..n], eb[..n], b[n], eb[n]);
  }

  lemma SplitLast<T>(a: seq<T>, b: seq<T>)
    requires b != []
    ensures a + b == (a + b[..|b| - 1]) + [b[|b| - 1]] && b == b[..|b| - 1] + [b[|b| - 1]]
  {
  }

  /** Two runs that reach the same state stay together over one more row. */
  lemma ImportAllSame(p: Progress, rows: seq<ImportData>, effects: seq<RowEffects>, init: seq<ImportData>, initFx: seq<RowEffects>,
                      q: Progress, rows': seq<ImportData>, effects': seq<RowEffects>, init': seq<ImportData>, initFx': seq<RowEffects>,
                      last: ImportData, lastFx: RowEffects)
    requires |initFx| == |init| && rows == init + [last] && effects == initFx + [lastFx]
    requires |initFx'| == |init'| && rows' == init' + [last] && effects' == initFx' + [lastFx]
    requires ImportAll(p, init, initFx) == ImportAll(q, init', initFx')
    ensures ImportAll(p, rows, effects) == ImportAll(q, rows', effects')
  {
    ImportAllLast(p, rows, effects, init, initFx, last, lastFx);
    ImportAllLast(q, rows', effects', init', initFx', last, lastFx);
  }

  /** The loop over rows that end with `last` is the loop over the others, then `last`. */
  lemma ImportAllLast(p: Progress, items: seq<ImportData>, effects: seq<RowEffects>,
                      init: seq<ImportData>, initFx: seq<RowEffects>, last: ImportData, lastFx: RowEffects)
    requires |effects| == |items| && |initFx| == |init| && items == init + [last] && effects == initFx + [lastFx]
    ensures ImportAll(p, items, effects)
         == Tally(ImportAll(p, init, initFx), ImportRow(ImportAll(p, init, initFx).store, last, lastFx))
  {
    assert items[..|items| - 1] == init && effects[..|items| - 1] == initFx;
  }

  /** The loop over one first row and then `mid` starts from the state that row leaves. */
  lemma AfterFirstRow(p: Progress, item: ImportData, fx: RowEffects, mid: seq<ImportData>, midFx: seq<RowEffects>)
    requires |midFx| == |mid|
    ensures ImportAll(p, [item] + mid, [fx] + midFx) == ImportAll(Tally(p, ImportRow(p.store, item, fx)), mid, midFx)
  {
    ImportAllConcat(p, [item], mid, [fx], midFx);
    assert [item][..0] == [] && [fx][..0] == [];
  }

  /**
    * Once a row has its epic, found or created, every later row of the run
    * whose epic title normalises alike goes under that same epic, whatever
    * rows come in between.
    */
  lemma EpicReusedLater(p: Progress, item: ImportData, fx: RowEffects, mid: seq<ImportData>, midFx: seq<RowEffects>,
                        title: string)
    requires |midFx| == |mid|
    requires RowEpic(p.store.epics, item, fx).Some? && SameTitle(title, item.epic)
    ensures FindEpic(ImportAll(p, [item] + mid, [fx] + midFx).store.epics, title) == RowEpic(p.store.epics, item, fx)
  {
    var row := ImportRow(p.store, item, fx);
    var p1 := Tally(p, row);
    assert p1.store == row.0;
    AfterFirstRow(p, item, fx, mid, midFx);
    RowEpicFoundAgain(p.store, item, fx, title);
    ImportOnlyAdds(p1, mid, midFx);
    FindEpicPrefix(row.0.epics, ImportAll(p1, mid, midFx).store.epics, title);
  }

  /** A story known before some rows run is still known after them. */
  lemma DuplicateStays(p: Progress, rows: seq<ImportData>, effects: seq<RowEffects>, epicId: string, item: ImportData)
    requires |effects| == |rows| && IsDuplicate(p.store.stories, epicId, item)
    ensures IsDuplicate(ImportAll(p, rows, effects).store.stories, epicId, item)
  {
    var q := ImportAll(p, rows, effects);
    ImportOnlyAdds(p, rows, effects);
    IsDuplicateExactly(p.store.stories, epicId, item);
    var j :| 0 <= j < |p.store.stories| && SameStory(p.store.stories[j], epicId, item);
    assert q.store.stories[j] == p.store.stories[j];
    AnyFound(q.store.stories, us => SameStory(us, epicId, item), j);
  }

  /** A created story is known, under its epic, to every later row of the run. */
  lemma StoryKnownLater(p: Progress, item: ImportData, fx: RowEffects, mid: seq<ImportData>, midFx: seq<RowEffects>,
                        again: ImportData)
    requires |midFx| == |mid|
    requires ImportRow(p.store, item, fx).1 == Created
    requires SameTitle(again.userStory, item.userStory)
    requires SameTitle(again.action, item.action) && SameTitle(again.result, item.result)
    ensures RowEpic(p.store.epics, item, fx).Some?
    ensures IsDuplicate(ImportAll(p, [item] + mid, [fx] + midFx).store.stories, RowEpic(p.store.epics, item, fx).value.id, again)
  {
    RowOutcome(p.store, item, fx);
    var p1 := Tally(p, ImportRow(p.store, item, fx));
    var epic := RowEpic(p.store.epics, item, fx).value;
    SameTitleTrim(item.userStory);
    SameTitleTrim(item.action);
    SameTitleTrim(item.result);
    IsDuplicateAppend(p.store.stories, NewStory(item, epic.id), epic.id, again);
    AfterFirstRow(p, item, fx, mid, midFx);
    DuplicateStays(p1, mid, midFx, epic.id, again);
  }

  /** A row whose epic is found and already holds an equal story is skipped and changes nothing. */
  lemma RowDuplicate(s: Store, item: ImportData, fx: RowEffects, epic: EpicRec)
    requires FindEpic(s.epics, item.epic) == Some(epic) && IsDuplicate(s.stories, epic.id, item)
    ensures ImportRow(s, item, fx) == (s, Duplicate)
  {
  }

  /**
    * A created story makes every later row of the same run that equals it
    * once normalised a duplicate, whatever rows come in between: that row is
    * counted as skipped and stores nothing.
    */
  lemma CreatedThenDuplicateLater(p: Progress, item: ImportData, fx: RowEffects,
                                  mid: seq<ImportData>, midFx: seq<RowEffects>, again: ImportData, fx2: RowEffects)
    requires |midFx| == |mid|
    requires ImportRow(p.store, item, fx).1 == Created
    requires SameTitle(again.epic, item.epic) && SameTitle(again.userStory, item.userStory)
    requires SameTitle(again.action, item.action) && SameTitle(again.result, item.result)
    ensures var q := ImportAll(p, [item] + mid, [fx] + midFx);
      ImportRow(q.store, again, fx2).1 == Duplicate
    ensures var q := ImportAll(p, [item] + mid, [fx] + midFx);
      var r := ImportAll(p, [item] + mid + [again], [fx] + midFx + [fx2]);
      r.store == q.store && r.newUserStories == q.newUserStories && r.duplicatesSkipped == q.duplicatesSkipped + 1
  {
    var q := ImportAll(p, [item] + mid, [fx] + midFx);
    StoryKnownLater(p, item, fx, mid, midFx, again);
    var epic := RowEpic(p.store.epics, item, fx).value;
    EpicReusedLater(p, item, fx, mid, midFx, again.epic);
    RowDuplicate(q.store, again, fx2, epic);
    ImportAllLast(p, [item] + mid + [again], [fx] + midFx + [fx2], [item] + mid, [fx] + midFx, again, fx2);
  }

  /** After a row that has an epic, every title that normalises alike finds that epic. */
  lemma RowEpicFoundAgain(s: Store, item: ImportData, fx: RowEffects, title: string)
    requires RowEpic(s.epics, item, fx).Some? && SameTitle(title, item.epic)
    ensures FindEpic(ImportRow(s, item, fx).0.epics, title) == RowEpic(s.epics, item, fx)
  {
    if FindEpic(s.epics, item.epic).Some? {
      FindEpicSameTitle(s.epics, item.epic, title);
    } else {
      NewEpicReused(s, item, fx, title);
    }
  }

  /** Once a list of epics finds a match, epics appended after it do not change the search. */
  lemma {:induction false} FindEpicPrefix(a: seq<EpicRec>, b: seq<EpicRec>, title: string)
    requires Prefix(a, b) && FindEpic(a, title).Some?
    ensures FindEpic(b, title) == FindEpic(a, title)
  {
    assert a[0] == b[0];
    if !SameTitle(a[0].title, title) {
      assert Prefix(a[1..], b[1..]) by {
        assert b[1..][..|a| - 1] == b[..|a|][1..];
      }
      FindEpicPrefix(a[1..], b[1..], title);
    }
  }

  /** Titles that normalise alike find the same epic. */
  lemma {:induction false} FindEpicSameTitle(epics: seq<EpicRec>, a: string, b: string)
    requires SameTitle(a, b)
    ensures FindEpic(epics, a) == FindEpic(epics, b)
  {
    if epics != [] {
      FindEpicSameTitle(epics[1..], a, b);
    }
  }

  /**
    * A criterion is inserted only for a newly created story, only when the
    * row has non-blank criteria text, and it is split out of that text,
    * trimmed, and tied to the new story's id.
    */
  lemma CriteriaOnlyForNewStories(s: Store, item: ImportData, fx: RowEffects)
    ensures var (t, outcome) := ImportRow(s, item, fx);
      t.criteria == s.criteria ||
        (&& outcome == Created && CriteriaText(item.acceptanceCriteria).Some? && !fx.criteriaInsertFails
         && t.criteria == s.criteria + [ParseCriteria(Trim(item.acceptanceCriteria.value)).(userStoryId := fx.newStoryId)])
  {
  }

  /**
    * A row that fails is caught: it stores no story and no criterion, and
    * leaves the counters as they were. An epic created before a failing story
    * insert stays.
    */
  lemma FailedRowCaught(p: Progress, item: ImportData, fx: RowEffects)
    requires ImportRow(p.store, item, fx).1 == Failed
    ensures var q := Tally(p, ImportRow(p.store, item, fx));
      && q.newUserStories == p.newUserStories && q.duplicatesSkipped == p.duplicatesSkipped
      && q.store.stories == p.store.stories && q.store.criteria == p.store.criteria
    ensures ImportRow(p.store, item, fx).0.epics != p.store.epics ==>
      FindEpic(p.store.epics, item.epic).None? && fx.storyInsertFails
  {
  }
}
