/**
  * The spreadsheet side of the bulk import: `parseUserStory`, which splits an
  * "As a ..., I want to ..., so that ..." sentence with a regular expression
  * and falls back to a default when it does not match, and the row
  * normalisation, filter and empty check of `processExcelFile`, which decide
  * what is handed to the import.
  */
module BulkImportDialog {
  import opened Wrappers
  import opened Text
  import opened Regex
  import StoryMap

  /** `As\s+a\s+` */
  const Opening: seq<Item> := [
    Item(Literal('a'), One, false), Item(Literal('s'), One, false), Item(Space(), Plus, false),
    Item(Literal('a'), One, false), Item(Space(), Plus, false)]

  /** `,\s*I\s+want\s+to\s+` */
  const WantTo: seq<Item> := [
    Item(Literal(','), One, false), Item(Space(), Star, false),
    Item(Literal('i'), One, false), Item(Space(), Plus, false),
    Item(Literal('w'), One, false), Item(Literal('a'), One, false), Item(Literal('n'), One, false),
    Item(Literal('t'), One, false), Item(Space(), Plus, false),
    Item(Literal('t'), One, false), Item(Literal('o'), One, false), Item(Space(), Plus, false)]

  /** `,\s*so\s+that\s+` */
  const SoThat: seq<Item> := [
    Item(Literal(','), One, false), Item(Space(), Star, false),
    Item(Literal('s'), One, false), Item(Literal('o'), One, false), Item(Space(), Plus, false),
    Item(Literal('t'), One, false), Item(Literal('h'), One, false), Item(Literal('a'), One, false),
    Item(Literal('t'), One, false), Item(Space(), Plus, false)]

  /** `([^,]+)`: the role and the action. */
  const CommaFree: Item := Item(NotComma(), Plus, true)

  /** `(.+)`: the result, up to the end of the line. */
  const RestOfLine: Item := Item(AnyButNewline(), Plus, true)

  /** `/As\s+a\s+([^,]+),\s*I\s+want\s+to\s+([^,]+),\s*so\s+that\s+(.+)/i` */
  const UserStoryPattern: seq<Item> := Opening + [CommaFree] + WantTo + [CommaFree] + SoThat + [RestOfLine]

  /**
    * The shape of the pattern that the proofs rely on: the literal stretches
    * at items 0-4, 6-17 and 19-28, and the three groups at 5, 18 and 29.
    */
  ghost predicate Shaped(p: seq<Item>) {
    && |p| == 30
    && (forall k :: 0 <= k < 5 ==> p[k] == Opening[k])
    && (forall k :: 0 <= k < 12 ==> p[6 + k] == WantTo[k])
    && (forall k :: 0 <= k < 10 ==> p[19 + k] == SoThat[k])
    && p[5] == CommaFree && p[18] == CommaFree && p[29] == RestOfLine
    && Uncaptured(p, 0, 5) && Uncaptured(p, 6, 18) && Uncaptured(p, 19, 29)
  }

  lemma PatternShaped()
    ensures Shaped(UserStoryPattern)
  {
    OpeningUncaptured();
    WantToUncaptured();
    SoThatUncaptured();
  }

  lemma OpeningUncaptured()
    ensures forall k :: 0 <= k < |Opening| ==> !Opening[k].capture
  {
    assert CaptureCount(Opening) == 0;
    NoCaptureAt(Opening);
  }

  lemma WantToUncaptured()
    ensures forall k :: 0 <= k < |WantTo| ==> !WantTo[k].capture
  {
    assert CaptureCount(WantTo) == 0;
    NoCaptureAt(WantTo);
  }

  lemma SoThatUncaptured()
    ensures forall k :: 0 <= k < |SoThat| ==> !SoThat[k].capture
  {
    assert CaptureCount(SoThat) == 0;
    NoCaptureAt(SoThat);
  }

  lemma {:induction false} NoCaptureAt(items: seq<Item>)
    requires CaptureCount(items) == 0
    ensures forall k :: 0 <= k < |items| ==> !items[k].capture
  {
    if items != [] {
      NoCaptureAt(items[1..]);
      assert forall k :: 1 <= k < |items| ==> items[k] == items[1..][k - 1];
    }
  }

  /** What `parseUserStory` returns. */
  datatype ParsedStory = ParsedStory(user: string, action: string, result: string)

  /**
    * Whatever the pattern matches, its three groups are a comma-free role, a
    * comma-free action and a result without line terminators.
    */
  lemma MatchGroups(p: seq<Item>, text: string)
    requires Shaped(p) && Exec(p, text).Some?
    ensures |Exec(p, text).value| == 3
    ensures ',' !in Exec(p, text).value[0]
    ensures ',' !in Exec(p, text).value[1]
    ensures forall c :: c in Exec(p, text).value[2] ==> !IsLineTerminator(c)
  {
    var (start, ns) := Search(p, text, 0).value;
    assert p[0..] == p;
    var user, e1 := NextCapture(p, 0, 5, text, start, ns);
    var action, e2 := NextCapture(p, 6, 18, text, e1, ns[6..]);
    var result, e3 := NextCapture(p, 19, 29, text, e2, ns[6..][13..]);
    assert ns[6..][13..][11..] == [];
    assert Exec(p, text).value == [user] + ([action] + ([result] + []));
  }

  /**
    * `userStoryText.match(regex)`: None for no match, otherwise the three
    * groups: a comma-free role, a comma-free action and a result without line
    * terminators.
    */
  function MatchUserStory(text: string): (m: Option<seq<string>>)
    ensures m == Exec(UserStoryPattern, text)
    ensures m.Some? ==> |m.value| == 3
    ensures m.Some? ==> ',' !in m.value[0] && ',' !in m.value[1]
    ensures m.Some? ==> forall c :: c in m.value[2] ==> !IsLineTerminator(c)
  {
    var m := Exec(UserStoryPattern, text);
    if m.Some? then
      PatternShaped();
      MatchGroups(UserStoryPattern, text);
      m
    else m
  }

  /** The fallback role and result of `parseUserStory`. */
  const DefaultUser: string := "user"
  const DefaultResult: string := "achieve the desired outcome"

  lemma DefaultsTrimmed()
    ensures IsTrimmed(DefaultUser) && DefaultUser != ""
    ensures IsTrimmed(DefaultResult) && DefaultResult != ""
  {
    assert DefaultUser[0] == 'u' && DefaultUser[|DefaultUser| - 1] == 'r';
    assert DefaultResult[0] == 'a' && DefaultResult[|DefaultResult| - 1] == 'e';
  }

  /**
    * `parseUserStory`: on a match the three groups, trimmed; otherwise the role
    * "user", the whole trimmed text as the action and a stock result.
    */
  function ParseUserStory(text: string): (r: ParsedStory)
    ensures IsTrimmed(r.user) && IsTrimmed(r.action) && IsTrimmed(r.result)
    ensures MatchUserStory(text).Some? ==>
      && ',' !in r.user && ',' !in r.action
      && forall c :: c in r.result ==> !IsLineTerminator(c)
    ensures MatchUserStory(text).None? ==>
      r == ParsedStory(DefaultUser, Trim(text), DefaultResult)
  {
    match MatchUserStory(text)
    case Some(groups) => ParsedStory(Trim(groups[0]), Trim(groups[1]), Trim(groups[2]))
    case None =>
      DefaultsTrimmed();
      ParsedStory(DefaultUser, Trim(text), DefaultResult)
  }

  /** The literal stretches spell any text whose lower-cased form is their wording. */
  lemma OpeningSpellsWording()
    ensures SpellsFrom(Opening, "as a ", 0)
  {
  }

  lemma OpeningSpells(t: string)
    requires Lower(t) == "as a "
    ensures Spells(Opening, t)
  {
    OpeningSpellsWording();
    SpellsIgnoresCase(Opening, t, 0);
  }

  lemma WantToSpellsWording()
    ensures SpellsFrom(WantTo, ", i want to ", 0)
  {
  }

  lemma WantToSpells(t: string)
    requires Lower(t) == ", i want to "
    ensures Spells(WantTo, t)
  {
    WantToSpellsWording();
    SpellsIgnoresCase(WantTo, t, 0);
  }

  lemma SoThatSpellsWording()
    ensures SpellsFrom(SoThat, ", so that ", 0)
  {
  }

  lemma SoThatSpells(t: string)
    requires Lower(t) == ", so that "
    ensures Spells(SoThat, t)
  {
    SoThatSpellsWording();
    SpellsIgnoresCase(SoThat, t, 0);
  }

  /** `(.+)` at the end of a line takes all of it. */
  lemma ResultTaken(p: seq<Item>, s: string, pos: nat, result: string)
    requires Shaped(p) && pos + |result| == |s| && result != ""
    requires forall k :: 0 <= k < |result| ==> s[pos + k] == result[k]
    requires forall c :: c in result ==> !IsLineTerminator(c)
    ensures Backtrack(p, 29, s, pos) == Some([|result|])
  {
    assert forall k :: pos <= k < |s| ==> s[k] == result[k - pos];
    assert Backtrack(p, 30, s, |s|) == Some([]);
    WholeRunTaken(p, 29, s, pos, |result|);
    assert [|result|] + [] == [|result|];
  }

  /** `([^,]+)` takes a comma-free text up to the comma that follows it. */
  lemma GroupTaken(p: seq<Item>, i: nat, s: string, pos: nat, g: string, rest: seq<nat>)
    requires Shaped(p) && (i == 5 || i == 18)
    requires pos + |g| < |s| && g != "" && ',' !in g && s[pos + |g|] == ','
    requires forall k :: 0 <= k < |g| ==> s[pos + k] == g[k]
    requires Backtrack(p, i + 1, s, pos + |g|) == Some(rest)
    ensures Backtrack(p, i, s, pos) == Some([|g|] + rest)
  {
    assert forall k :: pos <= k < pos + |g| ==> s[k] == g[k - pos];
    WholeRunTaken(p, i, s, pos, |g|);
  }

  /**
    * Fields that a story sentence carries through the parser unchanged:
    * non-empty and trimmed, a role and an action without commas, a result on
    * one line.
    */
  predicate ParsableFields(user: string, action: string, result: string) {
    && user != "" && IsTrimmed(user) && ',' !in user
    && action != "" && IsTrimmed(action) && ',' !in action
    && result != "" && IsTrimmed(result) && forall c :: c in result ==> !IsLineTerminator(c)
  }

  /** The counts the matcher settles on for a sentence with these fields. */
  function SentenceCounts(user: string, action: string, result: string): seq<nat> {
    OnesThen(5, [|user|] + OnesThen(12, [|action|] + OnesThen(10, [|result|])))
  }

  /** A `\s` run stops at a character that is not white space. */
  lemma SpaceStops(c: char)
    requires !IsSpace(c)
    ensures !Matches(Space(), c)
  {
  }

  /** `,\s*so\s+that\s+(.+)` over a "so that" clause and the result. */
  lemma SoThatStage(p: seq<Item>, s: string, pos: nat, soThat: string, result: string)
    requires Shaped(p) && Spells(SoThat, soThat)
    requires result != "" && IsTrimmed(result) && forall c :: c in result ==> !IsLineTerminator(c)
    requires pos + |soThat| + |result| == |s|
    requires At(s, pos, soThat) && At(s, pos + |soThat|, result)
    ensures Backtrack(p, 19, s, pos) == Some(OnesThen(10, [|result|]))
  {
    ResultTaken(p, s, pos + 10, result);
    SpaceStops(result[0]);
    SpelledThen(p, 19, s, pos, SoThat, soThat, [|result|]);
  }

  /** `([^,]+),\s*I\s+want\s+to\s+` over the role and an "I want to" clause. */
  lemma UserStage(p: seq<Item>, s: string, pos: nat, user: string, wantTo: string, rest: seq<nat>)
    requires Shaped(p) && Spells(WantTo, wantTo)
    requires user != "" && ',' !in user
    requires At(s, pos, user) && At(s, pos + |user|, wantTo)
    requires pos + |user| + |wantTo| < |s| && !IsSpace(s[pos + |user| + |wantTo|])
    requires Backtrack(p, 18, s, pos + |user| + |wantTo|) == Some(rest)
    ensures Backtrack(p, 5, s, pos) == Some([|user|] + OnesThen(12, rest))
  {
    WantToStage(p, s, pos + |user|, wantTo, rest);
    assert Matches(WantTo[0].cls, wantTo[0]);
    GroupTaken(p, 5, s, pos, user, OnesThen(12, rest));
  }

  /** `,\s*I\s+want\s+to\s+` over an "I want to" clause followed by an action that starts with no space. */
  lemma WantToStage(p: seq<Item>, s: string, pos: nat, wantTo: string, rest: seq<nat>)
    requires Shaped(p) && Spells(WantTo, wantTo)
    requires At(s, pos, wantTo) && pos + |wantTo| < |s| && !IsSpace(s[pos + |wantTo|])
    requires Backtrack(p, 18, s, pos + |wantTo|) == Some(rest)
    ensures Backtrack(p, 6, s, pos) == Some(OnesThen(12, rest))
  {
    SpaceStops(s[pos + |wantTo|]);
    SpelledThen(p, 6, s, pos, WantTo, wantTo, rest);
  }

  /** `([^,]+)` over the action, followed by a "so that" clause that matched. */
  lemma ActionStage(p: seq<Item>, s: string, pos: nat, action: string, soThat: string, rest: seq<nat>)
    requires Shaped(p) && Spells(SoThat, soThat)
    requires action != "" && ',' !in action
    requires At(s, pos, action) && At(s, pos + |action|, soThat)
    requires Backtrack(p, 19, s, pos + |action|) == Some(rest)
    ensures Backtrack(p, 18, s, pos) == Some([|action|] + rest)
  {
    assert Matches(SoThat[0].cls, soThat[0]);
    GroupTaken(p, 18, s, pos, action, rest);
  }

  /** `As\s+a\s+` over an "As a" clause followed by a role that starts with no space. */
  lemma OpeningStage(p: seq<Item>, s: string, pos: nat, opening: string, rest: seq<nat>)
    requires Shaped(p) && Spells(Opening, opening)
    requires At(s, pos, opening) && pos + |opening| < |s| && !IsSpace(s[pos + |opening|])
    requires Backtrack(p, 5, s, pos + |opening|) == Some(rest)
    ensures Backtrack(p, 0, s, pos) == Some(OnesThen(5, rest))
  {
    SpaceStops(s[pos + |opening|]);
    SpelledThen(p, 0, s, pos, Opening, opening, rest);
  }

  /** `([^,]+),\s*so\s+that\s+(.+)` over the action, the "so that" clause and the result. */
  lemma TailBacktrack(p: seq<Item>, s: string, pos: nat, action: string, soThat: string, result: string)
    requires Shaped(p) && Spells(SoThat, soThat)
    requires action != "" && ',' !in action
    requires result != "" && IsTrimmed(result) && forall c :: c in result ==> !IsLineTerminator(c)
    requires pos + |action| + |soThat| + |result| == |s|
    requires At(s, pos, action) && At(s, pos + |action|, soThat) && At(s, pos + |action| + |soThat|, result)
    ensures Backtrack(p, 18, s, pos) == Some([|action|] + OnesThen(10, [|result|]))
  {
    SoThatStage(p, s, pos + |action|, soThat, result);
    ActionStage(p, s, pos, action, soThat, OnesThen(10, [|result|]));
  }

  /** `As\s+a\s+([^,]+),\s*I\s+want\s+to\s+` over the opening, the role and the "I want to" clause. */
  lemma HeadBacktrack(p: seq<Item>, s: string, pos: nat, opening: string, user: string, wantTo: string,
                      rest: seq<nat>)
    requires Shaped(p) && Spells(Opening, opening) && Spells(WantTo, wantTo)
    requires user != "" && IsTrimmed(user) && ',' !in user
    requires At(s, pos, opening) && At(s, pos + |opening|, user) && At(s, pos + |opening| + |user|, wantTo)
    requires pos + |opening| + |user| + |wantTo| < |s| && !IsSpace(s[pos + |opening| + |user| + |wantTo|])
    requires Backtrack(p, 18, s, pos + |opening| + |user| + |wantTo|) == Some(rest)
    ensures Backtrack(p, 0, s, pos) == Some(OnesThen(5, [|user|] + OnesThen(12, rest)))
  {
    UserStage(p, s, pos + |opening|, user, wantTo, rest);
    assert s[pos + |opening|] == user[0];
    OpeningStage(p, s, pos, opening, [|user|] + OnesThen(12, rest));
  }

  /** The groups of the action and result of a sentence whose "I want to" clause starts at `q`. */
  lemma TailCaptures(p: seq<Item>, s: string, q: nat, action: string, result: string)
    requires Shaped(p)
    requires At(s, q + 12, action) && At(s, q + 12 + |action| + 10, result)
    requires Fits(p, 6, s, q, OnesThen(12, [|action|] + OnesThen(10, [|result|])))
    ensures Captures(p, 6, s, q, OnesThen(12, [|action|] + OnesThen(10, [|result|]))) == [action, result]
  {
    var q2 := q + 12 + |action|;
    LiteralsThenGroup(p, 6, 18, s, q, action, OnesThen(10, [|result|]));
    assert [|result|] + [] == [|result|];
    LiteralsThenGroup(p, 19, 29, s, q2, result, []);
    assert Captures(p, 30, s, q2 + 10 + |result|, []) == [];
  }

  /** The three groups of a sentence laid out in `s` from `q0` on are its role, action and result. */
  lemma SentenceCaptures(p: seq<Item>, s: string, q0: nat, user: string, action: string, result: string)
    requires Shaped(p)
    requires At(s, q0 + 5, user) && At(s, q0 + 5 + |user| + 12, action)
    requires At(s, q0 + 5 + |user| + 12 + |action| + 10, result)
    requires Fits(p, 0, s, q0, SentenceCounts(user, action, result))
    ensures Captures(p, 0, s, q0, SentenceCounts(user, action, result)) == [user, action, result]
  {
    var q1 := q0 + 5 + |user|;
    LiteralsThenGroup(p, 0, 5, s, q0, user, OnesThen(12, [|action|] + OnesThen(10, [|result|])));
    TailCaptures(p, s, q1, action, result);
  }

  /**
    * The six pieces of a story sentence sit one after the other in `s` from
    * `q0` to its end.
    */
  ghost predicate LaidOut(s: string, q0: nat, opening: string, user: string, wantTo: string, action: string,
                          soThat: string, result: string)
  {
    && q0 + |opening| + |user| + |wantTo| + |action| + |soThat| + |result| == |s|
    && At(s, q0, opening) && At(s, q0 + |opening|, user)
    && At(s, q0 + |opening| + |user|, wantTo)
    && At(s, q0 + |opening| + |user| + |wantTo|, action)
    && At(s, q0 + |opening| + |user| + |wantTo| + |action|, soThat)
    && At(s, q0 + |opening| + |user| + |wantTo| + |action| + |soThat|, result)
  }

  /**
    * At the start of a sentence laid out in `s` the matcher takes every
    * literal character once and each group whole.
    */
  lemma SentenceBacktrack(p: seq<Item>, s: string, q0: nat,
                          opening: string, user: string, wantTo: string, action: string,
                          soThat: string, result: string)
    requires Shaped(p) && ParsableFields(user, action, result)
    requires Spells(Opening, opening) && Spells(WantTo, wantTo) && Spells(SoThat, soThat)
    requires LaidOut(s, q0, opening, user, wantTo, action, soThat, result)
    ensures Backtrack(p, 0, s, q0) == Some(SentenceCounts(user, action, result))
  {
    var q3 := q0 + |opening| + |user| + |wantTo|;
    TailBacktrack(p, s, q3, action, soThat, result);
    assert s[q3] == action[0];
    HeadBacktrack(p, s, q0, opening, user, wantTo, [|action|] + OnesThen(10, [|result|]));
  }

  /** Text before `q0` with no "a" in any case holds no match start: the search passes over it. */
  lemma LeadInSkipped(p: seq<Item>, s: string, q0: nat)
    requires Shaped(p) && q0 <= |s| && forall k :: 0 <= k < q0 ==> LowerChar(s[k]) != 'a'
    ensures Search(p, s, 0) == Search(p, s, q0)
  {
    forall start | 0 <= start < q0
      ensures Backtrack(p, 0, s, start).None?
    {
      NoMatchStartsHere(p, s, start);
    }
    SearchSkips(p, s, 0, q0);
  }

  /** The search stops at the start of the sentence, with the counts of its pieces. */
  lemma SearchFindsSentence(p: seq<Item>, s: string, q0: nat,
                            opening: string, user: string, wantTo: string, action: string,
                            soThat: string, result: string)
    requires Shaped(p) && ParsableFields(user, action, result)
    requires Spells(Opening, opening) && Spells(WantTo, wantTo) && Spells(SoThat, soThat)
    requires LaidOut(s, q0, opening, user, wantTo, action, soThat, result)
    requires forall k :: 0 <= k < q0 ==> LowerChar(s[k]) != 'a'
    ensures Search(p, s, 0) == Some((q0, SentenceCounts(user, action, result)))
  {
    SentenceBacktrack(p, s, q0, opening, user, wantTo, action, soThat, result);
    LeadInSkipped(p, s, q0);
  }

  /**
    * The pattern finds a story sentence after any lead-in without an "a", in
    * any letter case, and its groups are exactly the role, the action and the
    * result.
    */
  lemma ExecFindsSentence(p: seq<Item>, s: string, q0: nat,
                          opening: string, user: string, wantTo: string, action: string,
                          soThat: string, result: string)
    requires Shaped(p) && ParsableFields(user, action, result)
    requires Spells(Opening, opening) && Spells(WantTo, wantTo) && Spells(SoThat, soThat)
    requires LaidOut(s, q0, opening, user, wantTo, action, soThat, result)
    requires forall k :: 0 <= k < q0 ==> LowerChar(s[k]) != 'a'
    ensures Exec(p, s) == Some([user, action, result])
  {
    SearchFindsSentence(p, s, q0, opening, user, wantTo, action, soThat, result);
    assert |opening| == 5 && |wantTo| == 12 && |soThat| == 10;
    SentenceCaptures(p, s, q0, user, action, result);
    assert p[0..] == p;
  }

  /**
    * The `i` flag: the sentence is found whatever the letter case of its
    * fixed wording, after any lead-in without an "a".
    */
  lemma ExecFindsSentenceAnyCase(s: string, q0: nat,
                                 opening: string, user: string, wantTo: string, action: string,
                                 soThat: string, result: string)
    requires Lower(opening) == "as a " && Lower(wantTo) == ", i want to " && Lower(soThat) == ", so that "
    requires ParsableFields(user, action, result)
    requires LaidOut(s, q0, opening, user, wantTo, action, soThat, result)
    requires forall k :: 0 <= k < q0 ==> LowerChar(s[k]) != 'a'
    ensures MatchUserStory(s) == Some([user, action, result])
  {
    OpeningSpells(opening);
    WantToSpells(wantTo);
    SoThatSpells(soThat);
    PatternShaped();
    ExecFindsSentence(UserStoryPattern, s, q0, opening, user, wantTo, action, soThat, result);
  }

  /** The wording of the sentence template spells the pattern's literal stretches. */
  lemma TemplateOpeningSpells()
    ensures Spells(Opening, "As a ")
  {
    assert SpellsFrom(Opening, "As a ", 0);
  }

  lemma TemplateWantToSpells()
    ensures Spells(WantTo, ", I want to ")
  {
    var t := ", I want to ";
    assert SpellsFrom(WantTo, t, 6);
    assert SpellsFrom(WantTo, t, 0);
  }

  lemma TemplateSoThatSpells()
    ensures Spells(SoThat, ", so that ")
  {
    var t := ", so that ";
    assert SpellsFrom(SoThat, t, 5);
    assert SpellsFrom(SoThat, t, 0);
  }

  lemma StorySentenceLaidOut(user: string, action: string, result: string)
    ensures LaidOut(StoryMap.StorySentence(user, action, result), 0,
                    "As a ", user, ", I want to ", action, ", so that ", result)
  {
  }

  /** The pattern finds the sentence the application writes for a story, with its three fields as groups. */
  lemma ExecStorySentence(p: seq<Item>, user: string, action: string, result: string)
    requires Shaped(p) && ParsableFields(user, action, result)
    ensures Exec(p, StoryMap.StorySentence(user, action, result)) == Some([user, action, result])
  {
    TemplateOpeningSpells();
    TemplateWantToSpells();
    TemplateSoThatSpells();
    StorySentenceLaidOut(user, action, result);
    ExecFindsSentence(p, StoryMap.StorySentence(user, action, result), 0,
                      "As a ", user, ", I want to ", action, ", so that ", result);
  }

  /**
    * `parseUserStory` reads back the sentence the application writes for a
    * story, whenever the role and the action hold no comma, the result no line
    * break, and all three are non-empty and trimmed.
    */
  lemma ParseStorySentence(user: string, action: string, result: string)
    requires ParsableFields(user, action, result)
    ensures ParseUserStory(StoryMap.StorySentence(user, action, result)) == ParsedStory(user, action, result)
  {
    PatternShaped();
    ExecStorySentence(UserStoryPattern, user, action, result);
  }

  /** The pattern finds nothing in an empty cell. */
  lemma NoMatchInEmpty(p: seq<Item>)
    requires Shaped(p)
    ensures Exec(p, "").None?
  {
    NoMatchStartsHere(p, "", 0);
  }

  /**
    * A spreadsheet row as the sheet reader gives it: each of the three columns
    * read may be absent.
    */
  datatype SheetRow = SheetRow(epic: Option<string>, userStory: Option<string>, acceptanceCriteria: Option<string>)

  /** `row[column] || ''`: an absent cell reads as the empty text. */
  function CellText(cell: Option<string>): (r: string)
    ensures cell.Some? ==> r == cell.value
    ensures cell.None? ==> r == ""
  {
    match cell
    case Some(text) => text
    case None => ""
  }

  /** The `map` step of `processExcelFile`: the story cell parsed, the other cells copied. */
  function ToImportData(row: SheetRow): (d: StoryMap.ImportData)
    ensures d.epic == CellText(row.epic)
    ensures d.acceptanceCriteria == Some(CellText(row.acceptanceCriteria))
    ensures ParsedStory(d.userStory, d.action, d.result) == ParseUserStory(CellText(row.userStory))
  {
    var story := ParseUserStory(CellText(row.userStory));
    StoryMap.ImportData(CellText(row.epic), story.user, story.action, story.result,
                        Some(CellText(row.acceptanceCriteria)))
  }

  /** The `filter` test: epic, role, action and result all non-empty. */
  predicate Keep(d: StoryMap.ImportData) {
    d.epic != "" && d.userStory != "" && d.action != "" && d.result != ""
  }

  /** A row without a user story is dropped: the empty text falls back to an empty action. */
  lemma MissingStoryDropped(row: SheetRow)
    requires row.userStory.None? || row.userStory == Some("")
    ensures ToImportData(row).action == ""
    ensures !Keep(ToImportData(row))
  {
    PatternShaped();
    NoMatchInEmpty(UserStoryPattern);
  }

  /**
    * A story cell the pattern does not match is kept exactly when the epic cell
    * is non-empty and the story cell is not all white space.
    */
  lemma FallbackKept(row: SheetRow)
    requires MatchUserStory(CellText(row.userStory)).None?
    ensures Keep(ToImportData(row)) <==> CellText(row.epic) != "" && !AllSpace(CellText(row.userStory))
  {
    DefaultsTrimmed();
  }

  /**
    * A sentence with parsable fields under a non-empty epic is kept, and
    * carries exactly those fields.
    */
  lemma SentenceRowKept(row: SheetRow, user: string, action: string, result: string)
    requires CellText(row.epic) != "" && ParsableFields(user, action, result)
    requires row.userStory == Some(StoryMap.StorySentence(user, action, result))
    ensures Keep(ToImportData(row))
    ensures ToImportData(row) == StoryMap.ImportData(CellText(row.epic), user, action, result,
                                                     Some(CellText(row.acceptanceCriteria)))
  {
    ParseStorySentence(user, action, result);
  }

  /** `.filter(item => item.epic && item.userStory && item.action && item.result)`. */
  function KeepRows(ds: seq<StoryMap.ImportData>): (r: seq<StoryMap.ImportData>)
    ensures |r| <= |ds|
    ensures forall j :: 0 <= j < |r| ==> Keep(r[j])
    ensures forall d :: d in r <==> d in ds && Keep(d)
  {
    if ds == [] then []
    else if Keep(ds[0]) then [ds[0]] + KeepRows(ds[1..])
    else KeepRows(ds[1..])
  }

  /** The filter works row by row: kept rows stay in their input order. */
  lemma {:induction false} KeepRowsDistributes(a: seq<StoryMap.ImportData>, b: seq<StoryMap.ImportData>)
    ensures KeepRows(a + b) == KeepRows(a) + KeepRows(b)
  {
    if a == [] {
      assert a + b == b;
    } else {
      assert (a + b)[0] == a[0] && (a + b)[1..] == a[1..] + b;
      KeepRowsDistributes(a[1..], b);
      if Keep(a[0]) {
        assert [a[0]] + (KeepRows(a[1..]) + KeepRows(b)) == ([a[0]] + KeepRows(a[1..])) + KeepRows(b);
      }
    }
  }

  /** The `map` over all rows. */
  function ToImportRows(rows: seq<SheetRow>): (ds: seq<StoryMap.ImportData>)
    ensures |ds| == |rows|
    ensures forall j :: 0 <= j < |rows| ==> ds[j] == ToImportData(rows[j])
  {
    seq(|rows|, j requires 0 <= j < |rows| => ToImportData(rows[j]))
  }

  /**
    * The data `processExcelFile` hands to `onImport`, or None when no row
    * survives the filter, in which case an error is shown and `onImport` is
    * not called.
    */
  function ProcessRows(rows: seq<SheetRow>): (r: Option<seq<StoryMap.ImportData>>)
    ensures r.None? <==> forall j :: 0 <= j < |rows| ==> !Keep(ToImportData(rows[j]))
    ensures r.Some? ==> r.value != [] && forall j :: 0 <= j < |r.value| ==> Keep(r.value[j])
    ensures r.Some? ==> forall d :: d in r.value <==> d in ToImportRows(rows) && Keep(d)
  {
    var data := KeepRows(ToImportRows(rows));
    if data == [] then
      assert forall j :: 0 <= j < |rows| ==> ToImportRows(rows)[j] in ToImportRows(rows);
      None
    else
      assert data[0] in ToImportRows(rows);
      var j :| 0 <= j < |rows| && ToImportRows(rows)[j] == data[0];
      assert Keep(ToImportData(rows[j]));
      Some(data)
  }
}
