/**
  * The part of ECMAScript regular expressions that the user-story parser
  * relies on: a pattern is a sequence of one-character classes, each taken
  * once, or greedily with `+` or `*`, some of them wrapped in a capture group;
  * it is matched with the `i` flag, without anchors and without the `g` flag,
  * the way `String.prototype.match` runs it.
  *
  * The matcher backtracks exactly as the ECMAScript algorithm does for such
  * patterns: a greedy item first takes the longest run it can and gives back
  * one character at a time when the rest of the pattern fails. It returns the
  * repetition count chosen for every item. The reference definition beside it
  * is declarative: `Fits` says which count vectors describe a match, and the
  * lemmas show the matcher finds one exactly when one exists, and then the
  * lexicographically greatest one; `Search` tries the start positions left to
  * right and so finds the leftmost match.
  */
module Regex {
  import opened Wrappers
  import opened Text

  /**
    * A character class, stated on characters in folded form: under the `i`
    * flag (without `u`) ECMAScript compares characters after case folding.
    * Folding only ever changes letters, and the classes used here (single
    * ASCII letters and signs, `\s`, `[^,]`, `.`) hold a character exactly when
    * they hold its ASCII lower-case form, so folding is ASCII lower-casing.
    */
  type CharClass = char -> bool

  /** The character `x` of the text belongs to `cls` under the `i` flag. */
  predicate Matches(cls: CharClass, x: char) {
    cls(LowerChar(x))
  }

  /** A literal letter or sign, written in lower case. */
  function Literal(c: char): CharClass {
    x => x == c
  }

  /** `\s` */
  function Space(): CharClass {
    x => IsSpace(x)
  }

  /** `[^,]` */
  function NotComma(): CharClass {
    x => x != ','
  }

  /** `.`, which stops at line terminators. */
  function AnyButNewline(): CharClass {
    x => !IsLineTerminator(x)
  }

  datatype Quantifier = One | Plus | Star

  /** The repetition counts a quantifier allows. */
  predicate Admits(q: Quantifier, n: nat) {
    match q
    case One => n == 1
    case Plus => n >= 1
    case Star => true
  }

  /** A class with its quantifier; `capture` means the item is wrapped in `( )`. */
  datatype Item = Item(cls: CharClass, q: Quantifier, capture: bool)

  /** Every character of `s[from..to]` belongs to `cls`. */
  predicate AllMatch(cls: CharClass, s: string, from: nat, to: nat)
    requires from <= to <= |s|
  {
    forall k :: from <= k < to ==> Matches(cls, s[k])
  }

  /** The length of the longest run of characters of `cls` that starts at `pos`. */
  function Run(s: string, pos: nat, cls: CharClass): (n: nat)
    requires pos <= |s|
    ensures pos + n <= |s| && AllMatch(cls, s, pos, pos + n)
    ensures pos + n < |s| ==> !Matches(cls, s[pos + n])
    decreases |s| - pos
  {
    if pos < |s| && Matches(cls, s[pos]) then 1 + Run(s, pos + 1, cls) else 0
  }

  /** No run of `cls` from `pos` is longer than `Run`. */
  lemma RunIsLongest(s: string, pos: nat, cls: CharClass, m: nat)
    requires pos + m <= |s| && AllMatch(cls, s, pos, pos + m)
    ensures m <= Run(s, pos, cls)
  {
  }

  /** The count a greedy item tries first: its whole run, or at most one character for `One`. */
  function Greedy(item: Item, s: string, pos: nat): (n: nat)
    requires pos <= |s|
    ensures n <= Run(s, pos, item.cls)
    ensures item.q == One ==> n <= 1
  {
    var run := Run(s, pos, item.cls);
    if item.q == One && run > 1 then 1 else run
  }

  /**
    * The reference definition: `ns` gives one admissible count per item of
    * `p[i..]`, and the items, each repeated that often, spell out consecutive
    * characters of `s` starting at `pos` (the match may stop before the end).
    */
  predicate Fits(p: seq<Item>, i: nat, s: string, pos: nat, ns: seq<nat>)
    requires i <= |p| && pos <= |s|
    decreases |p| - i
  {
    && |ns| == |p| - i
    && (i < |p| ==>
         && Admits(p[i].q, ns[0])
         && pos + ns[0] <= |s|
         && AllMatch(p[i].cls, s, pos, pos + ns[0])
         && Fits(p, i + 1, s, pos + ns[0], ns[1..]))
  }

  /** Lexicographic order on count vectors of the same length. */
  predicate LexLE(a: seq<nat>, b: seq<nat>)
    requires |a| == |b|
  {
    a == [] || a[0] < b[0] || (a[0] == b[0] && LexLE(a[1..], b[1..]))
  }

  /**
    * The backtracking matcher for `p[i..]` at `pos`: the counts it settles on,
    * or None when the rest of the pattern cannot match here.
    */
  function Backtrack(p: seq<Item>, i: nat, s: string, pos: nat): (r: Option<seq<nat>>)
    requires i <= |p| && pos <= |s|
    ensures r.Some? ==> Fits(p, i, s, pos, r.value)
    decreases |p| - i, 1, 0
  {
    if i == |p| then Some([])
    else TryCounts(p, i, s, pos, Greedy(p[i], s, pos))
  }

  /** Item `i` taken `n` times, then `n - 1`, ..., down to the least count its quantifier admits. */
  function TryCounts(p: seq<Item>, i: nat, s: string, pos: nat, n: nat): (r: Option<seq<nat>>)
    requires i < |p| && pos <= |s|
    requires n <= Run(s, pos, p[i].cls) && (p[i].q == One ==> n <= 1)
    ensures r.Some? ==> Fits(p, i, s, pos, r.value)
    decreases |p| - i, 0, n
  {
    if !Admits(p[i].q, n) then None
    else
      match Backtrack(p, i + 1, s, pos + n)
      case Some(rest) => Some([n] + rest)
      case None => if n == 0 then None else TryCounts(p, i, s, pos, n - 1)
  }

  /** Whenever some count vector fits, the matcher succeeds, with the greatest one. */
  lemma {:induction false} BacktrackIsGreatest(p: seq<Item>, i: nat, s: string, pos: nat, ns: seq<nat>)
    requires i <= |p| && pos <= |s| && Fits(p, i, s, pos, ns)
    ensures Backtrack(p, i, s, pos).Some?
    ensures LexLE(ns, Backtrack(p, i, s, pos).value)
    decreases |p| - i, 1, 0
  {
    if i < |p| {
      RunIsLongest(s, pos, p[i].cls, ns[0]);
      TryCountsIsGreatest(p, i, s, pos, Greedy(p[i], s, pos), ns);
    }
  }

  lemma {:induction false} TryCountsIsGreatest(p: seq<Item>, i: nat, s: string, pos: nat, n: nat, ns: seq<nat>)
    requires i < |p| && pos <= |s|
    requires n <= Run(s, pos, p[i].cls) && (p[i].q == One ==> n <= 1)
    requires Fits(p, i, s, pos, ns) && ns[0] <= n
    ensures TryCounts(p, i, s, pos, n).Some?
    ensures LexLE(ns, TryCounts(p, i, s, pos, n).value)
    decreases |p| - i, 0, n
  {
    if n == ns[0] {
      BacktrackIsGreatest(p, i + 1, s, pos + n, ns[1..]);
      var rest := Backtrack(p, i + 1, s, pos + n).value;
      assert ([n] + rest)[1..] == rest;
    } else if Backtrack(p, i + 1, s, pos + n).None? {
      TryCountsIsGreatest(p, i, s, pos, n - 1, ns);
    }
  }

  /** The number of capture groups in a pattern. */
  function CaptureCount(p: seq<Item>): nat {
    if p == [] then 0 else (if p[0].capture then 1 else 0) + CaptureCount(p[1..])
  }

  lemma {:induction false} CaptureCountConcat(a: seq<Item>, b: seq<Item>)
    ensures CaptureCount(a + b) == CaptureCount(a) + CaptureCount(b)
  {
    if a == [] {
      assert a + b == b;
    } else {
      assert (a + b)[1..] == a[1..] + b;
      CaptureCountConcat(a[1..], b);
    }
  }

  /** The text each capture group of `p[i..]` took, in pattern order: one string per group. */
  function Captures(p: seq<Item>, i: nat, s: string, pos: nat, ns: seq<nat>): (r: seq<string>)
    requires i <= |p| && pos <= |s| && Fits(p, i, s, pos, ns)
    ensures |r| == CaptureCount(p[i..])
    decreases |p| - i
  {
    if i == |p| then []
    else
      assert p[i..][1..] == p[i + 1..];
      (if p[i].capture then [s[pos..pos + ns[0]]] else []) + Captures(p, i + 1, s, pos + ns[0], ns[1..])
  }

  /**
    * The start positions `from`, `from + 1`, ..., `|s|` in turn: the first one
    * where the matcher succeeds, with its counts.
    */
  function Search(p: seq<Item>, s: string, from: nat): (r: Option<(nat, seq<nat>)>)
    requires from <= |s| + 1
    ensures r.Some? ==> from <= r.value.0 <= |s| && Fits(p, 0, s, r.value.0, r.value.1)
    decreases |s| + 1 - from
  {
    if from > |s| then None
    else
      match Backtrack(p, 0, s, from)
      case Some(ns) => Some((from, ns))
      case None => Search(p, s, from + 1)
  }

  /**
    * `Search` finds the leftmost start at which any match exists, and there the
    * greatest count vector; it finds nothing exactly when no start has a match.
    */
  lemma {:induction false} SearchIsLeftmost(p: seq<Item>, s: string, from: nat)
    requires from <= |s| + 1
    ensures Search(p, s, from).Some? ==>
      forall st: nat, ns :: from <= st < Search(p, s, from).value.0 ==> !Fits(p, 0, s, st, ns)
    ensures Search(p, s, from).Some? ==>
      forall ns :: Fits(p, 0, s, Search(p, s, from).value.0, ns) ==> LexLE(ns, Search(p, s, from).value.1)
    ensures Search(p, s, from).None? ==>
      forall st: nat, ns :: from <= st <= |s| ==> !Fits(p, 0, s, st, ns)
    decreases |s| + 1 - from
  {
    if from <= |s| {
      forall ns | Fits(p, 0, s, from, ns)
        ensures Backtrack(p, 0, s, from).Some? && LexLE(ns, Backtrack(p, 0, s, from).value)
      {
        BacktrackIsGreatest(p, 0, s, from, ns);
      }
      match Backtrack(p, 0, s, from)
      case None =>
        SearchIsLeftmost(p, s, from + 1);
      case Some(_) =>
    }
  }

  /**
    * `text.match(regex)` without the `g` flag, reduced to what the parser reads
    * from it: None for `null`, otherwise the groups `match[1]`, `match[2]`, ...
    */
  function Exec(p: seq<Item>, s: string): (r: Option<seq<string>>)
    ensures r.Some? ==> |r.value| == CaptureCount(p)
  {
    match Search(p, s, 0)
    case Some((start, ns)) =>
      assert p[0..] == p;
      Some(Captures(p, 0, s, start, ns))
    case None => None
  }

  /**
    * The items of `items` spell out `t` one character each, and each item that
    * may repeat stops there because the next character of `t` is not of its
    * class (checked from index `j` on).
    */
  predicate SpellsFrom(items: seq<Item>, t: string, j: nat)
    requires |items| == |t| && j <= |t|
    decreases |t| - j
  {
    || j == |t|
    || (&& Matches(items[j].cls, t[j])
        && (items[j].q == One || j + 1 == |t| || !Matches(items[j].cls, t[j + 1]))
        && SpellsFrom(items, t, j + 1))
  }

  predicate Spells(items: seq<Item>, t: string) {
    |items| == |t| && SpellsFrom(items, t, 0)
  }

  /** Items that spell the lower-cased form of a text spell the text itself. */
  lemma {:induction false} SpellsIgnoresCase(items: seq<Item>, t: string, j: nat)
    requires |items| == |t| && j <= |t|
    requires SpellsFrom(items, Lower(t), j)
    ensures SpellsFrom(items, t, j)
    decreases |t| - j
  {
    if j < |t| {
      assert LowerChar(Lower(t)[j]) == LowerChar(t[j]);
      if j + 1 < |t| {
        assert LowerChar(Lower(t)[j + 1]) == LowerChar(t[j + 1]);
      }
      SpellsIgnoresCase(items, t, j + 1);
    }
  }

  /** `rest` preceded by `k` counts of one. */
  function OnesThen(k: nat, rest: seq<nat>): (r: seq<nat>)
    ensures |r| == k + |rest|
  {
    if k == 0 then rest else [1] + OnesThen(k - 1, rest)
  }

  /** When the rest of the pattern matches after the greedy count, that count is the one kept. */
  lemma FirstTrySucceeds(p: seq<Item>, i: nat, s: string, pos: nat)
    requires i < |p| && pos <= |s|
    requires Admits(p[i].q, Greedy(p[i], s, pos))
    requires Backtrack(p, i + 1, s, pos + Greedy(p[i], s, pos)).Some?
    ensures Backtrack(p, i, s, pos) ==
            Some([Greedy(p[i], s, pos)] + Backtrack(p, i + 1, s, pos + Greedy(p[i], s, pos)).value)
  {
  }

  /** An item whose class holds the character at `pos` but not the next one is taken exactly once. */
  lemma GreedyOnce(item: Item, s: string, pos: nat)
    requires pos < |s| && Matches(item.cls, s[pos])
    requires item.q == One || pos + 1 == |s| || !Matches(item.cls, s[pos + 1])
    ensures Greedy(item, s, pos) == 1
  {
  }

  /** An item that takes one character, followed by a rest that matches. */
  lemma TakenOnce(p: seq<Item>, i: nat, s: string, pos: nat)
    requires i < |p| && pos < |s| && Matches(p[i].cls, s[pos])
    requires p[i].q == One || pos + 1 == |s| || !Matches(p[i].cls, s[pos + 1])
    requires Backtrack(p, i + 1, s, pos + 1).Some?
    ensures Backtrack(p, i, s, pos) == Some([1] + Backtrack(p, i + 1, s, pos + 1).value)
  {
    GreedyOnce(p[i], s, pos);
    FirstTrySucceeds(p, i, s, pos);
  }

  /**
    * A stretch `p[i..e]` of items that spells out `s[pos..end]` one character
    * per item, and whose last item cannot run on into the text after it, is
    * matched once per item, provided the rest of the pattern matches after it.
    * (Stated from item `i + j` on, for the induction.)
    */
  lemma {:induction false} SpelledSegment(p: seq<Item>, i: nat, e: nat, s: string, pos: nat, end: nat,
                                          items: seq<Item>, t: string, j: nat)
    requires i <= e <= |p| && pos <= end <= |s| && e - i == end - pos
    requires |items| == |t| == e - i && j <= |t|
    requires forall k :: 0 <= k < |t| ==> p[i + k] == items[k] && s[pos + k] == t[k]
    requires SpellsFrom(items, t, j)
    requires i < e ==> p[e - 1].q == One || end == |s| || !Matches(p[e - 1].cls, s[end])
    requires Backtrack(p, e, s, end).Some?
    ensures Backtrack(p, i + j, s, pos + j) == Some(OnesThen(|t| - j, Backtrack(p, e, s, end).value))
    decreases |t| - j
  {
    if j < |t| {
      SpelledSegment(p, i, e, s, pos, end, items, t, j + 1);
      assert items[j] == p[i + j] && t[j] == s[pos + j];
      assert j + 1 < |t| ==> t[j + 1] == s[pos + j + 1];
      TakenOnce(p, i + j, s, pos + j);
    }
  }

  /** `t` sits in `s` from position `pos` on. */
  ghost predicate At(s: string, pos: nat, t: string) {
    pos + |t| <= |s| && forall k :: 0 <= k < |t| ==> s[pos + k] == t[k]
  }

  /**
    * The items `items` sit in `p` from item `i` on, and spell the text `t`
    * found at `pos`; if the last of them cannot run on, they are matched once
    * each and the counts go on with those of the rest of the pattern.
    */
  lemma SpelledThen(p: seq<Item>, i: nat, s: string, pos: nat, items: seq<Item>, t: string, rest: seq<nat>)
    requires i + |items| <= |p| && (forall k :: 0 <= k < |items| ==> p[i + k] == items[k])
    requires At(s, pos, t) && Spells(items, t) && items != []
    requires items[|items| - 1].q == One || pos + |t| == |s| || !Matches(items[|items| - 1].cls, s[pos + |t|])
    requires Backtrack(p, i + |items|, s, pos + |t|) == Some(rest)
    ensures Backtrack(p, i, s, pos) == Some(OnesThen(|t|, rest))
  {
    SpelledSegment(p, i, i + |items|, s, pos, pos + |t|, items, t, 0);
  }

  /** A capture-free item adds nothing to the captures. */
  lemma CapturesSkip(p: seq<Item>, i: nat, s: string, pos: nat, ns: seq<nat>)
    requires i < |p| && pos <= |s| && Fits(p, i, s, pos, ns) && !p[i].capture
    ensures Fits(p, i + 1, s, pos + ns[0], ns[1..])
    ensures Captures(p, i, s, pos, ns) == Captures(p, i + 1, s, pos + ns[0], ns[1..])
  {
    assert [] + Captures(p, i + 1, s, pos + ns[0], ns[1..]) == Captures(p, i + 1, s, pos + ns[0], ns[1..]);
  }

  /** No item of `p[i..e]` is wrapped in a capture group. */
  predicate Uncaptured(p: seq<Item>, i: nat, e: nat)
    requires i <= e <= |p|
  {
    forall k :: i <= k < e ==> !p[k].capture
  }

  /**
    * Capture-free items `p[i..e]`, whatever counts they take, contribute no
    * captures; `end` is where they stop.
    */
  lemma {:induction false} SkipUncaptured(p: seq<Item>, i: nat, e: nat, s: string, pos: nat, ns: seq<nat>)
    returns (end: nat)
    requires i <= e <= |p| && pos <= |s| && Fits(p, i, s, pos, ns) && Uncaptured(p, i, e)
    ensures end <= |s| && Fits(p, e, s, end, ns[e - i..])
    ensures Captures(p, i, s, pos, ns) == Captures(p, e, s, end, ns[e - i..])
    decreases e - i
  {
    if i == e {
      end := pos;
    } else {
      CapturesSkip(p, i, s, pos, ns);
      end := SkipUncaptured(p, i + 1, e, s, pos + ns[0], ns[1..]);
      assert ns[1..][e - i - 1..] == ns[e - i..];
    }
  }

  /**
    * Capture-free items `p[i..e]` followed by the capture group `p[e]`: that
    * group gives the first capture `g`, every character of which is of the
    * group's class, and the matching goes on at `next`.
    */
  lemma NextCapture(p: seq<Item>, i: nat, e: nat, s: string, pos: nat, ns: seq<nat>)
    returns (g: string, next: nat)
    requires i <= e < |p| && pos <= |s| && Fits(p, i, s, pos, ns) && Uncaptured(p, i, e) && p[e].capture
    ensures next <= |s| && Fits(p, e + 1, s, next, ns[e - i + 1..])
    ensures Captures(p, i, s, pos, ns) == [g] + Captures(p, e + 1, s, next, ns[e - i + 1..])
    ensures forall k :: 0 <= k < |g| ==> Matches(p[e].cls, g[k])
  {
    var end := SkipUncaptured(p, i, e, s, pos, ns);
    var rest := ns[e - i..];
    CapturesTake(p, e, s, end, rest);
    g, next := s[end..end + rest[0]], end + rest[0];
    assert rest[1..] == ns[e - i + 1..];
    assert forall k :: 0 <= k < |g| ==> g[k] == s[end + k];
  }

  /** Capture-free items `p[i..e]`, taken once each from `pos` to `end`, contribute no captures. */
  lemma {:induction false} SpelledSegmentCaptures(p: seq<Item>, i: nat, e: nat, s: string, pos: nat, end: nat,
                                                  rest: seq<nat>)
    requires i <= e <= |p| && pos <= end <= |s| && e - i == end - pos
    requires Uncaptured(p, i, e)
    requires Fits(p, i, s, pos, OnesThen(e - i, rest))
    ensures Fits(p, e, s, end, rest)
    ensures Captures(p, i, s, pos, OnesThen(e - i, rest)) == Captures(p, e, s, end, rest)
    decreases e - i
  {
    var ns := OnesThen(e - i, rest);
    if i < e {
      assert ns[0] == 1 && ns[1..] == OnesThen(e - i - 1, rest);
      CapturesSkip(p, i, s, pos, ns);
      SpelledSegmentCaptures(p, i + 1, e, s, pos + 1, end, rest);
    }
  }

  /**
    * Capture-free items `p[i..e]` taken once each, then the group `p[e]`
    * taking the text `g` that follows them: `g` is the next capture.
    */
  lemma LiteralsThenGroup(p: seq<Item>, i: nat, e: nat, s: string, pos: nat, g: string, rest: seq<nat>)
    requires i <= e < |p| && Uncaptured(p, i, e) && p[e].capture
    requires At(s, pos + (e - i), g) && Fits(p, i, s, pos, OnesThen(e - i, [|g|] + rest))
    ensures Fits(p, e + 1, s, pos + (e - i) + |g|, rest)
    ensures Captures(p, i, s, pos, OnesThen(e - i, [|g|] + rest))
         == [g] + Captures(p, e + 1, s, pos + (e - i) + |g|, rest)
  {
    var q := pos + (e - i);
    SpelledSegmentCaptures(p, i, e, s, pos, q, [|g|] + rest);
    GroupCapture(p, e, s, q, g, rest);
  }

  /** The group `p[e]` taking the text `g` found at `q` captures `g`. */
  lemma GroupCapture(p: seq<Item>, e: nat, s: string, q: nat, g: string, rest: seq<nat>)
    requires e < |p| && p[e].capture && q <= |s| && At(s, q, g) && Fits(p, e, s, q, [|g|] + rest)
    ensures Fits(p, e + 1, s, q + |g|, rest)
    ensures Captures(p, e, s, q, [|g|] + rest) == [g] + Captures(p, e + 1, s, q + |g|, rest)
  {
    CapturesTake(p, e, s, q, [|g|] + rest);
    assert ([|g|] + rest)[1..] == rest;
    assert s[q..q + |g|] == g;
  }

  /** A run that stops where the class stops (or at the end of the text) is the longest run. */
  lemma RunExact(s: string, pos: nat, cls: CharClass, n: nat)
    requires pos + n <= |s| && AllMatch(cls, s, pos, pos + n)
    requires pos + n == |s| || !Matches(cls, s[pos + n])
    ensures Run(s, pos, cls) == n
  {
    RunIsLongest(s, pos, cls, n);
  }

  /**
    * A repeating item whose class holds all of `s[pos..pos + n]` and not the
    * character after it takes all `n` characters, when the rest of the pattern
    * matches after them.
    */
  lemma WholeRunTaken(p: seq<Item>, i: nat, s: string, pos: nat, n: nat)
    requires i < |p| && p[i].q != One && Admits(p[i].q, n)
    requires pos + n <= |s| && AllMatch(p[i].cls, s, pos, pos + n)
    requires pos + n == |s| || !Matches(p[i].cls, s[pos + n])
    requires Backtrack(p, i + 1, s, pos + n).Some?
    ensures Backtrack(p, i, s, pos) == Some([n] + Backtrack(p, i + 1, s, pos + n).value)
  {
    RunExact(s, pos, p[i].cls, n);
    FirstTrySucceeds(p, i, s, pos);
  }

  /** A capture group contributes the text its item took. */
  lemma CapturesTake(p: seq<Item>, i: nat, s: string, pos: nat, ns: seq<nat>)
    requires i < |p| && pos <= |s| && Fits(p, i, s, pos, ns) && p[i].capture
    ensures pos + ns[0] <= |s| && Admits(p[i].q, ns[0]) && AllMatch(p[i].cls, s, pos, pos + ns[0])
    ensures Fits(p, i + 1, s, pos + ns[0], ns[1..])
    ensures Captures(p, i, s, pos, ns) == [s[pos..pos + ns[0]]] + Captures(p, i + 1, s, pos + ns[0], ns[1..])
  {
  }

  /** No match starts where the first item, which must take a character, finds none of its class. */
  lemma NoMatchStartsHere(p: seq<Item>, s: string, start: nat)
    requires p != [] && p[0].q != Star && start <= |s|
    requires start == |s| || !Matches(p[0].cls, s[start])
    ensures Backtrack(p, 0, s, start).None?
  {
  }

  /** Start positions where the matcher fails are passed over. */
  lemma {:induction false} SearchSkips(p: seq<Item>, s: string, from: nat, to: nat)
    requires from <= to <= |s| + 1
    requires forall start :: from <= start < to ==> Backtrack(p, 0, s, start).None?
    ensures Search(p, s, from) == Search(p, s, to)
    decreases |s| + 1 - from
  {
    if from < to {
      SearchSkips(p, s, from + 1, to);
    }
  }
}
