/**
  * `exportToCSV`: the theme tree flattened to four-cell rows under a header
  * row, built by pushing rows inside loops over themes, epics, stories and
  * criteria; then every cell quoted with inner double quotes doubled, cells
  * joined by ',' and rows by '\n'. An empty theme list exports nothing.
  */
module Export {
  import opened Wrappers
  import opened StoryMap

  type Row = seq<string>

  const Header: Row := ["Theme", "Epic", "User Story", "Acceptance Criteria"]

  /** The cell text of a story and of a criterion. */
  function StoryText(s: UserStory): string { StorySentence(s.user, s.action, s.result) }
  function CriteriaCell(c: AcceptanceCriteria): string { CriteriaSentence(c.given, c.when, c.outcome) }

  // ---------------------------------------------------------------------------
  // The rows, level by level: each level lists the rows of its children in
  // order, as the nested loops push them.
  // ---------------------------------------------------------------------------

  /** The rows of every element of xs, in order; written over a growing prefix. */
  function FlatMap<T>(xs: seq<T>, f: T -> seq<Row>): seq<Row> {
    if xs == [] then [] else FlatMap(xs[..|xs| - 1], f) + f(xs[|xs| - 1])
  }

  /** One row per criterion. */
  function CriteriaRows(theme: string, epic: string, story: string, cs: seq<AcceptanceCriteria>): seq<Row> {
    FlatMap(cs, (c: AcceptanceCriteria) => [[theme, epic, story, CriteriaCell(c)]])
  }

  /** The rows of one story: one per criterion, or one with an empty fourth cell. */
  function StoryRows(theme: string, epic: string, s: UserStory): seq<Row> {
    if s.acceptanceCriteria == [] then [[theme, epic, StoryText(s), ""]]
    else CriteriaRows(theme, epic, StoryText(s), s.acceptanceCriteria)
  }

  function StoriesRows(theme: string, epic: string, ss: seq<UserStory>): seq<Row> {
    FlatMap(ss, (s: UserStory) => StoryRows(theme, epic, s))
  }

  /** The rows of one epic; an epic without stories still gets one row. */
  function EpicRows(theme: string, e: Epic): seq<Row> {
    StoriesRows(theme, e.title, e.userStories) + (if e.userStories == [] then [[theme, e.title, "", ""]] else [])
  }

  function EpicsRows(theme: string, es: seq<Epic>): seq<Row> {
    FlatMap(es, (e: Epic) => EpicRows(theme, e))
  }

  /** The rows of one theme; a theme without epics still gets one row. */
  function ThemeRows(t: Theme): seq<Row> {
    EpicsRows(t.title, t.epics) + (if t.epics == [] then [[t.title, "", "", ""]] else [])
  }

  /** The rows of the themes, without the header. */
  function TreeRows(ts: seq<Theme>): seq<Row> {
    FlatMap(ts, ThemeRows)
  }

  // ---------------------------------------------------------------------------
  // FlatMap: growing, appending, and what holds of every row.
  // ---------------------------------------------------------------------------

  lemma FlatMapNext<T>(xs: seq<T>, f: T -> seq<Row>, j: nat)
    requires j < |xs|
    ensures FlatMap(xs[..j + 1], f) == FlatMap(xs[..j], f) + f(xs[j])
  {
    assert xs[..j + 1][..j] == xs[..j];
  }

  lemma {:induction false} FlatMapAppend<T>(xs: seq<T>, ys: seq<T>, f: T -> seq<Row>)
    ensures FlatMap(xs + ys, f) == FlatMap(xs, f) + FlatMap(ys, f)
    decreases |ys|
  {
    if ys == [] {
      assert xs + ys == xs;
    } else {
      var n := |ys| - 1;
      assert (xs + ys)[..|xs + ys| - 1] == xs + ys[..n];
      assert (xs + ys)[|xs + ys| - 1] == ys[n];
      FlatMapAppend(xs, ys[..n], f);
    }
  }

  /** What holds of every row of every element holds of every row of the whole. */
  lemma {:induction false} FlatMapAll<T>(xs: seq<T>, f: T -> seq<Row>, p: Row -> bool)
    requires forall x, r :: x in xs && r in f(x) ==> p(r)
    ensures forall r :: r in FlatMap(xs, f) ==> p(r)
    decreases |xs|
  {
    if xs != [] {
      var n := |xs| - 1;
      assert forall x :: x in xs[..n] ==> x in xs;
      FlatMapAll(xs[..n], f, p);
    }
  }

  /** Elements that each give a row give at least as many rows as elements. */
  lemma {:induction false} FlatMapLength<T>(xs: seq<T>, f: T -> seq<Row>)
    requires forall x :: x in xs ==> f(x) != []
    ensures |FlatMap(xs, f)| >= |xs|
    decreases |xs|
  {
    if xs != [] {
      var n := |xs| - 1;
      assert forall x :: x in xs[..n] ==> x in xs;
      assert xs[n] in xs;
      FlatMapLength(xs[..n], f);
    }
  }

  lemma CriteriaRowsNext(theme: string, epic: string, story: string, cs: seq<AcceptanceCriteria>, j: nat)
    requires j < |cs|
    ensures CriteriaRows(theme, epic, story, cs[..j + 1])
         == CriteriaRows(theme, epic, story, cs[..j]) + [[theme, epic, story, CriteriaCell(cs[j])]]
  {
    FlatMapNext(cs, (c: AcceptanceCriteria) => [[theme, epic, story, CriteriaCell(c)]], j);
  }

  lemma StoriesRowsNext(theme: string, epic: string, ss: seq<UserStory>, j: nat)
    requires j < |ss|
    ensures StoriesRows(theme, epic, ss[..j + 1]) == StoriesRows(theme, epic, ss[..j]) + StoryRows(theme, epic, ss[j])
  {
    FlatMapNext(ss, (s: UserStory) => StoryRows(theme, epic, s), j);
  }

  lemma EpicsRowsNext(theme: string, es: seq<Epic>, j: nat)
    requires j < |es|
    ensures EpicsRows(theme, es[..j + 1]) == EpicsRows(theme, es[..j]) + EpicRows(theme, es[j])
  {
    FlatMapNext(es, (e: Epic) => EpicRows(theme, e), j);
  }

  lemma TreeRowsNext(ts: seq<Theme>, j: nat)
    requires j < |ts|
    ensures TreeRows(ts[..j + 1]) == TreeRows(ts[..j]) + ThemeRows(ts[j])
  {
    FlatMapNext(ts, ThemeRows, j);
  }

  // ---------------------------------------------------------------------------
  // What the rows hold.
  // ---------------------------------------------------------------------------

  /** A story with k criteria gives k rows, one per criterion in order. */
  lemma {:induction false} CriteriaRowsEach(theme: string, epic: string, story: string, cs: seq<AcceptanceCriteria>)
    ensures |CriteriaRows(theme, epic, story, cs)| == |cs|
    ensures forall i :: 0 <= i < |cs| ==>
      CriteriaRows(theme, epic, story, cs)[i] == [theme, epic, story, CriteriaCell(cs[i])]
    decreases |cs|
  {
    if cs != [] {
      var n := |cs| - 1;
      CriteriaRowsEach(theme, epic, story, cs[..n]);
      CriteriaRowsNext(theme, epic, story, cs, n);
      assert cs[..n + 1] == cs;
      assert forall i :: 0 <= i < n ==> cs[..n][i] == cs[i];
    }
  }

  /**
    * A story's rows: one per criterion, or a single row with an empty
    * fourth cell; each carries the theme, the epic and the story sentence.
    */
  lemma StoryRowsEach(theme: string, epic: string, s: UserStory)
    ensures |StoryRows(theme, epic, s)| == if s.acceptanceCriteria == [] then 1 else |s.acceptanceCriteria|
    ensures forall i :: 0 <= i < |StoryRows(theme, epic, s)| ==>
      StoryRows(theme, epic, s)[i] ==
        [theme, epic, StorySentence(s.user, s.action, s.result),
         if s.acceptanceCriteria == [] then "" else CriteriaCell(s.acceptanceCriteria[i])]
  {
    CriteriaRowsEach(theme, epic, StoryText(s), s.acceptanceCriteria);
  }

  /** Every row has four cells and starts with these theme and epic cells. */
  ghost predicate Under(rows: seq<Row>, theme: string, epic: string) {
    forall r :: r in rows ==> |r| == 4 && r[0] == theme && r[1] == epic
  }

  /**
    * Every row of an epic has four cells, the theme and the epic title; there
    * is at least one, and one without stories gives exactly [theme, epic, '', ''].
    */
  lemma EpicRowsUnder(theme: string, e: Epic)
    ensures Under(EpicRows(theme, e), theme, e.title)
    ensures |EpicRows(theme, e)| >= 1
    ensures e.userStories == [] ==> EpicRows(theme, e) == [[theme, e.title, "", ""]]
  {
    var f := (s: UserStory) => StoryRows(theme, e.title, s);
    forall s, r | s in e.userStories && r in f(s)
      ensures |r| == 4 && r[0] == theme && r[1] == e.title
    {
      StoryRowsEach(theme, e.title, s);
    }
    FlatMapAll(e.userStories, f, (r: Row) => |r| == 4 && r[0] == theme && r[1] == e.title);
  }

  /** Every row has four cells and starts with this theme cell. */
  ghost predicate InTheme(rows: seq<Row>, theme: string) {
    forall r :: r in rows ==> |r| == 4 && r[0] == theme
  }

  /**
    * Every row of a theme has four cells and the theme title; there is at
    * least one, and one without epics gives exactly [theme, '', '', ''].
    */
  lemma ThemeRowsInTheme(t: Theme)
    ensures InTheme(ThemeRows(t), t.title)
    ensures |ThemeRows(t)| >= 1
    ensures t.epics == [] ==> ThemeRows(t) == [[t.title, "", "", ""]]
  {
    var f := (e: Epic) => EpicRows(t.title, e);
    forall e, r | e in t.epics && r in f(e)
      ensures |r| == 4 && r[0] == t.title
    {
      EpicRowsUnder(t.title, e);
    }
    FlatMapAll(t.epics, f, (r: Row) => |r| == 4 && r[0] == t.title);
  }

  /** Every exported row has four cells, and every theme gives at least one. */
  lemma TreeRowsFour(ts: seq<Theme>)
    ensures forall r :: r in TreeRows(ts) ==> |r| == 4
    ensures |TreeRows(ts)| >= |ts|
  {
    forall t, r | t in ts && r in ThemeRows(t)
      ensures |r| == 4
    {
      ThemeRowsInTheme(t);
    }
    forall t | t in ts
      ensures ThemeRows(t) != []
    {
      ThemeRowsInTheme(t);
    }
    FlatMapAll(ts, ThemeRows, (r: Row) => |r| == 4);
    FlatMapLength(ts, ThemeRows);
  }

  /** Rows follow the theme order: the rows of two theme lists are concatenated. */
  lemma TreeRowsAppend(ts: seq<Theme>, us: seq<Theme>)
    ensures TreeRows(ts + us) == TreeRows(ts) + TreeRows(us)
  {
    FlatMapAppend(ts, us, ThemeRows);
  }

  // ---------------------------------------------------------------------------
  // The loops that push the rows.
  // ---------------------------------------------------------------------------

  method PushStoryRows(rows: seq<Row>, theme: string, epic: string, s: UserStory) returns (out: seq<Row>)
    ensures out == rows + StoryRows(theme, epic, s)
  {
    var text := StoryText(s);
    if |s.acceptanceCriteria| == 0 {
      out := rows + [[theme, epic, text, ""]];
    } else {
      out := rows;
      var j := 0;
      while j < |s.acceptanceCriteria|
        invariant 0 <= j <= |s.acceptanceCriteria|
        invariant out == rows + CriteriaRows(theme, epic, text, s.acceptanceCriteria[..j])
      {
        var c := s.acceptanceCriteria[j];
        CriteriaRowsNext(theme, epic, text, s.acceptanceCriteria, j);
        out := out + [[theme, epic, text, CriteriaSentence(c.given, c.when, c.outcome)]];
        j := j + 1;
      }
      assert s.acceptanceCriteria[..j] == s.acceptanceCriteria;
    }
  }

  method PushEpicRows(rows: seq<Row>, theme: string, e: Epic) returns (out: seq<Row>)
    ensures out == rows + EpicRows(theme, e)
  {
    out := rows;
    var j := 0;
    while j < |e.userStories|
      invariant 0 <= j <= |e.userStories|
      invariant out == rows + StoriesRows(theme, e.title, e.userStories[..j])
    {
      StoriesRowsNext(theme, e.title, e.userStories, j);
      out := PushStoryRows(out, theme, e.title, e.userStories[j]);
      j := j + 1;
    }
    assert e.userStories[..j] == e.userStories;
    if |e.userStories| == 0 {
      out := out + [[theme, e.title, "", ""]];
    }
  }

  method PushThemeRows(rows: seq<Row>, t: Theme) returns (out: seq<Row>)
    ensures out == rows + ThemeRows(t)
  {
    out := rows;
    var j := 0;
    while j < |t.epics|
      invariant 0 <= j <= |t.epics|
      invariant out == rows + EpicsRows(t.title, t.epics[..j])
    {
      EpicsRowsNext(t.title, t.epics, j);
      out := PushEpicRows(out, t.title, t.epics[j]);
      j := j + 1;
    }
    assert t.epics[..j] == t.epics;
    if |t.epics| == 0 {
      out := out + [[t.title, "", "", ""]];
    }
  }

  /** The header row, then the rows of every theme in order. */
  method CsvRows(themes: seq<Theme>) returns (rows: seq<Row>)
    ensures rows == [Header] + TreeRows(themes)
  {
    rows := [Header];
    var i := 0;
    while i < |themes|
      invariant 0 <= i <= |themes|
      invariant rows == [Header] + TreeRows(themes[..i])
    {
      TreeRowsNext(themes, i);
      rows := PushThemeRows(rows, themes[i]);
      i := i + 1;
    }
    assert themes[..i] == themes;
  }

  // ---------------------------------------------------------------------------
  // Quoting and joining.
  // ---------------------------------------------------------------------------

  /** The cell with every '"' doubled. */
  function Escape(cell: string): (r: string)
    ensures |r| >= |cell|
  {
    if cell == [] then []
    else
      (if cell[0] == '"' then "\"\"" else [cell[0]]) + Escape(cell[1..])
  }

  /** The cell in double quotes, inner quotes doubled. */
  function QuoteCell(cell: string): string { "\"" + Escape(cell) + "\"" }

  /** Quoted cells joined by ','. */
  function JoinCells(cells: seq<string>): string {
    if cells == [] then ""
    else if |cells| == 1 then QuoteCell(cells[0])
    else QuoteCell(cells[0]) + "," + JoinCells(cells[1..])
  }

  /** Encoded rows joined by '\n' (no trailing line break). */
  function JoinRows(rows: seq<Row>): string {
    if rows == [] then ""
    else if |rows| == 1 then JoinCells(rows[0])
    else JoinCells(rows[0]) + "\n" + JoinRows(rows[1..])
  }

  /** Escaping adds one character per '"' and leaves a cell without quotes as it is. */
  lemma {:induction false} EscapeCounts(cell: string)
    ensures |Escape(cell)| == |cell| + multiset(cell)['"']
    ensures '"' !in cell ==> Escape(cell) == cell
  {
    if cell != [] {
      assert cell == [cell[0]] + cell[1..];
      EscapeCounts(cell[1..]);
    }
  }

  /** A quoted cell opens and closes with '"'; between them sits the cell itself when it has no quote. */
  lemma QuoteCellShape(cell: string)
    ensures var q := QuoteCell(cell);
      && |q| == |cell| + multiset(cell)['"'] + 2 && q[0] == '"' && q[|q| - 1] == '"'
      && ('"' !in cell ==> q[1..|q| - 1] == cell)
  {
    EscapeCounts(cell);
  }

  /** Joined cells are empty only for no cells; otherwise they open and close with a quote. */
  lemma {:induction false} JoinCellsShape(cells: seq<string>)
    ensures JoinCells(cells) == "" <==> cells == []
    ensures cells != [] ==> JoinCells(cells)[0] == '"' && JoinCells(cells)[|JoinCells(cells)| - 1] == '"'
  {
    if cells != [] {
      QuoteCellShape(cells[0]);
      if |cells| > 1 {
        JoinCellsShape(cells[1..]);
      }
    }
  }

  /**
    * Joined rows: no rows give the empty text; a first row with cells opens it
    * with a quote, and a last row with cells closes it with one, so there is
    * no trailing line break.
    */
  lemma {:induction false} JoinRowsShape(rows: seq<Row>)
    ensures rows == [] ==> JoinRows(rows) == ""
    ensures rows != [] && rows[0] != [] ==> JoinRows(rows) != "" && JoinRows(rows)[0] == '"'
    ensures rows != [] && rows[|rows| - 1] != [] ==> JoinRows(rows) != "" && JoinRows(rows)[|JoinRows(rows)| - 1] == '"'
  {
    if rows != [] {
      JoinCellsShape(rows[0]);
      if |rows| > 1 {
        JoinRowsShape(rows[1..]);
      }
    }
  }

  // ---------------------------------------------------------------------------
  // Reading the text back. The application has no reader; this is the inverse
  // the encoding is proved against. Positions index into the whole text `t`.
  // ---------------------------------------------------------------------------

  /**
    * The inside of a quoted cell from position i to its closing quote: a
    * doubled '"' stands for one. Gives the cell and the position after the
    * closing quote.
    */
  function ReadBody(t: string, i: nat): (r: Option<(string, nat)>)
    ensures r.Some? ==> i < r.value.1 <= |t|
    decreases |t| - i
  {
    if i >= |t| then None
    else if t[i] != '"' then
      match ReadBody(t, i + 1)
      case Some((rest, j)) => Some(([t[i]] + rest, j))
      case None => None
    else if i + 1 < |t| && t[i + 1] == '"' then
      match ReadBody(t, i + 2)
      case Some((rest, j)) => Some(("\"" + rest, j))
      case None => None
    else Some(("", i + 1))
  }

  /** A quoted cell at position i. */
  function ReadCell(t: string, i: nat): Option<(string, nat)> {
    if i < |t| && t[i] == '"' then ReadBody(t, i + 1) else None
  }

  /** The text of a single quoted cell, unquoted. */
  function Unquote(q: string): Option<string> {
    match ReadCell(q, 0)
    case Some((cell, j)) => if j == |q| then Some(cell) else None
    case None => None
  }

  /** Quoted cells separated by ',' from position i. */
  function ReadRow(t: string, i: nat): (r: Option<(Row, nat)>)
    ensures r.Some? ==> i < r.value.1 <= |t|
    decreases |t| - i
  {
    match ReadCell(t, i)
    case None => None
    case Some((cell, j)) =>
      if j < |t| && t[j] == ',' then
        match ReadRow(t, j + 1)
        case Some((cells, k)) => Some(([cell] + cells, k))
        case None => None
      else Some(([cell], j))
  }

  /** Rows separated by '\n' from position i to the end of the text. */
  function ReadTable(t: string, i: nat): Option<seq<Row>>
    decreases |t| - i
  {
    match ReadRow(t, i)
    case None => None
    case Some((row, j)) =>
      if j == |t| then Some([row])
      else if t[j] == '\n' then
        match ReadTable(t, j + 1)
        case Some(rows) => Some([row] + rows)
        case None => None
      else None
  }

  function Decode(t: string): Option<seq<Row>> { ReadTable(t, 0) }

  /** The text holds s from position i on. */
  ghost predicate At(t: string, i: nat, s: string)
    decreases |s|
  {
    if s == [] then i <= |t| else i < |t| && t[i] == s[0] && At(t, i + 1, s[1..])
  }

  lemma {:induction false} AtBound(t: string, i: nat, s: string)
    requires At(t, i, s)
    ensures i + |s| <= |t|
    decreases |s|
  {
    if s != [] {
      AtBound(t, i + 1, s[1..]);
    }
  }

  /** Holding x + y is holding x, then y. */
  lemma {:induction false} AtAppend(t: string, i: nat, x: string, y: string)
    ensures At(t, i, x + y) <==> At(t, i, x) && At(t, i + |x|, y)
    decreases |x|
  {
    if x == [] {
      assert x + y == y;
      if At(t, i, y) {
        AtBound(t, i, y);
      }
    } else {
      assert (x + y)[0] == x[0];
      assert (x + y)[1..] == x[1..] + y;
      AtAppend(t, i + 1, x[1..], y);
    }
  }

  /** A text holds its own suffixes. */
  lemma {:induction false} AtSuffix(t: string, i: nat)
    requires i <= |t|
    ensures At(t, i, t[i..])
    decreases |t| - i
  {
    if i < |t| {
      assert t[i..][1..] == t[i + 1..];
      AtSuffix(t, i + 1);
    }
  }

  lemma {:induction false} ReadEscaped(t: string, i: nat, cell: string)
    requires At(t, i, Escape(cell)) && i + |Escape(cell)| < |t| && t[i + |Escape(cell)|] == '"'
    requires i + |Escape(cell)| + 1 == |t| || t[i + |Escape(cell)| + 1] != '"'
    ensures ReadBody(t, i) == Some((cell, i + |Escape(cell)| + 1))
    decreases |cell|
  {
    if cell != [] {
      var e := Escape(cell[1..]);
      var head := if cell[0] == '"' then "\"\"" else [cell[0]];
      assert Escape(cell) == head + e;
      AtAppend(t, i, head, e);
      assert t[i] == head[0];
      if cell[0] == '"' {
        assert At(t, i + 1, head[1..]);
        assert t[i + 1] == '"';
      }
      ReadEscaped(t, i + |head|, cell[1..]);
      assert [cell[0]] + cell[1..] == cell;
      assert i + |head| + |e| + 1 == i + |Escape(cell)| + 1;
    }
  }

  /** A quoted cell followed by anything but '"' reads back as the cell. */
  lemma ReadQuoted(t: string, i: nat, cell: string)
    requires At(t, i, QuoteCell(cell)) && i + |QuoteCell(cell)| <= |t|
    requires i + |QuoteCell(cell)| == |t| || t[i + |QuoteCell(cell)|] != '"'
    ensures ReadCell(t, i) == Some((cell, i + |QuoteCell(cell)|))
  {
    var e := Escape(cell);
    AtAppend(t, i, "\"" + e, "\"");
    AtAppend(t, i, "\"", e);
    assert t[i] == '"';
    assert t[i + 1 + |e|] == '"';
    AtBound(t, i + 1, e);
    ReadEscaped(t, i + 1, cell);
  }

  /** Unquoting a quoted cell gives the original cell back. */
  lemma UnquoteQuote(cell: string)
    ensures Unquote(QuoteCell(cell)) == Some(cell)
  {
    var q := QuoteCell(cell);
    AtSuffix(q, 0);
    assert q[0..] == q;
    ReadQuoted(q, 0, cell);
  }

  /** A cell followed by ',' and more cells reads as one longer row. */
  lemma ReadRowMore(t: string, i: nat, cells: Row, j: nat, k: nat)
    requires |cells| > 1 && ReadCell(t, i) == Some((cells[0], j)) && j < |t| && t[j] == ','
    requires ReadRow(t, j + 1) == Some((cells[1..], k))
    ensures ReadRow(t, i) == Some((cells, k))
  {
    assert [cells[0]] + cells[1..] == cells;
  }

  /** A cell followed by the end of the text or '\n' reads as a row of one. */
  lemma ReadRowLast(t: string, i: nat, cells: Row, j: nat)
    requires |cells| == 1 && ReadCell(t, i) == Some((cells[0], j)) && (j == |t| || t[j] == '\n')
    ensures ReadRow(t, i) == Some((cells, j))
  {
    assert [cells[0]] == cells;
  }

  /** A row followed by '\n' and more rows reads as one longer table. */
  lemma ReadTableMore(t: string, i: nat, rows: seq<Row>, j: nat)
    requires |rows| > 1 && ReadRow(t, i) == Some((rows[0], j)) && j < |t| && t[j] == '\n'
    requires ReadTable(t, j + 1) == Some(rows[1..])
    ensures ReadTable(t, i) == Some(rows)
  {
    assert [rows[0]] + rows[1..] == rows;
  }

  /** A last row reads as a table of one. */
  lemma ReadTableLast(t: string, i: nat, rows: seq<Row>)
    requires |rows| == 1 && ReadRow(t, i) == Some((rows[0], |t|))
    ensures ReadTable(t, i) == Some(rows)
  {
    assert [rows[0]] == rows;
  }

  /** Where the first cell, the ',' after it and the other cells sit. */
  lemma CellsLayout(t: string, i: nat, cells: seq<string>)
    requires |cells| > 1 && At(t, i, JoinCells(cells))
    ensures |JoinCells(cells)| == |QuoteCell(cells[0])| + 1 + |JoinCells(cells[1..])|
    ensures At(t, i, QuoteCell(cells[0]))
    ensures i + |QuoteCell(cells[0])| < |t| && t[i + |QuoteCell(cells[0])|] == ','
    ensures At(t, i + |QuoteCell(cells[0])| + 1, JoinCells(cells[1..]))
  {
    var q := QuoteCell(cells[0]);
    var rest := JoinCells(cells[1..]);
    assert JoinCells(cells) == (q + ",") + rest;
    AtAppend(t, i, q + ",", rest);
    AtAppend(t, i, q, ",");
  }

  /**
    * Quoted cells can be read one by one from position i, each but the last
    * followed by ','; the last ends at e.
    */
  ghost predicate CellsAt(t: string, i: nat, cells: seq<string>, e: nat)
    decreases |cells|
  {
    && cells != []
    && ReadCell(t, i).Some? && ReadCell(t, i).value.0 == cells[0]
    && var j := ReadCell(t, i).value.1;
       if |cells| == 1 then j == e
       else j < |t| && t[j] == ',' && CellsAt(t, j + 1, cells[1..], e)
  }

  lemma {:induction false} CellsAtJoined(t: string, i: nat, cells: seq<string>)
    requires cells != [] && At(t, i, JoinCells(cells)) && i + |JoinCells(cells)| <= |t|
    requires i + |JoinCells(cells)| == |t| || t[i + |JoinCells(cells)|] == '\n'
    ensures CellsAt(t, i, cells, i + |JoinCells(cells)|)
    decreases |cells|
  {
    if |cells| == 1 {
      assert JoinCells(cells) == QuoteCell(cells[0]);
      ReadQuoted(t, i, cells[0]);
    } else {
      CellsLayout(t, i, cells);
      AtBound(t, i, QuoteCell(cells[0]));
      ReadQuoted(t, i, cells[0]);
      CellsAtJoined(t, i + |QuoteCell(cells[0])| + 1, cells[1..]);
    }
  }

  lemma {:induction false} ReadJoinedCells(t: string, i: nat, cells: seq<string>, e: nat)
    requires CellsAt(t, i, cells, e) && (e == |t| || (e < |t| && t[e] == '\n'))
    ensures ReadRow(t, i) == Some((cells, e))
    decreases |cells|
  {
    var j := ReadCell(t, i).value.1;
    if |cells| == 1 {
      ReadRowLast(t, i, cells, j);
    } else {
      ReadJoinedCells(t, j + 1, cells[1..], e);
      ReadRowMore(t, i, cells, j, e);
    }
  }

  /** A row of quoted cells followed by the end of the text or '\n' reads back. */
  lemma ReadJoinedRow(t: string, i: nat, row: Row)
    requires row != [] && At(t, i, JoinCells(row)) && i + |JoinCells(row)| <= |t|
    requires i + |JoinCells(row)| == |t| || t[i + |JoinCells(row)|] == '\n'
    ensures ReadRow(t, i) == Some((row, i + |JoinCells(row)|))
  {
    CellsAtJoined(t, i, row);
    ReadJoinedCells(t, i, row, i + |JoinCells(row)|);
  }

  /** Where the first row, the '\n' after it and the other rows sit. */
  lemma RowsLayout(t: string, i: nat, rows: seq<Row>)
    requires |rows| > 1 && At(t, i, JoinRows(rows))
    ensures |JoinRows(rows)| == |JoinCells(rows[0])| + 1 + |JoinRows(rows[1..])|
    ensures At(t, i, JoinCells(rows[0]))
    ensures i + |JoinCells(rows[0])| < |t| && t[i + |JoinCells(rows[0])|] == '\n'
    ensures At(t, i + |JoinCells(rows[0])| + 1, JoinRows(rows[1..]))
  {
    var line := JoinCells(rows[0]);
    var rest := JoinRows(rows[1..]);
    assert JoinRows(rows) == (line + "\n") + rest;
    AtBound(t, i, JoinRows(rows));
    AtAppend(t, i, line + "\n", rest);
    AtAppend(t, i, line, "\n");
  }

  /**
    * Rows can be read one by one from position i to the end of the text,
    * each but the last followed by '\n'.
    */
  ghost predicate RowsAt(t: string, i: nat, rows: seq<Row>)
    decreases |rows|
  {
    && rows != []
    && ReadRow(t, i).Some? && ReadRow(t, i).value.0 == rows[0]
    && var j := ReadRow(t, i).value.1;
       if |rows| == 1 then j == |t|
       else j < |t| && t[j] == '\n' && RowsAt(t, j + 1, rows[1..])
  }

  /** The text holds the encoded rows from position i to its end, each but the last followed by '\n'. */
  ghost predicate LinesAt(t: string, i: nat, rows: seq<Row>)
    decreases |rows|
  {
    && rows != []
    && At(t, i, JoinCells(rows[0])) && i + |JoinCells(rows[0])| <= |t|
    && if |rows| == 1 then i + |JoinCells(rows[0])| == |t|
       else
         && i + |JoinCells(rows[0])| < |t| && t[i + |JoinCells(rows[0])|] == '\n'
         && LinesAt(t, i + |JoinCells(rows[0])| + 1, rows[1..])
  }

  lemma {:induction false} LinesAtJoined(t: string, i: nat, rows: seq<Row>)
    requires rows != [] && At(t, i, JoinRows(rows)) && i + |JoinRows(rows)| == |t|
    ensures LinesAt(t, i, rows)
    decreases |rows|
  {
    if |rows| == 1 {
      assert JoinRows(rows) == JoinCells(rows[0]);
    } else {
      RowsLayout(t, i, rows);
      AtBound(t, i, JoinCells(rows[0]));
      LinesAtJoined(t, i + |JoinCells(rows[0])| + 1, rows[1..]);
    }
  }

  lemma {:induction false} RowsAtLines(t: string, i: nat, rows: seq<Row>)
    requires [] !in rows && LinesAt(t, i, rows)
    ensures RowsAt(t, i, rows)
    decreases |rows|
  {
    assert rows[0] in rows;
    ReadJoinedRow(t, i, rows[0]);
    if |rows| > 1 {
      assert [] !in rows[1..] by {
        assert rows == [rows[0]] + rows[1..];
      }
      RowsAtLines(t, i + |JoinCells(rows[0])| + 1, rows[1..]);
    }
  }

  lemma {:induction false} ReadJoinedRows(t: string, i: nat, rows: seq<Row>)
    requires RowsAt(t, i, rows)
    ensures ReadTable(t, i) == Some(rows)
    decreases |rows|
  {
    var j := ReadRow(t, i).value.1;
    if |rows| == 1 {
      ReadTableLast(t, i, rows);
    } else {
      ReadJoinedRows(t, j + 1, rows[1..]);
      ReadTableMore(t, i, rows, j);
    }
  }

  /** Any table whose rows all have cells reads back from its encoding. */
  lemma DecodeJoinRows(rows: seq<Row>)
    requires rows != [] && [] !in rows
    ensures Decode(JoinRows(rows)) == Some(rows)
  {
    var t := JoinRows(rows);
    AtSuffix(t, 0);
    assert t[0..] == t;
    LinesAtJoined(t, 0, rows);
    RowsAtLines(t, 0, rows);
    ReadJoinedRows(t, 0, rows);
  }

  /** The exported table reads back as the header and the rows of every theme. */
  lemma DecodeExport(themes: seq<Theme>)
    ensures Decode(JoinRows([Header] + TreeRows(themes))) == Some([Header] + TreeRows(themes))
  {
    var rows := [Header] + TreeRows(themes);
    TreeRowsFour(themes);
    assert [] !in rows by {
      assert forall r :: r in rows ==> r == Header || r in TreeRows(themes);
    }
    DecodeJoinRows(rows);
  }

  /**
    * The file content, or nothing when there are no themes. The content reads
    * back as the header row followed by the rows of every theme.
    */
  method ExportToCsv(themes: seq<Theme>) returns (csv: Option<string>)
    ensures themes == [] <==> csv.None?
    ensures csv.Some? ==> csv.value == JoinRows([Header] + TreeRows(themes))
    ensures csv.Some? ==> Decode(csv.value) == Some([Header] + TreeRows(themes))
  {
    if |themes| == 0 {
      return None;
    }
    var rows := CsvRows(themes);
    DecodeExport(themes);
    return Some(JoinRows(rows));
  }
}
