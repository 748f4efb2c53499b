/**
 * EffnerDEParser of parsers/effnerDe.go: one plan per `h3` heading, its
 * substitutions read from the table rows selected for that heading.
 */
module EffnerDe {
  import opened Wrappers
  import opened GoStrings
  import opened Model

  /** An element of a goquery selection, known by the `td` texts of each `tr` inside it. */
  datatype Element = Element(rows: seq<seq<string>>)

  /** What the HTML library reports about the page: the text of each `h3`, and every `table`, in document order. */
  datatype Site = Site(headings: seq<string>, tables: seq<Element>)

  /** Selection.First() */
  function First(selection: seq<Element>): seq<Element> {
    if selection == [] then [] else [selection[0]]
  }

  /** The selection after `n` rounds of `table = table.NextAll()`. */
  function Walk(selection: seq<Element>, nextAll: seq<Element> -> seq<Element>, n: nat): seq<Element> {
    if n == 0 then selection else nextAll(Walk(selection, nextAll, n - 1))
  }

  /** The tables Parse reads for heading i: the first table for heading 0, otherwise i NextAll steps from all tables. */
  function TablesFor(tables: seq<Element>, nextAll: seq<Element> -> seq<Element>, i: nat): seq<Element> {
    if i == 0 then First(tables) else Walk(tables, nextAll, i)
  }

  /** Selection.Find("tr"): the rows of all selected elements, in order. */
  function Rows(selection: seq<Element>): seq<seq<string>> {
    if selection == [] then [] else Rows(selection[..|selection| - 1]) + selection[|selection| - 1].rows
  }

  /** The trimmed text of `td` cell i, or "" when the row has fewer cells. */
  function Cell(cells: seq<string>, i: nat): string {
    if i < |cells| then TrimSpace(cells[i]) else ""
  }

  /** A `tr`: cells 0..5 are class, teacher, period, substitute, room, info. */
  function DeRow(cells: seq<string>): Substitution {
    Substitution(Cell(cells, 0), Cell(cells, 1), Cell(cells, 2), Cell(cells, 3), Cell(cells, 4), Cell(cells, 5))
  }

  /** The last piece of `strings.Split(title, " ")`. */
  function DateOf(title: string): string {
    var parts := Split(title, ' ');
    parts[|parts| - 1]
  }

  /** The substitutions of a heading: one per row after the first, which is the header. */
  function DeSubstitutions(rows: seq<seq<string>>): seq<Substitution> {
    if rows == [] then []
    else seq(|rows| - 1, k requires 0 <= k < |rows| - 1 => DeRow(rows[k + 1]))
  }

  /** The plan of a heading; creation time and absences keep their zero values. */
  function HeadingPlan(title: string, rows: seq<seq<string>>): Plan {
    Plan(title, DateOf(title), None, [], [], DeSubstitutions(rows))
  }

  /**
   * The date is the last space-separated token of the untrimmed title: it
   * holds no space, ends the title, and is either the whole title or follows
   * a space.
   */
  lemma DateIsLastToken(title: string)
    ensures var date := DateOf(title);
      && ' ' !in date
      && |date| <= |title| && date == title[|title| - |date|..]
      && (|date| == |title| || title[|title| - |date| - 1] == ' ')
  {
    SplitLast(title, ' ');
  }

  /** A title without a space is its own date; a title ending in a space has the date "". */
  lemma DateEdgeCases(title: string)
    ensures ' ' !in title ==> DateOf(title) == title
    ensures title != [] && title[|title| - 1] == ' ' ==> DateOf(title) == ""
  {
    DateIsLastToken(title);
    var date := DateOf(title);
    if ' ' !in title {
      assert forall k :: 0 <= k < |title| ==> title[k] != ' ';
    }
    assert forall k :: 0 <= k < |date| ==> date[k] == title[|title| - |date| + k];
  }

  /** The first row is skipped as a header; every later row gives one substitution, in order. */
  lemma HeaderRowSkipped(rows: seq<seq<string>>)
    ensures |DeSubstitutions(rows)| == if rows == [] then 0 else |rows| - 1
    ensures forall k :: 1 <= k < |rows| ==> DeSubstitutions(rows)[k - 1] == DeRow(rows[k])
    ensures |rows| <= 1 ==> DeSubstitutions(rows) == []
  {
    if rows != [] {
      var subs := seq(|rows| - 1, k requires 0 <= k < |rows| - 1 => DeRow(rows[k + 1]));
      assert DeSubstitutions(rows) == subs;
      forall k | 1 <= k < |rows|
        ensures DeSubstitutions(rows)[k - 1] == DeRow(rows[k])
      {
        assert subs[k - 1] == DeRow(rows[k]);
      }
    }
  }

  /** Positional binding: cells after the sixth are ignored, missing cells give "". */
  lemma DeRowPositional(cells: seq<string>, extra: seq<string>)
    ensures |cells| >= 6 ==> DeRow(cells + extra) == DeRow(cells)
    ensures DeRow([]) == EmptySubstitution
  {
  }

  /** For heading 0 only the first table is read. */
  lemma FirstHeadingReadsFirstTable(tables: seq<Element>, nextAll: seq<Element> -> seq<Element>)
    ensures Rows(TablesFor(tables, nextAll, 0)) == if tables == [] then [] else tables[0].rows
  {
    if tables != [] {
      assert First(tables)[..0] == [];
    }
  }

  /** The `td` callback: binds each cell by its index. */
  method BindCells(cells: seq<string>) returns (substitution: Substitution)
    ensures substitution == DeRow(cells)
  {
    substitution := EmptySubstitution;
    var index := 0;
    while index < |cells|
      invariant 0 <= index <= |cells|
      invariant substitution == DeRow(cells[..index])
    {
      var text := TrimSpace(cells[index]);
      match index {
        case 0 => substitution := substitution.(className := text);
        case 1 => substitution := substitution.(teacher := text);
        case 2 => substitution := substitution.(period := text);
        case 3 => substitution := substitution.(substitute := text);
        case 4 => substitution := substitution.(room := text);
        case 5 => substitution := substitution.(info := text);
        case _ =>
      }
      index := index + 1;
    }
    assert cells[..index] == cells;
  }

  /** The `tr` callback: skips row 0 and appends one substitution per later row. */
  method ReadRows(rows: seq<seq<string>>) returns (substitutions: seq<Substitution>)
    ensures substitutions == DeSubstitutions(rows)
  {
    substitutions := [];
    var ri := 0;
    while ri < |rows|
      invariant 0 <= ri <= |rows|
      invariant |substitutions| == if ri == 0 then 0 else ri - 1
      invariant forall k :: 0 <= k < |substitutions| ==> substitutions[k] == DeRow(rows[k + 1])
    {
      if ri != 0 {
        var substitution := BindCells(rows[ri]);
        substitutions := substitutions + [substitution];
        assert substitutions[ri - 1] == DeRow(rows[ri]);
      }
      ri := ri + 1;
    }
    HeaderRowSkipped(rows);
  }

  /**
   * EffnerDEParser.Parse: one plan per heading, in heading order, and no
   * error once the page has been read.
   */
  method Parse(content: string, parse: string -> Option<Site>, nextAll: seq<Element> -> seq<Element>)
    returns (r: Result<seq<Plan>, Error>)
    ensures parse(content).None? ==> r == Err(DocumentUnreadable)
    ensures parse(content).Some? ==> var site := parse(content).value;
      && r.Ok? && |r.value| == |site.headings|
      && forall i :: 0 <= i < |site.headings| ==>
           r.value[i] == HeadingPlan(site.headings[i], Rows(TablesFor(site.tables, nextAll, i)))
  {
    var parsed := parse(content);
    if parsed.None? {
      return Err(DocumentUnreadable);
    }
    var site := parsed.value;

    var plans: seq<Plan> := [];
    var i := 0;
    while i < |site.headings|
      invariant 0 <= i <= |site.headings|
      invariant |plans| == i
      invariant forall j :: 0 <= j < i ==> plans[j] == HeadingPlan(site.headings[j], Rows(TablesFor(site.tables, nextAll, j)))
    {
      var title := site.headings[i];
      var dateParts := Split(title, ' ');
      var date := dateParts[|dateParts| - 1];
      var plan := Plan(title, date, None, [], [], []);

      var table := site.tables;
      var x := 0;
      while x < i
        invariant 0 <= x <= i
        invariant table == Walk(site.tables, nextAll, x)
      {
        table := nextAll(table);
        x := x + 1;
      }
      if i == 0 {
        table := First(table);
      }

      var substitutions := ReadRows(Rows(table));
      plan := plan.(substitutions := substitutions);
      plans := plans + [plan];
      i := i + 1;
    }
    return Ok(plans);
  }
}
