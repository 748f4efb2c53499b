/**
 * The field extractors of parsers/effnerDsb.go: findDate, findTitle,
 * findCreatedAt, findAbsent, findInfos and findSubstitutions, each reading
 * one parsed day section.
 */
module DsbFields {
  import opened Wrappers
  import opened GoStrings
  import opened Markup
  import opened Model

  // ---------------------------------------------------------------- date and title

  /** findDate: the name of the first `a[name]` anchor, "" when there is none. */
  function FindDate(d: Document): (date: string)
    ensures d.anchors != [] ==> date == d.anchors[0].name
    ensures d.anchors == [] ==> date == ""
  {
    if d.anchors == [] then "" else d.anchors[0].name
  }

  /**
   * findTitle: the `h2` text with its white-space ends cut off; its inner
   * white space is kept.
   */
  function FindTitle(d: Document): (title: string)
    ensures Trimmed(title)
    ensures LeadingSpace(d.h2) + |title| <= |d.h2|
    ensures title == d.h2[LeadingSpace(d.h2)..LeadingSpace(d.h2) + |title|]
    ensures forall k :: 0 <= k < LeadingSpace(d.h2) ==> IsSpace(d.h2[k])
    ensures forall k :: LeadingSpace(d.h2) + |title| <= k < |d.h2| ==> IsSpace(d.h2[k])
  {
    TrimSpaceSpec(d.h2);
    TrimSpace(d.h2)
  }

  // ---------------------------------------------------------------- creation time

  /** The layout handed to time.Parse, e.g. "13.10.2023 um 7:45 Uhr". */
  const CreatedAtLayout := "_2.1.2006 um 15:04 Uhr"

  /** Where the creation note starts in the trimmed `h4` text. */
  const NoteOffset := 11

  /**
   * `text[11:strings.Index(text, ")")]` on the trimmed heading: the text from
   * offset 11 up to the first closing parenthesis. None where Go panics:
   * there is no ")" or the first one lies before offset 11.
   */
  function CreationNote(heading: string): (note: Option<string>)
    ensures var t := TrimSpace(heading);
      note.Some? <==> (')' in t && |t| >= NoteOffset && ')' !in t[..NoteOffset])
    ensures var t := TrimSpace(heading);
      note.Some? ==> ')' !in note.value && t[..NoteOffset] + note.value + ")" <= t
  {
    var text := TrimSpace(heading);
    IndexOfChar(text, ')');
    var close := IndexOf(text, ")");
    if close < NoteOffset then None
    else
      assert text[..close + 1] == text[..NoteOffset] + text[NoteOffset..close] + ")";
      Some(text[NoteOffset..close])
  }

  /**
   * findCreatedAt: the parsed creation note. The `h4` selection being nil is
   * ErrElementNotFound, a slice Go cannot take is a panic, and a note the time
   * parser rejects is its error (the time.Now() returned beside it is
   * dropped by the only caller).
   */
  function FindCreatedAt(d: Document, parseTime: (string, string) -> Option<Time>): (r: Result<Time, Error>)
    ensures d.h4.None? ==> r == Err(ElementNotFound)
    ensures d.h4.Some? && CreationNote(d.h4.value).None? ==> r == Err(SliceOutOfRange)
    ensures d.h4.Some? && CreationNote(d.h4.value).Some? ==>
      var note := CreationNote(d.h4.value).value;
      match parseTime(CreatedAtLayout, note)
      case None => r == Err(FormatError(note))
      case Some(t) => r == Ok(t)
  {
    match d.h4
    case None => Err(ElementNotFound)
    case Some(heading) =>
      match CreationNote(heading)
      case None => Err(SliceOutOfRange)
      case Some(note) =>
        match parseTime(CreatedAtLayout, note)
        case None => Err(FormatError(note))
        case Some(t) => Ok(t)
  }

  /** A heading with no closing parenthesis makes Go panic rather than yield a sentinel time. */
  lemma NoParenthesisPanics(d: Document, parseTime: (string, string) -> Option<Time>)
    requires d.h4.Some? && ')' !in d.h4.value
    ensures FindCreatedAt(d, parseTime) == Err(SliceOutOfRange)
  {
    var t := TrimSpace(d.h4.value);
    TrimSpaceSpec(d.h4.value);
    var i := LeadingSpace(d.h4.value);
    assert forall k :: 0 <= k < |t| ==> t[k] == d.h4.value[i + k];
  }

  // ---------------------------------------------------------------- absences

  /** One Absent per `tr.K` row, fields trimmed. */
  function AbsentOf(rows: seq<AbsenceRow>): seq<Absent> {
    seq(|rows|, i requires 0 <= i < |rows| => Absent(TrimSpace(rows[i].header), TrimSpace(rows[i].periods)))
  }

  /** findAbsent: one record per `tr.K` row, in row order. */
  method FindAbsent(d: Document) returns (r: Result<seq<Absent>, Error>)
    ensures d.absenceTable.None? ==> r == Err(ElementNotFound)
    ensures d.absenceTable.Some? ==> r.Ok? && |r.value| == |d.absenceTable.value|
    ensures d.absenceTable.Some? ==> forall i :: 0 <= i < |r.value| ==>
      r.value[i] == Absent(TrimSpace(d.absenceTable.value[i].header), TrimSpace(d.absenceTable.value[i].periods))
  {
    if d.absenceTable.None? {
      return Err(ElementNotFound);
    }
    var rows := d.absenceTable.value;
    var absents: seq<Absent> := [];
    var i := 0;
    while i < |rows|
      invariant 0 <= i <= |rows|
      invariant |absents| == i
      invariant forall j :: 0 <= j < i ==> absents[j] == Absent(TrimSpace(rows[j].header), TrimSpace(rows[j].periods))
    {
      var className := TrimSpace(rows[i].header);
      var periods := TrimSpace(rows[i].periods);
      absents := absents + [Absent(className, periods)];
      i := i + 1;
    }
    return Ok(absents);
  }

  // ---------------------------------------------------------------- infos

  /** The stray "Â" followed by a no-break space that the bulletins contain. */
  const Artefact: string := ['\U{00C2}', '\U{00A0}']

  /** The clean-up findInfos applies to the text of one cell. */
  function Normalize(text: string): string {
    var t := TrimPrefix(text, "\n");
    var t1 := ReplaceAll(t, "\t", " ");
    var t2 := ReplaceAll(t1, Artefact, " ");
    CollapseSpace(TrimSpace(t2))
  }

  /** What findInfos emits for one cell: nothing when it is empty once one leading newline is dropped. */
  function InfoOf(cell: string): Option<string> {
    if TrimPrefix(cell, "\n") == "" then None else Some(Normalize(cell))
  }

  /** The strings findInfos emits for the given cells, in cell order. */
  function InfosOf(cells: seq<string>): seq<string> {
    if cells == [] then []
    else
      InfosOf(cells[..|cells| - 1]) +
      (match InfoOf(cells[|cells| - 1]) case None => [] case Some(t) => [t])
  }

  /** The shape every emitted info string has. */
  predicate Clean(s: string) {
    && '\t' !in s
    && Trimmed(s)
    && SpacesCollapsed(s)
    && PairFree(s, Artefact[0], Artefact[1])
  }

  /** A cleaned text has no tab, no white space at its ends, no run of two `\s` and no artefact. */
  lemma NormalizeIsClean(text: string)
    ensures Clean(Normalize(text))
  {
    var t := TrimPrefix(text, "\n");
    var t1 := ReplaceAll(t, "\t", " ");
    var t2 := ReplaceAll(t1, Artefact, " ");
    var t3 := TrimSpace(t2);
    var r := CollapseSpace(t3);
    TrimSpaceSpec(t2);
    CollapseSpaceEnds(t3);
    CollapseSpaceSpec(t3);
    ReplacePairLeavesNone(t1, Artefact[0], Artefact[1], ' ');
    assert PairFree(t3, Artefact[0], Artefact[1]) by {
      var i := LeadingSpace(t2);
      forall k | 0 <= k < |t3| - 1 ensures !(t3[k] == Artefact[0] && t3[k + 1] == Artefact[1]) {
        assert t3[k] == t2[i + k] && t3[k + 1] == t2[i + k + 1];
      }
    }
    CollapseSpaceKeepsPairFree(t3, Artefact[0], Artefact[1]);
    assert '\t' !in r by {
      forall k | 0 <= k < |r| ensures r[k] != '\t' {
        assert r[k] == ' ' || !IsRegexSpace(r[k]);
      }
    }
  }

  /** The clean-up is idempotent: a cleaned text comes through unchanged. */
  lemma NormalizeIdempotent(text: string)
    ensures Normalize(Normalize(text)) == Normalize(text)
  {
    var y := Normalize(text);
    NormalizeIsClean(text);
    assert TrimPrefix(y, "\n") == y;
    ReplaceCharAt(y, '\t', ' ');
    assert ReplaceAll(y, "\t", " ") == y;
    ReplaceAllAbsent(y, Artefact[0], Artefact[1], ' ');
    TrimSpaceOfTrimmed(y);
    CollapseSpaceOfCollapsed(y);
  }

  /** A cell holding only white space after its first newline is emitted, as "". */
  lemma BlankCellEmitsEmptyString()
    ensures InfoOf("\n\n") == Some("")
  {
    assert TrimPrefix("\n\n", "\n") == "\n";
    assert ReplaceAll("\n", "\t", " ") == "\n";
    assert ReplaceAll("\n", Artefact, " ") == "\n";
    assert TrimSpace("\n") == "";
  }

  /** findInfos keeps cell order: the infos of a concatenation are the concatenated infos. */
  lemma {:induction false} InfosOfAppend(a: seq<string>, b: seq<string>)
    ensures InfosOf(a + b) == InfosOf(a) + InfosOf(b)
    decreases |b|
  {
    if b == [] {
      assert a + b == a;
    } else {
      assert (a + b)[..|a + b| - 1] == a + b[..|b| - 1];
      InfosOfAppend(a, b[..|b| - 1]);
    }
  }

  /** At most one string per cell, and every one of them clean. */
  lemma {:induction false} InfosOfAreClean(cells: seq<string>)
    ensures |InfosOf(cells)| <= |cells|
    ensures forall i :: 0 <= i < |InfosOf(cells)| ==> Clean(InfosOf(cells)[i])
    decreases |cells|
  {
    if cells != [] {
      InfosOfAreClean(cells[..|cells| - 1]);
      NormalizeIsClean(cells[|cells| - 1]);
    }
  }

  /** When no cell is empty after its first newline, every cell yields exactly its cleaned text. */
  lemma {:induction false} InfosOfNonBlankCells(cells: seq<string>)
    requires forall i :: 0 <= i < |cells| ==> TrimPrefix(cells[i], "\n") != ""
    ensures |InfosOf(cells)| == |cells|
    ensures forall i :: 0 <= i < |cells| ==> InfosOf(cells)[i] == Normalize(cells[i])
    decreases |cells|
  {
    if cells != [] {
      InfosOfNonBlankCells(cells[..|cells| - 1]);
    }
  }

  /** findInfos: the cleaned text of every non-empty `th.F` cell (its error result is always nil). */
  method FindInfos(d: Document) returns (infos: seq<string>)
    ensures d.infoCells.None? ==> infos == []
    ensures d.infoCells.Some? ==> infos == InfosOf(d.infoCells.value)
  {
    if d.infoCells.None? {
      return [];
    }
    var cells := d.infoCells.value;
    infos := [];
    var i := 0;
    while i < |cells|
      invariant 0 <= i <= |cells|
      invariant infos == InfosOf(cells[..i])
    {
      var text := cells[i];
      text := TrimPrefix(text, "\n");
      if text != "" {
        text := ReplaceAll(text, "\t", " ");
        text := ReplaceAll(text, Artefact, " ");
        text := TrimSpace(text);
        text := CollapseSpace(text);
        infos := infos + [text];
      }
      assert cells[..i + 1][..i] == cells[..i];
      i := i + 1;
    }
    assert cells[..i] == cells;
  }

  // ---------------------------------------------------------------- substitutions

  /** The trimmed text of `td` cell i, or "" when the row has fewer cells. */
  function CellText(cells: seq<string>, i: nat): string {
    if i < |cells| then TrimSpace(cells[i]) else ""
  }

  /** A `tr.k` row of a group with class `className`: cells 0..4 are teacher, period, substitute, room, info. */
  function DsbRow(className: string, cells: seq<string>): Substitution {
    Substitution(className, CellText(cells, 0), CellText(cells, 1), CellText(cells, 2), CellText(cells, 3), CellText(cells, 4))
  }

  /** The substitutions of one `tbody.k`, one per `tr.k`, all with its trimmed `th.k` text as class. */
  function GroupSubstitutions(g: RowGroup): seq<Substitution> {
    seq(|g.rows|, k requires 0 <= k < |g.rows| => DsbRow(TrimSpace(g.header), g.rows[k]))
  }

  /** The substitutions of all groups, group after group. */
  function SubstitutionsOf(groups: seq<RowGroup>): seq<Substitution> {
    if groups == [] then []
    else SubstitutionsOf(groups[..|groups| - 1]) + GroupSubstitutions(groups[|groups| - 1])
  }

  /** The number of `tr.k` rows over all groups. */
  function RowCount(groups: seq<RowGroup>): nat {
    if groups == [] then 0 else RowCount(groups[..|groups| - 1]) + |groups[|groups| - 1].rows|
  }

  /** One substitution per row. */
  lemma {:induction false} SubstitutionCount(groups: seq<RowGroup>)
    ensures |SubstitutionsOf(groups)| == RowCount(groups)
    decreases |groups|
  {
    if groups != [] {
      SubstitutionCount(groups[..|groups| - 1]);
    }
  }

  /**
   * Row ri of group gi becomes the substitution at offset
   * RowCount(groups[..gi]) + ri: rows keep document order, and each carries
   * the class of its own group.
   */
  lemma {:induction false} SubstitutionAt(groups: seq<RowGroup>, gi: nat, ri: nat)
    requires gi < |groups| && ri < |groups[gi].rows|
    ensures RowCount(groups[..gi]) + ri < |SubstitutionsOf(groups)|
    ensures SubstitutionsOf(groups)[RowCount(groups[..gi]) + ri] ==
      DsbRow(TrimSpace(groups[gi].header), groups[gi].rows[ri])
    decreases |groups|
  {
    var init := groups[..|groups| - 1];
    SubstitutionCount(init);
    SubstitutionCount(groups);
    if gi == |groups| - 1 {
      assert groups[..gi] == init;
    } else {
      assert init[..gi] == groups[..gi];
      SubstitutionAt(init, gi, ri);
    }
  }

  /** Positional binding: cells after the fifth are ignored, missing cells give "". */
  lemma DsbRowPositional(className: string, cells: seq<string>, extra: seq<string>)
    ensures |cells| >= 5 ==> DsbRow(className, cells + extra) == DsbRow(className, cells)
    ensures |cells| <= 2 ==> var s := DsbRow(className, cells); s.substitute == s.room == s.info == ""
    ensures DsbRow(className, []) == EmptySubstitution.(className := className)
  {
  }

  /** The `td` callback of findSubstitutions: binds each cell of one row by its index. */
  method BindRow(className: string, cells: seq<string>) returns (substitution: Substitution)
    ensures substitution == DsbRow(className, cells)
  {
    substitution := EmptySubstitution.(className := className);
    var index := 0;
    while index < |cells|
      invariant 0 <= index <= |cells|
      invariant substitution == DsbRow(className, cells[..index])
    {
      var text := TrimSpace(cells[index]);
      match index {
        case 0 => substitution := substitution.(teacher := text);
        case 1 => substitution := substitution.(period := text);
        case 2 => substitution := substitution.(substitute := text);
        case 3 => substitution := substitution.(room := text);
        case 4 => substitution := substitution.(info := text);
        case _ =>
      }
      index := index + 1;
    }
    assert cells[..index] == cells;
  }

  /** findSubstitutions: walks the `tbody.k` groups, then their `tr.k` rows, then each row's `td` cells. */
  method FindSubstitutions(d: Document) returns (r: Result<seq<Substitution>, Error>)
    ensures d.substitutionTable.None? ==> r == Err(ElementNotFound)
    ensures d.substitutionTable.Some? ==> r == Ok(SubstitutionsOf(d.substitutionTable.value))
  {
    if d.substitutionTable.None? {
      return Err(ElementNotFound);
    }
    var groups := d.substitutionTable.value;
    var substitutions: seq<Substitution> := [];
    var gi := 0;
    while gi < |groups|
      invariant 0 <= gi <= |groups|
      invariant substitutions == SubstitutionsOf(groups[..gi])
    {
      var group := groups[gi];
      var className := TrimSpace(group.header);
      var ri := 0;
      while ri < |group.rows|
        invariant 0 <= ri <= |group.rows|
        invariant substitutions == SubstitutionsOf(groups[..gi]) + GroupSubstitutions(group)[..ri]
      {
        var substitution := BindRow(className, group.rows[ri]);
        assert GroupSubstitutions(group)[..ri + 1] == GroupSubstitutions(group)[..ri] + [substitution];
        substitutions := substitutions + [substitution];
        ri := ri + 1;
      }
      assert GroupSubstitutions(group)[..ri] == GroupSubstitutions(group);
      assert groups[..gi + 1][..gi] == groups[..gi];
      gi := gi + 1;
    }
    assert groups[..gi] == groups;
    return Ok(substitutions);
  }
}
