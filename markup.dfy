/**
 * What the HTML library (goquery) reports about one parsed text, as far as
 * the effner DSB parser asks it. Each field is the library's answer to one
 * query of parsers/effnerDsb.go; None stands for a selection that is nil.
 */
module Markup {
  import opened Wrappers

  /** An `a[name]` element: its name attribute and its serialised (outer) HTML. */
  datatype Anchor = Anchor(name: string, outerHtml: string)

  /** One `tbody.k`: the text of its `th.k` cells and, per `tr.k`, the texts of its `td` cells. */
  datatype RowGroup = RowGroup(header: string, rows: seq<seq<string>>)

  /** One `tr.K`: the text of its `th.K` cell and the text of its `td` cells. */
  datatype AbsenceRow = AbsenceRow(header: string, periods: string)

  /**
   * - anchors: every `a[name]` element, in document order;
   * - html: the serialised document (Document.Html());
   * - h2, h4: the text of the `h2` and of the `h4` selection;
   * - substitutionTable: the row groups of `table.k`;
   * - absenceTable: the rows of `table.K`;
   * - infoCells: the texts of the `th.F` cells of the first `table.F`.
   */
  datatype Document = Document(
    anchors: seq<Anchor>,
    html: string,
    h2: string,
    h4: Option<string>,
    substitutionTable: Option<seq<RowGroup>>,
    absenceTable: Option<seq<AbsenceRow>>,
    infoCells: Option<seq<string>>)
}
