/**
 * The records the parsers produce (model/plan.go) and the errors they return.
 */
module Model {
  import opened Wrappers

  /** Go's time.Time; values come only from the time parser handed to the parsers. */
  type Time(==)

  /** One class absent for a span of periods. */
  datatype Absent = Absent(className: string, periods: string)

  /** One lesson-level change; every field is a trimmed table cell or "". */
  datatype Substitution = Substitution(
    className: string,
    teacher: string,
    period: string,
    substitute: string,
    room: string,
    info: string)

  /** A Substitution whose fields are all still Go's zero value. */
  const EmptySubstitution := Substitution("", "", "", "", "", "")

  /**
   * One day's bulletin. `createdAt` is None where Go leaves the zero time;
   * `infos` is set by the effner DSB parser although model/plan.go declares
   * no such field.
   */
  datatype Plan = Plan(
    title: string,
    date: string,
    createdAt: Option<Time>,
    absent: seq<Absent>,
    infos: seq<string>,
    substitutions: seq<Substitution>)

  /**
   * ErrElementNotFound; the time parser's error on the given text; Go's
   * runtime panic on a slice with a negative or inverted bound; an error of
   * goquery.NewDocumentFromReader.
   */
  datatype Error = ElementNotFound | FormatError(value: string) | SliceOutOfRange | DocumentUnreadable
}
