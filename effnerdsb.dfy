/**
 * EffnerDSBParser of parsers/effnerDsb.go: parsePlan assembles one plan per
 * section, Parse runs the segmenter and then parsePlan on every section.
 */
module EffnerDsb {
  import opened Wrappers
  import opened Markup
  import opened Model
  import opened Segmenter
  import opened DsbFields

  /**
   * The plan that parsePlan builds from one section, or the first error it
   * meets in the order: parsing the section, creation time, absence table,
   * substitution table.
   */
  function PlanOf(content: string, parse: string -> Option<Document>, parseTime: (string, string) -> Option<Time>): Result<Plan, Error> {
    match parse(content)
    case None => Err(DocumentUnreadable)
    case Some(d) =>
      var createdAt := FindCreatedAt(d, parseTime);
      if createdAt.Err? then Err(createdAt.error)
      else if d.absenceTable.None? then Err(ElementNotFound)
      else if d.substitutionTable.None? then Err(ElementNotFound)
      else
        var infos := if d.infoCells.None? then [] else InfosOf(d.infoCells.value);
        Ok(Plan(FindTitle(d), FindDate(d), Some(createdAt.value), AbsentOf(d.absenceTable.value),
                infos, SubstitutionsOf(d.substitutionTable.value)))
  }

  /**
   * When parsePlan fails and with which error: a plan exactly when the section
   * parses, its creation time parses and both tables are present; a timestamp
   * error wins over a missing table.
   */
  lemma PlanOfOutcome(content: string, parse: string -> Option<Document>, parseTime: (string, string) -> Option<Time>)
    ensures var r := PlanOf(content, parse, parseTime);
      parse(content).None? ==> r == Err(DocumentUnreadable)
    ensures var r := PlanOf(content, parse, parseTime);
      parse(content).Some? ==> var d := parse(content).value;
      && (r.Ok? <==> FindCreatedAt(d, parseTime).Ok? && d.absenceTable.Some? && d.substitutionTable.Some?)
      && (FindCreatedAt(d, parseTime).Err? ==> r == Err(FindCreatedAt(d, parseTime).error))
      && (FindCreatedAt(d, parseTime).Ok? && (d.absenceTable.None? || d.substitutionTable.None?) ==> r == Err(ElementNotFound))
  {
  }

  /** What a plan that parsePlan returns holds: every field comes from its own extractor. */
  lemma PlanFields(content: string, parse: string -> Option<Document>, parseTime: (string, string) -> Option<Time>)
    requires PlanOf(content, parse, parseTime).Ok?
    ensures var p := PlanOf(content, parse, parseTime).value;
      var d := parse(content).value;
      && p.title == FindTitle(d) && p.date == FindDate(d)
      && p.createdAt == Some(FindCreatedAt(d, parseTime).value)
      && p.absent == AbsentOf(d.absenceTable.value)
      && p.infos == (if d.infoCells.None? then [] else InfosOf(d.infoCells.value))
      && p.substitutions == SubstitutionsOf(d.substitutionTable.value)
  {
  }

  /**
   * A creation heading without a closing parenthesis fails the section, and
   * with it the whole call, rather than falling back to a sentinel time.
   */
  lemma MissingParenthesisFailsPlan(content: string, parse: string -> Option<Document>, parseTime: (string, string) -> Option<Time>)
    requires parse(content).Some? && parse(content).value.h4.Some?
    requires ')' !in parse(content).value.h4.value
    ensures PlanOf(content, parse, parseTime) == Err(SliceOutOfRange)
  {
    NoParenthesisPanics(parse(content).value, parseTime);
  }

  /** parsePlan: the extractors one after another, returning on the first error. */
  method ParsePlan(content: string, parse: string -> Option<Document>, parseTime: (string, string) -> Option<Time>)
    returns (r: Result<Plan, Error>)
    ensures r == PlanOf(content, parse, parseTime)
  {
    var parsed := parse(content);
    if parsed.None? {
      return Err(DocumentUnreadable);
    }
    var document := parsed.value;

    var date := FindDate(document);
    var title := FindTitle(document);
    var createdAt := FindCreatedAt(document, parseTime);
    if createdAt.Err? {
      return Err(createdAt.error);
    }

    var absent := FindAbsent(document);
    if absent.Err? {
      return Err(absent.error);
    }

    var infos := FindInfos(document);

    var substitutions := FindSubstitutions(document);
    if substitutions.Err? {
      return Err(substitutions.error);
    }

    assert absent.value == AbsentOf(document.absenceTable.value);
    return Ok(Plan(title, date, Some(createdAt.value), absent.value, infos, substitutions.value));
  }

  /** Section k is the first one whose plan fails. */
  predicate FirstFailureAt(sections: seq<string>, k: int, parse: string -> Option<Document>, parseTime: (string, string) -> Option<Time>)
    requires 0 <= k < |sections|
  {
    && PlanOf(sections[k], parse, parseTime).Err?
    && forall j :: 0 <= j < k ==> PlanOf(sections[j], parse, parseTime).Ok?
  }

  /**
   * The loop of EffnerDSBParser.Parse: either an error and no plans, or
   * exactly one plan per section with plan i built from section i. The first
   * failing section's error is returned.
   */
  method ParseSections(sections: seq<string>, parse: string -> Option<Document>, parseTime: (string, string) -> Option<Time>)
    returns (r: Result<seq<Plan>, Error>)
    ensures r.Ok? <==> forall i :: 0 <= i < |sections| ==> PlanOf(sections[i], parse, parseTime).Ok?
    ensures r.Ok? ==> |r.value| == |sections|
    ensures r.Ok? ==> forall i :: 0 <= i < |sections| ==> Ok(r.value[i]) == PlanOf(sections[i], parse, parseTime)
    ensures r.Err? ==> exists k :: 0 <= k < |sections| && FirstFailureAt(sections, k, parse, parseTime)
                                  && r.error == PlanOf(sections[k], parse, parseTime).error
  {
    var plans := new Plan[|sections|](_ => Plan("", "", None, [], [], []));
    ghost var done: seq<Plan> := [];
    var index := 0;
    while index < |sections|
      invariant 0 <= index <= |sections|
      invariant plans[..index] == done
      invariant forall j :: 0 <= j < index ==> Ok(done[j]) == PlanOf(sections[j], parse, parseTime)
    {
      var plan := ParsePlan(sections[index], parse, parseTime);
      if plan.Err? {
        assert FirstFailureAt(sections, index, parse, parseTime);
        assert !PlanOf(sections[index], parse, parseTime).Ok?;
        r := Err(plan.error);
        assert r.error == PlanOf(sections[index], parse, parseTime).error;
        return;
      }
      plans[index] := plan.value;
      done := done + [plan.value];
      index := index + 1;
    }
    assert plans[..] == plans[..index];
    return Ok(plans[..]);
  }

  /**
   * EffnerDSBParser.Parse: the segmenter's error, or else what the loop over
   * the sections returns.
   */
  method Parse(content: string, parse: string -> Option<Document>, parseTime: (string, string) -> Option<Time>)
    returns (r: Result<seq<Plan>, Error>)
    ensures Segments(content, parse).Err? ==> r == Err(Segments(content, parse).error)
    ensures Segments(content, parse).Ok? ==> var sections := Segments(content, parse).value;
      && (r.Ok? <==> forall i :: 0 <= i < |sections| ==> PlanOf(sections[i], parse, parseTime).Ok?)
      && (r.Ok? ==> |r.value| == |sections|)
      && (r.Ok? ==> forall i :: 0 <= i < |sections| ==> Ok(r.value[i]) == PlanOf(sections[i], parse, parseTime))
      && (r.Err? ==> exists k :: 0 <= k < |sections| && FirstFailureAt(sections, k, parse, parseTime)
                                  && r.error == PlanOf(sections[k], parse, parseTime).error)
    ensures r.Ok? ==> parse(content).Some? && |r.value| == |Markers(parse(content).value.anchors)|
    ensures parse(content).Some? && Markers(parse(content).value.anchors) == [] ==> r == Ok([])
  {
    var documents := ParseDocuments(content, parse);
    if documents.Err? {
      return Err(documents.error);
    }
    r := ParseSections(documents.value, parse, parseTime);
  }
}
