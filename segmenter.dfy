/**
 * parseDocuments of parsers/effnerDsb.go: cutting the serialised bulletin
 * into one section per day anchor.
 */
module Segmenter {
  import opened Wrappers
  import opened GoStrings
  import opened Markup
  import opened Model

  /** The name of the "back to top" anchor, which marks no day. */
  const TopAnchor := "oben"

  /** The outer HTML of every anchor not named "oben", in document order. */
  function Markers(anchors: seq<Anchor>): (ms: seq<string>)
    ensures |ms| <= |anchors|
  {
    if anchors == [] then []
    else
      var last := anchors[|anchors| - 1];
      Markers(anchors[..|anchors| - 1]) + (if last.name != TopAnchor then [last.outerHtml] else [])
  }

  /** Markers keeps document order: the markers of a concatenation are the concatenated markers. */
  lemma {:induction false} MarkersAppend(a: seq<Anchor>, b: seq<Anchor>)
    ensures Markers(a + b) == Markers(a) + Markers(b)
    decreases |b|
  {
    if b != [] {
      assert (a + b)[..|a + b| - 1] == a + b[..|b| - 1];
      MarkersAppend(a, b[..|b| - 1]);
    } else {
      assert a + b == a;
    }
  }

  /** There are no markers exactly when every anchor is a "back to top" anchor. */
  lemma {:induction false} MarkersEmpty(anchors: seq<Anchor>)
    ensures Markers(anchors) == [] <==> forall i :: 0 <= i < |anchors| ==> anchors[i].name == TopAnchor
    decreases |anchors|
  {
    if anchors != [] {
      var init := anchors[..|anchors| - 1];
      MarkersEmpty(init);
      assert forall i :: 0 <= i < |init| ==> init[i] == anchors[i];
    }
  }

  /** Without "back to top" anchors there is one marker per anchor, in order. */
  lemma {:induction false} MarkersOfDayAnchors(anchors: seq<Anchor>)
    requires forall i :: 0 <= i < |anchors| ==> anchors[i].name != TopAnchor
    ensures |Markers(anchors)| == |anchors|
    ensures forall i :: 0 <= i < |anchors| ==> Markers(anchors)[i] == anchors[i].outerHtml
    decreases |anchors|
  {
    if anchors != [] {
      var init := anchors[..|anchors| - 1];
      MarkersOfDayAnchors(init);
    }
  }

  /** Whether Go can take section i: marker i occurs, and marker i + 1 does not occur first. */
  predicate Sliceable(html: string, ms: seq<string>, i: int)
    requires 0 <= i < |ms|
  {
    && IndexOf(html, ms[i]) >= 0
    && (i == |ms| - 1 || IndexOf(html, ms[i]) <= IndexOf(html, ms[i + 1]))
  }

  /** Whether every section can be taken, so that Go does not panic on a slice bound. */
  predicate Cuttable(html: string, ms: seq<string>) {
    forall i :: 0 <= i < |ms| ==> Sliceable(html, ms, i)
  }

  /**
   * Section i: from the first occurrence of marker i up to the first
   * occurrence of marker i + 1, or to the end for the last marker.
   */
  function Section(html: string, ms: seq<string>, i: int): string
    requires 0 <= i < |ms| && Sliceable(html, ms, i)
  {
    var start := IndexOf(html, ms[i]);
    var end := if i == |ms| - 1 then |html| else IndexOf(html, ms[i + 1]);
    html[start..end]
  }

  /** All sections, in marker order. */
  function SectionList(html: string, ms: seq<string>): seq<string>
    requires Cuttable(html, ms)
  {
    seq(|ms|, i requires 0 <= i < |ms| && Cuttable(html, ms) => Section(html, ms, i))
  }

  /** What parseDocuments returns for `content`. */
  function Segments(content: string, parse: string -> Option<Document>): Result<seq<string>, Error> {
    match parse(content)
    case None => Err(DocumentUnreadable)
    case Some(d) =>
      var ms := Markers(d.anchors);
      if Cuttable(d.html, ms) then Ok(SectionList(d.html, ms)) else Err(SliceOutOfRange)
  }

  /** The concatenation of a list of strings. */
  function Joined(parts: seq<string>): string {
    if parts == [] then [] else parts[0] + Joined(parts[1..])
  }

  /**
   * The sections tile the document: from section i on they add up, with no
   * gap and no overlap, to everything from marker i to the end.
   */
  lemma {:induction false} SectionsTile(html: string, ms: seq<string>, i: nat)
    requires Cuttable(html, ms) && i < |ms|
    ensures Sliceable(html, ms, i) && Joined(SectionList(html, ms)[i..]) == html[IndexOf(html, ms[i])..]
    decreases |ms| - i
  {
    var all := SectionList(html, ms);
    var tail := all[i..];
    assert Sliceable(html, ms, i);
    assert all[i] == Section(html, ms, i);
    assert tail[0] == all[i] && tail[1..] == all[i + 1..];
    assert Joined(tail) == all[i] + Joined(all[i + 1..]);
    var a := IndexOf(html, ms[i]);
    if i == |ms| - 1 {
      assert all[i + 1..] == [];
      assert all[i] == html[a..];
    } else {
      SectionsTile(html, ms, i + 1);
      var b := IndexOf(html, ms[i + 1]);
      assert all[i] == html[a..b];
      assert html[a..] == html[a..b] + html[b..];
    }
  }

  /** The last section is a suffix of the document. */
  lemma LastSectionIsSuffix(html: string, ms: seq<string>)
    requires Cuttable(html, ms) && ms != []
    ensures var last := SectionList(html, ms)[|ms| - 1];
      |last| <= |html| && last == html[|html| - |last|..]
  {
    assert Sliceable(html, ms, |ms| - 1);
  }

  /** A section begins with its own marker unless the next marker is found inside it. */
  lemma SectionBeginsWithMarker(html: string, ms: seq<string>, i: nat)
    requires Cuttable(html, ms) && i < |ms|
    requires i == |ms| - 1 || IndexOf(html, ms[i]) + |ms[i]| <= IndexOf(html, ms[i + 1])
    ensures ms[i] <= SectionList(html, ms)[i]
  {
    assert Sliceable(html, ms, i);
    var start := IndexOf(html, ms[i]);
    assert OccursAt(html, ms[i], start);
    assert html[start..start + |ms[i]|] == ms[i];
  }

  /** Two equal markers in a row leave the first of the two sections empty. */
  lemma RepeatedMarkerEmptiesSection(html: string, ms: seq<string>, i: nat)
    requires Cuttable(html, ms) && i + 1 < |ms| && ms[i] == ms[i + 1]
    ensures SectionList(html, ms)[i] == []
  {
    assert Sliceable(html, ms, i);
  }

  /** A document without day anchors yields no sections and no error. */
  lemma NoMarkersNoSections(content: string, parse: string -> Option<Document>)
    requires parse(content).Some?
    requires forall i :: 0 <= i < |parse(content).value.anchors| ==> parse(content).value.anchors[i].name == TopAnchor
    ensures Segments(content, parse) == Ok([])
  {
    var d := parse(content).value;
    MarkersEmpty(d.anchors);
    assert Cuttable(d.html, Markers(d.anchors));
    assert SectionList(d.html, Markers(d.anchors)) == [];
  }

  /** The `Each` callback of parseDocuments: appends the outer HTML of every anchor not named "oben". */
  method CollectMarkers(anchors: seq<Anchor>) returns (startElements: seq<string>)
    ensures startElements == Markers(anchors)
  {
    startElements := [];
    var i := 0;
    while i < |anchors|
      invariant 0 <= i <= |anchors|
      invariant startElements == Markers(anchors[..i])
    {
      var anchor := anchors[i];
      if anchor.name != TopAnchor {
        startElements := startElements + [anchor.outerHtml];
      }
      assert anchors[..i + 1][..i] == anchors[..i];
      i := i + 1;
    }
    assert anchors[..i] == anchors;
  }

  /**
   * The slicing loop of parseDocuments: section i runs from marker i to
   * marker i + 1, or to the end for the last marker; a marker that is missing
   * or found after the next one makes Go panic on the slice bounds.
   */
  method CutSections(docHtml: string, startElements: seq<string>) returns (r: Result<seq<string>, Error>)
    ensures Cuttable(docHtml, startElements) ==> r == Ok(SectionList(docHtml, startElements))
    ensures !Cuttable(docHtml, startElements) ==> r == Err(SliceOutOfRange)
  {
    var docSections := new string[|startElements|];
    var index := 0;
    while index < |startElements|
      invariant 0 <= index <= |startElements|
      invariant forall j :: 0 <= j < index ==> Sliceable(docHtml, startElements, j)
      invariant forall j :: 0 <= j < index ==> docSections[j] == Section(docHtml, startElements, j)
    {
      var elementIndex := IndexOf(docHtml, startElements[index]);
      if index == |startElements| - 1 {
        if elementIndex < 0 {
          assert !Sliceable(docHtml, startElements, index);
          return Err(SliceOutOfRange);
        }
        docSections[index] := docHtml[elementIndex..];
        assert Sliceable(docHtml, startElements, index);
      } else {
        var endIndex := IndexOf(docHtml, startElements[index + 1]);
        if elementIndex < 0 || endIndex < elementIndex {
          assert !Sliceable(docHtml, startElements, index);
          return Err(SliceOutOfRange);
        }
        docSections[index] := docHtml[elementIndex..endIndex];
        assert Sliceable(docHtml, startElements, index);
      }
      assert docSections[index] == Section(docHtml, startElements, index);
      index := index + 1;
    }
    assert Cuttable(docHtml, startElements);
    var sections := docSections[..];
    assert sections == SectionList(docHtml, startElements);
    r := Ok(sections);
  }

  /** parseDocuments: collects the day markers, then takes one section per marker. */
  method ParseDocuments(content: string, parse: string -> Option<Document>) returns (r: Result<seq<string>, Error>)
    ensures r == Segments(content, parse)
    ensures r.Ok? ==> |r.value| == |Markers(parse(content).value.anchors)|
  {
    var parsed := parse(content);
    if parsed.None? {
      return Err(DocumentUnreadable);
    }
    var document := parsed.value;
    var startElements := CollectMarkers(document.anchors);
    r := CutSections(document.html, startElements);
  }
}
