/** The build-then-query scenario of the graph test: a document with two
    sections, each holding one long passage, is built into a graph, and the
    question `GTM` brings back the passage about the Generic Timer Module. */
module Scenario {
  import opened Wrappers
  import opened Text
  import opened Graphs
  import opened Builder
  import opened Engine

  lemma SectionIdInjective(a: string, b: string)
    requires SectionId(a) == SectionId(b)
    ensures a == b
  {
    assert SectionId(a)[4..] == a && SectionId(b)[4..] == b;
  }

  lemma RunFour(w: Walk, a: DocItem, b: DocItem, c: DocItem, d: DocItem)
    requires w.stack != []
    ensures Run(w, [a, b, c, d]) == Step(Step(Step(Step(w, a), b), c), d)
  {
    var items := [a, b, c, d];
    assert items[1..] == [b, c, d];
    assert items[1..][1..] == [c, d];
    RunTwo(Step(Step(w, a), b), c, d);
  }

  /** After a first header: a long passage adds its node below the section,
      keeps its stripped text, and the stack stays. */
  lemma PassageAfterHeader(w: Walk, sec: NodeId, t: DocItem)
    requires w.stack == [Root, sec] && w.graph.nodes == [Root, sec] && IsSectionId(sec)
    requires forall n :: n in w.graph.attrs <==> n == Root || n == sec
    requires forall e :: e in w.graph.edgeAttrs <==> e == Edge(Root, sec)
    requires IsLongText(t)
    ensures var txt := ContentId(Strip(t.text)); var r := Step(w, t);
      && r.stack == [Root, sec] && r.graph.nodes == [Root, sec, txt]
      && (forall n :: n in r.graph.attrs <==> n == Root || n == sec || n == txt)
      && (forall e :: e in r.graph.edgeAttrs ==> e.src in r.graph.attrs && e.dst in r.graph.attrs)
      && TextOf(r.graph, txt) == Some(Strip(t.text))
  {
    var s := Strip(t.text);
    var txt := ContentId(s);
    ContentIdShape(s);
    IdKinds(sec);
    StepFresh(w, t);
    StepStack(w, t);
    StepText(w, t);
    ContentAttrsKeys(s);
    AttachFacts(w.graph, sec, txt, ContentAttrs(s), "HAS");
    assert [Root, sec] + [txt] == [Root, sec, txt];
    assert w.stack + [] == w.stack;
  }

  /** A further header and long passage, both with new ids, add two nodes and
      leave every other node's attributes alone. */
  lemma NextSection(w: Walk, h: DocItem, t: DocItem, keep: NodeId)
    requires w.stack != [] && Last(w.stack) in w.graph.attrs
    requires IsHeader(h) && IsLongText(t)
    requires SectionId(Strip(h.text)) !in w.graph.attrs && ContentId(Strip(t.text)) !in w.graph.attrs
    requires forall e :: e in w.graph.edgeAttrs ==> e.src in w.graph.attrs && e.dst in w.graph.attrs
    requires keep in w.graph.nodes && keep in w.graph.attrs
    ensures var r := Step(Step(w, h), t);
      && |r.graph.nodes| == |w.graph.nodes| + 2
      && keep in r.graph.nodes && keep in r.graph.attrs && r.graph.attrs[keep] == w.graph.attrs[keep]
  {
    var sec, txt := SectionId(Strip(h.text)), ContentId(Strip(t.text));
    SectionIdShape(Strip(h.text));
    ContentIdShape(Strip(t.text));
    StepFresh(w, h);
    var w1 := Step(w, h);
    StepStack(w, h);
    assert Last(w1.stack) == sec;
    StepFresh(w1, t);
  }

  /** The ids of the second section and passage differ from ROOT and from
      the ids of the first ones. */
  lemma SecondIdsFresh(h1: DocItem, t1: DocItem, h2: DocItem, t2: DocItem)
    requires Strip(h1.text) != Strip(h2.text)
    requires ContentId(Strip(t1.text)) != ContentId(Strip(t2.text))
    ensures var sec1, txt1 := SectionId(Strip(h1.text)), ContentId(Strip(t1.text));
      var sec2, txt2 := SectionId(Strip(h2.text)), ContentId(Strip(t2.text));
      && sec2 != Root && sec2 != sec1 && sec2 != txt1
      && txt2 != Root && txt2 != sec1 && txt2 != txt1
  {
    SectionIdShape(Strip(h1.text));
    SectionIdShape(Strip(h2.text));
    ContentIdShape(Strip(t1.text));
    ContentIdShape(Strip(t2.text));
    if SectionId(Strip(h1.text)) == SectionId(Strip(h2.text)) {
      SectionIdInjective(Strip(h1.text), Strip(h2.text));
    }
  }

  /** From the walk after a first section and its passage: a second header
      and passage with new ids give five nodes and leave the passage's text
      alone. */
  lemma SecondSection(w: Walk, sec: NodeId, txt: NodeId, text: string, h: DocItem, t: DocItem)
    requires w.stack == [Root, sec] && w.graph.nodes == [Root, sec, txt]
    requires forall n :: n in w.graph.attrs <==> n == Root || n == sec || n == txt
    requires forall e :: e in w.graph.edgeAttrs ==> e.src in w.graph.attrs && e.dst in w.graph.attrs
    requires TextOf(w.graph, txt) == Some(text)
    requires IsHeader(h) && IsLongText(t)
    requires var sec2, txt2 := SectionId(Strip(h.text)), ContentId(Strip(t.text));
      && sec2 != Root && sec2 != sec && sec2 != txt
      && txt2 != Root && txt2 != sec && txt2 != txt
    ensures var g := Step(Step(w, h), t).graph;
      && |g.nodes| == 5 && txt in g.nodes && TextOf(g, txt) == Some(text)
  {
    NextSection(w, h, t, txt);
  }

  /** From the walk after a first header: the first passage, a second
      header and a second passage give five nodes, among them the first
      passage with its stripped text. */
  lemma RestOfDocument(w: Walk, h1: DocItem, t1: DocItem, h2: DocItem, t2: DocItem)
    requires IsHeader(h1) && IsLongText(t1) && IsHeader(h2) && IsLongText(t2)
    requires Strip(h1.text) != Strip(h2.text)
    requires ContentId(Strip(t1.text)) != ContentId(Strip(t2.text))
    requires var sec := SectionId(Strip(h1.text));
      && w.stack == [Root, sec] && w.graph.nodes == [Root, sec]
      && (forall n :: n in w.graph.attrs <==> n == Root || n == sec)
      && (forall e :: e in w.graph.edgeAttrs <==> e == Edge(Root, sec))
    ensures var g := Step(Step(Step(w, t1), h2), t2).graph; var txt := ContentId(Strip(t1.text));
      && |g.nodes| == 5
      && txt in g.nodes && TextOf(g, txt) == Some(Strip(t1.text))
  {
    var sec, txt := SectionId(Strip(h1.text)), ContentId(Strip(t1.text));
    SecondIdsFresh(h1, t1, h2, t2);
    SectionIdShape(Strip(h1.text));
    PassageAfterHeader(w, sec, t1);
    SecondSection(Step(w, t1), sec, txt, Strip(t1.text), h2, t2);
  }

  /** Two sections with different titles, each followed by a long passage,
      build five nodes; the first passage is one of them and keeps its
      stripped text. */
  lemma TwoSections(h1: DocItem, t1: DocItem, h2: DocItem, t2: DocItem)
    requires IsHeader(h1) && IsLongText(t1) && IsHeader(h2) && IsLongText(t2)
    requires Strip(h1.text) != Strip(h2.text)
    requires ContentId(Strip(t1.text)) != ContentId(Strip(t2.text))
    ensures var g := Hierarchy(Empty, [h1, t1, h2, t2]); var txt := ContentId(Strip(t1.text));
      && |g.nodes| == 5
      && txt in g.nodes && TextOf(g, txt) == Some(Strip(t1.text))
  {
    FirstHeader(h1);
    var w1 := Step(Start(Empty), h1);
    RestOfDocument(w1, h1, t1, h2, t2);
    RunFour(Start(Empty), h1, t1, h2, t2);
  }

  /** A question that occurs, ignoring case, in the first passage brings that
      passage back in the content line of its node. */
  lemma TwoSectionsQuery(h1: DocItem, t1: DocItem, h2: DocItem, t2: DocItem, question: string)
    requires IsHeader(h1) && IsLongText(t1) && IsHeader(h2) && IsLongText(t2)
    requires Strip(h1.text) != Strip(h2.text)
    requires ContentId(Strip(t1.text)) != ContentId(Strip(t2.text))
    requires Contains(Upper(Strip(t1.text)), Upper(question))
    ensures Contains(Answer(Some(Hierarchy(Empty, [h1, t1, h2, t2])), question), ContentLine(Strip(t1.text)))
  {
    TwoSections(h1, t1, h2, t2);
    SmallGraphShowsMatches(Hierarchy(Empty, [h1, t1, h2, t2]), ContentId(Strip(t1.text)), Strip(t1.text), question);
  }

  // ---------------------------------------------------------------------
  // The test document

  const GtmText: string := "The " + "Generic Timer Module" + " (" + "GTM" + ") ensures precise timing." + " It triggers the ADC."
  const AdcText: string := "The Analog-Digital Converter " + "(ADC) receives triggers from GTM."

  /** The four parsed items of the test document, in reading order. */
  function Document(): seq<DocItem>
  {
    [DocItem("section_header", "GTM Module"), DocItem("text", GtmText),
     DocItem("section_header", "ADC Module"), DocItem("text", AdcText)]
  }

  lemma GtmTextFacts()
    ensures Strip(GtmText) == GtmText && |GtmText| == 75
    ensures GtmText[4..24] == "Generic Timer Module" && GtmText[26..29] == "GTM"
  {
    GtmTextStripped();
    GtmTextPieces();
  }

  lemma GtmTextStripped()
    ensures Strip(GtmText) == GtmText && |GtmText| == 75
  {
    assert GtmText[0] == 'T' && GtmText[74] == '.';
  }

  lemma GtmTextPieces()
    ensures GtmText[4..24] == "Generic Timer Module" && GtmText[26..29] == "GTM"
  {
    var a, b, c, d := "The ", "Generic Timer Module", " (", "GTM";
    var rest := ") ensures precise timing." + " It triggers the ADC.";
    assert GtmText == a + b + c + d + rest;
    assert (a + b + c + d + rest)[4..24] == b;
    assert (a + b + c + d + rest)[26..29] == d;
  }

  lemma AdcTextFacts()
    ensures Strip(AdcText) == AdcText && |AdcText| == 62 && AdcText[4] == 'A'
  {
    assert AdcText[0] == 'T' && AdcText[61] == '.';
  }

  /** Both headers are kept, both passages are long, and their ids differ. */
  lemma DocumentAccepted()
    ensures var d := Document();
      && IsHeader(d[0]) && IsLongText(d[1]) && IsHeader(d[2]) && IsLongText(d[3])
      && Strip(d[0].text) != Strip(d[2].text)
      && ContentId(Strip(d[1].text)) != ContentId(Strip(d[3].text))
  {
    GtmTextFacts();
    AdcTextFacts();
    assert Strip("GTM Module") == "GTM Module";
    assert Strip("ADC Module") == "ADC Module";
    assert "GTM Module"[0] != "ADC Module"[0];
    assert ContentId(GtmText)[8] == GtmText[4] && ContentId(AdcText)[8] == AdcText[4];
  }

  /** `GTM` occurs in the upper-cased first passage. */
  lemma GtmMatches()
    ensures Contains(Upper(GtmText), Upper("GTM"))
  {
    GtmTextFacts();
    assert Upper("GTM") == "GTM";
    assert Upper(GtmText)[26..29] == "GTM";
    ContainsAt(Upper(GtmText), "GTM", 26);
  }

  /** The content line of the first passage mentions `GTM` and
      `Generic Timer Module`. */
  lemma GtmLine()
    ensures Contains(ContentLine(GtmText), "GTM") && Contains(ContentLine(GtmText), "Generic Timer Module")
  {
    GtmTextFacts();
    var line := ContentLine(GtmText);
    assert Take(GtmText, ExcerptLength) == GtmText;
    assert line == "Content: " + GtmText + "...";
    assert line[35..38] == GtmText[26..29];
    assert line[13..33] == GtmText[4..24];
    ContainsAt(line, "GTM", 35);
    ContainsAt(line, "Generic Timer Module", 13);
  }

  /** `query("GTM")` on the graph built from the test document mentions `GTM`
      and `Generic Timer Module`. */
  lemma GtmQuery()
    ensures var a := Answer(Some(Hierarchy(Empty, Document())), "GTM");
      Contains(a, "GTM") && Contains(a, "Generic Timer Module")
  {
    var d := Document();
    DocumentAccepted();
    GtmTextFacts();
    GtmMatches();
    TwoSectionsQuery(d[0], d[1], d[2], d[3], "GTM");
    assert d == [d[0], d[1], d[2], d[3]];
    var a := Answer(Some(Hierarchy(Empty, d)), "GTM");
    GtmLine();
    ContainsTrans(a, ContentLine(GtmText), "GTM");
    ContainsTrans(a, ContentLine(GtmText), "Generic Timer Module");
  }
}
