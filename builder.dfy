/** The graph builder: one pass over the parsed document items that adds a
    root, one node per non-blank section header and one node per long text
    passage, each joined to the current parent. The parent stack is only
    ever pushed, so the current parent is ROOT until the first header and
    the most recent header afterwards. */
module Builder {
  import opened Wrappers
  import opened Text
  import opened Graphs

  /** One parsed document item: its kind, the source's `item.label` (`section_header`, `text` or any
      other) and its text. */
  datatype DocItem = DocItem(kind: string, text: string)

  const Root: NodeId := "ROOT"
  const SectionPrefix: string := "SEC:"
  const ContentPrefix: string := "TXT:"
  /** A text item is kept only when its stripped text is longer than this. */
  const MinContentLength: nat := 50
  /** A content node's id keeps this many leading characters of its text. */
  const ContentIdLength: nat := 20

  function SectionId(t: string): NodeId
  {
    SectionPrefix + t
  }

  function ContentId(t: string): NodeId
  {
    ContentPrefix + Take(t, ContentIdLength)
  }

  function RootAttrs(): Attrs
  {
    map["type" := "Root"]
  }

  function SectionAttrs(t: string): Attrs
  {
    map["type" := "Section", "label" := t]
  }

  function ContentAttrs(t: string): Attrs
  {
    map["type" := "Content", "text" := t]
  }

  function Relation(rel: string): Attrs
  {
    map["relation" := rel]
  }

  /** A header that the pass turns into a section node. */
  predicate IsHeader(item: DocItem)
  {
    item.kind == "section_header" && Strip(item.text) != []
  }

  /** A text item that the pass turns into a content node. */
  predicate IsLongText(item: DocItem)
  {
    item.kind == "text" && |Strip(item.text)| > MinContentLength
  }

  predicate Accepted(item: DocItem)
  {
    IsHeader(item) || IsLongText(item)
  }

  /** The state of the hierarchy pass: the graph so far and the ids on the
      parent stack (the depth the source pairs with each id is never read). */
  datatype Walk = Walk(graph: Graph, stack: seq<NodeId>)

  function Last(stack: seq<NodeId>): NodeId
    requires stack != []
  {
    stack[|stack| - 1]
  }

  /** The node an accepted item is recorded under: `SEC:` + the stripped
      header, or `TXT:` + the first 20 characters of the stripped text. */
  function ItemId(item: DocItem): NodeId
  {
    if item.kind == "section_header" then SectionId(Strip(item.text)) else ContentId(Strip(item.text))
  }

  /** The attributes an accepted item gives its node. */
  function ItemAttrs(item: DocItem): Attrs
  {
    if item.kind == "section_header" then SectionAttrs(Strip(item.text)) else ContentAttrs(Strip(item.text))
  }

  /** The relation on the edge from the current parent to an accepted item. */
  function ItemRelation(item: DocItem): string
  {
    if item.kind == "section_header" then "CONTAINS" else "HAS"
  }

  /** `add_node(id, **a)` followed by `add_edge(parent, id, relation=rel)`. */
  function Attach(g: Graph, parent: NodeId, id: NodeId, a: Attrs, rel: string): Graph
  {
    AddEdge(AddNode(g, id, a), parent, id, Relation(rel))
  }

  /** What the pass does with one item: an accepted item is attached to the
      current parent, and a header becomes the new current parent. */
  function Step(w: Walk, item: DocItem): (r: Walk)
    requires w.stack != []
    ensures r.stack != []
  {
    if Accepted(item) then
      var id := ItemId(item);
      Walk(Attach(w.graph, Last(w.stack), id, ItemAttrs(item), ItemRelation(item)),
           if IsHeader(item) then w.stack + [id] else w.stack)
    else w
  }

  /** The pass over a sequence of items, in order. */
  function Run(w: Walk, items: seq<DocItem>): (r: Walk)
    requires w.stack != []
    ensures r.stack != []
    decreases |items|
  {
    if items == [] then w else Run(Step(w, items[0]), items[1..])
  }

  /** The state before the first item: ROOT added, ROOT alone on the stack. */
  function Start(g: Graph): Walk
  {
    Walk(AddNode(g, Root, RootAttrs()), [Root])
  }

  function HierarchyWalk(g: Graph, items: seq<DocItem>): Walk
  {
    Run(Start(g), items)
  }

  /** The graph after `_add_hierarchy` has run on a graph `g`. */
  function Hierarchy(g: Graph, items: seq<DocItem>): Graph
  {
    HierarchyWalk(g, items).graph
  }

  class GraphBuilder {
    /** `self.graph`: created with the builder and extended by every `build`. */
    var graph: Graph
    /** Whether a language model is configured (`self.llm` is set). */
    const llmEnabled: bool

    constructor (llmEnabled: bool)
      ensures graph == Empty && this.llmEnabled == llmEnabled
    {
      graph := Empty;
      this.llmEnabled := llmEnabled;
    }

    /** `_add_hierarchy`. */
    method AddHierarchy(items: seq<DocItem>)
      modifies this
      ensures graph == Hierarchy(old(graph), items)
    {
      var root := Root;
      graph := AddNode(graph, root, RootAttrs());
      var stack := [root];
      for i := 0 to |items|
        invariant stack != []
        invariant Run(Walk(graph, stack), items[i..]) == HierarchyWalk(old(graph), items)
      {
        assert items[i..] == [items[i]] + items[i + 1..];
        var item := items[i];
        if item.kind == "section_header" {
          var text := Strip(item.text);
          if text == [] {
            continue;
          }
          var nodeId := SectionId(text);
          graph := AddNode(graph, nodeId, SectionAttrs(text));
          var parentId := stack[|stack| - 1];
          graph := AddEdge(graph, parentId, nodeId, Relation("CONTAINS"));
          stack := stack + [nodeId];
        } else if item.kind == "text" {
          var text := Strip(item.text);
          if |text| > MinContentLength {
            var chunkId := ContentId(text);
            graph := AddNode(graph, chunkId, ContentAttrs(text));
            var parentId := stack[|stack| - 1];
            graph := AddEdge(graph, parentId, chunkId, Relation("HAS"));
          }
        }
      }
    }

    /** `_add_semantics`: the relation-extraction pass is a no-op. */
    method AddSemantics(items: seq<DocItem>)
      modifies this
      ensures graph == old(graph)
    {
    }

    /** `build`, given what the document converter produced: the items of the
        document, or the message of the exception it raised. */
    method Build(doc: Result<seq<DocItem>, string>, outputPath: string) returns (r: Result<string, string>)
      modifies this
      ensures doc.Err? ==> r == Err(doc.error) && graph == old(graph)
      ensures doc.Ok? ==> r == Ok(outputPath) && graph == Hierarchy(old(graph), doc.value)
    {
      if doc.Err? {
        return Err(doc.error);
      }
      AddHierarchy(doc.value);
      if llmEnabled {
        AddSemantics(doc.value);
      }
      r := Ok(outputPath);
    }
  }

  // ---------------------------------------------------------------------
  // One item at a time

  /** An item that is neither a non-blank header nor a long text changes
      nothing: not the graph and not the current parent. */
  lemma StepIgnored(w: Walk, item: DocItem)
    requires w.stack != [] && !Accepted(item)
    ensures Step(w, item) == w
  {
  }

  /** A key of the right operand of a dictionary merge takes its value. */
  lemma MergeLookup(m: Attrs, a: Attrs, k: string)
    requires k in a
    ensures k in m + a && (m + a)[k] == a[k]
  {
  }

  predicate IsSectionId(n: NodeId)
  {
    StartsWith(n, SectionPrefix)
  }

  predicate IsContentId(n: NodeId)
  {
    StartsWith(n, ContentPrefix)
  }

  /** Section ids, content ids and ROOT are three disjoint kinds of id. */
  lemma IdKinds(n: NodeId)
    ensures !(IsSectionId(n) && IsContentId(n))
    ensures IsSectionId(n) || IsContentId(n) ==> n != Root
  {
    if IsSectionId(n) { assert n[0] == SectionPrefix[0]; }
    if IsContentId(n) { assert n[0] == ContentPrefix[0]; }
  }

  lemma SectionIdShape(t: string)
    ensures IsSectionId(SectionId(t)) && !IsContentId(SectionId(t)) && SectionId(t) != Root
  {
    assert SectionId(t)[..4] == SectionPrefix;
    IdKinds(SectionId(t));
  }

  lemma ContentIdShape(t: string)
    ensures IsContentId(ContentId(t)) && !IsSectionId(ContentId(t)) && ContentId(t) != Root
  {
    assert ContentId(t)[..4] == ContentPrefix;
    IdKinds(ContentId(t));
  }

  /** The two attributes of a content node; `"type"` and `"text"` are
      different keys. */
  lemma ContentAttrsKeys(s: string)
    ensures "type" in ContentAttrs(s) && ContentAttrs(s)["type"] == "Content"
    ensures "text" in ContentAttrs(s) && ContentAttrs(s)["text"] == s
  {
    assert "type" != "text" by { assert "type"[1] != "text"[1]; }
  }

  lemma SectionAttrsKeys(t: string)
    ensures "type" in SectionAttrs(t) && SectionAttrs(t)["type"] == "Section"
    ensures "label" in SectionAttrs(t) && SectionAttrs(t)["label"] == t
  {
  }

  /** Attaching `id` below `parent` leaves `id` a node holding every attribute
      of `a`, and the edge `parent -> id` holding the relation `rel`. */
  lemma AttachFacts(g: Graph, parent: NodeId, id: NodeId, a: Attrs, rel: string)
    ensures var r := Attach(g, parent, id, a, rel);
      && id in r.attrs && (forall k :: k in a ==> k in r.attrs[id] && r.attrs[id][k] == a[k])
      && Edge(parent, id) in r.edgeAttrs
      && "relation" in r.edgeAttrs[Edge(parent, id)] && r.edgeAttrs[Edge(parent, id)]["relation"] == rel
  {
    var g1 := AddNode(g, id, a);
    var e := Edge(parent, id);
    assert Attach(g, parent, id, a, rel).attrs[id] == g1.attrs[id];
    MergeLookup(if e in g1.edgeAttrs then g1.edgeAttrs[e] else map[], Relation(rel), "relation");
  }

  /** A non-blank header `t` gives the node `SEC:t` of type Section with label
      `t`, a CONTAINS edge from the current parent, and `SEC:t` becomes the new
      current parent. A header seen before reuses its node. */
  lemma StepHeader(w: Walk, item: DocItem)
    requires w.stack != [] && IsHeader(item)
    ensures var t := Strip(item.text); var id := SectionId(t); var r := Step(w, item);
      && id in r.graph.attrs
      && r.graph.attrs[id]["type"] == "Section" && r.graph.attrs[id]["label"] == t
      && Edge(Last(w.stack), id) in r.graph.edgeAttrs
      && r.graph.edgeAttrs[Edge(Last(w.stack), id)]["relation"] == "CONTAINS"
      && r.stack == w.stack + [id]
      && (id in w.graph.attrs && Last(w.stack) in w.graph.attrs ==> r.graph.nodes == w.graph.nodes)
  {
    var t := Strip(item.text);
    SectionAttrsKeys(t);
    AttachFacts(w.graph, Last(w.stack), SectionId(t), SectionAttrs(t), "CONTAINS");
  }

  /** Two consecutive identical headers leave a self-loop on their node. */
  lemma RepeatedHeaderSelfLoop(w: Walk, item: DocItem)
    requires w.stack != [] && IsHeader(item)
    ensures var id := SectionId(Strip(item.text)); var r := Step(Step(w, item), item);
      Edge(id, id) in r.graph.edgeAttrs && r.graph.edgeAttrs[Edge(id, id)]["relation"] == "CONTAINS"
  {
    StepHeader(w, item);
    StepHeader(Step(w, item), item);
  }

  /** A long text `s` gives the node `TXT:` + its first 20 characters, of type
      Content and with text `s`, and a HAS edge from the current parent; the
      current parent stays. */
  lemma StepText(w: Walk, item: DocItem)
    requires w.stack != [] && IsLongText(item)
    ensures var s := Strip(item.text); var id := ContentId(s); var r := Step(w, item);
      && id == ContentPrefix + s[..ContentIdLength]
      && id in r.graph.attrs
      && r.graph.attrs[id]["type"] == "Content" && r.graph.attrs[id]["text"] == s
      && Edge(Last(w.stack), id) in r.graph.edgeAttrs
      && r.graph.edgeAttrs[Edge(Last(w.stack), id)]["relation"] == "HAS"
      && r.stack == w.stack
  {
    var s := Strip(item.text);
    assert Take(s, ContentIdLength) == s[..ContentIdLength];
    ContentAttrsKeys(s);
    AttachFacts(w.graph, Last(w.stack), ContentId(s), ContentAttrs(s), "HAS");
  }

  /** Two long passages under the same parent that share their first 20
      characters collapse into one node, which keeps the later text; the
      second adds no node and no edge. */
  lemma TextCollision(w: Walk, a: DocItem, b: DocItem)
    requires w.stack != [] && IsLongText(a) && IsLongText(b)
    requires Strip(a.text)[..ContentIdLength] == Strip(b.text)[..ContentIdLength]
    ensures var w1 := Step(w, a); var w2 := Step(w1, b); var id := ContentId(Strip(a.text));
      && ContentId(Strip(b.text)) == id
      && w2.graph.nodes == w1.graph.nodes && w2.graph.edges == w1.graph.edges
      && w2.graph.attrs[id]["text"] == Strip(b.text)
  {
    StepText(w, a);
    StepText(Step(w, a), b);
  }

  /** The stack after one item: pushed by a non-blank header, kept otherwise. */
  lemma StepStack(w: Walk, item: DocItem)
    requires w.stack != []
    ensures Step(w, item).stack == w.stack + (if IsHeader(item) then [SectionId(Strip(item.text))] else [])
  {
    if !IsHeader(item) {
      assert w.stack + [] == w.stack;
    }
  }

  /** One item adds at most one node and at most one edge, at the end. */
  lemma StepExtends(w: Walk, item: DocItem)
    requires w.stack != []
    ensures Grows(w.graph, Step(w, item).graph)
  {
    if Accepted(item) {
      var id := ItemId(item);
      var g1 := AddNode(w.graph, id, ItemAttrs(item));
      var g2 := AddEdge(g1, Last(w.stack), id, Relation(ItemRelation(item)));
      assert Step(w, item).graph == g2;
      AddNodeGrows(w.graph, id, ItemAttrs(item));
      AddEdgeGrows(g1, Last(w.stack), id, Relation(ItemRelation(item)));
      GrowthTransitive(w.graph, g1, g2);
    }
  }

  /** An accepted item whose node is new, under a parent that is a node, adds
      exactly that node and the edge from the parent to it, both at the end. */
  lemma StepFresh(w: Walk, item: DocItem)
    requires w.stack != [] && Accepted(item)
    requires Last(w.stack) in w.graph.attrs && ItemId(item) !in w.graph.attrs
    requires Edge(Last(w.stack), ItemId(item)) !in w.graph.edgeAttrs
    ensures var id := ItemId(item); var p := Last(w.stack); var g := Step(w, item).graph;
      && g.nodes == w.graph.nodes + [id]
      && g.edges == w.graph.edges + [Edge(p, id)]
      && (forall n :: n in g.attrs <==> n in w.graph.attrs || n == id)
      && (forall e :: e in g.edgeAttrs <==> e in w.graph.edgeAttrs || e == Edge(p, id))
  {
    var id := ItemId(item);
    var g1 := AddNode(w.graph, id, ItemAttrs(item));
    assert Step(w, item).graph == AddEdge(g1, Last(w.stack), id, Relation(ItemRelation(item)));
  }

  // ---------------------------------------------------------------------
  // The whole pass

  /** The ids pushed on the parent stack by `items`: one per non-blank
      header, in order. */
  function HeaderIds(items: seq<DocItem>): seq<NodeId>
  {
    if items == [] then []
    else (if IsHeader(items[0]) then [SectionId(Strip(items[0].text))] else []) + HeaderIds(items[1..])
  }

  /** The stack is only pushed: after the pass it is the old stack followed by
      one entry per non-blank header. */
  lemma {:induction false} RunStack(w: Walk, items: seq<DocItem>)
    requires w.stack != []
    ensures Run(w, items).stack == w.stack + HeaderIds(items)
    decreases |items|
  {
    if items != [] {
      var w1 := Step(w, items[0]);
      assert Run(w, items) == Run(w1, items[1..]);
      RunStack(w1, items[1..]);
      StepStack(w, items[0]);
      var pushed, rest := w1.stack[|w.stack|..], HeaderIds(items[1..]);
      assert HeaderIds(items) == pushed + rest;
      assert (w.stack + pushed) + rest == w.stack + (pushed + rest);
    }
  }

  /** The current parent at the end of the pass: ROOT when no header was
      accepted, otherwise the node of the last accepted header. */
  lemma FinalParent(g: Graph, items: seq<DocItem>)
    ensures var ids := HeaderIds(items);
      Last(HierarchyWalk(g, items).stack) == if ids == [] then Root else Last(ids)
  {
    RunStack(Start(g), items);
  }

  /** Node and edge lists only grow at the end. */
  lemma {:induction false} RunExtends(w: Walk, items: seq<DocItem>)
    requires w.stack != []
    ensures Grows(w.graph, Run(w, items).graph)
    decreases |items|
  {
    if items != [] {
      var w1 := Step(w, items[0]);
      assert Run(w, items) == Run(w1, items[1..]);
      StepExtends(w, items[0]);
      RunExtends(w1, items[1..]);
      GrowthTransitive(w.graph, w1.graph, Run(w1, items[1..]).graph);
    }
  }

  /** A second pass on the same builder keeps everything the first one
      added, in place, and may only add nodes and edges at the end. */
  lemma HierarchyExtends(g: Graph, items: seq<DocItem>)
    ensures var r := Hierarchy(g, items);
      && |g.nodes| <= |r.nodes| && r.nodes[..|g.nodes|] == g.nodes
      && |g.edges| <= |r.edges| && r.edges[..|g.edges|] == g.edges
      && (forall n :: n in g.attrs ==> n in r.attrs)
  {
    RunExtends(Start(g), items);
    AddNodeGrows(g, Root, RootAttrs());
    GrowthTransitive(g, Start(g).graph, Hierarchy(g, items));
  }

  /** Items that are all ignored change nothing. */
  lemma {:induction false} RunIgnored(w: Walk, items: seq<DocItem>)
    requires w.stack != []
    requires forall k :: 0 <= k < |items| ==> !Accepted(items[k])
    ensures Run(w, items) == w
    decreases |items|
  {
    if items != [] {
      StepIgnored(w, items[0]);
      RunIgnored(w, items[1..]);
    }
  }

  /** A fresh builder given no non-blank header and no long text builds
      exactly the node ROOT, of type Root, and no edge. */
  lemma NothingAccepted(items: seq<DocItem>)
    requires forall k :: 0 <= k < |items| ==> !Accepted(items[k])
    ensures Hierarchy(Empty, items) == Graph([Root], map[Root := RootAttrs()], [], map[])
  {
    RunIgnored(Start(Empty), items);
  }

  lemma RunOne(w: Walk, b: DocItem)
    requires w.stack != []
    ensures Run(w, [b]) == Step(w, b)
  {
  }

  /** A pass over `a + b` is a pass over `a` continued with `b`. */
  lemma {:induction false} RunAppend(w: Walk, a: seq<DocItem>, b: seq<DocItem>)
    requires w.stack != []
    ensures Run(w, a + b) == Run(Run(w, a), b)
    decreases |a|
  {
    if a == [] {
      assert a + b == b;
    } else {
      var w1 := Step(w, a[0]);
      assert (a + b)[0] == a[0];
      assert (a + b)[1..] == a[1..] + b;
      assert Run(w, a + b) == Run(w1, a[1..] + b);
      RunAppend(w1, a[1..], b);
    }
  }

  lemma RunTwo(w: Walk, a: DocItem, b: DocItem)
    requires w.stack != []
    ensures Run(w, [a, b]) == Step(Step(w, a), b)
  {
    var w1 := Step(w, a);
    assert Run(w, [a, b]) == Run(w1, [b]);
    RunOne(w1, b);
  }

  /** A non-blank header as the first item of a fresh builder's pass. */
  lemma FirstHeader(header: DocItem)
    requires IsHeader(header)
    ensures var sec := SectionId(Strip(header.text)); var w := Step(Start(Empty), header);
      && w.stack == [Root, sec]
      && w.graph.nodes == [Root, sec] && w.graph.edges == [Edge(Root, sec)]
      && (forall n :: n in w.graph.attrs <==> n == Root || n == sec)
      && (forall e :: e in w.graph.edgeAttrs <==> e == Edge(Root, sec))
  {
    SectionIdShape(Strip(header.text));
    var w0 := Start(Empty);
    assert w0.graph.nodes == [Root] && w0.graph.edges == [] && w0.graph.edgeAttrs == map[];
    assert forall n :: n in w0.graph.attrs <==> n == Root;
    StepFresh(w0, header);
  }

  /** A fresh builder given a non-blank header and then a long text builds
      ROOT, the section node and the content node, in that order, with the
      edges ROOT -> section and section -> content. */
  lemma HeaderThenText(header: DocItem, text: DocItem)
    requires IsHeader(header) && IsLongText(text)
    ensures var sec := SectionId(Strip(header.text)); var txt := ContentId(Strip(text.text));
      var g := Hierarchy(Empty, [header, text]);
      && |g.nodes| == 3 && g.nodes[0] == Root && g.nodes[1] == sec && g.nodes[2] == txt
      && |g.edges| == 2 && g.edges[0] == Edge(Root, sec) && g.edges[1] == Edge(sec, txt)
      && (forall n :: n in g.attrs <==> n == Root || n == sec || n == txt)
      && (forall e :: e in g.edgeAttrs <==> e == Edge(Root, sec) || e == Edge(sec, txt))
  {
    var sec := SectionId(Strip(header.text));
    SectionIdShape(Strip(header.text));
    FirstHeader(header);
    var w1 := Step(Start(Empty), header);
    TextBelowSection(w1, sec, text);
    RunTwo(Start(Empty), header, text);
  }

  /** A long text read while the stack is `[ROOT, sec]` and the graph holds
      just ROOT, `sec` and the edge between them. */
  lemma TextBelowSection(w: Walk, sec: NodeId, text: DocItem)
    requires IsLongText(text) && sec != Root && !IsContentId(sec)
    requires w.stack == [Root, sec] && w.graph.nodes == [Root, sec] && w.graph.edges == [Edge(Root, sec)]
    requires forall n :: n in w.graph.attrs <==> n == Root || n == sec
    requires forall e :: e in w.graph.edgeAttrs <==> e == Edge(Root, sec)
    ensures var txt := ContentId(Strip(text.text)); var g := Step(w, text).graph;
      && |g.nodes| == 3 && g.nodes[0] == Root && g.nodes[1] == sec && g.nodes[2] == txt
      && |g.edges| == 2 && g.edges[0] == Edge(Root, sec) && g.edges[1] == Edge(sec, txt)
      && (forall n :: n in g.attrs <==> n == Root || n == sec || n == txt)
      && (forall e :: e in g.edgeAttrs <==> e == Edge(Root, sec) || e == Edge(sec, txt))
  {
    var txt := ContentId(Strip(text.text));
    ContentIdShape(Strip(text.text));
    assert ItemId(text) == txt && txt != Root && txt != sec;
    assert Last(w.stack) == sec;
    assert Edge(sec, txt) != Edge(Root, sec);
    StepFresh(w, text);
    var g := Step(w, text).graph;
    assert g.nodes == [Root, sec, txt];
    assert g.edges == [Edge(Root, sec), Edge(sec, txt)];
  }

  // ---------------------------------------------------------------------
  // The shape of the graph

  /** The `type` attribute each kind of node carries. */
  function TypeOf(n: NodeId): string
  {
    if n == Root then "Root" else if IsSectionId(n) then "Section" else "Content"
  }

  /** The relation every edge into a node of that kind carries. */
  function RelationInto(n: NodeId): string
  {
    if IsSectionId(n) then "CONTAINS" else "HAS"
  }

  /** Every node is ROOT, a section or a content node. */
  ghost predicate KindsOk(g: Graph)
  {
    forall n :: n in g.attrs ==> n == Root || IsSectionId(n) || IsContentId(n)
  }

  /** Every node carries the `type` of its kind. */
  ghost predicate TypesOk(g: Graph)
  {
    forall n :: n in g.attrs ==> "type" in g.attrs[n] && g.attrs[n]["type"] == TypeOf(n)
  }

  /** Edges leave only ROOT and sections, and never enter ROOT. */
  ghost predicate EndsOk(g: Graph)
  {
    forall e :: e in g.edgeAttrs ==> e.dst != Root && (e.src == Root || IsSectionId(e.src))
  }

  /** Edges into sections are CONTAINS, edges into content nodes HAS. */
  ghost predicate RelationsOk(g: Graph)
  {
    forall e :: e in g.edgeAttrs ==> "relation" in g.edgeAttrs[e] && g.edgeAttrs[e]["relation"] == RelationInto(e.dst)
  }

  /** Every node but ROOT has an incoming edge. */
  ghost predicate Rooted(g: Graph)
  {
    forall n :: n in g.attrs && n != Root ==> exists p :: Edge(p, n) in g.edgeAttrs
  }

  /** The shape of every graph the builder makes. */
  ghost predicate Shaped(g: Graph)
  {
    Valid(g) && Root in g.attrs && KindsOk(g) && TypesOk(g) && EndsOk(g) && RelationsOk(g) && Rooted(g)
  }

  /** A walk over a graph of that shape whose current parent is ROOT or a
      section node of the graph. */
  ghost predicate ShapedWalk(w: Walk)
  {
    && w.stack != [] && Shaped(w.graph)
    && Last(w.stack) in w.graph.attrs && (Last(w.stack) == Root || IsSectionId(Last(w.stack)))
  }

  /** What attaching `id` below an existing `parent` does to the node
      dictionary. */
  lemma AttachNodes(g: Graph, parent: NodeId, id: NodeId, a: Attrs, rel: string)
    requires parent in g.attrs
    ensures var r := Attach(g, parent, id, a, rel);
      && (forall n :: n in r.attrs <==> n in g.attrs || n == id)
      && (forall n :: n in g.attrs && n != id ==> r.attrs[n] == g.attrs[n])
      && id in r.attrs && r.attrs[id] == (if id in g.attrs then g.attrs[id] else map[]) + a
  {
    var g1 := AddNode(g, id, a);
    var r := AddEdge(g1, parent, id, Relation(rel));
    assert Attach(g, parent, id, a, rel) == r;
    assert forall n :: n in r.attrs <==> n in g1.attrs;
  }

  /** What attaching `id` below `parent` does to the edge dictionary. */
  lemma AttachEdges(g: Graph, parent: NodeId, id: NodeId, a: Attrs, rel: string)
    ensures var r := Attach(g, parent, id, a, rel); var e := Edge(parent, id);
      && (forall x :: x in r.edgeAttrs <==> x in g.edgeAttrs || x == e)
      && (forall x :: x in g.edgeAttrs && x != e ==> r.edgeAttrs[x] == g.edgeAttrs[x])
      && r.edgeAttrs[e] == (if e in g.edgeAttrs then g.edgeAttrs[e] else map[]) + Relation(rel)
  {
    var g1 := AddNode(g, id, a);
    assert g1.edgeAttrs == g.edgeAttrs;
    assert Attach(g, parent, id, a, rel) == AddEdge(g1, parent, id, Relation(rel));
  }

  lemma AttachValid(g: Graph, parent: NodeId, id: NodeId, a: Attrs, rel: string)
    requires Valid(g)
    ensures Valid(Attach(g, parent, id, a, rel))
  {
    AddEdgeValid(AddNode(g, id, a), parent, id, Relation(rel));
  }

  lemma KindsKept(g: Graph, r: Graph, id: NodeId)
    requires KindsOk(g) && (IsSectionId(id) || IsContentId(id))
    requires forall n :: n in r.attrs <==> n in g.attrs || n == id
    ensures KindsOk(r)
  {
  }

  lemma TypesKept(g: Graph, r: Graph, id: NodeId, a: Attrs)
    requires TypesOk(g) && "type" in a && a["type"] == TypeOf(id)
    requires forall n :: n in r.attrs <==> n in g.attrs || n == id
    requires forall n :: n in g.attrs && n != id ==> r.attrs[n] == g.attrs[n]
    requires id in r.attrs && r.attrs[id] == (if id in g.attrs then g.attrs[id] else map[]) + a
    ensures TypesOk(r)
  {
    MergeLookup(if id in g.attrs then g.attrs[id] else map[], a, "type");
  }

  lemma EndsKept(g: Graph, r: Graph, parent: NodeId, id: NodeId)
    requires EndsOk(g) && id != Root && (parent == Root || IsSectionId(parent))
    requires forall x :: x in r.edgeAttrs <==> x in g.edgeAttrs || x == Edge(parent, id)
    ensures EndsOk(r)
  {
  }

  lemma RelationsKept(g: Graph, r: Graph, parent: NodeId, id: NodeId, rel: string)
    requires RelationsOk(g) && rel == RelationInto(id)
    requires forall x :: x in r.edgeAttrs <==> x in g.edgeAttrs || x == Edge(parent, id)
    requires forall x :: x in g.edgeAttrs && x != Edge(parent, id) ==> r.edgeAttrs[x] == g.edgeAttrs[x]
    requires var e := Edge(parent, id); r.edgeAttrs[e] == (if e in g.edgeAttrs then g.edgeAttrs[e] else map[]) + Relation(rel)
    ensures RelationsOk(r)
  {
    var e := Edge(parent, id);
    MergeLookup(if e in g.edgeAttrs then g.edgeAttrs[e] else map[], Relation(rel), "relation");
  }

  lemma RootedKept(g: Graph, r: Graph, parent: NodeId, id: NodeId)
    requires Rooted(g)
    requires forall n :: n in r.attrs <==> n in g.attrs || n == id
    requires forall x :: x in r.edgeAttrs <==> x in g.edgeAttrs || x == Edge(parent, id)
    ensures Rooted(r)
  {
    forall n | n in r.attrs && n != Root ensures exists p :: Edge(p, n) in r.edgeAttrs {
      if n == id {
        assert Edge(parent, n) in r.edgeAttrs;
      } else {
        var p :| Edge(p, n) in g.edgeAttrs;
        assert Edge(p, n) in r.edgeAttrs;
      }
    }
  }

  /** Attaching a node of a known kind below ROOT or a section keeps the shape. */
  lemma AttachShaped(g: Graph, parent: NodeId, id: NodeId, a: Attrs, rel: string)
    requires Shaped(g) && parent in g.attrs && (parent == Root || IsSectionId(parent))
    requires IsSectionId(id) || IsContentId(id)
    requires "type" in a && a["type"] == TypeOf(id) && rel == RelationInto(id)
    ensures Shaped(Attach(g, parent, id, a, rel))
  {
    IdKinds(id);
    var r := Attach(g, parent, id, a, rel);
    AttachNodes(g, parent, id, a, rel);
    AttachEdges(g, parent, id, a, rel);
    AttachValid(g, parent, id, a, rel);
    KindsKept(g, r, id);
    TypesKept(g, r, id, a);
    EndsKept(g, r, parent, id);
    RelationsKept(g, r, parent, id, rel);
    RootedKept(g, r, parent, id);
  }

  lemma StepShaped(w: Walk, item: DocItem)
    requires ShapedWalk(w)
    ensures ShapedWalk(Step(w, item))
  {
    if Accepted(item) {
      var t := Strip(item.text);
      if IsHeader(item) {
        SectionIdShape(t);
        SectionAttrsKeys(t);
      } else {
        ContentIdShape(t);
        ContentAttrsKeys(t);
      }
      var id := ItemId(item);
      AttachShaped(w.graph, Last(w.stack), id, ItemAttrs(item), ItemRelation(item));
      AttachFacts(w.graph, Last(w.stack), id, ItemAttrs(item), ItemRelation(item));
    }
  }

  lemma {:induction false} RunShaped(w: Walk, items: seq<DocItem>)
    requires ShapedWalk(w)
    ensures ShapedWalk(Run(w, items))
    decreases |items|
  {
    if items != [] {
      StepShaped(w, items[0]);
      RunShaped(Step(w, items[0]), items[1..]);
    }
  }

  /** The pass starts from a fresh graph or from one an earlier pass built, and
      leaves a graph of the same shape. */
  lemma StartShaped(g: Graph)
    requires g == Empty || Shaped(g)
    ensures ShapedWalk(Start(g))
  {
    if g == Empty {
      StartEmptyShaped();
    } else {
      StartAgainShaped(g);
    }
  }

  lemma StartEmptyShaped()
    ensures Shaped(Start(Empty).graph)
  {
    var r := Start(Empty).graph;
    assert r == Graph([Root], map[Root := RootAttrs()], [], map[]);
    assert forall n :: n in r.attrs <==> n == Root;
    assert Valid(r) && TypesOk(r) && Rooted(r);
  }

  lemma StartAgainShaped(g: Graph)
    requires Shaped(g)
    ensures Shaped(Start(g).graph)
  {
    var r := Start(g).graph;
    assert r.edgeAttrs == g.edgeAttrs;
    assert forall n :: n in r.attrs <==> n in g.attrs;
    TypesKept(g, r, Root, RootAttrs());
  }

  lemma HierarchyShaped(g: Graph, items: seq<DocItem>)
    requires g == Empty || Shaped(g)
    ensures Shaped(Hierarchy(g, items))
  {
    StartShaped(g);
    RunShaped(Start(g), items);
  }

  /** What the shape says about every graph the builder makes from scratch,
      however many passes it made: ROOT is there with type Root and has no
      incoming edge; edges into sections are CONTAINS and edges into content
      nodes HAS; content nodes have no outgoing edge; every other node has an
      incoming edge. */
  lemma ShapedFacts(g: Graph)
    requires Shaped(g)
    ensures Root in g.attrs && g.attrs[Root]["type"] == "Root"
    ensures forall e :: e in g.edgeAttrs ==> e.dst != Root
    ensures forall e :: e in g.edgeAttrs && IsSectionId(e.dst) ==> g.edgeAttrs[e]["relation"] == "CONTAINS"
    ensures forall e :: e in g.edgeAttrs && IsContentId(e.dst) ==> g.edgeAttrs[e]["relation"] == "HAS"
    ensures forall e :: e in g.edgeAttrs ==> !IsContentId(e.src)
    ensures forall n :: n in g.attrs && n != Root ==> exists p :: Edge(p, n) in g.edgeAttrs
  {
    forall e | e in g.edgeAttrs ensures !IsContentId(e.src) {
      IdKinds(e.src);
    }
  }
}
