/** The query engine: given a loaded graph, it finds the nodes whose id or
    `text` attribute contains the question (ignoring case), keeps the first
    ten in node order, and renders them with their content excerpts and
    their outgoing edges as one context string. */
module Engine {
  import opened Wrappers
  import opened Text
  import opened Graphs

  const NotLoaded: string := "Error: " + "Graph not loaded. Please build the graph first."
  const NoMatch: string := "No related " + "entities found in the graph."
  const ContextHeader: string := "=== " + "Graph RAG Context ==="
  /** At most this many matching nodes are rendered. */
  const MaxMatches: nat := 10
  /** A content excerpt keeps this many leading characters of the text. */
  const ExcerptLength: nat := 200
  /** The relation shown for an edge without a `relation` attribute. */
  const DefaultRelation: string := "related"

  /** The `text` attribute of node `n`, if it has one. */
  function TextOf(g: Graph, n: NodeId): Option<string>
  {
    if n in g.attrs && "text" in g.attrs[n] then Some(g.attrs[n]["text"]) else None
  }

  /** The question, upper-cased, occurs in the upper-cased id of `n` or in its
      upper-cased `text` attribute. */
  predicate NodeMatches(g: Graph, n: NodeId, question: string)
  {
    Contains(Upper(n), Upper(question))
    || (TextOf(g, n).Some? && Contains(Upper(TextOf(g, n).value), Upper(question)))
  }

  /** The nodes of `ns` that match, in the order of `ns`. */
  function MatchesIn(g: Graph, ns: seq<NodeId>, question: string): seq<NodeId>
  {
    if ns == [] then []
    else MatchesIn(g, ns[..|ns| - 1], question) + (if NodeMatches(g, ns[|ns| - 1], question) then [ns[|ns| - 1]] else [])
  }

  /** `_find_nodes`: the first ten matching nodes of the graph, in node order. */
  function FindSpec(g: Graph, question: string): seq<NodeId>
  {
    Take(MatchesIn(g, g.nodes, question), MaxMatches)
  }

  function EntityLine(n: NodeId): string
  {
    "\n[Entity: " + n + "]"
  }

  function ContentLine(text: string): string
  {
    "Content: " + Take(text, ExcerptLength) + "..."
  }

  function RelationLine(rel: string, nbr: NodeId): string
  {
    "  --[" + rel + "]--> " + nbr
  }

  /** `get_edge_data(u, v).get("relation", "related")`. */
  function RelationOf(g: Graph, u: NodeId, v: NodeId): string
  {
    var e := Edge(u, v);
    if e in g.edgeAttrs && "relation" in g.edgeAttrs[e] then g.edgeAttrs[e]["relation"] else DefaultRelation
  }

  /** One line per listed successor `v` of `n`, in order. */
  function RelationLines(g: Graph, n: NodeId, nbrs: seq<NodeId>): seq<string>
  {
    if nbrs == [] then []
    else RelationLines(g, n, nbrs[..|nbrs| - 1]) + [RelationLine(RelationOf(g, n, nbrs[|nbrs| - 1]), nbrs[|nbrs| - 1])]
  }

  /** The block of node `n`: its entity line, its content line when it has
      text, and one line per successor. A name that is not a node has no block. */
  function NodeLines(g: Graph, n: NodeId): seq<string>
  {
    if n in g.attrs then
      [EntityLine(n)]
      + (if "text" in g.attrs[n] then [ContentLine(g.attrs[n]["text"])] else [])
      + RelationLines(g, n, Successors(g, n))
    else []
  }

  /** The header line followed by the blocks of `ns`, in order. */
  function ContextLines(g: Graph, ns: seq<NodeId>): seq<string>
  {
    if ns == [] then [ContextHeader] else ContextLines(g, ns[..|ns| - 1]) + NodeLines(g, ns[|ns| - 1])
  }

  /** `_get_context`: the lines of the context joined by line feeds. */
  function Context(g: Graph, ns: seq<NodeId>): string
  {
    Join(ContextLines(g, ns), "\n")
  }

  /** `query`: a graph that is absent or has no node gives the not-loaded
      message; no match gives the no-match message; otherwise the context of
      the matches. */
  function Answer(graph: Option<Graph>, question: string): string
  {
    if graph.None? || |graph.value.nodes| == 0 then NotLoaded
    else
      var found := FindSpec(graph.value, question);
      if found == [] then NoMatch else Context(graph.value, found)
  }

  class GraphEngine {
    const graphPath: string
    /** `self.graph`: None until a stored graph has been read. */
    var graph: Option<Graph>

    /** `GraphEngine(graph_path)`. `stored` is what the file at `graphPath`
        holds: None when there is no such file. */
    constructor (graphPath: string, stored: Option<Graph>)
      ensures this.graphPath == graphPath && graph == stored
    {
      this.graphPath := graphPath;
      graph := None;
      new;
      LoadGraph(stored);
    }

    /** `_load_graph`: reads the stored graph when the file exists and
        otherwise keeps the current one. */
    method LoadGraph(stored: Option<Graph>)
      modifies this
      ensures stored.Some? ==> graph == stored
      ensures stored.None? ==> graph == old(graph)
    {
      if stored.Some? {
        graph := stored;
      }
    }

    /** `query`. */
    method Query(question: string) returns (r: string)
      ensures r == Answer(graph, question)
    {
      if graph.None? || |graph.value.nodes| == 0 {
        return NotLoaded;
      }
      var startNodes := FindNodes(question);
      if startNodes == [] {
        return NoMatch;
      }
      r := GetContext(startNodes);
    }

    /** `_find_nodes`. */
    method FindNodes(question: string) returns (r: seq<NodeId>)
      requires graph.Some?
      ensures r == FindSpec(graph.value, question)
    {
      var g := graph.value;
      var nodes: seq<NodeId> := [];
      var qUpper := Upper(question);
      for i := 0 to |g.nodes|
        invariant nodes == MatchesIn(g, g.nodes[..i], question)
      {
        assert g.nodes[..i + 1][..i] == g.nodes[..i];
        var node := g.nodes[i];
        var nodeStr := Upper(node);
        if Contains(nodeStr, qUpper) {
          nodes := nodes + [node];
          continue;
        }
        if node in g.attrs && "text" in g.attrs[node] {
          if Contains(Upper(g.attrs[node]["text"]), qUpper) {
            nodes := nodes + [node];
          }
        }
      }
      assert g.nodes[..|g.nodes|] == g.nodes;
      r := Take(nodes, MaxMatches);
    }

    /** `_get_context`. */
    method GetContext(nodes: seq<NodeId>) returns (r: string)
      requires graph.Some?
      ensures r == Context(graph.value, nodes)
    {
      var g := graph.value;
      var lines := [ContextHeader];
      for i := 0 to |nodes|
        invariant lines == ContextLines(g, nodes[..i])
      {
        ContextLinesNext(g, nodes, i);
        var node := nodes[i];
        if node in g.attrs {
          var nodeData := g.attrs[node];
          var head := [EntityLine(node)];
          if "text" in nodeData {
            head := head + [ContentLine(nodeData["text"])];
          }
          var rels := NeighbourLines(g, node);
          var block := head + rels;
          lines := lines + block;
        }
      }
      assert nodes[..|nodes|] == nodes;
      r := Join(lines, "\n");
    }
  }

  /** The inner loop of `_get_context`: one relation line per successor of
      `node`, in successor order. */
  method NeighbourLines(g: Graph, node: NodeId) returns (rels: seq<string>)
    ensures rels == RelationLines(g, node, Successors(g, node))
  {
    rels := [];
    var nbrs := Successors(g, node);
    for j := 0 to |nbrs|
      invariant rels == RelationLines(g, node, nbrs[..j])
    {
      RelationLinesNext(g, node, nbrs, j);
      var nbr := nbrs[j];
      var rel := RelationOf(g, node, nbr);
      rels := rels + [RelationLine(rel, nbr)];
    }
    assert nbrs[..|nbrs|] == nbrs;
  }

  // ---------------------------------------------------------------------
  // Matching

  /** A node is among the matches of `ns` exactly when it is listed in `ns`
      and matches. */
  lemma {:induction false} MatchesInIff(g: Graph, ns: seq<NodeId>, question: string, n: NodeId)
    ensures n in MatchesIn(g, ns, question) <==> n in ns && NodeMatches(g, n, question)
    decreases |ns|
  {
    if ns != [] {
      var init := ns[..|ns| - 1];
      MatchesInIff(g, init, question, n);
      assert ns == init + [ns[|ns| - 1]];
    }
  }

  /** There are no more matches than nodes. */
  lemma {:induction false} MatchesInLength(g: Graph, ns: seq<NodeId>, question: string)
    ensures |MatchesIn(g, ns, question)| <= |ns|
    decreases |ns|
  {
    if ns != [] {
      MatchesInLength(g, ns[..|ns| - 1], question);
    }
  }

  /** Matching distributes over concatenation: the matches keep the order of
      the nodes they come from. */
  lemma {:induction false} MatchesInAppend(g: Graph, a: seq<NodeId>, b: seq<NodeId>, question: string)
    ensures MatchesIn(g, a + b, question) == MatchesIn(g, a, question) + MatchesIn(g, b, question)
    decreases |b|
  {
    if b == [] {
      assert a + b == a;
    } else {
      var init := b[..|b| - 1];
      MatchesInAppend(g, a, init, question);
      assert (a + b)[..|a + b| - 1] == a + init;
      assert (a + b)[|a + b| - 1] == b[|b| - 1];
    }
  }

  /** A node is collected at most once when the nodes are distinct. */
  lemma {:induction false} MatchesInDistinct(g: Graph, ns: seq<NodeId>, question: string)
    requires Distinct(ns)
    ensures Distinct(MatchesIn(g, ns, question))
    decreases |ns|
  {
    if ns != [] {
      var init := ns[..|ns| - 1];
      var last := ns[|ns| - 1];
      assert Distinct(init);
      MatchesInDistinct(g, init, question);
      var m := MatchesIn(g, init, question);
      if NodeMatches(g, last, question) {
        MatchesInIff(g, init, question, last);
        assert last !in init by {
          forall k | 0 <= k < |init| ensures init[k] != last { assert init[k] == ns[k]; }
        }
        var r := m + [last];
        forall i, j | 0 <= i < j < |r| ensures r[i] != r[j] {
          if j == |m| { assert r[i] == m[i]; assert m[i] in m; }
        }
      }
    }
  }

  /** What `_find_nodes` returns: at most ten nodes of the graph, each of them
      matching, listed in node order as the first matches; fewer than ten
      only when no other node matches; none twice in a valid graph. */
  lemma FindSpecFacts(g: Graph, question: string)
    ensures var r := FindSpec(g, question); var all := MatchesIn(g, g.nodes, question);
      && |r| <= MaxMatches
      && r == all[..|r|]
      && (forall n :: n in r ==> n in g.nodes && NodeMatches(g, n, question))
      && (forall n :: n in g.nodes && NodeMatches(g, n, question) && n !in r ==> |r| == MaxMatches)
      && (Valid(g) ==> Distinct(r))
  {
    var r := FindSpec(g, question);
    var all := MatchesIn(g, g.nodes, question);
    forall n | n in r ensures n in g.nodes && NodeMatches(g, n, question) {
      assert n in all;
      MatchesInIff(g, g.nodes, question, n);
    }
    forall n | n in g.nodes && NodeMatches(g, n, question) && n !in r ensures |r| == MaxMatches {
      MatchesInIff(g, g.nodes, question, n);
    }
    if Valid(g) {
      MatchesInDistinct(g, g.nodes, question);
      forall i, j | 0 <= i < j < |r| ensures r[i] != r[j] { assert r[i] == all[i] && r[j] == all[j]; }
    }
  }

  /** Nothing is found exactly when no node of the graph matches. */
  lemma NothingFound(g: Graph, question: string)
    ensures FindSpec(g, question) == [] <==> forall n :: n in g.nodes ==> !NodeMatches(g, n, question)
  {
    var all := MatchesIn(g, g.nodes, question);
    forall n | n in g.nodes ensures n in all <==> NodeMatches(g, n, question) {
      MatchesInIff(g, g.nodes, question, n);
    }
    if all != [] {
      MatchesInIff(g, g.nodes, question, all[0]);
    }
  }

  // ---------------------------------------------------------------------
  // Rendering

  /** Joining with a separator puts the first part in front. */
  lemma JoinFirst(first: string, rest: seq<string>, sep: string)
    ensures Join([first] + rest, sep) == if rest == [] then first else first + sep + Join(rest, sep)
  {
    if rest != [] {
      assert ([first] + rest)[1..] == rest;
    }
  }

  /** Every part occurs in the joined string. */
  lemma {:induction false} JoinContains(parts: seq<string>, sep: string, k: nat)
    requires k < |parts|
    ensures Contains(Join(parts, sep), parts[k])
    decreases |parts|
  {
    if |parts| == 1 {
      ContainsAt(parts[0], parts[0], 0);
    } else if k == 0 {
      var s := Join(parts, sep);
      assert s[..|parts[0]|] == parts[0];
      ContainsAt(s, parts[0], 0);
    } else {
      var s := Join(parts, sep);
      var tail := Join(parts[1..], sep);
      JoinContains(parts[1..], sep, k - 1);
      var off := |parts[0]| + |sep|;
      assert s == (parts[0] + sep) + tail;
      assert s[off..] == tail;
      var i := ContainsWitness(tail, parts[k]);
      assert s[off + i..off + i + |parts[k]|] == tail[i..i + |parts[k]|];
      ContainsAt(s, parts[k], off + i);
    }
  }

  lemma ContextLinesNext(g: Graph, ns: seq<NodeId>, i: nat)
    requires i < |ns|
    ensures ContextLines(g, ns[..i + 1]) == ContextLines(g, ns[..i]) + NodeLines(g, ns[i])
  {
    assert ns[..i + 1][..i] == ns[..i];
  }

  lemma RelationLinesNext(g: Graph, n: NodeId, nbrs: seq<NodeId>, j: nat)
    requires j < |nbrs|
    ensures RelationLines(g, n, nbrs[..j + 1]) == RelationLines(g, n, nbrs[..j]) + [RelationLine(RelationOf(g, n, nbrs[j]), nbrs[j])]
  {
    assert nbrs[..j + 1][..j] == nbrs[..j];
  }

  /** A line of the block of a listed node is a line of the context. */
  lemma {:induction false} ContextLinesHas(g: Graph, ns: seq<NodeId>, k: nat, line: string)
    requires k < |ns| && line in NodeLines(g, ns[k])
    ensures line in ContextLines(g, ns)
    decreases |ns|
  {
    if k < |ns| - 1 {
      ContextLinesHas(g, ns[..|ns| - 1], k, line);
    }
  }

  /** The blocks `block(n)` of the names `ns`, concatenated in list order. */
  function Concat(ns: seq<NodeId>, block: NodeId -> seq<string>): seq<string>
  {
    if ns == [] then [] else Concat(ns[..|ns| - 1], block) + block(ns[|ns| - 1])
  }

  /** The blocks of the listed names, in list order, without the header. */
  function Blocks(g: Graph, ns: seq<NodeId>): seq<string>
  {
    Concat(ns, n => NodeLines(g, n))
  }

  /** The context lines are the header followed by the blocks. */
  lemma {:induction false} ContextLinesBlocks(g: Graph, ns: seq<NodeId>)
    ensures ContextLines(g, ns) == [ContextHeader] + Blocks(g, ns)
    decreases |ns|
  {
    if ns != [] {
      ContextLinesBlocks(g, ns[..|ns| - 1]);
    }
  }

  /** Concatenating the blocks of `a + b` concatenates those of each part. */
  lemma {:induction false} ConcatAppend(a: seq<NodeId>, b: seq<NodeId>, block: NodeId -> seq<string>)
    ensures Concat(a + b, block) == Concat(a, block) + Concat(b, block)
    decreases |b|
  {
    if b == [] {
      assert a + b == a;
    } else {
      var init := b[..|b| - 1];
      ConcatAppend(a, init, block);
      assert (a + b)[..|a + b| - 1] == a + init;
      assert (a + b)[|a + b| - 1] == b[|b| - 1];
    }
  }

  /** The blocks follow the order of the listed names: the lines for `a + b`
      are those for `a` followed by the blocks of `b`. */
  lemma ContextLinesAppend(g: Graph, a: seq<NodeId>, b: seq<NodeId>)
    ensures ContextLines(g, a + b) == ContextLines(g, a) + Blocks(g, b)
  {
    ContextLinesBlocks(g, a + b);
    ContextLinesBlocks(g, a);
    ConcatAppend(a, b, n => NodeLines(g, n));
  }

  /** The context lines open with the header line, which stands alone when no
      listed name is a node. */
  lemma {:induction false} ContextLinesFirst(g: Graph, ns: seq<NodeId>)
    ensures |ContextLines(g, ns)| >= 1 && ContextLines(g, ns)[0] == ContextHeader
    ensures (forall n :: n in ns ==> n !in g.attrs) ==> ContextLines(g, ns) == [ContextHeader]
    decreases |ns|
  {
    if ns != [] {
      var init := ns[..|ns| - 1];
      ContextLinesFirst(g, init);
      if forall n :: n in ns ==> n !in g.attrs {
        assert forall n :: n in init ==> n in ns;
        assert ns[|ns| - 1] in ns;
      }
    }
  }

  lemma {:induction false} RelationLinesHas(g: Graph, n: NodeId, nbrs: seq<NodeId>, v: NodeId)
    requires v in nbrs
    ensures RelationLine(RelationOf(g, n, v), v) in RelationLines(g, n, nbrs)
    decreases |nbrs|
  {
    if nbrs[|nbrs| - 1] != v {
      assert nbrs == nbrs[..|nbrs| - 1] + [nbrs[|nbrs| - 1]];
      RelationLinesHas(g, n, nbrs[..|nbrs| - 1], v);
    }
  }

  /** The context starts with its header line, and is that line alone when no
      listed name is a node. */
  lemma ContextStart(g: Graph, ns: seq<NodeId>)
    ensures StartsWith(Context(g, ns), ContextHeader)
    ensures (forall n :: n in ns ==> n !in g.attrs) ==> Context(g, ns) == ContextHeader
  {
    var lines := ContextLines(g, ns);
    ContextLinesFirst(g, ns);
    JoinFirst(ContextHeader, lines[1..], "\n");
    assert lines == [ContextHeader] + lines[1..];
  }

  /** For every listed node, the context shows its entity line, the excerpt
      of its text when it has one, and a line for each of its successors
      naming the edge's relation. */
  lemma ContextShows(g: Graph, ns: seq<NodeId>, k: nat)
    requires k < |ns| && ns[k] in g.attrs
    ensures var c := Context(g, ns); var n := ns[k];
      && Contains(c, EntityLine(n))
      && (TextOf(g, n).Some? ==> Contains(c, ContentLine(TextOf(g, n).value)))
      && (forall v :: v in Successors(g, n) ==> Contains(c, RelationLine(RelationOf(g, n, v), v)))
  {
    var n := ns[k];
    var lines := ContextLines(g, ns);
    forall line | line in NodeLines(g, n) ensures Contains(Context(g, ns), line) {
      ContextLinesHas(g, ns, k, line);
      assert line in lines;
      var j :| 0 <= j < |lines| && lines[j] == line;
      JoinContains(lines, "\n", j);
    }
    assert EntityLine(n) in NodeLines(g, n);
    if TextOf(g, n).Some? {
      assert ContentLine(TextOf(g, n).value) in NodeLines(g, n);
    }
    forall v | v in Successors(g, n) ensures RelationLine(RelationOf(g, n, v), v) in NodeLines(g, n) {
      RelationLinesHas(g, n, Successors(g, n), v);
    }
  }

  /** A content line holds the first 200 characters of the text, or all of a
      shorter text, between `Content: ` and `...`. */
  lemma ContentLineExcerpt(text: string)
    ensures var e := ContentLine(text)[9..|ContentLine(text)| - 3];
      && ContentLine(text) == "Content: " + e + "..."
      && |e| == Min(|text|, ExcerptLength) && e == text[..|e|]
  {
  }

  // ---------------------------------------------------------------------
  // The three outcomes of a query

  lemma ContextIsNotAMessage(g: Graph, ns: seq<NodeId>)
    ensures Context(g, ns) != NotLoaded && Context(g, ns) != NoMatch
  {
    ContextStart(g, ns);
    var c := Context(g, ns);
    assert c[0] == c[..|ContextHeader|][0] == ContextHeader[0] == '=';
    assert NotLoaded[0] == 'E' && NoMatch[0] == 'N';
  }

  /** A query answers the not-loaded message exactly when there is no graph
      or the graph has no node. */
  lemma AnswerNotLoaded(graph: Option<Graph>, question: string)
    ensures Answer(graph, question) == NotLoaded <==> graph.None? || |graph.value.nodes| == 0
  {
    if graph.Some? && |graph.value.nodes| > 0 {
      ContextIsNotAMessage(graph.value, FindSpec(graph.value, question));
      assert NotLoaded[0] == 'E' && NoMatch[0] == 'N';
    }
  }

  /** A query answers the no-match message exactly when there is a graph with
      nodes and none of them matches. */
  lemma AnswerNoMatch(graph: Option<Graph>, question: string)
    ensures Answer(graph, question) == NoMatch <==>
      graph.Some? && |graph.value.nodes| > 0 && forall n :: n in graph.value.nodes ==> !NodeMatches(graph.value, n, question)
  {
    if graph.Some? && |graph.value.nodes| > 0 {
      NothingFound(graph.value, question);
      ContextIsNotAMessage(graph.value, FindSpec(graph.value, question));
    } else {
      assert NotLoaded[0] == 'E' && NoMatch[0] == 'N';
    }
  }

  /** Otherwise the answer is the context of the first matches: it starts with
      the header and shows every one of them. */
  lemma AnswerShowsMatches(g: Graph, question: string, n: NodeId)
    requires n in FindSpec(g, question) && n in g.attrs
    ensures var a := Answer(Some(g), question);
      && StartsWith(a, ContextHeader)
      && Contains(a, EntityLine(n))
      && (TextOf(g, n).Some? ==> Contains(a, ContentLine(TextOf(g, n).value)))
  {
    var found := FindSpec(g, question);
    FindSpecFacts(g, question);
    assert |g.nodes| > 0;
    var k :| 0 <= k < |found| && found[k] == n;
    ContextStart(g, found);
    ContextShows(g, found, k);
  }

  /** In a graph of at most ten nodes nothing is cut off: every node whose
      text matches the question has its excerpt in the answer. */
  lemma SmallGraphShowsMatches(g: Graph, n: NodeId, text: string, question: string)
    requires n in g.nodes && |g.nodes| <= MaxMatches && TextOf(g, n) == Some(text)
    requires Contains(Upper(text), Upper(question))
    ensures Contains(Answer(Some(g), question), ContentLine(text))
  {
    assert NodeMatches(g, n, question);
    FindSpecFacts(g, question);
    MatchesInLength(g, g.nodes, question);
    MatchesInIff(g, g.nodes, question, n);
    AnswerShowsMatches(g, question, n);
  }
}
