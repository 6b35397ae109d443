/** The MCP server script `run_md_mcp.py`: the header chunking of the
    markdown document, and the rendering of the chunks a query retrieves. */
module RunMdMcp {
  import opened Wrappers
  import opened Text
  import opened Chunker

  /** `load_and_index_md`. `file` is the content of the markdown file, None
      when it does not exist; in that case nothing is chunked. The result is
      the list of nodes handed to the vector index. */
  method LoadAndIndexMd(file: Option<string>) returns (r: Option<seq<TextNode>>)
    ensures file.None? <==> r.None?
    ensures file.Some? ==> r.value == Nodes(HeaderChunks(file.value), TitledNode)
  {
    if file.None? {
      return None;
    }
    var content := file.value;
    var chunks := Split(content, Separator);
    var nodes: seq<TextNode> := [];
    for i := 0 to |chunks|
      invariant nodes == Nodes(KeptTexts(chunks[..i]), TitledNode)
    {
      ghost var before := KeptTexts(chunks[..i]);
      KeptTextsNext(chunks, i);
      var chunk := chunks[i];
      BlankIffStripEmpty(chunk);
      if Strip(chunk) == [] {
        assert KeptTexts(chunks[..i + 1]) == before + [] == before;
        continue;
      }
      var text := if i > 0 then HeaderMark + chunk else chunk;
      assert KeptTexts(chunks[..i + 1]) == before + [text];
      var lines := Split(text, "\n");
      var title := Strip(RemoveAll(Strip(lines[0]), '#'));
      var node := TextNode(text, map["source" := SourceName, "headings" := title]);
      TitledNodeOf(text, lines, title);
      NodesNext(before, text, TitledNode);
      nodes := nodes + [node];
    }
    assert chunks[..|chunks|] == chunks;
    return Some(nodes);
  }

  const ErrorPrefix: string := "Error: "

  /** `n.metadata.get('headings')` as an f-string renders it: a missing entry
      prints as `None`. */
  function HeadingsOf(n: TextNode): string
  {
    if "headings" in n.metadata then n.metadata["headings"] else "None"
  }

  /** The block one retrieved node contributes to the answer. */
  function Entry(n: TextNode): string
  {
    "--- " + HeadingsOf(n) + " ---\n" + n.text + "\n\n"
  }

  /** The rendered nodes concatenated, in order. */
  function Rendered(ns: seq<TextNode>, render: TextNode -> string): string
  {
    if ns == [] then "" else Rendered(ns[..|ns| - 1], render) + render(ns[|ns| - 1])
  }

  /** The blocks of the retrieved nodes, in retriever order. */
  function Entries(ns: seq<TextNode>): string
  {
    Rendered(ns, Entry)
  }

  /** `query_datasheet`: the entries of what the retriever returned, or the
      message of the exception raised while loading or retrieving. */
  function DatasheetAnswer(retrieved: Result<seq<TextNode>, string>): string
  {
    match retrieved
    case Ok(ns) => Entries(ns)
    case Err(msg) => ErrorPrefix + msg
  }

  /** `query_datasheet`. `retrieved` stands for what the retriever returned
      for the query, or the message of the exception it raised. */
  method QueryDatasheet(retrieved: Result<seq<TextNode>, string>) returns (r: string)
    ensures r == DatasheetAnswer(retrieved)
  {
    if retrieved.Err? {
      return ErrorPrefix + retrieved.error;
    }
    var nodes := retrieved.value;
    var res := "";
    for i := 0 to |nodes|
      invariant res == Rendered(nodes[..i], Entry)
    {
      assert nodes[..i + 1][..i] == nodes[..i];
      var n := nodes[i];
      res := res + ("--- " + HeadingsOf(n) + " ---\n" + n.text + "\n\n");
    }
    assert nodes[..|nodes|] == nodes;
    return res;
  }

  /** Rendering a concatenation renders the parts one after the other: the
      blocks keep retriever order. */
  lemma {:induction false} RenderedAppend(a: seq<TextNode>, b: seq<TextNode>, render: TextNode -> string)
    ensures Rendered(a + b, render) == Rendered(a, render) + Rendered(b, render)
    decreases |b|
  {
    if b == [] {
      assert a + b == a;
    } else {
      var init := b[..|b| - 1];
      RenderedNext(a, b, render);
      RenderedAppend(a, init, render);
    }
  }

  lemma RenderedNext(a: seq<TextNode>, b: seq<TextNode>, render: TextNode -> string)
    requires b != []
    ensures Rendered(a + b, render) == Rendered(a + b[..|b| - 1], render) + render(b[|b| - 1])
  {
    assert (a + b)[..|a + b| - 1] == a + b[..|b| - 1];
  }

  /** The answer for a concatenation of retrievals is the concatenation of
      their answers. */
  lemma EntriesAppend(a: seq<TextNode>, b: seq<TextNode>)
    ensures Entries(a + b) == Entries(a) + Entries(b)
  {
    RenderedAppend(a, b, Entry);
  }

  /** An empty retrieval gives the empty string. */
  lemma EntriesEmpty()
    ensures Entries([]) == ""
  {
  }

  /** Every retrieved node's block occurs in the answer. */
  lemma EntriesShow(ns: seq<TextNode>, k: nat)
    requires k < |ns|
    ensures Contains(Entries(ns), Entry(ns[k]))
  {
    var front, rest := ns[..k + 1], ns[k + 1..];
    assert ns == front + rest;
    RenderedAppend(front, rest, Entry);
    assert front[..k] == ns[..k];
    var pre := Rendered(ns[..k], Entry);
    var e := Entry(ns[k]);
    var s := Entries(ns);
    assert s == pre + e + Rendered(rest, Entry);
    assert s[|pre|..|pre| + |e|] == e;
    ContainsAt(s, e, |pre|);
  }

  /** A chunk indexed by `load_and_index_md` is rendered under its title. */
  lemma TitledEntry(text: string)
    ensures Entry(TitledNode(text)) == "--- " + Title(text) + " ---\n" + text + "\n\n"
  {
    TitledNodeFacts(text);
  }

}
