/** The indexing script `build_index_abs.py`: the same header chunking, with
    nodes that carry no metadata. */
module BuildIndexAbs {
  import opened Wrappers
  import opened Text
  import opened Chunker

  /** `build_index`. `file` is the content of the markdown file, None when it
      does not exist, in which case opening it raises and nothing is
      chunked. The result is the list of nodes handed to the vector index. */
  method BuildIndex(file: Option<string>) returns (r: Option<seq<TextNode>>)
    ensures file.None? <==> r.None?
    ensures file.Some? ==> r.value == Nodes(HeaderChunks(file.value), PlainNode)
  {
    if file.None? {
      return None;
    }
    var content := file.value;
    var chunks := Split(content, Separator);
    var nodes: seq<TextNode> := [];
    for i := 0 to |chunks|
      invariant nodes == Nodes(KeptTexts(chunks[..i]), PlainNode)
    {
      ghost var before := KeptTexts(chunks[..i]);
      KeptTextsNext(chunks, i);
      var chunk := chunks[i];
      BlankIffStripEmpty(chunk);
      if Strip(chunk) == [] {
        assert KeptTexts(chunks[..i + 1]) == before + [] == before;
        continue;
      }
      var text := if i > 0 then HeaderMark + chunk else chunk;
      assert KeptTexts(chunks[..i + 1]) == before + [text];
      var node := TextNode(text, map[]);
      assert node == PlainNode(text);
      NodesNext(before, text, PlainNode);
      nodes := nodes + [node];
    }
    assert chunks[..|chunks|] == chunks;
    return Some(nodes);
  }
}
