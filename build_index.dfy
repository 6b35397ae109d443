/** The indexing script `build_index.py`: the markdown document is chunked at
    its level-two headers and every chunk becomes a titled node. */
module BuildIndex {
  import opened Wrappers
  import opened Text
  import opened Chunker

  /** `load_and_index_md`. `file` is the content of the markdown file, None
      when it does not exist; in that case nothing is chunked. The result is
      the list of nodes handed to the vector index. */
  method LoadAndIndexMd(file: Option<string>) returns (r: Option<seq<TextNode>>)
    ensures file.None? <==> r.None?
    ensures file.Some? ==> r.value == Nodes(HeaderChunks(file.value), TitledNode)
  {
    if file.None? {
      return None;
    }
    var content := file.value;
    var chunks := Split(content, Separator);
    var nodes: seq<TextNode> := [];
    for i := 0 to |chunks|
      invariant nodes == Nodes(KeptTexts(chunks[..i]), TitledNode)
    {
      ghost var before := KeptTexts(chunks[..i]);
      KeptTextsNext(chunks, i);
      var chunk := chunks[i];
      BlankIffStripEmpty(chunk);
      if Strip(chunk) == [] {
        assert KeptTexts(chunks[..i + 1]) == before + [] == before;
        continue;
      }
      var text := if i > 0 then HeaderMark + chunk else chunk;
      assert KeptTexts(chunks[..i + 1]) == before + [text];
      var lines := Split(text, "\n");
      var title := Strip(RemoveAll(Strip(lines[0]), '#'));
      var node := TextNode(text, map["source" := SourceName, "headings" := title]);
      TitledNodeOf(text, lines, title);
      NodesNext(before, text, TitledNode);
      nodes := nodes + [node];
    }
    assert chunks[..|chunks|] == chunks;
    return Some(nodes);
  }
}
