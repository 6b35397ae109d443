/** The markdown header chunker shared by the three indexing scripts: the
    content is cut at every `"\n## "`, blank pieces are dropped, every piece
    after the first gets its `"## "` back, and a piece's title is its first
    line without `#` marks. */
module Chunker {
  import opened Wrappers
  import opened Text

  const Separator: string := "\n## "
  const HeaderMark: string := "## "
  /** The `source` metadata of every titled node. */
  const SourceName: string := "TC38X_50pages.md"

  /** A llama_index `TextNode`: its text and its metadata dictionary. */
  datatype TextNode = TextNode(text: string, metadata: map<string, string>)

  /** The piece is whitespace only. */
  predicate IsBlank(piece: string)
  {
    piece == [] || (IsSpace(piece[0]) && IsBlank(piece[1..]))
  }

  /** `not piece.strip()` is exactly `IsBlank(piece)`. */
  lemma {:induction false} BlankIffStripEmpty(piece: string)
    ensures IsBlank(piece) <==> Strip(piece) == []
  {
    BlankIffAllSpace(piece);
  }

  lemma {:induction false} BlankIffAllSpace(piece: string)
    ensures IsBlank(piece) <==> forall i :: 0 <= i < |piece| ==> IsSpace(piece[i])
  {
    if piece != [] {
      BlankIffAllSpace(piece[1..]);
      assert forall i :: 1 <= i < |piece| ==> piece[i] == piece[1..][i - 1];
    }
  }

  /** The text emitted for the piece at split index `i`. */
  function Restore(i: nat, piece: string): string
  {
    if i > 0 then HeaderMark + piece else piece
  }

  /** The texts emitted for `pieces`: one per non-blank piece, in order, each
      restored according to its own split index. */
  function KeptTexts(pieces: seq<string>): seq<string>
  {
    if pieces == [] then []
    else
      var i := |pieces| - 1;
      KeptTexts(pieces[..i]) + (if IsBlank(pieces[i]) then [] else [Restore(i, pieces[i])])
  }

  /** The chunk texts of a markdown document. */
  function HeaderChunks(content: string): seq<string>
  {
    KeptTexts(Split(content, Separator))
  }

  /** `lines[0].strip().replace("#", "").strip()` for the lines of `text`:
      the title holds no `#` and no line feed, and has no surrounding
      whitespace. */
  function Title(text: string): (r: string)
    ensures '#' !in r && '\n' !in r
    ensures r == [] || (!IsSpace(r[0]) && !IsSpace(r[|r| - 1]))
  {
    var line := FirstLine(text);
    StripKeepsOnly(line, '\n');
    var t := RemoveAll(Strip(line), '#');
    StripKeepsOnly(t, '#');
    StripKeepsOnly(t, '\n');
    Strip(t)
  }

  /** The node `load_and_index_md` makes of a chunk. */
  function TitledNode(text: string): TextNode
  {
    TextNode(text, map["source" := SourceName, "headings" := Title(text)])
  }

  /** The node `build_index` makes of a chunk: no metadata. */
  function PlainNode(text: string): TextNode
  {
    TextNode(text, map[])
  }

  /** One node per chunk text, in order. */
  function Nodes(texts: seq<string>, make: string -> TextNode): seq<TextNode>
  {
    if texts == [] then [] else Nodes(texts[..|texts| - 1], make) + [make(texts[|texts| - 1])]
  }

  // ---------------------------------------------------------------------
  // Steps of the chunking loops

  lemma KeptTextsNext(pieces: seq<string>, i: nat)
    requires i < |pieces|
    ensures KeptTexts(pieces[..i + 1]) == KeptTexts(pieces[..i]) + (if IsBlank(pieces[i]) then [] else [Restore(i, pieces[i])])
  {
    assert pieces[..i + 1][..i] == pieces[..i];
  }

  lemma NodesNext(texts: seq<string>, t: string, make: string -> TextNode)
    ensures Nodes(texts + [t], make) == Nodes(texts, make) + [make(t)]
  {
    assert (texts + [t])[..|texts|] == texts;
  }

  /** `text.split("\n")[0]` is the first line of `text`. */
  lemma FirstPieceIsFirstLine(text: string)
    ensures Split(text, "\n")[0] == FirstLine(text)
  {
  }

  /** The node built from the first line of `text` is its titled node. */
  lemma TitledNodeOf(text: string, lines: seq<string>, title: string)
    requires lines == Split(text, "\n") && title == Strip(RemoveAll(Strip(lines[0]), '#'))
    ensures TextNode(text, map["source" := SourceName, "headings" := title]) == TitledNode(text)
  {
    FirstPieceIsFirstLine(text);
  }

  // ---------------------------------------------------------------------
  // What the chunker promises

  /** A text is emitted exactly when it is the restored form of a non-blank
      piece at some split index. */
  lemma {:induction false} KeptTextsIff(pieces: seq<string>, t: string)
    ensures t in KeptTexts(pieces) <==> exists i :: 0 <= i < |pieces| && !IsBlank(pieces[i]) && t == Restore(i, pieces[i])
    decreases |pieces|
  {
    if pieces != [] {
      var n := |pieces| - 1;
      var init := pieces[..n];
      KeptTextsIff(init, t);
      if t in KeptTexts(init) {
        var i :| 0 <= i < |init| && !IsBlank(init[i]) && t == Restore(i, init[i]);
        assert pieces[i] == init[i];
      }
      if exists i :: 0 <= i < |pieces| && !IsBlank(pieces[i]) && t == Restore(i, pieces[i]) {
        var i :| 0 <= i < |pieces| && !IsBlank(pieces[i]) && t == Restore(i, pieces[i]);
        if i < n {
          assert init[i] == pieces[i];
        }
      }
    }
  }

  /** At most one text per piece, and exactly one when no piece is blank. */
  lemma {:induction false} KeptTextsCount(pieces: seq<string>)
    ensures |KeptTexts(pieces)| <= |pieces|
    ensures (forall i :: 0 <= i < |pieces| ==> !IsBlank(pieces[i])) <==> |KeptTexts(pieces)| == |pieces|
    decreases |pieces|
  {
    if pieces != [] {
      var n := |pieces| - 1;
      var init := pieces[..n];
      KeptTextsCount(init);
      if forall i :: 0 <= i < |pieces| ==> !IsBlank(pieces[i]) {
        assert forall i :: 0 <= i < |init| ==> !IsBlank(init[i]) by {
          forall i | 0 <= i < |init| ensures !IsBlank(init[i]) { assert init[i] == pieces[i]; }
        }
      } else if !IsBlank(pieces[n]) {
        var i :| 0 <= i < |pieces| && IsBlank(pieces[i]);
        assert init[i] == pieces[i];
      }
    }
  }

  /** When no piece is blank, the texts are the pieces in split order, the
      first unchanged and every later one behind `"## "`. */
  lemma {:induction false} KeptTextsAll(pieces: seq<string>)
    requires forall i :: 0 <= i < |pieces| ==> !IsBlank(pieces[i])
    ensures |KeptTexts(pieces)| == |pieces|
    ensures forall i :: 0 <= i < |pieces| ==> KeptTexts(pieces)[i] == Restore(i, pieces[i])
    decreases |pieces|
  {
    if pieces != [] {
      var n := |pieces| - 1;
      var init := pieces[..n];
      assert forall i :: 0 <= i < |init| ==> !IsBlank(init[i]) by {
        forall i | 0 <= i < |init| ensures !IsBlank(init[i]) { assert init[i] == pieces[i]; }
      }
      KeptTextsAll(init);
      var k := KeptTexts(init);
      var r := KeptTexts(pieces);
      assert r == k + [Restore(n, pieces[n])];
      forall i | 0 <= i < |pieces| ensures r[i] == Restore(i, pieces[i]) {
        if i < n {
          assert r[i] == k[i] == Restore(i, init[i]);
          assert init[i] == pieces[i];
        }
      }
    }
  }

  /** `sep.join(parts + [last])` for non-empty `parts`. */
  lemma {:induction false} JoinSnoc(parts: seq<string>, last: string, sep: string)
    requires parts != []
    ensures Join(parts + [last], sep) == Join(parts, sep) + sep + last
    decreases |parts|
  {
    var all := parts + [last];
    if |parts| > 1 {
      assert all[1..] == parts[1..] + [last];
      JoinSnoc(parts[1..], last, sep);
    }
  }

  /** When no piece is blank, joining the texts with line feeds gives what
      joining the pieces with the separator gives. */
  lemma {:induction false} KeptTextsJoin(pieces: seq<string>)
    requires |pieces| >= 1 && forall i :: 0 <= i < |pieces| ==> !IsBlank(pieces[i])
    ensures Join(KeptTexts(pieces), "\n") == Join(pieces, Separator)
    decreases |pieces|
  {
    if |pieces| > 1 {
      var n := |pieces| - 1;
      var init := pieces[..n];
      assert forall i :: 0 <= i < |init| ==> init[i] == pieces[i];
      KeptTextsJoin(init);
      KeptTextsCount(init);
      assert KeptTexts(pieces) == KeptTexts(init) + [HeaderMark + pieces[n]];
      JoinSnoc(KeptTexts(init), HeaderMark + pieces[n], "\n");
      assert pieces == init + [pieces[n]];
      JoinSnoc(init, pieces[n], Separator);
      assert Separator == "\n" + HeaderMark;
    } else {
      assert KeptTexts(pieces) == KeptTexts([]) + [pieces[0]];
    }
  }

  /** Round trip: when no piece is blank, joining the chunk texts with line
      feeds gives back the content. */
  lemma ChunksRoundTrip(content: string)
    requires forall i :: 0 <= i < |Split(content, Separator)| ==> !IsBlank(Split(content, Separator)[i])
    ensures Join(HeaderChunks(content), "\n") == content
  {
    KeptTextsJoin(Split(content, Separator));
  }

  /** Content without a `"\n## "` is one chunk, unless it is blank. */
  lemma SingleChunk(content: string)
    requires !Contains(content, Separator)
    ensures HeaderChunks(content) == if IsBlank(content) then [] else [content]
  {
    SplitAbsent(content, Separator);
    assert [content][..0] == [];
    assert HeaderChunks(content) == KeptTexts([content]);
    assert KeptTexts([content]) == [] + (if IsBlank(content) then [] else [Restore(0, content)]);
  }

  /** A titled node keeps its chunk text, names the source document and
      carries the chunk's title as its `headings`, and has no other
      metadata. */
  lemma TitledNodeFacts(text: string)
    ensures var m := TitledNode(text).metadata;
      && TitledNode(text).text == text
      && m.Keys == {"source", "headings"}
      && m["headings"] == Title(text) && m["source"] == SourceName
  {
    var m := TitledNode(text).metadata;
    assert "source" != "headings" by { assert |"source"| != |"headings"|; }
    assert m["headings"] == Title(text);
  }

  /** There is one node per chunk, made from it, in chunk order. */
  lemma {:induction false} NodesPointwise(texts: seq<string>, make: string -> TextNode)
    ensures |Nodes(texts, make)| == |texts|
    ensures forall k :: 0 <= k < |texts| ==> Nodes(texts, make)[k] == make(texts[k])
    decreases |texts|
  {
    if texts != [] {
      var n := |texts| - 1;
      var init := texts[..n];
      NodesPointwise(init, make);
      forall k | 0 <= k < n ensures Nodes(texts, make)[k] == make(texts[k]) {
        assert init[k] == texts[k];
      }
    }
  }
}
