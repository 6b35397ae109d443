# doclingPDF graph RAG core, modelled in Dafny

This project models the deterministic core of the doclingPDF tools.

- **Graph builder** (`graph_mcp/builder.py`). One pass over the parsed items of a document fills a directed graph.
  - It adds a `ROOT` node.
  - Each non-blank section header becomes a `SEC:<title>` node, reached by a `CONTAINS` edge from the current parent.
  - Each passage longer than 50 characters becomes a `TXT:<first 20 characters>` node, reached by a `HAS` edge.
  - The parents are kept on a stack that is only ever pushed.
- **Graph query engine** (`graph_mcp/engine.py`). It matches the question, ignoring case, against node ids and `text` attributes, keeps the first ten matches, and renders them into a context string. Each match contributes its entity line, an excerpt of its text and its one-hop successors.
- **Markdown header chunker**. The same loop appears in `build_index.py`, `run_md_mcp.py` and `build_index_abs.py`.
  - It splits on `"\n## "`, drops blank pieces and gives every later piece its `"## "` back.
  - It takes as title the first line without `#` marks.
  - `run_md_mcp.py` also renders the retrieved chunks into the tool's answer.
- **Chunked PDF conversion** (`convert_chunks.py`). It cuts the pages into windows of at most `chunk_size` pages. The markdown of each window that converts is appended behind a page marker. The default output path is the source with suffix `.md`.

Layout:

- `wrappers.dfy`: `Option`, `Result` and `Min`.
- `text.dfy`: Python's `strip`, `upper`, `split`, `join` and `in` on strings.
- `graphs.dfy`: the networkx `DiGraph` as a value.
  - Nodes and edges keep their insertion order, and each carries an attribute map.
  - `add_node` and `add_edge` merge the new attributes into existing ones.
- The other files hold one module per source file: `builder.dfy`, `engine.dfy`, `chunker.dfy`, `build_index.dfy`, `run_md_mcp.dfy`, `build_index_abs.dfy` and `convert_chunks.dfy`.
- `scenario.dfy`: the build-then-query example of `test_graph_rag.py`.

How the source's forms are kept:

- **Classes.** `GraphBuilder` and `GraphEngine` are Dafny classes with the source's fields.
  - `_add_hierarchy`, `_find_nodes`, `_get_context`, the chunking loops, `query_datasheet`'s loop and the page-window loop are methods with loops.
  - Each is proved equal to a specification function.
  - The lemmas are about those functions.
- **Failures.** Exceptions and missing files are modelled as `Option` or `Result` values: `FileNotFoundError`, the `ValueError` of `range` with step 0, the `ValueError` of `with_suffix`, and the division by zero of the timing line.

The builder's graph is created only in the constructor (`self.graph = nx.DiGraph()`, graph_mcp/builder.py:18), and `build` extends it through `_add_hierarchy` (graph_mcp/builder.py:39, 51-53). A second `build` on the same builder therefore adds to the first graph rather than replacing it. The model follows the code: `GraphBuilder.Build` continues from `old(graph)`, and `Builder.HierarchyExtends` states what a second pass keeps.

## Model

| member | source | states |
|---|---|---|
| Graphs.AddNode | graph_mcp/builder.py:53 | `add_node`: a new node goes to the end, an existing one keeps its place and has the attributes merged in; other nodes and all edges are untouched; validity is kept |
| Graphs.AddEdge | graph_mcp/builder.py:66 | `add_edge`: both endpoints are nodes afterwards and existing nodes keep their attributes; a new edge goes to the end with the attributes, an existing one keeps its place and has them merged in; other edges are untouched; with both endpoints present the node list is unchanged |
| Graphs.AddEdgeEnds | graph_mcp/builder.py:66 | an absent `u` and then an absent `v` are appended to the node list, each without attributes |
| Graphs.Successors | graph_mcp/engine.py:69 | `neighbors(u)`: the targets of the edges leaving `u`, in edge insertion order |
| Graphs.AddEdgeValid | graph_mcp/builder.py:75 | adding an edge keeps every node and edge listed once, each with attributes, with both ends of every edge being nodes |
| Graphs.SuccessorsIff | graph_mcp/engine.py:69 | `neighbors(u)` lists `v` exactly when the edge `u -> v` exists |
| Graphs.SuccessorsInDistinct | graph_mcp/engine.py:69 | no successor is listed twice |
| Builder.Attach | graph_mcp/builder.py:62-75 | `add_node(id, **attrs)` followed by `add_edge(parent, id, relation=rel)`, the two calls every accepted item makes |
| Builder.Step | graph_mcp/builder.py:56-75 | one iteration of the loop: an accepted item is attached below the stack top, a header is then pushed; the stack stays non-empty |
| Builder.Run | graph_mcp/builder.py:56-75 | the loop over `doc.texts`: one step per item, in order |
| Builder.Hierarchy | graph_mcp/builder.py:51-75 | `_add_hierarchy` on the current graph: ROOT added with type Root, the stack started at ROOT, then the loop |
| Builder.GraphBuilder.constructor | graph_mcp/builder.py:17-18 | a builder starts with an empty graph |
| Builder.GraphBuilder.AddHierarchy | graph_mcp/builder.py:51-75 | the loop leaves exactly the graph of the hierarchy pass over the items, starting from the builder's current graph |
| Builder.GraphBuilder.AddSemantics | graph_mcp/builder.py:77-79 | the semantic pass changes nothing |
| Builder.GraphBuilder.Build | graph_mcp/builder.py:32-49 | a converter failure propagates and leaves the graph; otherwise the graph is extended by the hierarchy pass and the output path is returned |
| Builder.StepIgnored | graph_mcp/builder.py:56-60 | an item that is neither a non-blank header nor a long text changes neither the graph nor the stack |
| Builder.StepHeader | graph_mcp/builder.py:57-67 | a non-blank header `t` gives `SEC:t` with type Section and label `t`, a CONTAINS edge from the stack top, and becomes the top; a repeated header adds no node |
| Builder.RepeatedHeaderSelfLoop | graph_mcp/builder.py:65-67 | two consecutive identical headers leave a CONTAINS self-loop |
| Builder.StepText | graph_mcp/builder.py:69-75 | a long text `s` gives `TXT:`+`s[:20]` with type Content and text `s`, a HAS edge from the stack top, and keeps the stack |
| Builder.TextCollision | graph_mcp/builder.py:72-73 | two long passages in a row (the same stack top) that share their first 20 characters share one node, which keeps the later text; the second adds no node and no edge |
| Builder.StepStack | graph_mcp/builder.py:65-67 | the stack after an item is the old one plus the id of a non-blank header, and unchanged otherwise |
| Builder.StepExtends | graph_mcp/builder.py:53-75 | one item only adds nodes and edges at the end |
| Builder.StepFresh | graph_mcp/builder.py:61-75 | an accepted item with a new id adds exactly that node and the edge from its parent |
| Builder.RunAppend | graph_mcp/builder.py:56-75 | a pass over `a + b` is the pass over `a` continued with `b`, so what item `k` sees depends only on the items before it |
| Builder.RunStack | graph_mcp/builder.py:54-67 | the stack is only pushed: the old stack followed by one id per non-blank header, in order |
| Builder.FinalParent | graph_mcp/builder.py:65-74 | the parent at the end is ROOT when no header was accepted, else the last accepted header |
| Builder.RunExtends | graph_mcp/builder.py:56-75 | the whole pass only adds nodes and edges at the end |
| Builder.HierarchyExtends | graph_mcp/builder.py:18-53 | a second pass on the same builder keeps the earlier nodes, edges and attributed nodes in place |
| Builder.RunIgnored | graph_mcp/builder.py:56-71 | items that are all ignored change nothing |
| Builder.NothingAccepted | graph_mcp/builder.py:52-56 | a fresh builder given no accepted item builds exactly ROOT of type Root and no edge |
| Builder.FirstHeader | graph_mcp/builder.py:52-67 | a fresh builder given a first header has ROOT and that section, the edge between them, and both on the stack |
| Builder.HeaderThenText | graph_mcp/builder.py:52-75 | a header then a long text build ROOT, section and content nodes in that order, with exactly the edges ROOT -> section -> content |
| Builder.AttachShaped | graph_mcp/builder.py:62-75 | attaching a section or content node below ROOT or a section keeps the graph's shape |
| Builder.StepShaped | graph_mcp/builder.py:56-75 | one item keeps the shape and keeps the stack top a node that is ROOT or a section |
| Builder.RunShaped | graph_mcp/builder.py:56-75 | the whole pass keeps the shape |
| Builder.StartShaped | graph_mcp/builder.py:52-54 | adding ROOT to a fresh or builder-made graph gives a walk of that shape |
| Builder.HierarchyShaped | graph_mcp/builder.py:51-75 | every graph the builder makes, over any number of passes, has the shape |
| Builder.ShapedFacts | graph_mcp/builder.py:53-75 | in such a graph ROOT has type Root and no incoming edge, edges into sections are CONTAINS and into content nodes HAS, content nodes have no outgoing edge, and every other node has an incoming edge |
| Builder.IdKinds | graph_mcp/builder.py:52-72 | ROOT, `SEC:` ids and `TXT:` ids are three disjoint kinds |
| Engine.GraphEngine.constructor | graph_mcp/engine.py:6-16 | the engine holds the stored graph, or none when the file is missing |
| Engine.GraphEngine.LoadGraph | graph_mcp/engine.py:11-16 | a stored graph replaces the current one; a missing file leaves it |
| Engine.MatchesIn | graph_mcp/engine.py:40-52 | the nodes of a list, in list order, whose upper-cased id or upper-cased `text` contains the upper-cased question |
| Engine.FindSpec | graph_mcp/engine.py:35-54 | `_find_nodes`: the first ten matching nodes of the graph in node order |
| Engine.ContextLines | graph_mcp/engine.py:57-72 | the header line, then for each listed node that is in the graph its entity line, its content excerpt when it has text, and one line per successor with its relation or `related` |
| Engine.Context | graph_mcp/engine.py:56-74 | `_get_context`: those lines joined with line feeds |
| Engine.Answer | graph_mcp/engine.py:18-33 | `query`: the not-loaded message without a graph or with an empty one, the no-match message when nothing is found, and the context of the found nodes otherwise |
| Engine.GraphEngine.Query | graph_mcp/engine.py:18-33 | the method returns the answer for the graph it holds: the not-loaded message, the no-match message or the context, as `Engine.AnswerNotLoaded`, `Engine.AnswerNoMatch` and `Engine.AnswerShowsMatches` characterise it |
| Engine.GraphEngine.FindNodes | graph_mcp/engine.py:35-54 | the loop returns the first ten matching nodes in node order |
| Engine.GraphEngine.GetContext | graph_mcp/engine.py:56-74 | the loops return the rendered context of the nodes |
| Engine.NeighbourLines | graph_mcp/engine.py:69-72 | one relation line per successor, in successor order |
| Engine.MatchesInIff | graph_mcp/engine.py:40-52 | a node is collected exactly when it is listed and its id or `text` contains the question, ignoring case |
| Engine.MatchesInLength | graph_mcp/engine.py:40-52 | no more nodes are collected than are listed |
| Engine.MatchesInAppend | graph_mcp/engine.py:40-52 | collecting over two lists is collecting over each, in order |
| Engine.MatchesInDistinct | graph_mcp/engine.py:40-52 | each node is collected at most once |
| Engine.FindSpecFacts | graph_mcp/engine.py:37-54 | at most ten results, a prefix of all matches in node order, each a matching node, and a match is left out only when ten were kept |
| Engine.NothingFound | graph_mcp/engine.py:27-54 | nothing is found exactly when no node matches |
| Engine.JoinContains | graph_mcp/engine.py:74 | every line is contained in the joined context |
| Engine.ContextLinesHas | graph_mcp/engine.py:60-72 | every line of a node's block is among the context lines |
| Engine.ContextLinesBlocks | graph_mcp/engine.py:57-72 | the context lines are the header line followed by the blocks of the listed nodes |
| Engine.ConcatAppend | graph_mcp/engine.py:60-72 | the blocks of a concatenation of node lists are the blocks of each list, in order |
| Engine.ContextLinesAppend | graph_mcp/engine.py:60-72 | the lines for `a + b` are the lines for `a` followed by the blocks of `b`: blocks appear in the order the nodes are listed |
| Engine.ContextLinesFirst | graph_mcp/engine.py:57-58 | the header line comes first, and is alone when no node is in the graph |
| Engine.RelationLinesHas | graph_mcp/engine.py:69-72 | every successor has its relation line |
| Engine.ContextStart | graph_mcp/engine.py:57-74 | the context starts with `=== Graph RAG Context ===`, and is only that when no node is in the graph |
| Engine.ContextShows | graph_mcp/engine.py:60-72 | for each listed node that is in the graph, its entity line, its content line when it has text, and a line for each successor are in the context |
| Engine.EntityLine | graph_mcp/engine.py:64 | the `[Entity: id]` line after a line feed |
| Engine.ContentLine | graph_mcp/engine.py:66 | `Content: ` followed by the first 200 characters of the text and `...` |
| Engine.RelationOf | graph_mcp/engine.py:70-71 | the edge's `relation` attribute, or `related` when it has none |
| Engine.RelationLine | graph_mcp/engine.py:72 | the `  --[rel]--> nbr` line |
| Engine.ContentLineExcerpt | graph_mcp/engine.py:65-66 | the content line is `Content: ` plus the first `min(len, 200)` characters of the text plus `...` |
| Engine.ContextIsNotAMessage | graph_mcp/engine.py:24-58 | a context is never one of the two messages |
| Engine.AnswerNotLoaded | graph_mcp/engine.py:23-24 | the not-loaded message comes exactly when there is no graph or it has no node |
| Engine.AnswerNoMatch | graph_mcp/engine.py:27-29 | the no-match message comes exactly when a non-empty graph has no matching node |
| Engine.AnswerShowsMatches | graph_mcp/engine.py:18-33 | for a found node, the answer starts with the header and holds its entity and content lines |
| Engine.SmallGraphShowsMatches | graph_mcp/engine.py:18-54 | in a graph of at most ten nodes, a node whose text contains the question has its content line in the answer |
| Text.Strip | build_index.py:36 | `strip()`: no whitespace at either end, empty exactly for an all-whitespace string, identity on a string already stripped |
| Text.StripSlice | build_index.py:36 | the stripped string is the slice of `s` with only whitespace before and after it |
| Text.StripKeepsOnly | build_index.py:41 | stripping adds no character |
| Text.Upper | graph_mcp/engine.py:38 | `upper()` maps each character |
| Text.Contains | graph_mcp/engine.py:44 | Python's `sub in s`: `sub` starts at some position of `s` |
| Text.Find | build_index.py:32 | the first position at which the separator occurs, or none when it occurs nowhere |
| Text.Join | graph_mcp/engine.py:74 | `sep.join(parts)`: the parts in order with `sep` between neighbours |
| Text.Split | build_index.py:32 | `split(sep)` gives at least one piece, and joining the pieces with `sep` gives the string back |
| Text.SplitNoSep | build_index.py:32 | no piece of `split(sep)` contains `sep` |
| Text.SplitAtFirst | build_index.py:32 | `split(sep)` cuts at the leftmost occurrence: the first piece is the text before it and the others are the split of the text after it, which with `Text.SplitAbsent` fixes every piece, also for a separator that overlaps itself |
| Text.SplitAbsent | build_index.py:32 | a string without the separator splits into itself |
| Text.FirstLine | build_index.py:40-41 | the first line is a prefix without a line feed that is the whole string or stops right before a line feed |
| Text.RemoveAll | build_index.py:41 | `replace("#", "")` keeps exactly the other characters |
| Text.RemoveAllAppend | build_index.py:41 | removing from a concatenation removes from each part, keeping the order |
| Text.RemoveAllChar | build_index.py:41 | a single character disappears when it is the removed one and stays otherwise |
| Text.RemoveAllAbsent | build_index.py:41 | a string without the character is left as it is |
| Text.Take | graph_mcp/engine.py:54 | `s[:n]` has `min(len, n)` elements and is a prefix |
| Text.NatToString | convert_chunks.py:102 | the decimal form of a number is non-empty digits without a leading zero |
| Text.NatToStringRoundTrip | convert_chunks.py:102 | reading the decimal form back gives the number |
| Chunker.KeptTexts | build_index.py:35-39 | the texts emitted for the pieces: one per non-blank piece, in split order, behind `## ` unless its split index is 0 |
| Chunker.HeaderChunks | build_index.py:32-39 | the chunk texts of the content: the emitted texts of its split on `"\n## "` |
| Chunker.BlankIffStripEmpty | build_index.py:36-37 | a piece is skipped exactly when `strip()` empties it |
| Chunker.Title | build_index.py:40-41 | the title holds no `#` and no line feed and has no surrounding whitespace |
| Chunker.KeptTextsIff | build_index.py:35-39 | a text is emitted exactly when it is a non-blank piece, behind `## ` unless its split index is 0 |
| Chunker.KeptTextsCount | build_index.py:34-46 | at most one text per piece, and exactly one per piece exactly when no piece is blank |
| Chunker.KeptTextsAll | build_index.py:35-39 | with no blank piece, the texts are the pieces in split order, piece 0 unchanged and later pieces behind `## ` |
| Chunker.KeptTextsJoin | build_index.py:32-39 | with no blank piece, the texts joined by line feeds equal the pieces joined by the separator |
| Chunker.ChunksRoundTrip | build_index.py:32-39 | with no blank piece, the chunks joined by line feeds give back the content |
| Chunker.SingleChunk | build_index.py:32-46 | content without `"\n## "` gives itself as the one chunk, or nothing when blank |
| Chunker.Restore | build_index.py:39 | the emitted text of a piece: behind `## ` unless its split index is 0 |
| Chunker.TitledNode | build_index.py:43-45 | the node with the chunk text and the metadata `source` and `headings` |
| Chunker.PlainNode | build_index_abs.py:31 | the node with the chunk text and no metadata |
| Chunker.TitledNodeFacts | build_index.py:43-45 | a titled node keeps its text and has exactly the metadata `source` and `headings`, the latter its title |
| Chunker.NodesPointwise | build_index.py:34-46 | one node per chunk, made from it, in order |
| BuildIndex.LoadAndIndexMd | build_index.py:21-46 | a missing file returns before chunking; otherwise the loop yields one titled node per chunk in order |
| RunMdMcp.LoadAndIndexMd | run_md_mcp.py:23-53 | a missing file returns before chunking; otherwise the loop yields one titled node per chunk in order |
| RunMdMcp.DatasheetAnswer | run_md_mcp.py:85-95 | `query_datasheet`: the `--- headings ---` block of each retrieved node in retriever order, or `Error: ` and the message |
| RunMdMcp.QueryDatasheet | run_md_mcp.py:85-95 | the loop's answer is the rendered entries, or `Error: ` and the message of a failure |
| RunMdMcp.RenderedAppend | run_md_mcp.py:90-92 | rendering two lists is rendering each, in order |
| RunMdMcp.EntriesAppend | run_md_mcp.py:90-92 | the entries of two lists are those of each, in order |
| RunMdMcp.EntriesEmpty | run_md_mcp.py:90-93 | an empty list of retrieved nodes gives the empty string |
| RunMdMcp.EntriesShow | run_md_mcp.py:90-93 | every retrieved node's block is in the answer |
| RunMdMcp.HeadingsOf | run_md_mcp.py:92 | `metadata.get('headings')` as the f-string prints it: `None` when the entry is missing |
| RunMdMcp.Entry | run_md_mcp.py:92 | the block of one retrieved node: its headings between dashes, a line feed, its text and a blank line |
| RunMdMcp.TitledEntry | run_md_mcp.py:92 | the block of a titled chunk shows its title between dashes, then its text |
| BuildIndexAbs.BuildIndex | build_index_abs.py:18-32 | a missing file stops before chunking; otherwise the loop yields one metadata-less node per chunk in order |
| ConvertChunks.Windows | convert_chunks.py:82-84 | the windows `[i, min(i + chunk_size, total))` for `i` in `range(0, total, chunk_size)` |
| ConvertChunks.Collected | convert_chunks.py:82-109 | what the windows append, in order: marker and markdown for a window that converts, nothing for one that fails |
| ConvertChunks.WithSuffix | convert_chunks.py:61-62 | `with_suffix`: the path with its name's suffix replaced, or none for a path without a name |
| ConvertChunks.ConvertSpec | convert_chunks.py:48-114 | `convert_pdf_in_chunks`: the missing source, the nameless default path, the zero chunk size and the zero page count fail in that order; otherwise the output path is returned; the file is created once the path is known and holds what the windows append |
| ConvertChunks.ConvertPdfInChunks | convert_chunks.py:48-114 | the method's file and result are those of `convert_pdf_in_chunks` as `ConvertChunks.ConversionOutcome` and `ConvertChunks.ConversionContents` characterise them |
| ConvertChunks.AppendWindows | convert_chunks.py:82-109 | the loop appends to the output, in window order, the marker and markdown of each window that converts |
| ConvertChunks.WindowsFromShape | convert_chunks.py:82-84 | the windows from `i` start at `i + k*size`, end at `min(start+size, total)`, are non-empty, at most `size` wide, consecutive, and run from `i` to `total` |
| ConvertChunks.WindowsFromCount | convert_chunks.py:82 | there are `ceil((total-i)/size)` windows |
| ConvertChunks.WindowsFromCover | convert_chunks.py:82-91 | a page is in some window exactly when `i <= p < total` |
| ConvertChunks.WindowsFromDisjoint | convert_chunks.py:82-84 | windows do not overlap |
| ConvertChunks.WindowsPartition | convert_chunks.py:82-91 | the windows of `range(0, total, size)` cover each page below `total` exactly once, are consecutive, non-empty, at most `size` wide, and number `ceil(total/size)` |
| ConvertChunks.CollectedAppend | convert_chunks.py:82-109 | what two runs of windows add is what each adds, in order |
| ConvertChunks.CollectedSplit | convert_chunks.py:82-109 | the output is what the windows before `k` add, then window `k`'s piece, then the rest |
| ConvertChunks.CollectedShows | convert_chunks.py:101-103 | each window that converts has its marker and markdown in the output |
| ConvertChunks.CollectedNothing | convert_chunks.py:105-106 | when every conversion fails the output stays empty |
| ConvertChunks.Name | convert_chunks.py:62 | `Path.name`: the text after the last `/`, and empty for the path `.` |
| ConvertChunks.SuffixStart | convert_chunks.py:62 | where `Path.suffix` begins: the last dot of the name, unless it is the first or the last character |
| ConvertChunks.Stem | convert_chunks.py:62 | `Path.stem`: the name without its suffix |
| ConvertChunks.NameStart | convert_chunks.py:62 | the name starts after the last `/` |
| ConvertChunks.LastIndex | convert_chunks.py:62 | `rfind`: the position of the last occurrence, or none |
| ConvertChunks.WithSuffixName | convert_chunks.py:62 | `with_suffix` keeps the directory and makes the name the stem plus the suffix |
| ConvertChunks.WithSuffixFacts | convert_chunks.py:61-62 | for a non-empty suffix, `with_suffix` fails exactly for a path without a name (among them `.` and `/`); otherwise the result keeps the directory, ends with the suffix and names the stem plus suffix |
| ConvertChunks.DotHasNoName | convert_chunks.py:57-62 | the path `.` has no name, so converting it without an explicit output fails before any file is created |
| ConvertChunks.WithSuffixAppends | convert_chunks.py:62 | a name without a dot just gets the suffix appended |
| ConvertChunks.WithSuffixIdempotent | convert_chunks.py:62 | replacing the suffix twice is replacing it once |
| ConvertChunks.ConversionOutcome | convert_chunks.py:57-114 | a missing source fails first and creates no file; a file is created exactly when the output path exists; success exactly for a positive page count and non-zero chunk size, returning the output path; chunk size 0 or below leaves the file empty |
| ConvertChunks.ConversionContents | convert_chunks.py:70-109 | for a positive chunk size the file holds the marker and markdown of every window that converts, and is empty when none does |
| Scenario.TwoSections | test_graph_rag.py:34-59 | two differently titled sections with one long passage each, whose passages differ in their first 20 characters, build five nodes, the first passage among them with its stripped text |
| Scenario.TwoSectionsQuery | test_graph_rag.py:34-75 | for the same document, whose passages differ in their first 20 characters, a question contained in the first passage brings back its content line |
| Scenario.DocumentAccepted | test_graph_rag.py:34-50 | the four test items are two headers and two long passages with different titles and ids |
| Scenario.GtmQuery | test_graph_rag.py:67-75 | the answer to `GTM` on the test document contains `GTM` and `Generic Timer Module` |

## Left out

- GML writing and reading (`nx.write_gml`, `nx.read_gml`): the stored graph is taken to be the built graph, and the engine's constructor takes what the file holds as a parameter.
- The docling converter, the Ollama client and the language-model flag: the document items are an input, and a converter failure is an error value.
- llama_index embeddings, vector stores and retrieval: the chunkers return the node list handed to the index, and `QueryDatasheet` takes the retrieved nodes, or the failure message, as its input.
- Removing an old vector store directory: file-system side effects.
- pypdfium2 page import, temporary PDF files and their removal: I/O. The page count and the per-window converter are inputs, and the temporary file's removal is not modelled.
- Timing and progress output of `convert_chunks.py`: floating point. Only the division by a zero page count is kept, as the `ZeroPages` failure.
- `print` logging, argparse `main` functions and the MCP server wiring: I/O.
- Failures of `open(output, "w")` (convert_chunks.py:70), such as an empty explicit output path or a missing directory, and UTF-8 decode errors when the markdown is read: I/O. The model takes every opened output file as created and every read as decoded.
- `strip` and `upper` use ASCII whitespace (with `\x1c`-`\x1f` as Python counts them) and ASCII case mapping, not full Unicode.
- ConvertChunks.WithSuffixFacts: paths are taken in the form `pathlib` prints them, with `/` separators, no trailing `/`, no `//` and no `.` component other than the path `.` itself. On other spellings the model does not normalise first: `a/` has no name here and fails, where `pathlib` reads it as `a`. Windows drive and backslash rules are not covered. The suffix `""` is not covered either; the source only passes `.md`.
- `Builder.Walk`: the stack drops the depth number the source pairs with each id, since it is never read.
- `Engine.NeighbourLines`: the inner successor loop of `_get_context`, made a method of its own.
- `ConvertChunks.AppendWindows`: the window loop of `convert_pdf_in_chunks`, made a method of its own.
- `Scenario.GtmQuery`: proves what the test asserts about the answer string, but not the file existence check on the GML output.
