/** The chunked PDF conversion of `convert_chunks.py`: the pages of the PDF
    are cut into windows of at most `chunk_size` pages, each window is
    converted on its own, and the markdown of every window that converts is
    appended to the output behind a page marker. */
module ConvertChunks {
  import opened Wrappers
  import opened Text

  /** The pages `start .. end - 1` (0-based) of the PDF. */
  datatype Window = Window(start: nat, end: nat)

  /** The windows of `range(i, total, size)`: one per start, each reaching
      `size` pages further or to the last page. */
  function WindowsFrom(i: nat, total: nat, size: nat): seq<Window>
    requires size >= 1
    decreases total - i
  {
    if i >= total then [] else [Window(i, Min(i + size, total))] + WindowsFrom(i + size, total, size)
  }

  function Windows(total: nat, size: nat): seq<Window>
    requires size >= 1
  {
    WindowsFrom(0, total, size)
  }

  /** What is written in front of the markdown of `w`: its 1-based first and
      last page. */
  function Marker(w: Window): string
  {
    "\n\n<!-- Pages " + NatToString(w.start + 1) + "-" + NatToString(w.end) + " -->\n\n"
  }

  /** What one window adds to the output: nothing when its conversion fails. */
  function Piece(w: Window, convert: Window -> Option<string>): string
  {
    match convert(w)
    case None => ""
    case Some(markdown) => Marker(w) + markdown
  }

  /** What the windows add to the output, in window order. */
  function Collected(ws: seq<Window>, convert: Window -> Option<string>): string
  {
    if ws == [] then "" else Piece(ws[0], convert) + Collected(ws[1..], convert)
  }

  /** Why a conversion stops with an exception: the source is missing
      (`FileNotFoundError`), the source path has no name to put a suffix on,
      the chunk size is 0 (`range` raises `ValueError`), or the PDF has no page
      (the time per page divides by 0). */
  datatype Failure = SourceNotFound | EmptyName | ZeroChunkSize | ZeroPages

  /** The output file as it is left: its path and its contents. */
  datatype OutputFile = OutputFile(path: string, contents: string)

  /** What a conversion leaves behind: the output file if it was created, and
      the returned path or the exception raised. */
  datatype Conversion = Conversion(file: Option<OutputFile>, result: Result<string, Failure>)

  // ---------------------------------------------------------------------
  // `Path.with_suffix`

  /** Where the last component of a `/`-separated path begins. */
  function NameStart(p: string): (r: nat)
    ensures r <= |p| && '/' !in p[r..]
    ensures r > 0 ==> p[r - 1] == '/'
  {
    if p == [] then 0
    else if p[|p| - 1] == '/' then |p|
    else
      var r := NameStart(p[..|p| - 1]);
      assert p[r..] == p[..|p| - 1][r..] + [p[|p| - 1]];
      r
  }

  /** `Path(p).name`. The path `.`, which is how `pathlib` writes the empty
      path, has the empty name. */
  function Name(p: string): string
  {
    if p == "." then [] else p[NameStart(p)..]
  }

  /** The position of the last `c` in `s`, like `str.rfind`. */
  function LastIndex(s: string, c: char): (r: Option<nat>)
    ensures r.Some? ==> r.value < |s| && s[r.value] == c && c !in s[r.value + 1..]
    ensures r.None? ==> c !in s
  {
    if s == [] then None
    else if s[|s| - 1] == c then Some(|s| - 1)
    else
      var r := LastIndex(s[..|s| - 1], c);
      if r.Some? then
        assert s[r.value + 1..] == s[..|s| - 1][r.value + 1..] + [s[|s| - 1]];
        r
      else
        assert s == s[..|s| - 1] + [s[|s| - 1]];
        r
  }

  /** Where `Path.suffix` begins in a name: at its last dot, unless that dot
      is the first or the last character. */
  function SuffixStart(name: string): Option<nat>
  {
    match LastIndex(name, '.')
    case Some(i) => if 0 < i < |name| - 1 then Some(i) else None
    case None => None
  }

  /** The name without its suffix (`Path.stem`). */
  function Stem(name: string): string
  {
    match SuffixStart(name)
    case Some(i) => if i <= |name| then name[..i] else name
    case None => name
  }

  /** `Path(p).with_suffix(suffix)`: the name's suffix replaced by `suffix`, or
      `suffix` appended when there is none; None for a path without a name,
      on which `with_suffix` raises `ValueError`. */
  function WithSuffix(p: string, suffix: string): Option<string>
  {
    if Name(p) == [] then None else Some(p[..NameStart(p)] + Stem(Name(p)) + suffix)
  }

  // ---------------------------------------------------------------------
  // `convert_pdf_in_chunks`

  /** The outcome of `convert_pdf_in_chunks(source, output, chunk_size)`.
      `sourceExists` says whether `source` names an existing file,
      `totalPages` is the page count of the PDF, and `convert` is the
      converter: None when converting a window raises. */
  function ConvertSpec(source: string, sourceExists: bool, output: Option<string>, chunkSize: int,
                       totalPages: nat, convert: Window -> Option<string>): Conversion
  {
    if !sourceExists then Conversion(None, Err(SourceNotFound))
    else
      var target := OutputPath(source, output);
      if target.None? then Conversion(None, Err(EmptyName))
      else if chunkSize == 0 then Conversion(Some(OutputFile(target.value, "")), Err(ZeroChunkSize))
      else
        var file := Some(OutputFile(target.value, Contents(totalPages, chunkSize, convert)));
        if totalPages == 0 then Conversion(file, Err(ZeroPages)) else Conversion(file, Ok(target.value))
  }

  /** The output path: the one given, or the source with suffix `.md`. */
  function OutputPath(source: string, output: Option<string>): Option<string>
  {
    if output.Some? then output else WithSuffix(source, ".md")
  }

  /** What the output holds once every window is processed; a negative chunk
      size makes the range of starts empty. */
  function Contents(totalPages: nat, chunkSize: int, convert: Window -> Option<string>): string
  {
    if chunkSize > 0 then Collected(Windows(totalPages, chunkSize), convert) else ""
  }

  method ConvertPdfInChunks(source: string, sourceExists: bool, output: Option<string>, chunkSize: int,
                            totalPages: nat, convert: Window -> Option<string>) returns (r: Conversion)
    ensures r == ConvertSpec(source, sourceExists, output, chunkSize, totalPages, convert)
  {
    if !sourceExists {
      return Conversion(None, Err(SourceNotFound));
    }
    var out: string;
    if output.None? {
      var target := WithSuffix(source, ".md");
      if target.None? {
        return Conversion(None, Err(EmptyName));
      }
      out := target.value;
    } else {
      out := output.value;
    }
    var contents := "";
    if chunkSize == 0 {
      return Conversion(Some(OutputFile(out, contents)), Err(ZeroChunkSize));
    }
    if chunkSize > 0 {
      contents := AppendWindows(contents, totalPages, chunkSize, convert);
    }
    assert contents == Contents(totalPages, chunkSize, convert);
    if totalPages == 0 {
      return Conversion(Some(OutputFile(out, contents)), Err(ZeroPages));
    }
    return Conversion(Some(OutputFile(out, contents)), Ok(out));
  }

  /** The `for i in range(0, total_pages, chunk_size)` loop for a positive
      chunk size: what it appends to the (empty) output is what the windows
      add, in window order. */
  method AppendWindows(initial: string, totalPages: nat, chunkSize: nat, convert: Window -> Option<string>)
    returns (contents: string)
    requires chunkSize >= 1
    ensures contents == initial + Collected(Windows(totalPages, chunkSize), convert)
  {
    contents := initial;
    var i: nat := 0;
    while i < totalPages
      invariant contents + Collected(WindowsFrom(i, totalPages, chunkSize), convert)
                == initial + Collected(Windows(totalPages, chunkSize), convert)
      decreases totalPages - i
    {
      var chunkStart := i;
      var chunkEnd := Min(i + chunkSize, totalPages);
      var w := Window(chunkStart, chunkEnd);
      CollectStep(contents, i, totalPages, chunkSize, convert);
      var markdown := convert(w);
      if markdown.Some? {
        contents := contents + (Marker(w) + markdown.value);
      }
      i := i + chunkSize;
    }
    assert contents + "" == contents;
  }

  /** One turn of the window loop: the output so far followed by what the
      remaining windows add is the output after the first of them followed by
      what the others add. */
  lemma CollectStep(before: string, i: nat, total: nat, size: nat, convert: Window -> Option<string>)
    requires size >= 1 && i < total
    ensures var w := Window(i, Min(i + size, total));
      && before + Collected(WindowsFrom(i, total, size), convert)
         == (before + Piece(w, convert)) + Collected(WindowsFrom(i + size, total, size), convert)
      && (convert(w).None? ==> before + Piece(w, convert) == before)
      && (convert(w).Some? ==> before + Piece(w, convert) == before + (Marker(w) + convert(w).value))
  {
    var w := Window(i, Min(i + size, total));
    var ws := WindowsFrom(i + size, total, size);
    assert WindowsFrom(i, total, size) == [w] + ws;
    assert ([w] + ws)[1..] == ws;
    var p, c := Piece(w, convert), Collected(ws, convert);
    assert before + (p + c) == (before + p) + c;
    assert before + "" == before;
  }

  // ---------------------------------------------------------------------
  // The windows

  /** Page `p` lies in window `w`. */
  predicate Holds(w: Window, p: nat)
  {
    w.start <= p < w.end
  }

  /** Page `p` lies in one of the windows `ws`. */
  predicate Covered(ws: seq<Window>, p: nat)
  {
    exists k :: 0 <= k < |ws| && Holds(ws[k], p)
  }

  /** The windows from page `i` start at `i`, `i + size`, `i + 2 * size`, ...,
      each reaches `size` pages further or to the last page, each is
      non-empty, each ends where the next starts, and the last ends at the
      last page. */
  lemma {:induction false} WindowsFromShape(i: nat, total: nat, size: nat)
    requires size >= 1
    ensures var ws := WindowsFrom(i, total, size);
      && (ws == [] <==> i >= total)
      && (forall k :: 0 <= k < |ws| ==> ws[k].start == i + k * size && ws[k].end == Min(ws[k].start + size, total))
      && (forall k :: 0 <= k < |ws| ==> ws[k].start < ws[k].end <= total && ws[k].end - ws[k].start <= size)
      && (forall k :: 0 <= k < |ws| - 1 ==> ws[k].end == ws[k + 1].start)
      && (ws != [] ==> ws[0].start == i && ws[|ws| - 1].end == total)
    decreases total - i
  {
    var ws := WindowsFrom(i, total, size);
    if i < total {
      var rest := WindowsFrom(i + size, total, size);
      WindowsFromShape(i + size, total, size);
      assert ws == [Window(i, Min(i + size, total))] + rest;
      forall k | 1 <= k < |ws| ensures ws[k].start == i + k * size {
        assert ws[k] == rest[k - 1];
        assert (i + size) + (k - 1) * size == i + k * size;
      }
      if rest == [] {
        assert i + size >= total;
      }
    }
  }

  /** There are `ceil((total - i) / size)` windows from page `i`: one window
      fewer would not reach the last page, and this many reach it. */
  lemma {:induction false} WindowsFromCount(i: nat, total: nat, size: nat)
    requires size >= 1
    ensures var n := |WindowsFrom(i, total, size)|;
      (i >= total ==> n == 0) && (i < total ==> (n - 1) * size < total - i <= n * size)
    decreases total - i
  {
    if i < total {
      WindowsFromCount(i + size, total, size);
      var n := |WindowsFrom(i, total, size)|;
      assert n == 1 + |WindowsFrom(i + size, total, size)|;
      if i + size < total {
        assert (n - 1) * size == (n - 2) * size + size;
        assert n * size == (n - 1) * size + size;
      }
    }
  }

  /** A page lies in some window from `i` exactly when it is one of the pages
      `i .. total - 1`. */
  lemma {:induction false} WindowsFromCover(i: nat, total: nat, size: nat, p: nat)
    requires size >= 1
    ensures Covered(WindowsFrom(i, total, size), p) <==> i <= p < total
    decreases total - i
  {
    var ws := WindowsFrom(i, total, size);
    if i < total {
      var first := Window(i, Min(i + size, total));
      var rest := WindowsFrom(i + size, total, size);
      WindowsFromCover(i + size, total, size, p);
      assert ws == [first] + rest;
      if i <= p < total {
        if Holds(first, p) {
          assert Holds(ws[0], p);
        } else {
          var k :| 0 <= k < |rest| && Holds(rest[k], p);
          assert ws[k + 1] == rest[k];
        }
      }
      if Covered(ws, p) {
        var k :| 0 <= k < |ws| && Holds(ws[k], p);
        if k > 0 {
          assert ws[k] == rest[k - 1];
          assert Covered(rest, p);
        }
      }
    }
  }

  lemma {:induction false} MulStep(a: nat, b: nat, size: nat)
    requires a < b
    ensures a * size + size <= b * size
    decreases b - a
  {
    assert (a + 1) * size == a * size + size;
    if a + 1 < b {
      MulStep(a + 1, b, size);
    }
  }

  /** Windows listed later start no earlier than earlier ones end, so no page
      lies in two windows. */
  lemma WindowsFromDisjoint(i: nat, total: nat, size: nat)
    requires size >= 1
    ensures var ws := WindowsFrom(i, total, size);
      forall k1, k2 :: 0 <= k1 < k2 < |ws| ==> ws[k1].end <= ws[k2].start
  {
    var ws := WindowsFrom(i, total, size);
    WindowsFromShape(i, total, size);
    forall k1, k2 | 0 <= k1 < k2 < |ws| ensures ws[k1].end <= ws[k2].start {
      MulStep(k1, k2, size);
    }
  }

  /** What `range(0, total, chunk_size)` yields for a positive chunk size:
      the windows start at page 0 and every multiple of the chunk size below
      the page count, each is non-empty with at most `size` pages, together
      they hold every page exactly once, and there are `ceil(total / size)`
      of them. */
  lemma WindowsPartition(total: nat, size: nat)
    requires size >= 1
    ensures var ws := Windows(total, size);
      && (total == 0 ==> ws == [])
      && (total > 0 ==> (|ws| - 1) * size < total <= |ws| * size)
      && (forall k :: 0 <= k < |ws| ==> ws[k].start == k * size && ws[k].end == Min(ws[k].start + size, total))
      && (forall k :: 0 <= k < |ws| ==> ws[k].start < ws[k].end && ws[k].end - ws[k].start <= size)
      && (forall k :: 0 <= k < |ws| - 1 ==> ws[k].end == ws[k + 1].start)
      && (forall p: nat :: Covered(ws, p) <==> p < total)
      && (forall p: nat, k1, k2 :: 0 <= k1 < |ws| && 0 <= k2 < |ws| && Holds(ws[k1], p) && Holds(ws[k2], p) ==> k1 == k2)
  {
    var ws := Windows(total, size);
    WindowsFromShape(0, total, size);
    WindowsFromCount(0, total, size);
    WindowsFromDisjoint(0, total, size);
    forall p: nat ensures Covered(ws, p) <==> p < total {
      WindowsFromCover(0, total, size, p);
    }
  }

  // ---------------------------------------------------------------------
  // What the windows add

  lemma {:induction false} CollectedAppend(a: seq<Window>, b: seq<Window>, convert: Window -> Option<string>)
    ensures Collected(a + b, convert) == Collected(a, convert) + Collected(b, convert)
    decreases |a|
  {
    if a == [] {
      assert a + b == b;
    } else {
      assert (a + b)[0] == a[0];
      assert (a + b)[1..] == a[1..] + b;
      CollectedAppend(a[1..], b, convert);
    }
  }

  /** The output is what the windows before `k` add, then what window `k`
      adds, then what the windows after it add. */
  lemma CollectedSplit(ws: seq<Window>, k: nat, convert: Window -> Option<string>)
    requires k < |ws|
    ensures Collected(ws, convert)
            == Collected(ws[..k], convert) + Piece(ws[k], convert) + Collected(ws[k + 1..], convert)
  {
    var tail := ws[k..];
    assert ws == ws[..k] + tail;
    CollectedAppend(ws[..k], tail, convert);
    assert tail[0] == ws[k] && tail[1..] == ws[k + 1..];
    var pre, p, post := Collected(ws[..k], convert), Piece(ws[k], convert), Collected(ws[k + 1..], convert);
    assert Collected(tail, convert) == p + post;
    assert pre + (p + post) == pre + p + post;
  }

  /** The markdown of every window that converts is in the output, behind
      that window's page marker. */
  lemma CollectedShows(ws: seq<Window>, k: nat, convert: Window -> Option<string>)
    requires k < |ws| && convert(ws[k]).Some?
    ensures Contains(Collected(ws, convert), Marker(ws[k]) + convert(ws[k]).value)
  {
    CollectedSplit(ws, k, convert);
    var pre, p, post := Collected(ws[..k], convert), Piece(ws[k], convert), Collected(ws[k + 1..], convert);
    var all := pre + p + post;
    assert all[|pre|..|pre| + |p|] == p;
    ContainsAt(all, p, |pre|);
  }

  /** When no window converts, the output stays empty. */
  lemma {:induction false} CollectedNothing(ws: seq<Window>, convert: Window -> Option<string>)
    requires forall k :: 0 <= k < |ws| ==> convert(ws[k]).None?
    ensures Collected(ws, convert) == ""
    decreases |ws|
  {
    if ws != [] {
      assert forall k :: 0 <= k < |ws[1..]| ==> ws[1..][k] == ws[k + 1];
      CollectedNothing(ws[1..], convert);
    }
  }

  // ---------------------------------------------------------------------
  // What `with_suffix` promises

  /** A directory part (empty or ending in `/`) followed by a name without
      `/`: the name begins right after the directory part. */
  lemma {:induction false} NameStartAppend(dir: string, name: string)
    requires dir == [] || dir[|dir| - 1] == '/'
    requires '/' !in name
    ensures NameStart(dir + name) == |dir|
    decreases |name|
  {
    if name != [] {
      var n := |name| - 1;
      assert (dir + name)[..|dir + name| - 1] == dir + name[..n];
      NameStartAppend(dir, name[..n]);
    } else {
      assert dir + name == dir;
    }
  }

  /** The last `c` of `a + b` is the last `c` of `b` when `b` has one. */
  lemma {:induction false} LastIndexAppend(a: string, b: string, c: char)
    requires c in b
    ensures LastIndex(b, c).Some? && LastIndex(a + b, c) == Some(|a| + LastIndex(b, c).value)
    decreases |b|
  {
    var n := |b| - 1;
    if b[n] != c {
      assert (a + b)[..|a + b| - 1] == a + b[..n];
      assert c in b[..n] by {
        var j :| 0 <= j < |b| && b[j] == c;
        assert b[..n][j] == c;
      }
      LastIndexAppend(a, b[..n], c);
    }
  }

  /** Characters after the last `c` do not move it. */
  lemma {:induction false} LastIndexSkip(a: string, b: string, c: char)
    requires c !in b
    ensures LastIndex(a + b, c) == LastIndex(a, c)
    decreases |b|
  {
    if b == [] {
      assert a + b == a;
    } else {
      var n := |b| - 1;
      assert (a + b)[..|a + b| - 1] == a + b[..n];
      LastIndexSkip(a, b[..n], c);
    }
  }

  /** A name that is not empty keeps a stem that is not empty. */
  lemma StemNonEmpty(name: string)
    requires name != []
    ensures Stem(name) != []
  {
  }

  /** A suffix the way `with_suffix` accepts one: a dot, at least one more
      character, no further dot and no `/`. */
  predicate ValidSuffix(suffix: string)
  {
    |suffix| >= 2 && suffix[0] == '.' && '.' !in suffix[1..] && '/' !in suffix
  }

  /** Where the name of `with_suffix`'s result begins, and what it is. */
  lemma WithSuffixName(p: string, suffix: string)
    requires '/' !in suffix && suffix != [] && Name(p) != []
    ensures var q := WithSuffix(p, suffix).value;
      NameStart(q) == NameStart(p) && q[..NameStart(q)] == p[..NameStart(p)] && Name(q) == Stem(Name(p)) + suffix
  {
    var dir, stem := p[..NameStart(p)], Stem(Name(p));
    assert '/' !in stem by {
      assert forall i :: 0 <= i < |stem| ==> stem[i] == Name(p)[i];
    }
    var q := dir + (stem + suffix);
    assert WithSuffix(p, suffix).value == q;
    StemNonEmpty(Name(p));
    assert |q| >= 2;
    NameStartAppend(dir, stem + suffix);
  }

  /** `with_suffix` fails exactly on a path without a name; otherwise it keeps
      the directory part, ends with the suffix, and yields a path whose name
      is the old stem followed by the suffix. */
  lemma WithSuffixFacts(p: string, suffix: string)
    requires '/' !in suffix && suffix != []
    ensures WithSuffix(p, suffix).None? <==> Name(p) == []
    ensures WithSuffix(p, suffix).Some? ==>
      var q := WithSuffix(p, suffix).value;
      && StartsWith(q, p[..NameStart(p)])
      && |suffix| <= |q| && q[|q| - |suffix|..] == suffix
      && Name(q) == Stem(Name(p)) + suffix
  {
    if Name(p) != [] {
      WithSuffixName(p, suffix);
      var dir, stem := p[..NameStart(p)], Stem(Name(p));
      assert WithSuffix(p, suffix).value == (dir + stem) + suffix;
    }
  }

  /** The empty path `.` has no name to give a suffix to, so a conversion of
      it without an explicit output stops before creating any file. */
  lemma DotHasNoName(sourceExists: bool, chunkSize: int, totalPages: nat, convert: Window -> Option<string>)
    ensures WithSuffix(".", ".md") == None
    ensures var c := ConvertSpec(".", sourceExists, None, chunkSize, totalPages, convert);
      c.file == None && c.result == Err(if sourceExists then EmptyName else SourceNotFound)
  {
  }

  /** A name without a dot gets the suffix appended. */
  lemma WithSuffixAppends(p: string, suffix: string)
    requires Name(p) != [] && '.' !in Name(p)
    ensures WithSuffix(p, suffix) == Some(p + suffix)
  {
    assert LastIndex(Name(p), '.') == None;
    assert Stem(Name(p)) == Name(p);
    assert p == p[..NameStart(p)] + Name(p);
  }

  /** Giving `.md` (or any valid suffix) twice is giving it once. */
  lemma WithSuffixIdempotent(p: string, suffix: string)
    requires ValidSuffix(suffix) && WithSuffix(p, suffix).Some?
    ensures WithSuffix(WithSuffix(p, suffix).value, suffix) == WithSuffix(p, suffix)
  {
    WithSuffixName(p, suffix);
    StemNonEmpty(Name(p));
    StemOfSuffixed(Stem(Name(p)), suffix);
  }

  /** A non-empty stem followed by a valid suffix has that stem again. */
  lemma StemOfSuffixed(stem: string, suffix: string)
    requires ValidSuffix(suffix) && stem != []
    ensures Stem(stem + suffix) == stem
  {
    var name := stem + suffix;
    assert LastIndex(suffix, '.') == Some(0) by {
      assert LastIndex(suffix[1..], '.') == None;
      assert suffix == [suffix[0]] + suffix[1..];
      LastIndexSkip([suffix[0]], suffix[1..], '.');
    }
    LastIndexAppend(stem, suffix, '.');
    assert LastIndex(name, '.') == Some(|stem|);
    assert name[..|stem|] == stem;
  }

  // ---------------------------------------------------------------------
  // What a conversion leaves behind

  /** The conversion returns the output path exactly when the source exists,
      the output path can be formed, the chunk size is not 0 and the PDF has
      a page; the output file is created exactly when the source exists and
      the path can be formed, and it is the returned path. */
  lemma ConversionOutcome(source: string, sourceExists: bool, output: Option<string>, chunkSize: int,
                          totalPages: nat, convert: Window -> Option<string>)
    ensures var c := ConvertSpec(source, sourceExists, output, chunkSize, totalPages, convert);
      && (c.result == Err(SourceNotFound) <==> !sourceExists)
      && (c.file.Some? <==> sourceExists && OutputPath(source, output).Some?)
      && (c.result.Ok? <==> sourceExists && OutputPath(source, output).Some? && chunkSize != 0 && totalPages > 0)
      && (c.file.Some? ==> c.file.value.path == OutputPath(source, output).value)
      && (c.result.Ok? ==> c.result.value == c.file.value.path)
      && (c.file.Some? && chunkSize <= 0 ==> c.file.value.contents == "")
  {
  }

  /** With a positive chunk size, the output file holds the markdown of every
      window that converts, behind its page marker, and stays empty when no
      window converts. */
  lemma ConversionContents(source: string, output: Option<string>, chunkSize: int,
                           totalPages: nat, convert: Window -> Option<string>)
    requires chunkSize > 0 && OutputPath(source, output).Some?
    ensures var c := ConvertSpec(source, true, output, chunkSize, totalPages, convert);
      var ws := Windows(totalPages, chunkSize);
      && c.file.Some?
      && (forall k :: 0 <= k < |ws| && convert(ws[k]).Some? ==>
            Contains(c.file.value.contents, Marker(ws[k]) + convert(ws[k]).value))
      && ((forall k :: 0 <= k < |ws| ==> convert(ws[k]).None?) ==> c.file.value.contents == "")
  {
    var ws := Windows(totalPages, chunkSize);
    forall k | 0 <= k < |ws| && convert(ws[k]).Some?
      ensures Contains(Collected(ws, convert), Marker(ws[k]) + convert(ws[k]).value)
    {
      CollectedShows(ws, k, convert);
    }
    if forall k :: 0 <= k < |ws| ==> convert(ws[k]).None? {
      CollectedNothing(ws, convert);
    }
  }
}
