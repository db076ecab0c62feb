/**
 * The splitter engine (`PDFSplitter`): fixed-size chunks, one output per
 * page-range expression, and extraction of chosen page numbers into one file.
 */
module Splitter {
  import opened Wrappers
  import opened Text
  import opened Documents
  import opened PageRange

  function Min(a: int, b: int): int { if a < b then a else b }

  /** The zero-based page interval `[start, end)` one split file receives. */
  datatype Chunk = Chunk(start: nat, end: nat)

  /**
   * `for i in range(from, n, k)` with `end_page = min(i + k, n)`: the chunks
   * from page `from` on, each non-empty and inside the document.
   */
  function ChunksFrom(n: nat, k: nat, from: nat): (cs: seq<Chunk>)
    requires k > 0
    ensures forall j :: 0 <= j < |cs| ==> from <= cs[j].start < cs[j].end <= n
    decreases n - from
  {
    if from >= n then [] else [Chunk(from, Min(from + k, n))] + ChunksFrom(n, k, from + k)
  }

  /** The chunks of an `n`-page document split `k` pages at a time. */
  function Chunks(n: nat, k: nat): seq<Chunk>
    requires k > 0
  {
    ChunksFrom(n, k, 0)
  }

  /** Chunk `j` starts at page `from + j*k` and holds `k` pages, the last one possibly fewer. */
  lemma {:induction false} ChunkAt(n: nat, k: nat, from: nat, j: nat)
    requires k > 0 && j < |ChunksFrom(n, k, from)|
    ensures ChunksFrom(n, k, from)[j] == Chunk(from + j * k, Min(from + j * k + k, n))
    decreases j
  {
    if j > 0 {
      ChunkAt(n, k, from + k, j - 1);
      assert from + k + (j - 1) * k == from + j * k;
    }
  }

  /** There are `ceil((n - from) / k)` chunks: the last starts before `n`, the next would not. */
  lemma {:induction false} ChunkCount(n: nat, k: nat, from: nat)
    requires k > 0
    ensures var c := |ChunksFrom(n, k, from)|;
      if from < n then from + (c - 1) * k < n <= from + c * k else c == 0
    decreases n - from
  {
    if from < n {
      var c := |ChunksFrom(n, k, from)|;
      ChunkCount(n, k, from + k);
      assert from + (c - 1) * k == from + k + (c - 2) * k;
      assert from + c * k == from + k + (c - 1) * k;
    }
  }

  /** With at least as many pages per file as the document has, there is one chunk: the whole document. */
  lemma OneChunk(n: nat, k: nat)
    requires 0 < n <= k
    ensures Chunks(n, k) == [Chunk(0, n)]
  {
    assert ChunksFrom(n, k, k) == [];
  }

  /** The pages of the chunks, one after the other. */
  function ChunkPages(pages: seq<Page>, cs: seq<Chunk>): seq<Page>
    requires forall j :: 0 <= j < |cs| ==> cs[j].start <= cs[j].end <= |pages|
  {
    if cs == [] then [] else pages[cs[0].start..cs[0].end] + ChunkPages(pages, cs[1..])
  }

  /** The chunks cover the document from `from` on, in order, without gaps or overlaps. */
  lemma {:induction false} ChunksCover(pages: seq<Page>, k: nat, from: nat)
    requires k > 0 && from <= |pages|
    ensures ChunkPages(pages, ChunksFrom(|pages|, k, from)) == pages[from..]
    decreases |pages| - from
  {
    var n := |pages|;
    if from < n {
      var cs := ChunksFrom(n, k, from);
      assert cs[1..] == ChunksFrom(n, k, from + k);
      if from + k < n {
        ChunksCover(pages, k, from + k);
        assert pages[from..from + k] + pages[from + k..] == pages[from..];
      } else {
        assert ChunksFrom(n, k, from + k) == [];
        assert pages[from..n] + [] == pages[from..];
      }
    }
  }

  /** `f"split_{i+1}-{end_page}.pdf"`: the one-based first and last page of the chunk. */
  function ChunkName(c: Chunk): string
  {
    "split_" + Show(c.start + 1) + "-" + Show(c.end) + ".pdf"
  }

  /** Different chunks get different file names. */
  lemma ChunkNameInjective(c: Chunk, d: Chunk)
    requires ChunkName(c) == ChunkName(d)
    ensures c == d
  {
    var a, b := Show(c.start + 1), Show(c.end);
    var x, y := Show(d.start + 1), Show(d.end);
    Regroup("split_", a, "-", b, ".pdf");
    Regroup("split_", x, "-", y, ".pdf");
    PrefixCancel("split_", a + ("-" + (b + ".pdf")), x + ("-" + (y + ".pdf")));
    DigitsPrefix(a, "-" + (b + ".pdf"), x, "-" + (y + ".pdf"));
    PrefixCancel("-", b + ".pdf", y + ".pdf");
    SuffixCancel(b, y, ".pdf");
    ShowInjective(c.start + 1, d.start + 1);
    ShowInjective(c.end, d.end);
  }

  /** The files of a split by `k` pages, in the order they are written. */
  function ChunkOutputs(pages: seq<Page>, outDir: Path, cs: seq<Chunk>): (outs: seq<Output>)
    requires forall j :: 0 <= j < |cs| ==> cs[j].start <= cs[j].end <= |pages|
    ensures |outs| == |cs|
  {
    seq(|cs|, j requires 0 <= j < |cs| =>
      Output(JoinPath(outDir, ChunkName(cs[j])), PdfFile(WriterDocument(pages[cs[j].start..cs[j].end]))))
  }

  /**
   * What `split_by_pages` does to the file system: nothing when the input is
   * missing; otherwise the output directory is made first (a failure there
   * changes nothing), the input is read, and the chunk files are written in
   * order. `range` refuses a step of 0; a negative step gives no chunks.
   */
  function SplitByPagesOutcome(fs: FileSystem, input: Path, outDir: Path, pagesPerFile: int): Written
  {
    if !Exists(fs, input) then Written(false, fs)
    else match MakeDirs(fs, outDir)
      case None => Written(false, fs)
      case Some(made) =>
        match ReadPages(made, input)
        case None => Written(false, made)
        case Some(pages) =>
          if pagesPerFile == 0 then Written(false, made)
          else if pagesPerFile < 0 then Written(true, made)
          else WriteAll(made, ChunkOutputs(pages, outDir, Chunks(|pages|, pagesPerFile)))
  }

  /** `writer.add_page(reader.pages[p])` for `p` in `range(lo, hi)`. */
  method AddPages(w: Writer, pages: seq<Page>, lo: nat, hi: nat)
    requires lo <= hi <= |pages|
    modifies w
    ensures w.pages == old(w.pages) + pages[lo..hi]
    ensures w.metadata == old(w.metadata) && w.protection == old(w.protection)
  {
    var p := lo;
    while p < hi
      invariant lo <= p <= hi
      invariant w.pages == old(w.pages) + pages[lo..p]
      invariant w.metadata == old(w.metadata) && w.protection == old(w.protection)
    {
      assert pages[lo..p + 1] == pages[lo..p] + [pages[p]];
      w.AddPage(pages[p]);
      p := p + 1;
    }
  }

  /** `split_by_pages`: every `pagesPerFile` pages go to a file `split_<first>-<last>.pdf`. */
  method SplitByPages(fs: FileSystem, input: Path, outDir: Path, pagesPerFile: int) returns (ok: bool, fs': FileSystem)
    ensures Written(ok, fs') == SplitByPagesOutcome(fs, input, outDir, pagesPerFile)
  {
    if !Exists(fs, input) {
      return false, fs;
    }
    var made := MakeDirs(fs, outDir);
    if made.None? {
      return false, fs;
    }
    fs' := made.value;
    var read := ReadPages(fs', input);
    if read.None? {
      return false, fs';
    }
    var pages := read.value;
    if pagesPerFile == 0 {
      return false, fs';
    }
    if pagesPerFile < 0 {
      return true, fs';
    }
    ok, fs' := WriteChunkFiles(fs', pages, outDir, pagesPerFile);
  }

  /** The body of the chunk loop before the write: a fresh writer holding pages `[lo, hi)`. */
  method BuildChunkFile(pages: seq<Page>, outDir: Path, lo: nat, hi: nat) returns (out: Output)
    requires lo <= hi <= |pages|
    ensures out == Output(JoinPath(outDir, ChunkName(Chunk(lo, hi))), PdfFile(WriterDocument(pages[lo..hi])))
  {
    var writer := new Writer(WriterMetadata);
    AddPages(writer, pages, lo, hi);
    assert writer.pages == pages[lo..hi];
    out := Output(JoinPath(outDir, ChunkName(Chunk(lo, hi))), PdfFile(writer.Output()));
  }

  /** The loop of `split_by_pages` over the chunks, once the input is read. */
  method WriteChunkFiles(made: FileSystem, pages: seq<Page>, outDir: Path, k: nat) returns (ok: bool, fs': FileSystem)
    requires k > 0
    ensures Written(ok, fs') == WriteAll(made, ChunkOutputs(pages, outDir, Chunks(|pages|, k)))
  {
    var total := |pages|;
    ghost var chunks := Chunks(total, k);
    ghost var outs := ChunkOutputs(pages, outDir, chunks);
    fs' := made;
    var i, j := 0, 0;
    while i < total
      invariant 0 <= j <= |chunks| && (j < |chunks| <==> i < total)
      invariant j < |chunks| ==> chunks[j].start == i
      invariant WriteAll(made, outs[..j]) == Written(true, fs')
      decreases total - i
    {
      var end := Min(i + k, total);
      ChunkStep(pages, outDir, k, i, j);
      var out := BuildChunkFile(pages, outDir, i, end);
      WriteAllNext(made, outs, j, fs');
      var written := WriteFile(fs', out.path, out.file);
      if written.None? {
        return false, fs';
      }
      fs' := written.value;
      i, j := i + k, j + 1;
    }
    assert outs[..j] == outs;
    ok := true;
  }

  /**
   * The chunk loop one chunk further on: the `j`-th chunk, starting at page
   * `i`, holds `k` pages or up to the end, its file is the `j`-th output,
   * and the next chunk, if any, starts `k` pages later.
   */
  lemma ChunkStep(pages: seq<Page>, outDir: Path, k: nat, i: nat, j: nat)
    requires k > 0 && j < |Chunks(|pages|, k)| && Chunks(|pages|, k)[j].start == i
    ensures ChunkOutputs(pages, outDir, Chunks(|pages|, k))[j] ==
      Output(JoinPath(outDir, ChunkName(Chunk(i, Min(i + k, |pages|)))), PdfFile(WriterDocument(pages[i..Min(i + k, |pages|)])))
    ensures j + 1 < |Chunks(|pages|, k)| <==> i + k < |pages|
    ensures j + 1 < |Chunks(|pages|, k)| ==> Chunks(|pages|, k)[j + 1].start == i + k
  {
    var n := |pages|;
    ChunkAt(n, k, 0, j);
    ChunkSucc(n, k, j);
    if j + 1 < |Chunks(n, k)| {
      ChunkAt(n, k, 0, j + 1);
      assert (j + 1) * k == j * k + k;
    }
  }

  /** Chunk `j + 1` exists exactly when chunk `j`'s successor start `j*k + k` is still a page. */
  lemma ChunkSucc(n: nat, k: nat, j: nat)
    requires k > 0 && j < |Chunks(n, k)|
    ensures j + 1 < |Chunks(n, k)| <==> j * k + k < n
  {
    var c := |Chunks(n, k)|;
    ChunkCount(n, k, 0);
    CountBounds(c, j, k, n);
  }

  /** With `(c-1)*k < n <= c*k`, index `j < c` has a successor below `c` exactly when `(j+1)*k < n`. */
  lemma CountBounds(c: nat, j: nat, k: nat, n: nat)
    requires k > 0 && j < c && (c - 1) * k < n <= c * k
    ensures j + 1 < c <==> j * k + k < n
  {
    assert (j + 1) * k == j * k + k;
    if j + 1 < c {
      MulMono(j + 1, c - 1, k);
    } else {
      assert j + 1 == c;
    }
  }

  lemma MulMono(a: nat, b: nat, k: nat)
    requires a <= b
    ensures a * k <= b * k
  {
    assert b * k == a * k + (b - a) * k;
  }

  /** Different chunks of one split have different names. */
  lemma ChunkNamesDistinct(n: nat, k: nat, j: nat, l: nat)
    requires k > 0 && j < l < |Chunks(n, k)|
    ensures ChunkName(Chunks(n, k)[j]) != ChunkName(Chunks(n, k)[l])
  {
    ChunkAt(n, k, 0, j);
    ChunkAt(n, k, 0, l);
    assert j * k < l * k;
    if ChunkName(Chunks(n, k)[j]) == ChunkName(Chunks(n, k)[l]) {
      ChunkNameInjective(Chunks(n, k)[j], Chunks(n, k)[l]);
    }
  }

  /** The chunk files of one split all have different paths. */
  lemma ChunkPathsDistinct(pages: seq<Page>, outDir: Path, k: nat)
    requires k > 0
    ensures var outs := ChunkOutputs(pages, outDir, Chunks(|pages|, k));
      forall j, l :: 0 <= j < l < |outs| ==> outs[j].path != outs[l].path
  {
    var cs := Chunks(|pages|, k);
    var outs := ChunkOutputs(pages, outDir, cs);
    forall j, l | 0 <= j < l < |outs| ensures outs[j].path != outs[l].path {
      ChunkNamesDistinct(|pages|, k, j, l);
      if outs[j].path == outs[l].path {
        JoinPathInjective(outDir, ChunkName(cs[j]), ChunkName(cs[l]));
      }
    }
  }

  /**
   * After a successful split by `k > 0` pages, each chunk file holds exactly
   * its chunk's pages, and concatenating the chunks' pages in write order
   * gives the input's pages.
   */
  lemma SplitByPagesContents(fs: FileSystem, input: Path, outDir: Path, k: int)
    requires k > 0 && SplitByPagesOutcome(fs, input, outDir, k).ok
    ensures ReadPages(fs, input).Some?
    ensures var pages := ReadPages(fs, input).value;
      var cs := Chunks(|pages|, k);
      var after := SplitByPagesOutcome(fs, input, outDir, k).fs;
      (forall j :: 0 <= j < |cs| ==>
         var path := JoinPath(outDir, ChunkName(cs[j]));
         path in after.files && after.files[path] == PdfFile(WriterDocument(pages[cs[j].start..cs[j].end]))) &&
      ChunkPages(pages, cs) == pages
  {
    var made := MakeDirs(fs, outDir).value;
    assert ReadPages(made, input) == ReadPages(fs, input);
    var pages := ReadPages(fs, input).value;
    assert SplitByPagesOutcome(fs, input, outDir, k) == WriteAll(made, ChunkOutputs(pages, outDir, Chunks(|pages|, k)));
    ChunkFilesWritten(made, pages, outDir, k);
    ChunksCover(pages, k, 0);
  }

  /** A successful split by `k > 0` is the output directory made, then the chunk files written in order. */
  lemma SplitByPagesWrites(fs: FileSystem, input: Path, outDir: Path, k: int)
    requires k > 0 && SplitByPagesOutcome(fs, input, outDir, k).ok
    ensures ReadPages(fs, input).Some? && MakeDirs(fs, outDir).Some?
    ensures var pages := ReadPages(fs, input).value;
      SplitByPagesOutcome(fs, input, outDir, k) ==
        WriteAll(MakeDirs(fs, outDir).value, ChunkOutputs(pages, outDir, Chunks(|pages|, k)))
  {
    var made := MakeDirs(fs, outDir).value;
    assert ReadPages(made, input) == ReadPages(fs, input);
  }

  /** Once every chunk file is written, each holds its chunk's pages. */
  lemma ChunkFilesWritten(made: FileSystem, pages: seq<Page>, outDir: Path, k: nat)
    requires k > 0 && WriteAll(made, ChunkOutputs(pages, outDir, Chunks(|pages|, k))).ok
    ensures var cs := Chunks(|pages|, k);
      var after := WriteAll(made, ChunkOutputs(pages, outDir, cs)).fs;
      forall j :: 0 <= j < |cs| ==>
        var path := JoinPath(outDir, ChunkName(cs[j]));
        path in after.files && after.files[path] == PdfFile(WriterDocument(pages[cs[j].start..cs[j].end]))
  {
    var outs := ChunkOutputs(pages, outDir, Chunks(|pages|, k));
    ChunkPathsDistinct(pages, outDir, k);
    WriteAllDistinct(made, outs);
    var cs := Chunks(|pages|, k);
    forall j | 0 <= j < |cs|
      ensures outs[j] == Output(JoinPath(outDir, ChunkName(cs[j])), PdfFile(WriterDocument(pages[cs[j].start..cs[j].end])))
    {
    }
  }

  /** `f"range_{i+1}_{page_range}.pdf"`: the one-based position of the expression and the expression itself. */
  function RangeName(i: nat, expr: string): string
  {
    "range_" + Show(i + 1) + "_" + expr + ".pdf"
  }

  /** Two range files get the same name only for the same position and expression. */
  lemma RangeNameInjective(i: nat, e: string, j: nat, f: string)
    requires RangeName(i, e) == RangeName(j, f)
    ensures i == j && e == f
  {
    var a, b := Show(i + 1), Show(j + 1);
    Regroup("range_", a, "_", e, ".pdf");
    Regroup("range_", b, "_", f, ".pdf");
    PrefixCancel("range_", a + ("_" + (e + ".pdf")), b + ("_" + (f + ".pdf")));
    DigitsPrefix(a, "_" + (e + ".pdf"), b, "_" + (f + ".pdf"));
    PrefixCancel("_", e + ".pdf", f + ".pdf");
    SuffixCancel(e, f, ".pdf");
    ShowInjective(i + 1, j + 1);
  }

  /** Whether some entry is at least `least`; for such an entry the bounds
      test of the source goes on to ask for the page count. */
  predicate SomeAtLeast(xs: seq<int>, least: int)
  {
    exists j :: 0 <= j < |xs| && xs[j] >= least
  }

  lemma SomeAtLeastSnoc(xs: seq<int>, x: int, least: int)
    ensures SomeAtLeast(xs + [x], least) <==> SomeAtLeast(xs, least) || x >= least
  {
    var ys := xs + [x];
    assert ys[|xs|] == x;
    if SomeAtLeast(ys, least) && x < least {
      var j :| 0 <= j < |ys| && ys[j] >= least;
      assert xs[j] == ys[j];
    }
    if SomeAtLeast(xs, least) {
      var j :| 0 <= j < |xs| && xs[j] >= least;
      assert ys[j] == xs[j];
    }
  }

  lemma PickSnoc(pages: seq<Page>, indices: seq<int>, x: int)
    requires forall j :: 0 <= j < |indices| ==> 0 <= indices[j] < |pages|
    requires 0 <= x < |pages|
    ensures Pick(pages, indices + [x]) == Pick(pages, indices) + [pages[x]]
  {
    var ys := indices + [x];
    assert forall j :: 0 <= j < |indices| ==> ys[j] == indices[j];
  }

  /** `[reader.pages[i] for i in indices if 0 <= i < len(reader.pages)]`. */
  function RangePages(doc: Document, indices: seq<int>): seq<Page>
  {
    Pick(doc.pages, KeepInBounds(indices, |doc.pages|))
  }

  /**
   * What the range split does with the `i`-th expression, or None when it
   * raises: an unreadable expression, or an encrypted input that must be
   * read because some index is not negative (the bounds test
   * `0 <= page_num < len(reader.pages)` only asks for the page count once
   * `0 <= page_num` holds). In-bounds indices are copied in order.
   */
  function RangeStep(doc: Document, outDir: Path, i: nat, expr: string): Option<Output>
  {
    match Parse(expr)
    case None => None
    case Some(indices) =>
      if Locked(doc) && SomeAtLeast(indices, 0) then None
      else Some(Output(JoinPath(outDir, RangeName(i, expr)),
                       PdfFile(WriterDocument(RangePages(doc, indices)))))
  }

  /** The files the range split writes, in order, up to the first expression that raises;
      `ok` tells whether there was none. */
  datatype Plan = Plan(outs: seq<Output>, ok: bool)

  /** The outputs of a sequence of steps, up to the first step that fails. */
  function PlanOf(steps: seq<Option<Output>>): (p: Plan)
    ensures |p.outs| <= |steps|
    ensures p.ok ==> |p.outs| == |steps|
  {
    if steps == [] then Plan([], true)
    else
      var before := PlanOf(steps[..|steps| - 1]);
      if !before.ok then before
      else match steps[|steps| - 1]
        case None => Plan(before.outs, false)
        case Some(out) => Plan(before.outs + [out], true)
  }

  /** A plan's outputs are its successful steps, and a plan that stops does so at a failing step. */
  lemma {:induction false} PlanOfSteps(steps: seq<Option<Output>>)
    ensures var p := PlanOf(steps);
      (forall j :: 0 <= j < |p.outs| ==> steps[j] == Some(p.outs[j])) &&
      (!p.ok ==> |p.outs| < |steps| && steps[|p.outs|].None?)
  {
    if steps != [] {
      var init := steps[..|steps| - 1];
      PlanOfSteps(init);
      assert forall j :: 0 <= j < |init| ==> init[j] == steps[j];
    }
  }

  /** One step per expression, numbered from 0. */
  function RangeSteps(doc: Document, outDir: Path, ranges: seq<string>): (steps: seq<Option<Output>>)
    ensures |steps| == |ranges|
  {
    seq(|ranges|, j requires 0 <= j < |ranges| => RangeStep(doc, outDir, j, ranges[j]))
  }

  function RangePlan(doc: Document, outDir: Path, ranges: seq<string>): (p: Plan)
    ensures |p.outs| <= |ranges|
    ensures p.ok ==> |p.outs| == |ranges|
  {
    PlanOf(RangeSteps(doc, outDir, ranges))
  }

  /** The plan's outputs are the steps of the expressions before the first failing one. */
  lemma RangePlanSteps(doc: Document, outDir: Path, ranges: seq<string>)
    ensures var p := RangePlan(doc, outDir, ranges);
      (forall j :: 0 <= j < |p.outs| ==> RangeStep(doc, outDir, j, ranges[j]) == Some(p.outs[j])) &&
      (!p.ok ==> |p.outs| < |ranges| && RangeStep(doc, outDir, |p.outs|, ranges[|p.outs|]).None?)
  {
    var steps := RangeSteps(doc, outDir, ranges);
    PlanOfSteps(steps);
    assert forall j :: 0 <= j < |ranges| ==> steps[j] == RangeStep(doc, outDir, j, ranges[j]);
  }

  /** The `i`-th expression, reached without a failure, either fails the plan there or gives its `i`-th output. */
  lemma RangePlanAt(doc: Document, outDir: Path, ranges: seq<string>, i: nat)
    requires i < |ranges| && i <= |RangePlan(doc, outDir, ranges).outs|
    ensures var p := RangePlan(doc, outDir, ranges); var step := RangeStep(doc, outDir, i, ranges[i]);
      (step.None? ==> i == |p.outs| && !p.ok) && (step.Some? ==> i < |p.outs| && p.outs[i] == step.value)
  {
    RangePlanSteps(doc, outDir, ranges);
  }

  /** The files of one range split all have different paths. */
  lemma RangePathsDistinct(doc: Document, outDir: Path, ranges: seq<string>)
    ensures var outs := RangePlan(doc, outDir, ranges).outs;
      forall j, l :: 0 <= j < l < |outs| ==> outs[j].path != outs[l].path
  {
    var outs := RangePlan(doc, outDir, ranges).outs;
    RangePlanSteps(doc, outDir, ranges);
    forall j, l | 0 <= j < l < |outs| ensures outs[j].path != outs[l].path {
      assert outs[j].path == JoinPath(outDir, RangeName(j, ranges[j]));
      assert outs[l].path == JoinPath(outDir, RangeName(l, ranges[l]));
      if outs[j].path == outs[l].path {
        JoinPathInjective(outDir, RangeName(j, ranges[j]), RangeName(l, ranges[l]));
        RangeNameInjective(j, ranges[j], l, ranges[l]);
      }
    }
  }

  /** What `split_by_page_ranges` does to the file system. */
  function SplitByRangesOutcome(fs: FileSystem, input: Path, outDir: Path, ranges: seq<string>): Written
  {
    if !Exists(fs, input) then Written(false, fs)
    else match MakeDirs(fs, outDir)
      case None => Written(false, fs)
      case Some(made) =>
        match OpenPdf(made, input)
        case None => Written(false, made)
        case Some(doc) =>
          var plan := RangePlan(doc, outDir, ranges);
          var w := WriteAll(made, plan.outs);
          Written(w.ok && plan.ok, w.fs)
  }

  /**
   * `for page_num in pages: if 0 <= page_num < len(reader.pages):
   * writer.add_page(reader.pages[page_num])`; false when the page count of an
   * encrypted document is asked for.
   */
  method AddInBounds(w: Writer, doc: Document, indices: seq<int>) returns (ok: bool)
    modifies w
    ensures ok <==> !(Locked(doc) && SomeAtLeast(indices, 0))
    ensures ok ==> w.pages == old(w.pages) + RangePages(doc, indices)
    ensures w.metadata == old(w.metadata) && w.protection == old(w.protection)
  {
    var n := |doc.pages|;
    ghost var before := w.pages;
    var j := 0;
    while j < |indices|
      invariant 0 <= j <= |indices|
      invariant !(Locked(doc) && SomeAtLeast(indices[..j], 0))
      invariant w.pages == before + RangePages(doc, indices[..j])
      invariant w.metadata == old(w.metadata) && w.protection == old(w.protection)
    {
      var p := indices[j];
      KeptPrefixStep(doc, indices, j);
      ghost var kept := RangePages(doc, indices[..j]);
      if 0 <= p {
        if Locked(doc) {
          assert indices[j] >= 0;
          return false;
        }
        if p < n {
          w.AddPage(doc.pages[p]);
          assert w.pages == before + (kept + [doc.pages[p]]);
        }
      }
      j := j + 1;
    }
    assert indices[..j] == indices;
    ok := true;
  }

  /** The loop of `AddInBounds` one index further on. */
  lemma KeptPrefixStep(doc: Document, indices: seq<int>, j: nat)
    requires j < |indices|
    ensures RangePages(doc, indices[..j + 1]) ==
      RangePages(doc, indices[..j]) + (if 0 <= indices[j] < |doc.pages| then [doc.pages[indices[j]]] else [])
    ensures SomeAtLeast(indices[..j + 1], 0) <==> SomeAtLeast(indices[..j], 0) || indices[j] >= 0
  {
    var p, n := indices[j], |doc.pages|;
    assert indices[..j + 1] == indices[..j] + [p];
    KeepInBoundsSnoc(indices[..j], p, n);
    SomeAtLeastSnoc(indices[..j], p, 0);
    if 0 <= p < n {
      PickSnoc(doc.pages, KeepInBounds(indices[..j], n), p);
    }
  }

  /** Filtering one more index keeps it exactly when it is in bounds. */
  lemma {:induction false} KeepInBoundsSnoc(indices: seq<int>, x: int, n: int)
    ensures KeepInBounds(indices + [x], n) == KeepInBounds(indices, n) + (if 0 <= x < n then [x] else [])
    decreases |indices|
  {
    if indices == [] {
      assert indices + [x] == [x];
      assert [x][1..] == [];
    } else {
      assert (indices + [x])[1..] == indices[1..] + [x];
      KeepInBoundsSnoc(indices[1..], x, n);
    }
  }

  /** The body of the range loop before the write: a fresh writer filled with
      the pages the `i`-th expression names, or None when that raises. */
  method BuildRangeFile(doc: Document, outDir: Path, i: nat, expr: string) returns (out: Option<Output>)
    ensures out == RangeStep(doc, outDir, i, expr)
  {
    RangeStepCases(doc, outDir, i, expr);
    var writer := new Writer(WriterMetadata);
    var indices := ParsePageRange(expr);
    if indices.None? {
      return None;
    }
    var added := AddInBounds(writer, doc, indices.value);
    if !added {
      assert Locked(doc) && SomeAtLeast(indices.value, 0);
      return None;
    }
    assert writer.pages == RangePages(doc, indices.value);
    assert writer.Output() == WriterDocument(writer.pages);
    out := Some(Output(JoinPath(outDir, RangeName(i, expr)), PdfFile(writer.Output())));
  }

  /** The loop of `split_by_page_ranges` over the expressions, once the input is open. */
  method WriteRangeFiles(made: FileSystem, doc: Document, outDir: Path, ranges: seq<string>) returns (ok: bool, fs': FileSystem)
    ensures var plan := RangePlan(doc, outDir, ranges); var w := WriteAll(made, plan.outs);
      ok == (w.ok && plan.ok) && fs' == w.fs
  {
    ghost var plan := RangePlan(doc, outDir, ranges);
    fs' := made;
    var i := 0;
    while i < |ranges|
      invariant 0 <= i <= |ranges|
      invariant i <= |plan.outs|
      invariant WriteAll(made, plan.outs[..i]) == Written(true, fs')
    {
      var out := BuildRangeFile(doc, outDir, i, ranges[i]);
      RangePlanAt(doc, outDir, ranges, i);
      if out.None? {
        assert plan.outs[..i] == plan.outs;
        return false, fs';
      }
      WriteAllNext(made, plan.outs, i, fs');
      var written := WriteFile(fs', out.value.path, out.value.file);
      if written.None? {
        return false, fs';
      }
      fs' := written.value;
      i := i + 1;
    }
    assert plan.outs[..i] == plan.outs;
    ok := true;
  }

  /** `split_by_page_ranges`: one file `range_<i>_<expr>.pdf` per expression, in order. */
  method SplitByPageRanges(fs: FileSystem, input: Path, outDir: Path, ranges: seq<string>) returns (ok: bool, fs': FileSystem)
    ensures Written(ok, fs') == SplitByRangesOutcome(fs, input, outDir, ranges)
  {
    if !Exists(fs, input) {
      return false, fs;
    }
    var made := MakeDirs(fs, outDir);
    if made.None? {
      return false, fs;
    }
    var source := OpenPdf(made.value, input);
    if source.None? {
      return false, made.value;
    }
    RangesOutcomeOpened(fs, input, outDir, ranges);
    ok, fs' := WriteRangeFiles(made.value, source.value, outDir, ranges);
  }

  /** Once the directory is made and the input opens, the outcome is that of writing the plan. */
  lemma RangesOutcomeOpened(fs: FileSystem, input: Path, outDir: Path, ranges: seq<string>)
    requires Exists(fs, input) && MakeDirs(fs, outDir).Some? && OpenPdf(MakeDirs(fs, outDir).value, input).Some?
    ensures var made := MakeDirs(fs, outDir).value;
      var plan := RangePlan(OpenPdf(made, input).value, outDir, ranges);
      var w := WriteAll(made, plan.outs);
      SplitByRangesOutcome(fs, input, outDir, ranges) == Written(w.ok && plan.ok, w.fs)
  {
  }

  /** What one step gives, by cases. */
  lemma RangeStepCases(doc: Document, outDir: Path, i: nat, expr: string)
    ensures Parse(expr).None? ==> RangeStep(doc, outDir, i, expr).None?
    ensures Parse(expr).Some? && Locked(doc) && SomeAtLeast(Parse(expr).value, 0) ==> RangeStep(doc, outDir, i, expr).None?
    ensures Parse(expr).Some? && !(Locked(doc) && SomeAtLeast(Parse(expr).value, 0)) ==>
      RangeStep(doc, outDir, i, expr) ==
        Some(Output(JoinPath(outDir, RangeName(i, expr)), PdfFile(WriterDocument(RangePages(doc, Parse(expr).value)))))
  {
  }

  /** A successful range split made the directory, opened the input and wrote every planned file. */
  lemma RangesOutcomeOk(fs: FileSystem, input: Path, outDir: Path, ranges: seq<string>)
    requires SplitByRangesOutcome(fs, input, outDir, ranges).ok
    ensures MakeDirs(fs, outDir).Some? && OpenPdf(fs, input).Some?
    ensures var made := MakeDirs(fs, outDir).value; var plan := RangePlan(OpenPdf(fs, input).value, outDir, ranges);
      plan.ok && SplitByRangesOutcome(fs, input, outDir, ranges) == WriteAll(made, plan.outs)
  {
  }

  /** The file a successful step writes: the in-bounds pages of its expression, at its own name. */
  lemma RangeStepOutput(doc: Document, outDir: Path, i: nat, expr: string)
    requires RangeStep(doc, outDir, i, expr).Some?
    ensures Parse(expr).Some?
    ensures RangeStep(doc, outDir, i, expr).value ==
      Output(JoinPath(outDir, RangeName(i, expr)), PdfFile(WriterDocument(RangePages(doc, Parse(expr).value))))
  {
  }

  /**
   * After a successful range split every expression `ranges[i]` has its own
   * file, holding the in-bounds pages it names, in the order it names them.
   */
  lemma SplitByRangesContents(fs: FileSystem, input: Path, outDir: Path, ranges: seq<string>, i: nat)
    requires SplitByRangesOutcome(fs, input, outDir, ranges).ok && i < |ranges|
    ensures OpenPdf(fs, input).Some? && Parse(ranges[i]).Some?
    ensures var doc := OpenPdf(fs, input).value;
      var after := SplitByRangesOutcome(fs, input, outDir, ranges).fs;
      var path := JoinPath(outDir, RangeName(i, ranges[i]));
      path in after.files &&
      after.files[path] == PdfFile(WriterDocument(RangePages(doc, Parse(ranges[i]).value)))
  {
    RangesOutcomeOk(fs, input, outDir, ranges);
    var made := MakeDirs(fs, outDir).value;
    var doc := OpenPdf(fs, input).value;
    var plan := RangePlan(doc, outDir, ranges);
    RangePlanAt(doc, outDir, ranges, i);
    RangeStepOutput(doc, outDir, i, ranges[i]);
    RangePathsDistinct(doc, outDir, ranges);
    WriteAllDistinct(made, plan.outs);
  }

  /**
   * A malformed expression at position `m` stops the range split with a
   * failure; the files of the expressions before it have been written and
   * stay in place (when none of their paths is a directory).
   */
  lemma SplitByRangesStops(fs: FileSystem, input: Path, outDir: Path, ranges: seq<string>, m: nat)
    requires Exists(fs, input) && MakeDirs(fs, outDir).Some? && OpenPdf(fs, input).Some?
    requires m < |ranges| && Parse(ranges[m]).None?
    requires forall j :: 0 <= j < m ==> RangeStep(OpenPdf(fs, input).value, outDir, j, ranges[j]).Some?
    ensures !SplitByRangesOutcome(fs, input, outDir, ranges).ok
    ensures var doc := OpenPdf(fs, input).value;
      RangePlan(doc, outDir, ranges).outs == seq(m, j requires 0 <= j < m => RangeStep(doc, outDir, j, ranges[j]).value)
    ensures var doc := OpenPdf(fs, input).value;
      var after := SplitByRangesOutcome(fs, input, outDir, ranges).fs;
      (forall j :: 0 <= j < m ==> JoinPath(outDir, RangeName(j, ranges[j])) !in fs.dirs) ==>
      forall j :: 0 <= j < m ==>
        Parse(ranges[j]).Some? &&
        JoinPath(outDir, RangeName(j, ranges[j])) in after.files &&
        after.files[JoinPath(outDir, RangeName(j, ranges[j]))] == PdfFile(WriterDocument(RangePages(doc, Parse(ranges[j]).value)))
  {
    var doc := OpenPdf(fs, input).value;
    var made := MakeDirs(fs, outDir).value;
    assert OpenPdf(made, input) == OpenPdf(fs, input);
    RangesOutcomeOpened(fs, input, outDir, ranges);
    RangePlanStops(doc, outDir, ranges, m);
    if forall j :: 0 <= j < m ==> JoinPath(outDir, RangeName(j, ranges[j])) !in fs.dirs {
      forall j | 0 <= j < m
        ensures JoinPath(outDir, RangeName(j, ranges[j])) !in made.dirs
      {
        RangePathNotMade(fs, outDir, j, ranges[j]);
      }
      RangeFilesWritten(made, doc, outDir, ranges);
    }
  }

  /** The plan ends, unsuccessfully, at the first malformed expression. */
  lemma RangePlanStops(doc: Document, outDir: Path, ranges: seq<string>, m: nat)
    requires m < |ranges| && Parse(ranges[m]).None?
    requires forall j :: 0 <= j < m ==> RangeStep(doc, outDir, j, ranges[j]).Some?
    ensures var plan := RangePlan(doc, outDir, ranges);
      !plan.ok && plan.outs == seq(m, j requires 0 <= j < m => RangeStep(doc, outDir, j, ranges[j]).value)
  {
    var plan := RangePlan(doc, outDir, ranges);
    RangePlanSteps(doc, outDir, ranges);
    assert RangeStep(doc, outDir, m, ranges[m]).None?;
    assert !plan.ok && |plan.outs| == m;
  }

  /** A range file's path is none of the directories made for the output. */
  lemma RangePathNotMade(fs: FileSystem, outDir: Path, j: nat, expr: string)
    requires MakeDirs(fs, outDir).Some? && JoinPath(outDir, RangeName(j, expr)) !in fs.dirs
    ensures JoinPath(outDir, RangeName(j, expr)) !in MakeDirs(fs, outDir).value.dirs
  {
    assert RangeName(j, expr)[0] == 'r';
    JoinPathNotMade(outDir, RangeName(j, expr));
  }

  /** When no planned path is a directory, every planned range file is written and holds its pages. */
  lemma RangeFilesWritten(made: FileSystem, doc: Document, outDir: Path, ranges: seq<string>)
    requires var n := |RangePlan(doc, outDir, ranges).outs|;
      forall j :: 0 <= j < n ==> JoinPath(outDir, RangeName(j, ranges[j])) !in made.dirs
    ensures var outs := RangePlan(doc, outDir, ranges).outs;
      var after := WriteAll(made, outs).fs;
      WriteAll(made, outs).ok &&
      forall j :: 0 <= j < |outs| ==>
        Parse(ranges[j]).Some? &&
        JoinPath(outDir, RangeName(j, ranges[j])) in after.files &&
        after.files[JoinPath(outDir, RangeName(j, ranges[j]))] == PdfFile(WriterDocument(RangePages(doc, Parse(ranges[j]).value)))
  {
    var plan := RangePlan(doc, outDir, ranges);
    RangePlanSteps(doc, outDir, ranges);
    forall j | 0 <= j < |plan.outs|
      ensures Parse(ranges[j]).Some? && plan.outs[j].path == JoinPath(outDir, RangeName(j, ranges[j]))
      ensures plan.outs[j].file == PdfFile(WriterDocument(RangePages(doc, Parse(ranges[j]).value)))
    {
      RangeStepOutput(doc, outDir, j, ranges[j]);
    }
    WriteAllSucceeds(made, plan.outs);
    RangePathsDistinct(doc, outDir, ranges);
    WriteAllDistinct(made, plan.outs);
  }

  /** `[reader.pages[p - 1] for p in page_numbers if 1 <= p <= len(reader.pages)]`. */
  function ExtractedPages(doc: Document, numbers: seq<int>): seq<Page>
  {
    Pick(doc.pages, SelectOneBased(numbers, |doc.pages|))
  }

  /**
   * What `extract_pages` does: nothing unless the input opens and every page
   * it must look at can be read; then one output with the pages chosen by
   * their one-based numbers, out-of-range numbers skipped. No directory is
   * created for the output.
   */
  function ExtractOutcome(fs: FileSystem, input: Path, output: Path, numbers: seq<int>): Written
  {
    if !Exists(fs, input) then Written(false, fs)
    else match OpenPdf(fs, input)
      case None => Written(false, fs)
      case Some(doc) =>
        if Locked(doc) && SomeAtLeast(numbers, 1) then Written(false, fs)
        else match WriteFile(fs, output, PdfFile(WriterDocument(ExtractedPages(doc, numbers))))
          case None => Written(false, fs)
          case Some(after) => Written(true, after)
  }

  /**
   * `for page_num in page_numbers: if 1 <= page_num <= len(reader.pages):
   * writer.add_page(reader.pages[page_num - 1])`.
   */
  method AddOneBased(w: Writer, doc: Document, numbers: seq<int>) returns (ok: bool)
    modifies w
    ensures ok <==> !(Locked(doc) && SomeAtLeast(numbers, 1))
    ensures ok ==> w.pages == old(w.pages) + ExtractedPages(doc, numbers)
    ensures w.metadata == old(w.metadata) && w.protection == old(w.protection)
  {
    var n := |doc.pages|;
    ghost var before := w.pages;
    var j := 0;
    while j < |numbers|
      invariant 0 <= j <= |numbers|
      invariant !(Locked(doc) && SomeAtLeast(numbers[..j], 1))
      invariant w.pages == before + ExtractedPages(doc, numbers[..j])
      invariant w.metadata == old(w.metadata) && w.protection == old(w.protection)
    {
      var p := numbers[j];
      SelectedPrefixStep(doc, numbers, j);
      ghost var chosen := ExtractedPages(doc, numbers[..j]);
      if 1 <= p {
        if Locked(doc) {
          assert numbers[j] >= 1;
          return false;
        }
        if p <= n {
          w.AddPage(doc.pages[p - 1]);
          assert w.pages == before + (chosen + [doc.pages[p - 1]]);
        }
      }
      j := j + 1;
    }
    assert numbers[..j] == numbers;
    ok := true;
  }

  /** The loop of `AddOneBased` one number further on. */
  lemma SelectedPrefixStep(doc: Document, numbers: seq<int>, j: nat)
    requires j < |numbers|
    ensures ExtractedPages(doc, numbers[..j + 1]) ==
      ExtractedPages(doc, numbers[..j]) + (if 1 <= numbers[j] <= |doc.pages| then [doc.pages[numbers[j] - 1]] else [])
    ensures SomeAtLeast(numbers[..j + 1], 1) <==> SomeAtLeast(numbers[..j], 1) || numbers[j] >= 1
  {
    var p := numbers[j];
    var n := |doc.pages|;
    assert numbers[..j + 1] == numbers[..j] + [p];
    SelectOneBasedSnoc(numbers[..j], p, n);
    SomeAtLeastSnoc(numbers[..j], p, 1);
    if 1 <= p <= n {
      PickSnoc(doc.pages, SelectOneBased(numbers[..j], n), p - 1);
    }
  }

  /** Selecting one more page number keeps it exactly when it is in range. */
  lemma {:induction false} SelectOneBasedSnoc(numbers: seq<int>, x: int, n: int)
    ensures SelectOneBased(numbers + [x], n) == SelectOneBased(numbers, n) + (if 1 <= x <= n then [x - 1] else [])
    decreases |numbers|
  {
    if numbers == [] {
      assert numbers + [x] == [x];
      assert [x][1..] == [];
    } else {
      assert (numbers + [x])[1..] == numbers[1..] + [x];
      SelectOneBasedSnoc(numbers[1..], x, n);
    }
  }

  /** `extract_pages`: the chosen pages, in the order given, into one file. */
  method ExtractPages(fs: FileSystem, input: Path, output: Path, numbers: seq<int>) returns (ok: bool, fs': FileSystem)
    ensures Written(ok, fs') == ExtractOutcome(fs, input, output, numbers)
  {
    if !Exists(fs, input) {
      return false, fs;
    }
    var source := OpenPdf(fs, input);
    if source.None? {
      return false, fs;
    }
    var writer := new Writer(WriterMetadata);
    var added := AddOneBased(writer, source.value, numbers);
    if !added {
      return false, fs;
    }
    assert writer.Output() == WriterDocument(ExtractedPages(source.value, numbers));
    var written := WriteFile(fs, output, PdfFile(writer.Output()));
    if written.None? {
      return false, fs;
    }
    return true, written.value;
  }

  /**
   * When every number names a page, the extracted file holds exactly those
   * pages in the order given (duplicates repeated); numbers `1..n` copy the document.
   */
  lemma ExtractInRange(doc: Document, numbers: seq<int>)
    requires forall j :: 0 <= j < |numbers| ==> 1 <= numbers[j] <= |doc.pages|
    ensures |ExtractedPages(doc, numbers)| == |numbers|
    ensures forall j :: 0 <= j < |numbers| ==> ExtractedPages(doc, numbers)[j] == doc.pages[numbers[j] - 1]
    ensures numbers == seq(|doc.pages|, j => j + 1) ==> ExtractedPages(doc, numbers) == doc.pages
  {
    SelectIsShiftedFilter(numbers, |doc.pages|);
  }

  /** `get_page_count`: the number of pages, or None when the file cannot be read as a document. */
  function GetPageCount(fs: FileSystem, input: Path): (r: Option<nat>)
    ensures r.Some? <==> ReadPages(fs, input).Some?
    ensures r.Some? ==> r.value == |OpenPdf(fs, input).value.pages|
  {
    match ReadPages(fs, input)
    case None => None
    case Some(pages) => Some(|pages|)
  }

  /** A successful split by `k > 0` writes `ceil(n / k)` files. */
  lemma SplitFileCount(fs: FileSystem, input: Path, k: int)
    requires k > 0 && GetPageCount(fs, input).Some?
    ensures var n := GetPageCount(fs, input).value; var c := |Chunks(n, k)|;
      c * k >= n && (n > 0 ==> (c - 1) * k < n) && (n == 0 ==> c == 0)
  {
    ChunkCount(GetPageCount(fs, input).value, k, 0);
  }

  /** A step of 0 fails and a negative step succeeds without writing a file; both after the directory was made. */
  lemma SplitByPagesBadStep(fs: FileSystem, input: Path, outDir: Path, k: int)
    requires Exists(fs, input) && MakeDirs(fs, outDir).Some? && ReadPages(fs, input).Some? && k <= 0
    ensures var r := SplitByPagesOutcome(fs, input, outDir, k);
      r.ok == (k < 0) && r.fs.files == fs.files && r.fs.dirs == fs.dirs + {outDir} + Ancestors(outDir)
  {
    var made := MakeDirs(fs, outDir).value;
    assert ReadPages(made, input) == ReadPages(fs, input);
  }

  /** A missing input makes every operation of the splitter fail before the directory is made or a file written. */
  lemma SplitterMissingInput(fs: FileSystem, input: Path, outDir: Path, k: int, ranges: seq<string>, output: Path, numbers: seq<int>)
    requires !Exists(fs, input)
    ensures SplitByPagesOutcome(fs, input, outDir, k) == Written(false, fs)
    ensures SplitByRangesOutcome(fs, input, outDir, ranges) == Written(false, fs)
    ensures ExtractOutcome(fs, input, output, numbers) == Written(false, fs)
  {
  }

  /**
   * An output directory that `os.makedirs` cannot make (the empty path, or a
   * path at or under a regular file) fails both splits with nothing changed.
   */
  lemma SplitterNoDirectory(fs: FileSystem, input: Path, outDir: Path, k: int, ranges: seq<string>)
    requires MakeDirs(fs, outDir).None?
    ensures SplitByPagesOutcome(fs, input, outDir, k) == Written(false, fs)
    ensures SplitByRangesOutcome(fs, input, outDir, ranges) == Written(false, fs)
  {
  }

  /** For instance, an output directory asked for under the input file itself. */
  lemma SplitUnderInputFile(fs: FileSystem, input: Path, rest: string, k: int, ranges: seq<string>)
    requires input != "" && input in fs.files
    ensures SplitByPagesOutcome(fs, input, input + "/" + rest, k) == Written(false, fs)
    ensures SplitByRangesOutcome(fs, input, input + "/" + rest, ranges) == Written(false, fs)
  {
    MakeDirsUnderFile(fs, input, rest);
  }

  /** An expression naming no page of a readable document still gives a file: one with no pages. */
  lemma RangeOutOfBounds(doc: Document, outDir: Path, i: nat, expr: string)
    requires !Locked(doc) && Parse(expr).Some?
    requires forall j :: 0 <= j < |Parse(expr).value| ==> !(0 <= Parse(expr).value[j] < |doc.pages|)
    ensures RangeStep(doc, outDir, i, expr) == Some(Output(JoinPath(outDir, RangeName(i, expr)), PdfFile(WriterDocument([]))))
  {
    KeepInBoundsNone(Parse(expr).value, |doc.pages|);
    RangeStepCases(doc, outDir, i, expr);
  }

  lemma {:induction false} KeepInBoundsNone(indices: seq<int>, n: int)
    requires forall j :: 0 <= j < |indices| ==> !(0 <= indices[j] < n)
    ensures KeepInBounds(indices, n) == []
    decreases |indices|
  {
    if indices != [] {
      KeepInBoundsNone(indices[1..], n);
    }
  }
}
