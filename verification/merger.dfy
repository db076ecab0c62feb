/**
 * The merger engine (`PDFMerger`): whole files concatenated in order, or
 * files paired with optional page-range expressions.
 */
module Merger {
  import opened Wrappers
  import opened Text
  import opened Documents
  import opened PageRange
  import opened Splitter

  /** The pages of every input, whole, in input order; None when an input is missing or cannot be read. */
  function AllPages(fs: FileSystem, inputs: seq<Path>): Option<seq<Page>>
    decreases |inputs|
  {
    if inputs == [] then Some([])
    else match ReadPages(fs, inputs[0])
      case None => None
      case Some(first) =>
        match AllPages(fs, inputs[1..])
        case None => None
        case Some(rest) => Some(first + rest)
  }

  /** What `merge_pdfs` does: one output with every page, written only when every input could be read. */
  function MergeOutcome(fs: FileSystem, inputs: seq<Path>, output: Path): Written
  {
    match AllPages(fs, inputs)
    case None => Written(false, fs)
    case Some(pages) =>
      match WriteFile(fs, output, PdfFile(WriterDocument(pages)))
      case None => Written(false, fs)
      case Some(after) => Written(true, after)
  }

  /** Reading one more input extends the pages read so far. */
  lemma {:induction false} AllPagesSnoc(fs: FileSystem, inputs: seq<Path>, p: Path)
    ensures AllPages(fs, inputs + [p]) ==
      if AllPages(fs, inputs).Some? && ReadPages(fs, p).Some? then Some(AllPages(fs, inputs).value + ReadPages(fs, p).value)
      else None
    decreases |inputs|
  {
    if inputs == [] {
      assert inputs + [p] == [p];
      assert [p][1..] == [];
      if ReadPages(fs, p).Some? {
        assert ReadPages(fs, p).value + [] == [] + ReadPages(fs, p).value;
      }
    } else {
      assert (inputs + [p])[0] == inputs[0];
      assert (inputs + [p])[1..] == inputs[1..] + [p];
      AllPagesSnoc(fs, inputs[1..], p);
      if AllPages(fs, inputs).Some? && ReadPages(fs, p).Some? {
        var first := ReadPages(fs, inputs[0]).value;
        var rest := AllPages(fs, inputs[1..]).value;
        assert first + (rest + ReadPages(fs, p).value) == (first + rest) + ReadPages(fs, p).value;
      }
    }
  }

  /** `merge_pdfs`: appends every input to one merger, then writes it. */
  method MergePdfs(fs: FileSystem, inputs: seq<Path>, output: Path) returns (ok: bool, fs': FileSystem)
    ensures Written(ok, fs') == MergeOutcome(fs, inputs, output)
  {
    var merger := new Writer(WriterMetadata);
    var i := 0;
    while i < |inputs|
      invariant 0 <= i <= |inputs|
      invariant AllPages(fs, inputs[..i]) == Some(merger.pages)
      invariant merger.metadata == WriterMetadata && merger.protection == Plain
    {
      AllPagesSnoc(fs, inputs[..i], inputs[i]);
      assert inputs[..i + 1] == inputs[..i] + [inputs[i]];
      if !Exists(fs, inputs[i]) {
        AllPagesFails(fs, inputs, i);
        return false, fs;
      }
      var pages := ReadPages(fs, inputs[i]);
      if pages.None? {
        AllPagesFails(fs, inputs, i);
        return false, fs;
      }
      merger.Append(pages.value);
      i := i + 1;
    }
    assert inputs[..i] == inputs;
    var written := WriteFile(fs, output, PdfFile(merger.Output()));
    if written.None? {
      return false, fs;
    }
    return true, written.value;
  }

  /** An input that cannot be read makes the whole merge fail. */
  lemma AllPagesFails(fs: FileSystem, inputs: seq<Path>, i: nat)
    requires i < |inputs| && ReadPages(fs, inputs[i]).None?
    ensures AllPages(fs, inputs) == None
  {
    assert inputs == inputs[..i] + [inputs[i]] + inputs[i + 1..];
    AllPagesAppend(fs, inputs[..i] + [inputs[i]], inputs[i + 1..]);
    AllPagesSnoc(fs, inputs[..i], inputs[i]);
  }

  /** Merging two lists of inputs is merging each and concatenating. */
  lemma {:induction false} AllPagesAppend(fs: FileSystem, a: seq<Path>, b: seq<Path>)
    ensures AllPages(fs, a + b) ==
      if AllPages(fs, a).Some? && AllPages(fs, b).Some? then Some(AllPages(fs, a).value + AllPages(fs, b).value) else None
    decreases |a|
  {
    if a == [] {
      assert a + b == b;
      if AllPages(fs, b).Some? {
        assert [] + AllPages(fs, b).value == AllPages(fs, b).value;
      }
    } else {
      assert (a + b)[0] == a[0];
      assert (a + b)[1..] == a[1..] + b;
      AllPagesAppend(fs, a[1..], b);
      if AllPages(fs, a).Some? && AllPages(fs, b).Some? {
        var first := ReadPages(fs, a[0]).value;
        var rest := AllPages(fs, a[1..]).value;
        assert first + (rest + AllPages(fs, b).value) == (first + rest) + AllPages(fs, b).value;
      }
    }
  }

  /** When every input can be read, the merged file holds every input's pages in input order. */
  lemma MergeContents(fs: FileSystem, inputs: seq<Path>, output: Path)
    requires forall j :: 0 <= j < |inputs| ==> ReadPages(fs, inputs[j]).Some?
    requires output !in fs.dirs
    ensures MergeOutcome(fs, inputs, output).ok
    ensures MergeOutcome(fs, inputs, output).fs.files ==
      fs.files[output := PdfFile(WriterDocument(Concat(seq(|inputs|, j requires 0 <= j < |inputs| => ReadPages(fs, inputs[j]).value))))]
  {
    AllPagesConcat(fs, inputs);
  }

  /** Pages of several files, one after the other. */
  function Concat(parts: seq<seq<Page>>): seq<Page>
    decreases |parts|
  {
    if parts == [] then [] else parts[0] + Concat(parts[1..])
  }

  lemma {:induction false} AllPagesConcat(fs: FileSystem, inputs: seq<Path>)
    requires forall j :: 0 <= j < |inputs| ==> ReadPages(fs, inputs[j]).Some?
    ensures AllPages(fs, inputs) == Some(Concat(seq(|inputs|, j requires 0 <= j < |inputs| => ReadPages(fs, inputs[j]).value)))
    decreases |inputs|
  {
    if inputs != [] {
      AllPagesConcat(fs, inputs[1..]);
      var parts := seq(|inputs|, j requires 0 <= j < |inputs| => ReadPages(fs, inputs[j]).value);
      assert parts[1..] == seq(|inputs| - 1, j requires 0 <= j < |inputs| - 1 => ReadPages(fs, inputs[1..][j]).value);
    }
  }

  /** Merging one file copies its pages. */
  lemma MergeOne(fs: FileSystem, input: Path, output: Path)
    requires ReadPages(fs, input).Some? && output !in fs.dirs
    ensures MergeOutcome(fs, [input], output) ==
      Written(true, fs.(files := fs.files[output := PdfFile(WriterDocument(ReadPages(fs, input).value))]))
  {
    var pages := ReadPages(fs, input).value;
    assert [input][1..] == [];
    assert AllPages(fs, [input][1..]) == Some([]);
    assert pages + [] == pages;
    assert AllPages(fs, [input]) == Some(pages);
  }

  /** A missing input makes the merge fail before the output is touched. */
  lemma MergeMissing(fs: FileSystem, inputs: seq<Path>, output: Path, i: nat)
    requires i < |inputs| && !Exists(fs, inputs[i])
    ensures MergeOutcome(fs, inputs, output) == Written(false, fs)
  {
    AllPagesFails(fs, inputs, i);
  }

  /** One `(path, range)` pair of `merge_pdfs_with_order`. */
  datatype Entry = Entry(path: Path, range: Option<string>)

  /** `if page_range:`: present and not the empty string. */
  predicate Truthy(range: Option<string>)
  {
    range.Some? && range.value != ""
  }

  /** `reader.pages[i]` on PyPDF2's page list: a negative index counts from the end; anything else out of range raises. */
  function Resolve(n: nat, i: int): (r: Option<nat>)
    ensures r.Some? ==> r.value < n
    ensures 0 <= i < n ==> r == Some(i)
  {
    if i < 0 && i + n >= 0 then Some(i + n) else if 0 <= i < n then Some(i) else None
  }

  /** `merger.append(file, pages=indices)`: the listed pages in list order, or None when one does not exist. */
  function Listed(pages: seq<Page>, indices: seq<int>): Option<seq<Page>>
    decreases |indices|
  {
    if indices == [] then Some([])
    else match Resolve(|pages|, indices[0])
      case None => None
      case Some(k) =>
        match Listed(pages, indices[1..])
        case None => None
        case Some(rest) => Some([pages[k]] + rest)
  }

  /** Indices that are all in range select exactly those pages, in order. */
  lemma {:induction false} ListedInRange(pages: seq<Page>, indices: seq<int>)
    requires forall j :: 0 <= j < |indices| ==> 0 <= indices[j] < |pages|
    ensures Listed(pages, indices) == Some(Pick(pages, indices))
    decreases |indices|
  {
    if indices != [] {
      ListedInRange(pages, indices[1..]);
      assert Pick(pages, indices) == [pages[indices[0]]] + Pick(pages, indices[1..]);
    }
  }

  /**
   * What one pair adds: with a truthy range, the pages its parse lists;
   * otherwise every page. None when the file is missing or unreadable, the
   * range does not parse, or a listed page does not exist.
   */
  function Contribution(fs: FileSystem, e: Entry): (r: Option<seq<Page>>)
    ensures r.Some? ==> ReadPages(fs, e.path).Some?
    ensures !Truthy(e.range) ==> r == ReadPages(fs, e.path)
  {
    if !Exists(fs, e.path) then None
    else if Truthy(e.range) then
      match Parse(e.range.value)
      case None => None
      case Some(indices) =>
        match ReadPages(fs, e.path)
        case None => None
        case Some(pages) => Listed(pages, indices)
    else ReadPages(fs, e.path)
  }

  /** The contributions of the pairs, in pair order. */
  function Gather(fs: FileSystem, entries: seq<Entry>): Option<seq<Page>>
    decreases |entries|
  {
    if entries == [] then Some([])
    else match Contribution(fs, entries[0])
      case None => None
      case Some(first) =>
        match Gather(fs, entries[1..])
        case None => None
        case Some(rest) => Some(first + rest)
  }

  /** What `merge_pdfs_with_order` does: one output, written only when every pair contributed. */
  function MergeWithOrderOutcome(fs: FileSystem, entries: seq<Entry>, output: Path): Written
  {
    match Gather(fs, entries)
    case None => Written(false, fs)
    case Some(pages) =>
      match WriteFile(fs, output, PdfFile(WriterDocument(pages)))
      case None => Written(false, fs)
      case Some(after) => Written(true, after)
  }

  lemma {:induction false} GatherSnoc(fs: FileSystem, entries: seq<Entry>, e: Entry)
    ensures Gather(fs, entries + [e]) ==
      if Gather(fs, entries).Some? && Contribution(fs, e).Some? then Some(Gather(fs, entries).value + Contribution(fs, e).value)
      else None
    decreases |entries|
  {
    if entries == [] {
      assert entries + [e] == [e];
      assert [e][1..] == [];
      if Contribution(fs, e).Some? {
        assert Contribution(fs, e).value + [] == [] + Contribution(fs, e).value;
      }
    } else {
      assert (entries + [e])[0] == entries[0];
      assert (entries + [e])[1..] == entries[1..] + [e];
      GatherSnoc(fs, entries[1..], e);
      if Gather(fs, entries).Some? && Contribution(fs, e).Some? {
        var first := Contribution(fs, entries[0]).value;
        var rest := Gather(fs, entries[1..]).value;
        assert first + (rest + Contribution(fs, e).value) == (first + rest) + Contribution(fs, e).value;
      }
    }
  }

  lemma {:induction false} GatherFails(fs: FileSystem, entries: seq<Entry>, i: nat)
    requires i < |entries| && Contribution(fs, entries[i]).None?
    ensures Gather(fs, entries) == None
    decreases i
  {
    var first := Contribution(fs, entries[0]);
    if i == 0 {
      assert first.None?;
    } else {
      assert entries[1..][i - 1] == entries[i];
      GatherFails(fs, entries[1..], i - 1);
      assert Gather(fs, entries[1..]).None?;
    }
  }

  /** The loop of `merge_pdfs_with_order` one pair further on. */
  lemma GatherPrefixStep(fs: FileSystem, entries: seq<Entry>, i: nat)
    requires i < |entries|
    ensures var before := Gather(fs, entries[..i]); var more := Contribution(fs, entries[i]);
      Gather(fs, entries[..i + 1]) == if before.Some? && more.Some? then Some(before.value + more.value) else None
  {
    assert entries[..i + 1] == entries[..i] + [entries[i]];
    GatherSnoc(fs, entries[..i], entries[i]);
  }

  /** `merger.append(file)` or `merger.append(file, pages=pages)` for one pair. */
  method AppendEntry(merger: Writer, fs: FileSystem, e: Entry) returns (ok: bool)
    modifies merger
    ensures ok == Contribution(fs, e).Some?
    ensures ok ==> merger.pages == old(merger.pages) + Contribution(fs, e).value
    ensures merger.metadata == old(merger.metadata) && merger.protection == old(merger.protection)
  {
    if !Exists(fs, e.path) {
      return false;
    }
    if Truthy(e.range) {
      var indices := ParsePageRange(e.range.value);
      if indices.None? {
        return false;
      }
      var pages := ReadPages(fs, e.path);
      if pages.None? {
        return false;
      }
      var listed := Listed(pages.value, indices.value);
      if listed.None? {
        return false;
      }
      merger.Append(listed.value);
    } else {
      var pages := ReadPages(fs, e.path);
      if pages.None? {
        return false;
      }
      merger.Append(pages.value);
    }
    ok := true;
  }

  /** `merge_pdfs_with_order`: appends each pair's pages to one merger, in pair order, then writes it. */
  method MergePdfsWithOrder(fs: FileSystem, entries: seq<Entry>, output: Path) returns (ok: bool, fs': FileSystem)
    ensures Written(ok, fs') == MergeWithOrderOutcome(fs, entries, output)
  {
    var merger := new Writer(WriterMetadata);
    var i := 0;
    while i < |entries|
      invariant 0 <= i <= |entries|
      invariant Gather(fs, entries[..i]) == Some(merger.pages)
      invariant merger.metadata == WriterMetadata && merger.protection == Plain
    {
      GatherPrefixStep(fs, entries, i);
      var added := AppendEntry(merger, fs, entries[i]);
      if !added {
        GatherFails(fs, entries, i);
        return false, fs;
      }
      i := i + 1;
    }
    assert entries[..i] == entries;
    var written := WriteFile(fs, output, PdfFile(merger.Output()));
    if written.None? {
      return false, fs;
    }
    return true, written.value;
  }

  /** Every file whole, in order: the pairs `merge_pdfs_with_order` would need to do what `merge_pdfs` does. */
  function WholeFiles(inputs: seq<Path>): (es: seq<Entry>)
    ensures |es| == |inputs| && forall j :: 0 <= j < |es| ==> es[j] == Entry(inputs[j], None)
  {
    seq(|inputs|, j requires 0 <= j < |inputs| => Entry(inputs[j], None))
  }

  /** `merge_pdfs` is `merge_pdfs_with_order` with no ranges. */
  lemma {:induction false} MergeIsOrderedWithoutRanges(fs: FileSystem, inputs: seq<Path>, output: Path)
    ensures Gather(fs, WholeFiles(inputs)) == AllPages(fs, inputs)
    ensures MergeOutcome(fs, inputs, output) == MergeWithOrderOutcome(fs, WholeFiles(inputs), output)
    decreases |inputs|
  {
    if inputs != [] {
      assert WholeFiles(inputs)[1..] == WholeFiles(inputs[1..]);
      MergeIsOrderedWithoutRanges(fs, inputs[1..], output);
    }
  }

  /** An empty range string selects the whole file, as no range does. */
  lemma EmptyRangeIsWhole(fs: FileSystem, p: Path)
    ensures Contribution(fs, Entry(p, Some(""))) == Contribution(fs, Entry(p, None)) == ReadPages(fs, p)
  {
  }

  /** A range that does not parse makes the merge fail with nothing written. */
  lemma MergeWithOrderBadRange(fs: FileSystem, entries: seq<Entry>, output: Path, i: nat)
    requires i < |entries| && Truthy(entries[i].range) && Parse(entries[i].range.value).None?
    ensures MergeWithOrderOutcome(fs, entries, output) == Written(false, fs)
  {
    GatherFails(fs, entries, i);
  }

  /** A range `"a-b"` within the document contributes pages `a..b` of it, in order. */
  lemma ContributionSpan(fs: FileSystem, p: Path, first: nat, last: nat, range: string)
    requires ReadPages(fs, p).Some?
    requires 1 <= first <= last <= |ReadPages(fs, p).value|
    requires range == Show(first) + "-" + Show(last)
    ensures Contribution(fs, Entry(p, Some(range))) == Some(ReadPages(fs, p).value[first - 1..last])
  {
    var pages := ReadPages(fs, p).value;
    ParseSpanOnly(first, last, range);
    var indices := TokenIndices(Span(first, last)).value;
    assert range != "" by {
      assert range[|Show(first)|] == '-';
    }
    assert Contribution(fs, Entry(p, Some(range))) == Listed(pages, indices);
    ListedInRange(pages, indices);
    PickInterval(pages, first - 1, last);
  }

  /** Picking the indices `lo, ..., hi - 1` is the slice `[lo, hi)`. */
  lemma PickInterval(pages: seq<Page>, lo: nat, hi: nat)
    requires lo <= hi <= |pages|
    ensures Pick(pages, Interval(lo, hi)) == pages[lo..hi]
  {
  }

  /** Two pairs contribute one after the other. */
  lemma GatherTwo(fs: FileSystem, e1: Entry, e2: Entry)
    ensures Gather(fs, [e1, e2]) ==
      if Contribution(fs, e1).Some? && Contribution(fs, e2).Some? then Some(Contribution(fs, e1).value + Contribution(fs, e2).value)
      else None
  {
    assert [e1, e2] == [e1] + [e2];
    GatherSnoc(fs, [e1], e2);
    GatherSnoc(fs, [], e1);
    assert [] + [e1] == [e1];
    assert Gather(fs, []) == Some([]);
    if Contribution(fs, e1).Some? {
      assert [] + Contribution(fs, e1).value == Contribution(fs, e1).value;
    }
  }

  /**
   * Merging `[(A, "a-b"), (B, None)]` with `a..b` inside A gives those pages
   * of A followed by all of B.
   */
  lemma MergeRangeThenWhole(fs: FileSystem, a: Path, b: Path, first: nat, last: nat, range: string)
    requires ReadPages(fs, a).Some? && ReadPages(fs, b).Some?
    requires 1 <= first <= last <= |ReadPages(fs, a).value|
    requires range == Show(first) + "-" + Show(last)
    ensures Gather(fs, [Entry(a, Some(range)), Entry(b, None)]) ==
      Some(ReadPages(fs, a).value[first - 1..last] + ReadPages(fs, b).value)
  {
    ContributionSpan(fs, a, first, last, range);
    GatherTwo(fs, Entry(a, Some(range)), Entry(b, None));
  }

  /**
   * Merging the files a split writes, taken in the order `WriteChunkFiles`
   * writes them, gives the chunks' pages concatenated.
   */
  lemma {:induction false} MergeChunkFiles(fs: FileSystem, outDir: Path, pages: seq<Page>, cs: seq<Chunk>)
    requires forall j :: 0 <= j < |cs| ==> cs[j].start <= cs[j].end <= |pages|
    requires forall j :: 0 <= j < |cs| ==>
      var path := JoinPath(outDir, ChunkName(cs[j]));
      path in fs.files && fs.files[path] == PdfFile(WriterDocument(pages[cs[j].start..cs[j].end]))
    ensures AllPages(fs, PathList(ChunkOutputs(pages, outDir, cs))) == Some(ChunkPages(pages, cs))
    decreases |cs|
  {
    if cs != [] {
      var outs := ChunkOutputs(pages, outDir, cs);
      assert PathList(outs)[1..] == PathList(ChunkOutputs(pages, outDir, cs[1..]));
      MergeChunkFiles(fs, outDir, pages, cs[1..]);
    }
  }

  /**
   * Splitting by `k > 0` pages and merging the chunk files in the order
   * `split_by_pages` wrote them gives back the original pages.
   */
  lemma SplitThenMerge(fs: FileSystem, input: Path, outDir: Path, k: int)
    requires k > 0 && SplitByPagesOutcome(fs, input, outDir, k).ok
    ensures ReadPages(fs, input).Some? && MakeDirs(fs, outDir).Some?
    ensures var pages := ReadPages(fs, input).value;
      var outs := ChunkOutputs(pages, outDir, Chunks(|pages|, k));
      SplitByPagesOutcome(fs, input, outDir, k) == WriteAll(MakeDirs(fs, outDir).value, outs) &&
      AllPages(SplitByPagesOutcome(fs, input, outDir, k).fs, PathList(outs)) == Some(pages)
  {
    SplitByPagesWrites(fs, input, outDir, k);
    SplitByPagesContents(fs, input, outDir, k);
    var pages := ReadPages(fs, input).value;
    MergeChunkFiles(SplitByPagesOutcome(fs, input, outDir, k).fs, outDir, pages, Chunks(|pages|, k));
  }
}
