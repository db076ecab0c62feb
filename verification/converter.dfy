/**
 * The converter engine (`PDFConverter`): pages to images, images to a
 * document, pages to text, re-drawing a document page by page ("compress")
 * and the per-page information report. The rasteriser, the image packer
 * and the text extractor are the library's; here they are the values
 * `Rendering`, `FromImage` and `Page.text`.
 */
module Converter {
  import opened Wrappers
  import opened Text
  import opened Documents
  import opened PageRange

  /**
   * The pages a conversion processes: every page in order when no list is
   * given, otherwise `p - 1` for each listed number `p` with `1 <= p <= n`,
   * in list order, duplicates kept.
   */
  function SelectPages(n: nat, pageRange: Option<seq<int>>): (r: seq<int>)
    ensures forall j :: 0 <= j < |r| ==> 0 <= r[j] < n
    ensures pageRange.None? ==> |r| == n && forall j :: 0 <= j < n ==> r[j] == j
  {
    match pageRange
    case None => Interval(0, n)
    case Some(numbers) => SelectOneBased(numbers, n)
  }

  /** A page is processed exactly when it was asked for (or nothing was asked for) and exists. */
  lemma SelectPagesMembers(n: nat, pageRange: Option<seq<int>>, x: int)
    ensures x in SelectPages(n, pageRange) <==> 0 <= x < n && (pageRange.None? || x + 1 in pageRange.value)
  {
    var r := SelectPages(n, pageRange);
    if pageRange.None? {
      if 0 <= x < n {
        assert r[x] == x;
      }
    } else if 0 <= x < n {
      SelectOneBasedCounts(pageRange.value, n, x);
    }
  }

  /** Numbers that are all in range are processed in exactly the order given. */
  lemma SelectPagesInRange(n: nat, numbers: seq<int>)
    requires forall j :: 0 <= j < |numbers| ==> 1 <= numbers[j] <= n
    ensures SelectPages(n, Some(numbers)) == Lowered(numbers)
  {
    SelectIsShiftedFilter(numbers, n);
  }

  /** `f"page_{page_num + 1:03d}.{format.lower()}"`. */
  function ImageName(pageIndex: nat, format: string): string
  {
    "page_" + PadDigits(Show(pageIndex + 1), 3) + "." + Lower(format)
  }

  /** Where the padded page number sits in an image name. */
  lemma ImageNameParts(pageIndex: nat, format: string)
    ensures var digits := PadDigits(Show(pageIndex + 1), 3);
      |ImageName(pageIndex, format)| == 6 + |digits| + |Lower(format)| &&
      ImageName(pageIndex, format)[5..5 + |digits|] == digits
  {
    var digits := PadDigits(Show(pageIndex + 1), 3);
    var head := "page_" + digits;
    assert ImageName(pageIndex, format) == head + ("." + Lower(format));
    assert head[5..] == digits;
  }

  /** Different pages get different image names. */
  lemma ImageNameInjective(a: nat, b: nat, format: string)
    requires ImageName(a, format) == ImageName(b, format)
    ensures a == b
  {
    ImageNameParts(a, format);
    ImageNameParts(b, format);
    PadDigitsValue(Show(a + 1), 3);
    PadDigitsValue(Show(b + 1), 3);
    ShowValue(a + 1);
    ShowValue(b + 1);
  }

  /** The first page saved as PNG is `page_001.png`: padded to three digits, extension lower-cased. */
  lemma ImageNameFirstPage()
    ensures ImageName(0, "PNG") == "page_001.png"
  {
    assert Show(1) == "1";
    assert Zeros(2) == "00";
    assert Lower("PNG") == "png";
  }

  /** Page index 41 is saved as `page_042.png`. */
  lemma ImageNameTwoDigits()
    ensures ImageName(41, "PNG") == "page_042.png"
  {
    assert Show(42) == "42";
    assert Zeros(1) == "0";
    assert Lower("PNG") == "png";
  }

  /** Page numbers past 999 keep all their digits: index 999 as JPEG is `page_1000.jpeg`. */
  lemma ImageNameFourDigits()
    ensures ImageName(999, "JPEG") == "page_1000.jpeg"
  {
    assert Show(1000) == "1000" by {
      assert Show(100) == "100";
    }
    assert Lower("JPEG") == "jpeg";
  }

  /** The image files `pdf_to_images` saves, one per processed page, in processing order. */
  function ImageOutputs(pages: seq<Page>, outDir: Path, format: string, dpi: int, selection: seq<int>): (outs: seq<Output>)
    requires forall j :: 0 <= j < |selection| ==> 0 <= selection[j] < |pages|
    ensures |outs| == |selection|
  {
    seq(|selection|, j requires 0 <= j < |selection| =>
      Output(JoinPath(outDir, ImageName(selection[j], format)), ImageFile(Rendering(pages[selection[j]], dpi))))
  }

  /**
   * What `pdf_to_images` does. `encoders` is the set of file extensions the
   * rasteriser can save; saving under any other extension raises on the
   * first page. A document that cannot be read (not a document, or
   * encrypted) fails after the output directory was made.
   */
  function PdfToImagesOutcome(fs: FileSystem, input: Path, outDir: Path, format: string, dpi: int,
                              pageRange: Option<seq<int>>, encoders: set<string>): Written
  {
    if !Exists(fs, input) then Written(false, fs)
    else match MakeDirs(fs, outDir)
      case None => Written(false, fs)
      case Some(made) =>
        match ReadPages(made, input)
        case None => Written(false, made)
        case Some(pages) =>
          var selection := SelectPages(|pages|, pageRange);
          if selection != [] && Lower(format) !in encoders then Written(false, made)
          else WriteAll(made, ImageOutputs(pages, outDir, format, dpi, selection))
  }

  /** `pdf_to_images`: rasterise each processed page and save it as `page_NNN.<format>`. */
  method PdfToImages(fs: FileSystem, input: Path, outDir: Path, format: string, dpi: int,
                     pageRange: Option<seq<int>>, encoders: set<string>) returns (ok: bool, fs': FileSystem)
    ensures Written(ok, fs') == PdfToImagesOutcome(fs, input, outDir, format, dpi, pageRange, encoders)
  {
    if !Exists(fs, input) {
      return false, fs;
    }
    var made := MakeDirs(fs, outDir);
    if made.None? {
      return false, fs;
    }
    fs' := made.value;
    var read := ReadPages(fs', input);
    if read.None? {
      return false, fs';
    }
    var pages := read.value;
    var selection := SelectPages(|pages|, pageRange);
    if selection != [] && Lower(format) !in encoders {
      return false, fs';
    }
    ok, fs' := SaveImages(fs', pages, outDir, format, dpi, selection);
  }

  /** The loop of `pdf_to_images` over the processed pages, once the extension is known to be savable. */
  method SaveImages(made: FileSystem, pages: seq<Page>, outDir: Path, format: string, dpi: int, selection: seq<int>)
    returns (ok: bool, fs': FileSystem)
    requires forall j :: 0 <= j < |selection| ==> 0 <= selection[j] < |pages|
    ensures Written(ok, fs') == WriteAll(made, ImageOutputs(pages, outDir, format, dpi, selection))
  {
    ghost var outs := ImageOutputs(pages, outDir, format, dpi, selection);
    fs' := made;
    for j := 0 to |selection|
      invariant WriteAll(made, outs[..j]) == Written(true, fs')
    {
      var pageIndex := selection[j];
      var image := Rendering(pages[pageIndex], dpi);
      var output := JoinPath(outDir, ImageName(pageIndex, format));
      assert outs[j] == Output(output, ImageFile(image));
      WriteAllNext(made, outs, j, fs');
      var written := WriteFile(fs', output, ImageFile(image));
      if written.None? {
        return false, fs';
      }
      fs' := written.value;
    }
    assert outs[..|selection|] == outs;
    ok := true;
  }

  /** After a successful conversion every processed page has its image file, holding that page's rendering. */
  lemma PdfToImagesContents(fs: FileSystem, input: Path, outDir: Path, format: string, dpi: int,
                            pageRange: Option<seq<int>>, encoders: set<string>, j: nat)
    requires PdfToImagesOutcome(fs, input, outDir, format, dpi, pageRange, encoders).ok
    ensures ReadPages(fs, input).Some?
    ensures var pages := ReadPages(fs, input).value;
      var selection := SelectPages(|pages|, pageRange);
      var after := PdfToImagesOutcome(fs, input, outDir, format, dpi, pageRange, encoders).fs;
      j < |selection| ==>
        JoinPath(outDir, ImageName(selection[j], format)) in after.files &&
        after.files[JoinPath(outDir, ImageName(selection[j], format))] == ImageFile(Rendering(pages[selection[j]], dpi))
  {
    var made := MakeDirs(fs, outDir).value;
    var pages := ReadPages(made, input).value;
    var selection := SelectPages(|pages|, pageRange);
    if j < |selection| {
      var outs := ImageOutputs(pages, outDir, format, dpi, selection);
      var p := JoinPath(outDir, ImageName(selection[j], format));
      var f := ImageFile(Rendering(pages[selection[j]], dpi));
      assert outs[j].path == p;
      forall l | 0 <= l < |outs| && outs[l].path == p
        ensures outs[l].file == f
      {
        JoinPathInjective(outDir, ImageName(selection[l], format), ImageName(selection[j], format));
        ImageNameInjective(selection[l], selection[j], format);
      }
      WriteAllHolds(made, outs, p, f);
    }
  }

  /** A missing input fails before anything is made or written. */
  lemma PdfToImagesMissing(fs: FileSystem, input: Path, outDir: Path, format: string, dpi: int,
                           pageRange: Option<seq<int>>, encoders: set<string>)
    requires !Exists(fs, input)
    ensures PdfToImagesOutcome(fs, input, outDir, format, dpi, pageRange, encoders) == Written(false, fs)
  {
  }

  /** An extension the rasteriser cannot save fails without writing an image, unless no page was processed. */
  lemma PdfToImagesUnsupported(fs: FileSystem, input: Path, outDir: Path, format: string, dpi: int,
                               pageRange: Option<seq<int>>, encoders: set<string>)
    requires Lower(format) !in encoders
    ensures var r := PdfToImagesOutcome(fs, input, outDir, format, dpi, pageRange, encoders);
      r.fs.files == fs.files &&
      (r.ok <==> Exists(fs, input) && MakeDirs(fs, outDir).Some? && ReadPages(fs, input).Some? &&
                 SelectPages(|ReadPages(fs, input).value|, pageRange) == [])
  {
    if Exists(fs, input) && MakeDirs(fs, outDir).Some? {
      var made := MakeDirs(fs, outDir).value;
      assert ReadPages(made, input) == ReadPages(fs, input);
    }
  }

  /** The block `pdf_to_text` writes for one page: a heading with the one-based page number, the text, a blank line (text mode on POSIX, no newline translation). */
  function Block(number: nat, text: string): string
  {
    "=== 第 " + Show(number) + " 页 ===\n" + text + "\n\n"
  }

  /** Strings written one after the other. */
  function Concatenated(parts: seq<string>): string
    decreases |parts|
  {
    if parts == [] then "" else Concatenated(parts[..|parts| - 1]) + parts[|parts| - 1]
  }

  lemma {:induction false} ConcatenatedAppend(x: seq<string>, y: seq<string>)
    ensures Concatenated(x + y) == Concatenated(x) + Concatenated(y)
    decreases |y|
  {
    if y == [] {
      assert x + y == x;
    } else {
      var init, last := y[..|y| - 1], y[|y| - 1];
      assert (x + y)[..|x + y| - 1] == x + init;
      assert (x + y)[|x + y| - 1] == last;
      assert Concatenated(x + y) == Concatenated(x + init) + last;
      assert Concatenated(y) == Concatenated(init) + last;
      ConcatenatedAppend(x, init);
      assert Concatenated(x) + Concatenated(init) + last == Concatenated(x) + (Concatenated(init) + last);
    }
  }

  /** The blocks of the processed pages, in processing order. */
  function Blocks(pages: seq<Page>, selection: seq<int>): (bs: seq<string>)
    requires forall j :: 0 <= j < |selection| ==> 0 <= selection[j] < |pages|
    ensures |bs| == |selection|
  {
    seq(|selection|, j requires 0 <= j < |selection| => Block(selection[j] + 1, pages[selection[j]].text))
  }

  /** The text file's content: one block per processed page, in processing order. */
  function TextOf(pages: seq<Page>, selection: seq<int>): string
    requires forall j :: 0 <= j < |selection| ==> 0 <= selection[j] < |pages|
  {
    Concatenated(Blocks(pages, selection))
  }

  /** The text of two runs of pages is the text of the first followed by the text of the second. */
  lemma TextOfAppend(pages: seq<Page>, a: seq<int>, b: seq<int>)
    requires forall j :: 0 <= j < |a| ==> 0 <= a[j] < |pages|
    requires forall j :: 0 <= j < |b| ==> 0 <= b[j] < |pages|
    ensures TextOf(pages, a + b) == TextOf(pages, a) + TextOf(pages, b)
  {
    assert Blocks(pages, a + b) == Blocks(pages, a) + Blocks(pages, b);
    ConcatenatedAppend(Blocks(pages, a), Blocks(pages, b));
  }

  /** One page alone gives exactly its block. */
  lemma TextOfOne(pages: seq<Page>, i: int)
    requires 0 <= i < |pages|
    ensures TextOf(pages, [i]) == Block(i + 1, pages[i].text)
  {
    var bs := Blocks(pages, [i]);
    assert bs[..0] == [];
    assert Concatenated(bs) == "" + bs[0];
  }

  /**
   * The text follows the order of the list, not page order: asking for pages
   * `q` then `p` writes page `q`'s block first even when `p < q`.
   */
  lemma TextKeepsListOrder(pages: seq<Page>, p: nat, q: nat)
    requires 1 <= p <= |pages| && 1 <= q <= |pages|
    ensures TextOf(pages, SelectPages(|pages|, Some([q, p]))) == Block(q, pages[q - 1].text) + Block(p, pages[p - 1].text)
  {
    SelectPagesInRange(|pages|, [q, p]);
    assert Lowered([q, p]) == [q - 1] + [p - 1];
    TextOfAppend(pages, [q - 1], [p - 1]);
    TextOfOne(pages, q - 1);
    TextOfOne(pages, p - 1);
  }

  /** What `pdf_to_text` does: one text file with a block per processed page. */
  function PdfToTextOutcome(fs: FileSystem, input: Path, output: Path, pageRange: Option<seq<int>>): Written
  {
    if !Exists(fs, input) then Written(false, fs)
    else match ReadPages(fs, input)
      case None => Written(false, fs)
      case Some(pages) =>
        match WriteFile(fs, output, TextFile(TextOf(pages, SelectPages(|pages|, pageRange))))
        case None => Written(false, fs)
        case Some(after) => Written(true, after)
  }

  /** `pdf_to_text`: open the output, then write each processed page's block into it. */
  method PdfToText(fs: FileSystem, input: Path, output: Path, pageRange: Option<seq<int>>) returns (ok: bool, fs': FileSystem)
    ensures Written(ok, fs') == PdfToTextOutcome(fs, input, output, pageRange)
  {
    if !Exists(fs, input) {
      return false, fs;
    }
    var read := ReadPages(fs, input);
    if read.None? {
      return false, fs;
    }
    var pages := read.value;
    var selection := SelectPages(|pages|, pageRange);
    var source := WriteFile(fs, output, EmptyFile);
    if source.None? {
      return false, fs;
    }
    var text := PageTexts(pages, selection);
    assert source.value.files[output := TextFile(text)] == fs.files[output := TextFile(text)];
    ok, fs' := true, source.value.(files := source.value.files[output := TextFile(text)]);
  }

  /** The loop of `pdf_to_text`: one block per processed page, appended in processing order. */
  method PageTexts(pages: seq<Page>, selection: seq<int>) returns (text: string)
    requires forall j :: 0 <= j < |selection| ==> 0 <= selection[j] < |pages|
    ensures text == TextOf(pages, selection)
  {
    text := "";
    for j := 0 to |selection|
      invariant text == TextOf(pages, selection[..j])
    {
      var pageIndex := selection[j];
      TextOfStep(pages, selection, j);
      text := text + Block(pageIndex + 1, pages[pageIndex].text);
    }
    assert selection[..|selection|] == selection;
  }

  /** The text of the first `j + 1` processed pages is that of the first `j` and the `j`-th page's block. */
  lemma TextOfStep(pages: seq<Page>, selection: seq<int>, j: nat)
    requires forall l :: 0 <= l < |selection| ==> 0 <= selection[l] < |pages|
    requires j < |selection|
    ensures TextOf(pages, selection[..j + 1]) == TextOf(pages, selection[..j]) + Block(selection[j] + 1, pages[selection[j]].text)
  {
    assert selection[..j + 1] == selection[..j] + [selection[j]];
    TextOfAppend(pages, selection[..j], [selection[j]]);
    TextOfOne(pages, selection[j]);
  }

  /** A missing input fails without producing output. */
  lemma PdfToTextMissing(fs: FileSystem, input: Path, output: Path, pageRange: Option<seq<int>>)
    requires !Exists(fs, input)
    ensures PdfToTextOutcome(fs, input, output, pageRange) == Written(false, fs)
  {
  }

  /** A page of an image-made document: it shows the image. */
  function ImagePage(image: Image): (p: Page)
    ensures p.content == FromImage(image)
  {
    Page(FromImage(image), 0, 0, 0, "")
  }

  /** The document the image packer makes: one page per image, in list order. */
  function ImageDocument(images: seq<Image>): (d: Document)
    ensures |d.pages| == |images| && forall j :: 0 <= j < |images| ==> d.pages[j].content == FromImage(images[j])
    ensures !Locked(d)
  {
    Document(seq(|images|, j requires 0 <= j < |images| => ImagePage(images[j])), map[], Plain)
  }

  /** The images at `paths`, in order; None when one of them is not an image file. */
  function ReadImages(fs: FileSystem, paths: seq<Path>): (r: Option<seq<Image>>)
    ensures r.Some? <==> forall j :: 0 <= j < |paths| ==> paths[j] in fs.files && fs.files[paths[j]].ImageFile?
    ensures r.Some? ==> |r.value| == |paths| && forall j :: 0 <= j < |paths| ==> r.value[j] == fs.files[paths[j]].image
  {
    if forall j :: 0 <= j < |paths| ==> paths[j] in fs.files && fs.files[paths[j]].ImageFile? then
      Some(seq(|paths|, j requires 0 <= j < |paths| => fs.files[paths[j]].image))
    else None
  }

  /** Every listed path exists (as a file or a directory). */
  predicate AllExist(fs: FileSystem, paths: seq<Path>)
  {
    forall j :: 0 <= j < |paths| ==> Exists(fs, paths[j])
  }

  /**
   * What `images_to_pdf` does: the empty list and a missing image fail
   * before the output is touched; then the output is opened (emptied) and
   * the packer reads the images, failing when one is not an image.
   */
  function ImagesToPdfOutcome(fs: FileSystem, images: seq<Path>, output: Path): Written
  {
    if images == [] || !AllExist(fs, images) then Written(false, fs)
    else match WriteFile(fs, output, EmptyFile)
      case None => Written(false, fs)
      case Some(source) =>
        match ReadImages(source, images)
        case None => Written(false, source)
        case Some(read) => Written(true, source.(files := source.files[output := PdfFile(ImageDocument(read))]))
  }

  /** `images_to_pdf`: check the list, open the output, write the packed document. */
  method ImagesToPdf(fs: FileSystem, images: seq<Path>, output: Path) returns (ok: bool, fs': FileSystem)
    ensures Written(ok, fs') == ImagesToPdfOutcome(fs, images, output)
  {
    if images == [] {
      return false, fs;
    }
    for j := 0 to |images|
      invariant forall l :: 0 <= l < j ==> Exists(fs, images[l])
    {
      if !Exists(fs, images[j]) {
        return false, fs;
      }
    }
    var source := WriteFile(fs, output, EmptyFile);
    if source.None? {
      return false, fs;
    }
    var read := ReadImages(source.value, images);
    if read.None? {
      return false, source.value;
    }
    ok, fs' := true, source.value.(files := source.value.files[output := PdfFile(ImageDocument(read.value))]);
  }

  /** The empty list fails with nothing touched. */
  lemma ImagesToPdfEmpty(fs: FileSystem, images: seq<Path>, output: Path)
    requires images == []
    ensures ImagesToPdfOutcome(fs, images, output) == Written(false, fs)
  {
  }

  /** A missing image fails before the output is opened. */
  lemma ImagesToPdfMissing(fs: FileSystem, images: seq<Path>, output: Path, j: nat)
    requires j < |images| && !Exists(fs, images[j])
    ensures ImagesToPdfOutcome(fs, images, output) == Written(false, fs)
  {
  }

  /** Image files packed into a new file give one page per image, in list order. */
  lemma ImagesToPdfContents(fs: FileSystem, images: seq<Path>, output: Path)
    requires images != [] && output !in fs.dirs && output !in images
    requires forall j :: 0 <= j < |images| ==> images[j] in fs.files && fs.files[images[j]].ImageFile?
    ensures var r := ImagesToPdfOutcome(fs, images, output);
      r.ok && output in r.fs.files && r.fs.files[output].PdfFile? &&
      |r.fs.files[output].doc.pages| == |images| &&
      forall j :: 0 <= j < |images| ==> r.fs.files[output].doc.pages[j].content == FromImage(fs.files[images[j]].image)
  {
    var source := WriteFile(fs, output, EmptyFile).value;
    forall j | 0 <= j < |images|
      ensures images[j] in source.files && source.files[images[j]] == fs.files[images[j]]
    {
      assert images[j] != output;
    }
  }

  /** Naming an input image as the output empties it before it is read: the call fails and the image is lost. */
  lemma ImagesToPdfOverwritesInput(fs: FileSystem, images: seq<Path>, output: Path)
    requires output in images && output !in fs.dirs && AllExist(fs, images)
    ensures ImagesToPdfOutcome(fs, images, output) == Written(false, fs.(files := fs.files[output := EmptyFile]))
  {
    var j :| 0 <= j < |images| && images[j] == output;
    assert ReadImages(fs.(files := fs.files[output := EmptyFile]), images).None?;
  }

  /** What a re-drawn page is: a new page of the source page's size that shows it. */
  function CompressedPage(p: Page): (c: Page)
    ensures c.content == Showing(p) && c.width == p.width && c.height == p.height
  {
    Page(Showing(p), p.width, p.height, 0, p.text)
  }

  /** The metadata of a new, empty PyMuPDF document. */
  const NewDocumentMetadata: map<string, string> := map[]

  /**
   * What `compress_pdf` does: a new document with a re-drawn copy of every
   * page, in order. PyMuPDF refuses to save a document without pages, so an
   * input with no pages fails before the output is opened.
   */
  function CompressOutcome(fs: FileSystem, input: Path, output: Path): Written
  {
    if !Exists(fs, input) then Written(false, fs)
    else match ReadPages(fs, input)
      case None => Written(false, fs)
      case Some(pages) =>
        if pages == [] then Written(false, fs)
        else
          var doc := Document(seq(|pages|, i requires 0 <= i < |pages| => CompressedPage(pages[i])), NewDocumentMetadata, Plain);
          match WriteFile(fs, output, PdfFile(doc))
          case None => Written(false, fs)
          case Some(after) => Written(true, after)
  }

  /** `compress_pdf`: a new page of each source page's size, showing that page, then save. */
  method CompressPdf(fs: FileSystem, input: Path, output: Path) returns (ok: bool, fs': FileSystem)
    ensures Written(ok, fs') == CompressOutcome(fs, input, output)
  {
    if !Exists(fs, input) {
      return false, fs;
    }
    var read := ReadPages(fs, input);
    if read.None? {
      return false, fs;
    }
    var pages := read.value;
    var newDoc := new Writer(NewDocumentMetadata);
    for i := 0 to |pages|
      invariant newDoc.pages == seq(i, l requires 0 <= l < i => CompressedPage(pages[l]))
      invariant newDoc.metadata == NewDocumentMetadata && newDoc.protection == Plain
    {
      newDoc.AddPage(CompressedPage(pages[i]));
    }
    if |newDoc.pages| == 0 {
      return false, fs;
    }
    var written := WriteFile(fs, output, PdfFile(newDoc.Output()));
    if written.None? {
      return false, fs;
    }
    return true, written.value;
  }

  /** A successful compression keeps the page count, and each page keeps its width and height and shows the source page. */
  lemma CompressKeepsGeometry(fs: FileSystem, input: Path, output: Path)
    requires CompressOutcome(fs, input, output).ok
    ensures ReadPages(fs, input).Some?
    ensures var pages := ReadPages(fs, input).value;
      var after := CompressOutcome(fs, input, output).fs;
      output in after.files && after.files[output].PdfFile? &&
      |after.files[output].doc.pages| == |pages| &&
      forall i :: 0 <= i < |pages| ==>
        after.files[output].doc.pages[i].width == pages[i].width &&
        after.files[output].doc.pages[i].height == pages[i].height &&
        after.files[output].doc.pages[i].content == Showing(pages[i])
  {
  }

  /** Compression succeeds exactly when the input reads, has at least one page, and the output is not a directory. */
  lemma CompressSucceeds(fs: FileSystem, input: Path, output: Path)
    ensures CompressOutcome(fs, input, output).ok <==>
      ReadPages(fs, input).Some? && ReadPages(fs, input).value != [] && output !in fs.dirs
    ensures !CompressOutcome(fs, input, output).ok ==> CompressOutcome(fs, input, output).fs == fs
  {
  }

  /** A missing input fails without producing output. */
  lemma CompressMissing(fs: FileSystem, input: Path, output: Path)
    requires !Exists(fs, input)
    ensures CompressOutcome(fs, input, output) == Written(false, fs)
  {
  }

  /** One entry of `page_info`. */
  datatype PageInfo = PageInfo(pageNumber: nat, width: int, height: int, rotation: int)

  /** The report `get_pdf_info` returns, without the file size. */
  datatype PdfInfo = PdfInfo(pages: nat, metadata: map<string, string>, pageInfo: seq<PageInfo>)

  /** `get_pdf_info`: the page count, the metadata and one entry per page, numbered from 1. */
  method GetPdfInfo(fs: FileSystem, input: Path) returns (r: Option<PdfInfo>)
    ensures r.None? <==> !Exists(fs, input) || ReadPages(fs, input).None?
    ensures r.Some? ==>
      var doc := OpenPdf(fs, input).value;
      r.value.pages == |doc.pages| && r.value.metadata == doc.metadata &&
      |r.value.pageInfo| == |doc.pages| &&
      forall i :: 0 <= i < |doc.pages| ==>
        r.value.pageInfo[i] == PageInfo(i + 1, doc.pages[i].width, doc.pages[i].height, doc.pages[i].rotation)
  {
    if !Exists(fs, input) {
      return None;
    }
    var read := ReadPages(fs, input);
    if read.None? {
      return None;
    }
    var pages := read.value;
    var doc := OpenPdf(fs, input).value;
    var pageInfo: seq<PageInfo> := [];
    for i := 0 to |pages|
      invariant |pageInfo| == i
      invariant forall l :: 0 <= l < i ==> pageInfo[l] == PageInfo(l + 1, pages[l].width, pages[l].height, pages[l].rotation)
    {
      var page := pages[i];
      pageInfo := pageInfo + [PageInfo(i + 1, page.width, page.height, page.rotation)];
    }
    r := Some(PdfInfo(|pages|, doc.metadata, pageInfo));
  }
}
