# PDF-ToolBox engines in Dafny

This project models the four document engines of PDF-ToolBox:

- the splitter (`PDFSplitter`);
- the merger (`PDFMerger`);
- the converter (`PDFConverter`);
- the security engine (`PDFSecurity`).

It also models the page-range parser that the splitter and the merger share. It proves properties of all of them.

A document is a sequence of opaque pages plus a metadata map and a protection state. The protection state is either plain, or protected by a user (open) password and an owner password together with the cipher parameters the library chose. The file system is a value of files and directories. Every engine operation is a method taking the file system and returning `(ok, fs')`. Each method is proved equal to an `…Outcome` function, and the lemmas state what the source promises about that function.

- `wrappers.dfy`: `Option`.
- `text.dfy` (module `Text`): the Python string behaviour the engines use.
  - `str(n)` and `int(token)`.
  - `str.split` with its inverse `join`.
  - `{:03d}` zero padding and `str.lower()` on ASCII letters.
- `documents.dfy` (module `Documents`):
  - pages, documents, files and the file system;
  - opening and reading a document (`ReadPages`);
  - `os.makedirs`, and writing one or several output files in order (`WriteAll`);
  - the `Writer` class, which stands for PyPDF2's `PdfWriter` and `PdfMerger` and for a new PyMuPDF document. Pages are appended to it in place, and it can be encrypted and given metadata.
- `page_range.dfy` (module `PageRange`): `_parse_page_range`, plus the two bounds filters the engines apply to indices and page numbers. The parser is written twice in the source, identically. It is modelled once, and both engines use that model.
- `splitter.dfy` (module `Splitter`): `split_by_pages`, `split_by_page_ranges`, `extract_pages`, `get_page_count`.
- `merger.dfy` (module `Merger`): `merge_pdfs` and `merge_pdfs_with_order`, plus the split-then-merge round trip.
- `converter.dfy` (module `Converter`): `pdf_to_images`, `images_to_pdf`, `pdf_to_text`, `compress_pdf`, `get_pdf_info`.
- `security.dfy` (module `Security`): `encrypt_pdf`, `decrypt_pdf`, `remove_password`, `is_encrypted`, `get_encryption_info`.

Modelling choices that follow the code:

- **Text output order.** Text output keeps the page list's order. The code (`src/pdf_converter.py:122-133`) writes pages in the order the list gives them, unsorted and with duplicates. `Converter.TextKeepsListOrder` states it.
- **Lazy page count.** In `split_by_page_ranges` and `extract_pages`, the chained bounds test asks the reader for its page count only once the lower bound holds. Counting the pages of an encrypted document raises. So an encrypted input fails only when some index is ≥ 0 (or some number is ≥ 1). This is modelled exactly (`SomeAtLeast`).
- **Opening the output first.**
  - `images_to_pdf` opens (empties) its output before the image packer reads the images.
  - `pdf_to_text` opens its output before it writes the blocks.
  - Both orders are modelled.
- **Failed writes.** A write fails when its destination is a directory. This stands for every destination that cannot be created.
- **Making the output directory.** `os.makedirs(d, exist_ok=True)` also makes every missing directory above `d`. It fails on the empty path and when `d`, or a directory it would pass through, is a regular file (`Documents.MakeDirs`).
- **Saving a document without pages.** PyMuPDF's `save` refuses a document with no pages, so `compress_pdf` fails on an input without pages and writes nothing (`Converter.CompressSucceeds`).
- **Encryption information.** `get_encryption_info` returns None for every encrypted file, as the code is written; see "## Findings".

## Model

| member | source | states |
|---|---|---|
| Text.Show | src/pdf_splitter.py:42 | `str(n)` is a non-empty run of decimal digits with no `-` or `,` |
| Text.ShowValue | src/pdf_splitter.py:42 | reading back the digits printed for `n` gives `n` |
| Text.ShowInjective | src/pdf_splitter.py:42 | different numbers print differently |
| Text.ParseIntShow | src/pdf_splitter.py:141 | `int(str(n)) == n` |
| Text.ParseIntBlank | src/pdf_splitter.py:141 | an empty or all-whitespace token is not a number (`int('')` raises) |
| Text.Split | src/pdf_splitter.py:134 | `split(sep)` always gives at least one piece, and no piece contains the separator |
| Text.JoinSplit | src/pdf_splitter.py:134 | joining the pieces of a split with the separator gives back the string |
| Text.SplitJoin | src/pdf_splitter.py:134 | splitting separator-free pieces joined by the separator gives back the pieces |
| Text.PadDigitsValue | src/pdf_converter.py:53 | `:03d` padding is at least 3 wide and keeps the digits' value |
| Text.LeadingZerosValue | src/pdf_converter.py:53 | leading zeros do not change a digit string's value |
| Documents.ReadPages | src/pdf_splitter.py:32-33 | pages can be read exactly when the path opens as a document that is not encrypted, and then they are its pages |
| Documents.MakeDirs | src/pdf_splitter.py:29 | `makedirs(exist_ok=True)` fails exactly on the empty path and when the path or a directory above it is a regular file; otherwise it adds the path and every directory above it and changes no file |
| Documents.MakeDirsUnderFile | src/pdf_splitter.py:29 | a directory cannot be made anywhere under a regular file |
| Documents.JoinPathNotMade | src/pdf_splitter.py:42 | a file joined onto the output directory is none of the directories `makedirs` made |
| Documents.WriteFile | src/pdf_splitter.py:43-44 | writing fails exactly on a directory; otherwise only the destination changes |
| Documents.JoinPathInjective | src/pdf_splitter.py:42 | distinct names in one directory give distinct paths |
| Documents.WriteAllSucceeds | src/pdf_splitter.py:35-46 | a run of writes succeeds exactly when no destination is a directory |
| Documents.WriteAllKeepsDirs | src/pdf_splitter.py:35-46 | writing files creates and removes no directory |
| Documents.WriteAllKeys | src/pdf_splitter.py:35-46 | after a successful run, the paths are the old ones plus the destinations |
| Documents.WriteAllUntouched | src/pdf_splitter.py:35-46 | after a successful run, a path that was no destination keeps its file |
| Documents.WriteAllLast | src/pdf_splitter.py:35-46 | after a successful run, a destination holds the file last written to it |
| Documents.WriteAllDistinct | src/pdf_splitter.py:35-46 | with distinct destinations, every destination holds its file |
| Documents.WriteAllHolds | src/pdf_converter.py:48-54 | a destination written several times with the same file holds that file |
| Documents.WriteAllStops | src/pdf_splitter.py:50-52 | the first failed write ends the run, and the earlier files stay |
| Documents.WriteAllAfterFailure | src/pdf_splitter.py:50-52 | nothing after a failed write is written |
| Documents.WriterDocument | src/pdf_splitter.py:36 | a fresh writer's document has exactly the pages added to it and is not encrypted |
| Documents.Writer.constructor | src/pdf_splitter.py:36 | a new writer has no pages, the writer's own metadata and no protection |
| Documents.Writer.AddPage | src/pdf_splitter.py:40 | `add_page` appends one page and changes nothing else |
| Documents.Writer.Append | src/pdf_merger.py:32 | `append` adds the pages at the end, in order |
| Documents.Writer.Encrypt | src/pdf_security.py:40-43 | `encrypt(user, owner=None)`: a missing owner password means the user password plays both roles |
| Documents.Writer.AddMetadata | src/pdf_security.py:191-192 | `add_metadata` adds the entries, replacing equal keys, and keeps the pages |
| PageRange.ParsePageRange | src/pdf_splitter.py:131-143 | the loop over comma pieces computes `Parse(expr)`: the pieces' indices concatenated in comma order, or failure when a piece is malformed; the merger's copy at src/pdf_merger.py:83-95 is the same text, so this one parser models both |
| PageRange.ReadToken | src/pdf_splitter.py:137-141 | reading one piece: a span when it has a hyphen and two numbers, a single number otherwise |
| PageRange.ClassifySpan | src/pdf_splitter.py:137-139 | `"a-b"` reads as the span from `a` to `b` |
| PageRange.ClassifySingle | src/pdf_splitter.py:140-141 | `"p"` reads as page `p`, and `"0"` as page 0 (no lower-bound check) |
| PageRange.SpanShape | src/pdf_splitter.py:139 | for `a <= b`, `range(a-1, b)` has `b-a+1` strictly ascending indices from `a-1` to `b-1`; for `a > b` it is empty |
| PageRange.MalformedEmptySide | src/pdf_splitter.py:138 | for every hyphen-free `s`, `"-" + s` and `s + "-"` are malformed because `int('')` raises, and so is the empty piece |
| PageRange.MalformedNoLeft | src/pdf_splitter.py:138 | `"-" + s` is malformed for every hyphen-free `s` |
| PageRange.MalformedNoRight | src/pdf_splitter.py:138 | `s + "-"` is malformed for every hyphen-free `s` |
| PageRange.MalformedTwoHyphens | src/pdf_splitter.py:138 | a piece with two hyphens is malformed (unpacking into two names fails) |
| PageRange.ParseTokensAppend | src/pdf_splitter.py:136-143 | parsing distributes over concatenation, so results appear in comma order with no sorting or de-duplication |
| PageRange.ParseJoined | src/pdf_splitter.py:134-143 | the parse of comma-joined pieces is the pieces' results concatenated |
| PageRange.ParseOnePiece | src/pdf_splitter.py:134-143 | a comma-free expression gives exactly its one piece's indices |
| PageRange.ParseSpanOnly | src/pdf_splitter.py:137-139 | `"a-b"` alone reads as the single span token, that is `range(a-1, b)` |
| PageRange.ParseThreePieces | src/pdf_splitter.py:134-143 | three pieces contribute their indices in order |
| PageRange.ParseSpanSingleSpan | src/pdf_splitter.py:133-143 | `"a-b,c,d-e"` gives `range(a-1,b) + [c-1] + range(d-1,e)` |
| PageRange.ParsePrefixStep | src/pdf_splitter.py:136-141 | each piece extends the result of the pieces before it by its own indices |
| PageRange.ParseMalformedAt | src/pdf_splitter.py:136-141 | a malformed piece anywhere fails the whole parse |
| PageRange.KeepInBounds | src/pdf_splitter.py:80-82 | the kept indices are within `[0, n)`, and in-bounds input is kept unchanged |
| PageRange.KeepInBoundsCounts | src/pdf_splitter.py:80-82 | each in-bounds index is kept exactly as often as it occurs |
| PageRange.SelectOneBased | src/pdf_splitter.py:117-119 | the selected indices are within `[0, n)` and no more than the numbers given |
| PageRange.SelectOneBasedCounts | src/pdf_splitter.py:117-119 | index `x` of an existing page occurs exactly as often as number `x+1` was given |
| PageRange.SelectIsShiftedFilter | src/pdf_splitter.py:117-119 | selecting one-based numbers in `[1, n]` is filtering the numbers minus one by `[0, n)`, keeping order |
| Splitter.ChunksFrom | src/pdf_splitter.py:35-37 | every chunk is non-empty and lies inside the document |
| Splitter.ChunkAt | src/pdf_splitter.py:35-37 | chunk `j` is `[j*k, min(j*k+k, n))` |
| Splitter.ChunkCount | src/pdf_splitter.py:35 | there are `ceil(n/k)` chunks |
| Splitter.OneChunk | src/pdf_splitter.py:35-37 | when `k >= n > 0` there is one chunk: the whole document |
| Splitter.ChunksCover | src/pdf_splitter.py:35-40 | the chunks' pages, concatenated in order, are the document's pages |
| Splitter.ChunkNameInjective | src/pdf_splitter.py:42 | different chunks get different `split_{i+1}-{end}.pdf` names |
| Splitter.ChunkNamesDistinct | src/pdf_splitter.py:42 | the chunk files of one split have pairwise different names |
| Splitter.SplitByPages | src/pdf_splitter.py:12-52 | the method's result is `SplitByPagesOutcome`: missing input, makedirs, read, step 0 fails, negative step writes nothing, chunk files in order |
| Splitter.WriteChunkFiles | src/pdf_splitter.py:35-46 | the loop over `range(0, total, k)` writes exactly the planned chunk files, in order, stopping at the first failed write |
| Splitter.ChunkStep | src/pdf_splitter.py:35-42 | the chunk starting at `i` holds pages `i..min(i+k, total)` under `split_{i+1}-{end}.pdf`, and the next chunk exists exactly when `i + k < total` and starts at `i + k` |
| Splitter.AddPages | src/pdf_splitter.py:39-40 | the writer receives exactly the pages of the chunk, in order |
| Splitter.SplitByPagesContents | src/pdf_splitter.py:33-44 | after a successful split, each chunk file holds exactly its chunk's pages, and the chunks together are the input |
| Splitter.SplitByPagesWrites | src/pdf_splitter.py:24-44 | a successful split by `k > 0` reads the input, makes the output directory, and then writes exactly `ChunkOutputs` in order |
| Splitter.ChunkFilesWritten | src/pdf_splitter.py:35-46 | once every chunk file is written, each holds its own chunk's pages |
| Splitter.SplitByPagesBadStep | src/pdf_splitter.py:35-52 | step 0 fails and a negative step succeeds, both without writing a file, after the directory was made |
| Splitter.SplitterMissingInput | src/pdf_splitter.py:25-27 | a missing input fails before any directory or file is made, in all three split operations (the same check stands at lines 67-69 and 109-111) |
| Splitter.SplitterNoDirectory | src/pdf_splitter.py:29-52 | an output directory `makedirs` cannot make fails both splits with the file system unchanged (the same call stands at line 71) |
| Splitter.SplitUnderInputFile | src/pdf_splitter.py:29-52 | an output directory under the input file itself fails both splits with nothing written |
| Splitter.SplitFileCount | src/pdf_splitter.py:33-35 | a split by `k > 0` writes `ceil(n/k)` files |
| Splitter.RangeNameInjective | src/pdf_splitter.py:84 | two `range_{i+1}_{expr}.pdf` names are equal only for the same position and expression |
| Splitter.RangePlan | src/pdf_splitter.py:76-88 | at most one file per expression, and exactly one per expression when none fails |
| Splitter.RangePlanSteps | src/pdf_splitter.py:76-88 | the planned files are the steps of the expressions before the first failing one |
| Splitter.RangePlanAt | src/pdf_splitter.py:76-88 | expression `i` either is planned at position `i` or is the one that ends the plan with a failure |
| Splitter.RangePathsDistinct | src/pdf_splitter.py:84 | the files of one range split all have different paths |
| Splitter.AddInBounds | src/pdf_splitter.py:80-82 | the writer receives the in-bounds indices' pages in parse order; the page count of an encrypted input is asked for only when some index is ≥ 0 |
| Splitter.KeepInBoundsSnoc | src/pdf_splitter.py:80-82 | one more index is kept exactly when it is in bounds |
| Splitter.KeptPrefixStep | src/pdf_splitter.py:80-82 | after one more parsed index, the written pages gain that index's page exactly when it is in bounds |
| Splitter.BuildRangeFile | src/pdf_splitter.py:77-84 | one loop iteration computes `RangeStep`: parse, filter, name |
| Splitter.WriteRangeFiles | src/pdf_splitter.py:76-88 | the loop writes the planned files in order and succeeds only when every expression parsed |
| Splitter.SplitByPageRanges | src/pdf_splitter.py:54-94 | the method's result is `SplitByRangesOutcome` |
| Splitter.RangeStepCases | src/pdf_splitter.py:78-82 | a step fails on a parse error, or on an encrypted input with an index ≥ 0; otherwise it keeps the in-bounds pages |
| Splitter.RangeStepOutput | src/pdf_splitter.py:78-86 | a successful step writes the in-bounds pages of its expression under its own name |
| Splitter.RangeOutOfBounds | src/pdf_splitter.py:80-86 | an expression naming no existing page still produces a file, with no pages |
| Splitter.SplitByRangesContents | src/pdf_splitter.py:76-86 | after success every expression has its file, holding the in-bounds pages it names, in parse order with duplicates |
| Splitter.SplitByRangesStops | src/pdf_splitter.py:76-94 | a malformed expression at position `m` fails the call; the plan is the steps before `m`, and when none of their paths is a directory, each of those files is in the result holding its in-bounds pages |
| Splitter.RangePlanStops | src/pdf_splitter.py:76-94 | the planned files end, unsuccessfully, at the first malformed expression |
| Splitter.RangeFilesWritten | src/pdf_splitter.py:76-88 | when no planned path is a directory, every planned range file is written and holds its in-bounds pages |
| Splitter.AddOneBased | src/pdf_splitter.py:117-119 | the writer receives page `p-1` for every `p` in `[1, n]`, in the order given, duplicates kept |
| Splitter.SelectOneBasedSnoc | src/pdf_splitter.py:117-119 | one more number is kept exactly when `1 <= p <= n` |
| Splitter.SelectedPrefixStep | src/pdf_splitter.py:117-119 | after one more number `p`, the extracted pages gain page `p-1` exactly when `1 <= p <= n` |
| Splitter.ExtractPages | src/pdf_splitter.py:96-129 | the method's result is `ExtractOutcome`: no directory is made, and the one output holds the selected pages |
| Splitter.ExtractInRange | src/pdf_splitter.py:117-119 | with every number in range, the output holds exactly those pages in the given order; `1..n` copies the document |
| Splitter.GetPageCount | src/pdf_splitter.py:145-161 | the page count, or None exactly when the file cannot be read as a document |
| Merger.MergePdfs | src/pdf_merger.py:12-43 | the method's result is `MergeOutcome`: all inputs' pages in input order, written only when every input could be read |
| Merger.AllPagesSnoc | src/pdf_merger.py:26-32 | appending one more input adds its pages at the end |
| Merger.AllPagesAppend | src/pdf_merger.py:26-32 | merging two input lists concatenates their pages |
| Merger.AllPagesFails | src/pdf_merger.py:26-32 | one unreadable input makes the merge fail |
| Merger.MergeContents | src/pdf_merger.py:26-35 | when every input reads, the output holds the concatenation of the inputs' pages in input order |
| Merger.MergeOne | src/pdf_merger.py:26-35 | merging a single input copies its pages |
| Merger.MergeMissing | src/pdf_merger.py:27-29 | a missing input fails and leaves the file system unchanged, so no output is opened |
| Merger.Resolve | src/pdf_merger.py:68 | an index in `[0, n)` selects that page; any resolved index is in range |
| Merger.ListedInRange | src/pdf_merger.py:68 | in-range indices select exactly those pages, in list order |
| Merger.Contribution | src/pdf_merger.py:59-70 | a pair contributes only when its file reads; without a truthy range, it contributes all the file's pages |
| Merger.GatherSnoc | src/pdf_merger.py:59-70 | one more pair adds its contribution at the end |
| Merger.GatherFails | src/pdf_merger.py:59-70 | one pair that cannot contribute fails the merge |
| Merger.GatherPrefixStep | src/pdf_merger.py:59-70 | after one more pair the merged pages are the earlier ones followed by its contribution, or the merge has failed |
| Merger.AppendEntry | src/pdf_merger.py:60-70 | one iteration appends exactly the pair's contribution to the merger |
| Merger.MergePdfsWithOrder | src/pdf_merger.py:45-81 | the method's result is `MergeWithOrderOutcome`: the pairs' contributions in pair order, written only when all succeed |
| Merger.MergeIsOrderedWithoutRanges | src/pdf_merger.py:26-70 | `merge_pdfs` is `merge_pdfs_with_order` with no ranges |
| Merger.EmptyRangeIsWhole | src/pdf_merger.py:65 | the range `""` is treated like `None`: all pages |
| Merger.MergeWithOrderBadRange | src/pdf_merger.py:67-81 | a range that does not parse fails with the file system unchanged |
| Merger.ContributionSpan | src/pdf_merger.py:65-68 | a range `"a-b"` inside the document contributes pages `a..b` |
| Merger.GatherTwo | src/pdf_merger.py:59-70 | two pairs contribute one after the other |
| Merger.MergeRangeThenWhole | src/pdf_merger.py:59-70 | `[(A, "a-b"), (B, None)]` gives pages `a..b` of A followed by all of B |
| Merger.MergeChunkFiles | src/pdf_merger.py:26-32 | merging the files of `ChunkOutputs`, in the order they are written, gives the chunks' pages concatenated |
| Merger.SplitThenMerge | src/pdf_splitter.py:35-44 | a successful split by `k > 0` is the writing of `ChunkOutputs`, and merging those outputs' paths in that order gives back the input's pages |
| Converter.SelectPages | src/pdf_converter.py:40-43 | every processed index is a page; with no list, the pages are `0..n-1` in order |
| Converter.SelectPagesMembers | src/pdf_converter.py:40-43 | page `x` is processed exactly when it exists and `x+1` was asked for (or nothing was asked for) |
| Converter.SelectPagesInRange | src/pdf_converter.py:122-125 | in-range numbers are processed in the order given, not sorted |
| Converter.ImageNameInjective | src/pdf_converter.py:53 | different pages get different `page_NNN.<fmt>` names |
| Converter.ImageOutputs | src/pdf_converter.py:48-54 | one image file per processed page |
| Converter.SaveImages | src/pdf_converter.py:48-54 | the loop saves exactly the planned images, in page order, stopping at the first failed save |
| Converter.PdfToImages | src/pdf_converter.py:14-63 | the method's result is `PdfToImagesOutcome`: missing input, makedirs, open, then one image per processed page in order |
| Converter.PdfToImagesContents | src/pdf_converter.py:48-54 | after success every processed page's image file holds that page's rendering |
| Converter.PdfToImagesMissing | src/pdf_converter.py:30-32 | a missing input fails with nothing made |
| Converter.PdfToImagesUnsupported | src/pdf_converter.py:53-54 | an extension the rasteriser cannot save writes no image and succeeds only when no page is processed |
| Converter.ConcatenatedAppend | src/pdf_converter.py:127-133 | writing two runs of strings is writing their concatenation |
| Converter.Blocks | src/pdf_converter.py:128-133 | one block per processed page |
| Converter.TextOfAppend | src/pdf_converter.py:128-133 | the text of two runs of pages is the first's text followed by the second's |
| Converter.TextOfOne | src/pdf_converter.py:131-133 | one page gives `=== 第 N 页 ===\n` + text + `\n\n` |
| Converter.PageTexts | src/pdf_converter.py:128-133 | the loop builds the text of the processed pages, one block per page in order |
| Converter.TextOfStep | src/pdf_converter.py:128-133 | one more processed page appends exactly its own block |
| Converter.TextKeepsListOrder | src/pdf_converter.py:122-133 | pages `[q, p]` are written q first, even when `p < q` |
| Converter.PdfToText | src/pdf_converter.py:101-141 | the method's result is `PdfToTextOutcome`: the output opens, then holds one block per processed page |
| Converter.PdfToTextMissing | src/pdf_converter.py:115-117 | a missing input fails with no output |
| Converter.ImagePage | src/pdf_converter.py:92 | an image-made page shows its image |
| Converter.ImageDocument | src/pdf_converter.py:92 | one page per image, in list order, not encrypted |
| Converter.ReadImages | src/pdf_converter.py:92 | the packer reads the images exactly when every path is an image file |
| Converter.ImagesToPdf | src/pdf_converter.py:65-99 | the method's result is `ImagesToPdfOutcome` |
| Converter.ImagesToPdfEmpty | src/pdf_converter.py:80-82 | the empty list fails with nothing touched |
| Converter.ImagesToPdfMissing | src/pdf_converter.py:85-88 | a missing image fails before the output is opened |
| Converter.ImagesToPdfContents | src/pdf_converter.py:91-92 | image files packed into a new file give one page per image, in list order |
| Converter.ImagesToPdfOverwritesInput | src/pdf_converter.py:91-92 | naming an input image as the output empties that image before it is read: the call fails |
| Converter.CompressedPage | src/pdf_converter.py:169-172 | the new page has the source page's width and height and shows it |
| Converter.CompressPdf | src/pdf_converter.py:143-184 | the method's result is `CompressOutcome`: exists check, read, a re-drawn copy of every page, and a save that refuses a document without pages |
| Converter.CompressSucceeds | src/pdf_converter.py:157-184 | compression succeeds exactly when the input reads, has at least one page and the output is not a directory; a failure changes nothing |
| Converter.CompressKeepsGeometry | src/pdf_converter.py:167-172 | the output has the same page count, and page i keeps page i's width and height |
| Converter.CompressMissing | src/pdf_converter.py:158-160 | a missing input fails with no output |
| Converter.GetPdfInfo | src/pdf_converter.py:186-226 | None exactly for a missing or unreadable file; otherwise `pages == n` and `n` entries, entry i numbered `i+1` with page i's width, height and rotation |
| Security.EncryptPdf | src/pdf_security.py:12-53 | the method's result is `EncryptOutcome`: every page copied, protected, written |
| Security.EncryptContents | src/pdf_security.py:36-46 | the output holds the input's pages, is encrypted, and opens with exactly the truthy user password or `password`; otherwise `password` plays both roles |
| Security.Unlock | src/pdf_security.py:76-87 | a plain document reads with any password; a protected one only with its user or owner password |
| Security.CopyPages | src/pdf_security.py:83-87 | a fresh writer receives every page in order |
| Security.DecryptPdf | src/pdf_security.py:55-97 | the method's result is `DecryptOutcome` |
| Security.DecryptPlain | src/pdf_security.py:76-93 | an unencrypted source is copied page for page, whatever the password |
| Security.DecryptWrongPassword | src/pdf_security.py:76-89 | a wrong password fails decrypt and remove-password (lines 177-194) with the file system unchanged |
| Security.EncryptThenDecrypt | src/pdf_security.py:36-93 | decrypting an encrypted copy with either password gives back the pages, unprotected |
| Security.RemovePassword | src/pdf_security.py:157-202 | the method's result is `RemovePasswordOutcome` |
| Security.RemovePasswordIsDecryptWithMetadata | src/pdf_security.py:184-192 | remove-password succeeds exactly when decrypt does, writes the same pages unprotected, and adds the source metadata |
| Security.OwnerOnlyScenario | src/pdf_security.py:40-46 | encrypting with no (or an empty) user password, as in the `"owner123"` scenario, gives an encrypted file that only `password` opens and that `password` decrypts |
| Security.IsEncrypted | src/pdf_security.py:99-120 | true only for an existing path |
| Security.GetEncryptionInfo | src/pdf_security.py:122-155 | as written: None exactly when the path is not a readable document or is encrypted (building the record raises); otherwise the not-encrypted record |
| Security.IntendedEncryptionInfo | src/pdf_security.py:140-151 | the record the code is evidently meant to return: None exactly for a non-document, otherwise not encrypted or the cipher's method, file id and metadata |
| Security.QueriesAgree | src/pdf_security.py:99-155 | the intended record says encrypted exactly when `is_encrypted` does; the record as written is returned exactly for documents `is_encrypted` calls unencrypted; a missing path gives False and None |
| Security.EncryptionInfoAfterEncrypt | src/pdf_security.py:144-149 | after encryption the intended record reports the cipher's method and file id and the writer's metadata |
| Security.EncryptionInfoLost | src/pdf_security.py:144-155 | as written, a file the engine has just encrypted is reported encrypted by `is_encrypted` but gets no record |

## Left out

- The graphical front end, the build scripts and the entry points. They have no engine logic.
- The PDF codec, the rasteriser, the image packer and the cipher. Pages, renderings (`Rendering(page, dpi)`) and image pages are opaque values. The `dpi/72` scaling matrix is floating point and only reaches the rasteriser.
- Converter.ImagePage: the width and height the packer gives an image page depend on the image's resolution. The model sets them to 0.
- Converter.ImageDocument: the document-information entries the packer writes are not modelled; its metadata is empty.
- Converter.PdfToImages: which extensions the rasteriser can save is library knowledge. It is a parameter (`encoders`).
- Converter.GetPdfInfo: the `file_size` entry is not modelled, and neither is logging.
- Documents.OpenPdf, Converter.GetPdfInfo: PyMuPDF's `fitz.open` (`src/pdf_converter.py:37`, `:119`, `:162`, `:201`) also opens image and plain-text files as documents, an image as one page. The model opens only PDF files, so `pdf_to_images`, `pdf_to_text`, `compress_pdf` and `get_pdf_info` fail on an image or text input where the source goes on. Likewise the `metadata` entry of `get_pdf_info` is PyMuPDF's own dictionary (`format`, `title`, `encryption`, …). The model gives the document's information dictionary instead; the mapping between the two is not modelled.
- Encrypted documents in PyMuPDF. The converter treats an encrypted document that has not been unlocked as unreadable, failing at open. The library's exact behaviour there is not modelled.
- PyPDF2's automatic opening of documents whose user password is empty is not modelled. Every protected document needs a password before its pages can be read.
- Security.EncryptOutcome: the cipher algorithm and file identifier are chosen by the library, partly at random. They are a parameter.
- Security.IntendedEncryptionInfo: the method name and file identifier are taken from the cipher parameters the document was encrypted with. How a library would name them is not modelled.
- Merger.Resolve: `PdfMerger.append(..., pages=list)` with out-of-range or negative indices is library behaviour. The model takes PyPDF2's page-list indexing: a negative index counts from the end, and anything else outside the document raises. No lemma depends on that choice; the stated properties cover in-range indices.
- The merger's `get_pdf_info` (`src/pdf_merger.py:97-122`) is a reporting helper outside the engines' logic. It is not modelled.
- `int()` leniency. A token is a number when it is optional whitespace around a non-empty run of ASCII digits (`Text.ParseInt`). Signs, underscores, non-ASCII digits and non-ASCII whitespace (such as U+3000) are treated as malformed, where Python's `int()` accepts them.
- Resource handling: closing files and documents, and write errors other than a directory destination (disk full, permissions).
- Documents.JoinPath, Documents.MakeDirs, Converter.PdfToText: the model assumes POSIX. `/` is the only path separator, and a text-mode file is written without newline translation. On Windows, where the program is also packaged, `os.path.join` inserts `\`, `os.makedirs` splits on `\` as well as `/`, and `open(output_file, 'w')` (`src/pdf_converter.py:127`) writes every `\n` of a block (header, page text and the closing blank line) as `\r\n`. The stated paths and file contents are those of POSIX.
- Text.Lower: Python's `str.lower()` lowers every cased Unicode letter (`'Ä'` becomes `'ä'`). The model lowers only `A` to `Z`. Its one use is the image extension (`src/pdf_converter.py:53`); in the model a format name keeps its non-ASCII capitals.
- Path normalisation. Paths are plain strings: `os.makedirs` and `os.path.join` are modelled without collapsing repeated or trailing slashes, `.` or `..`.

## Findings

| source | as written | input that shows it | evidently intended | confidence | as-written member | corrected member |
|---|---|---|---|---|---|---|
| src/pdf_security.py:144-149 | the record reads `reader.encryption_method` and `reader.file_id`, which PyPDF2's `PdfReader` does not define; the AttributeError is caught at line 153, so every encrypted file gives None | any encrypted PDF, for instance one `encrypt_pdf` has just written (`Security.EncryptionInfoLost`) | a record with `encrypted` True, the encryption method, the file identifier and the metadata (`Security.EncryptionInfoAfterEncrypt`, `Security.QueriesAgree`) | not executed; rests on PyPDF2's `PdfReader` interface, and the repository pins no PyPDF2 version | Security.GetEncryptionInfo | Security.IntendedEncryptionInfo |
