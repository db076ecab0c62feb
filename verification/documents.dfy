/**
 * The abstract world the four engines work on: documents as sequences of
 * opaque pages with a metadata map and an encryption state, the files that
 * hold them, and the writer object that output documents are assembled in.
 * The codec library itself (parsing, rasterising, ciphers) is not modelled;
 * what it answers is carried by these values.
 */
module Documents {
  import opened Wrappers

  type Path = string

  /** What a page shows. The engines never look inside. */
  datatype Content =
    | Native(id: nat)           // content as found in a source document
    | FromImage(image: Image)   // a page made by packing an image file
    | Showing(original: Page)   // a page that displays another page (the compressor's copies)

  /** A page with its geometry (width and height in points, rotation in degrees) and its extractable text. */
  datatype Page = Page(content: Content, width: int, height: int, rotation: int, text: string)

  datatype Image =
    | Picture(width: nat, height: nat, pixels: seq<int>)   // an image file made elsewhere
    | Rendering(page: Page, dpi: int)                      // a page rasterised at a resolution

  /** The cipher parameters and file identifier the library chose when it encrypted a document. */
  datatype Cipher = Cipher(algorithm: string, fileId: string)

  /** Either no protection, or the standard security handler's two passwords:
      the user (open) password and the owner (permissions) password. */
  datatype Protection =
    | Plain
    | Protected(userPassword: string, ownerPassword: string, cipher: Cipher)

  datatype Document = Document(pages: seq<Page>, metadata: map<string, string>, protection: Protection)

  /** What a path can hold. EmptyFile is a file opened for writing whose content never arrived. */
  datatype File =
    | PdfFile(doc: Document)
    | ImageFile(image: Image)
    | TextFile(text: string)
    | EmptyFile

  /** The file system: regular files and directories. */
  datatype FileSystem = FileSystem(files: map<Path, File>, dirs: set<Path>)

  /** No path is both a file and a directory. */
  ghost predicate Valid(fs: FileSystem)
  {
    forall p :: p in fs.files ==> p !in fs.dirs
  }

  /** `os.path.exists`: true for files and for directories. */
  predicate Exists(fs: FileSystem, p: Path)
  {
    p in fs.files || p in fs.dirs
  }

  /** Opening `p` as a PDF document, as PyPDF2 does: fails for a directory and for a file that is not a PDF. */
  function OpenPdf(fs: FileSystem, p: Path): (r: Option<Document>)
    ensures r.Some? ==> Exists(fs, p)
  {
    if p in fs.files && fs.files[p].PdfFile? then Some(fs.files[p].doc) else None
  }

  /** An encrypted document whose pages cannot be read until a password has been accepted. */
  predicate Locked(doc: Document)
  {
    doc.protection.Protected?
  }

  /** The pages of the document at `p`, when it opens and is not locked. */
  function ReadPages(fs: FileSystem, p: Path): (r: Option<seq<Page>>)
    ensures r.Some? <==> OpenPdf(fs, p).Some? && !Locked(OpenPdf(fs, p).value)
    ensures r.Some? ==> r.value == OpenPdf(fs, p).value.pages
  {
    match OpenPdf(fs, p)
    case None => None
    case Some(doc) => if Locked(doc) then None else Some(doc.pages)
  }

  /** Whether `password` is one of the document's two passwords. */
  predicate Opens(protection: Protection, password: string)
    requires protection.Protected?
  {
    password == protection.userPassword || password == protection.ownerPassword
  }

  /** The directories above `d` that `os.makedirs` walks through: every prefix ending just before a `/`. */
  function Ancestors(d: Path): (r: set<Path>)
    ensures forall a :: a in r ==> |a| < |d| && a != ""
  {
    set i | 0 < i < |d| && d[i] == '/' :: d[..i]
  }

  /**
   * `os.makedirs(d, exist_ok=True)`: makes `d` and every missing directory
   * above it. It fails on the empty path and when `d` or a directory it
   * would pass through is a regular file.
   */
  function MakeDirs(fs: FileSystem, d: Path): (r: Option<FileSystem>)
    ensures r.Some? <==> d != "" && d !in fs.files && forall a :: a in Ancestors(d) ==> a !in fs.files
    ensures r.Some? ==> r.value.files == fs.files && r.value.dirs == fs.dirs + {d} + Ancestors(d)
    ensures r.Some? && Valid(fs) ==> Valid(r.value)
  {
    if d == "" || d in fs.files || exists a :: a in Ancestors(d) && a in fs.files then None
    else Some(fs.(dirs := fs.dirs + {d} + Ancestors(d)))
  }

  /** A file directly inside `d` is none of the directories `os.makedirs(d)` makes. */
  lemma JoinPathNotMade(d: Path, name: string)
    requires name != ""
    ensures JoinPath(d, name) != d && JoinPath(d, name) !in Ancestors(d)
  {
  }

  /** A path under a regular file cannot be made into a directory. */
  lemma MakeDirsUnderFile(fs: FileSystem, f: Path, rest: string)
    requires f != "" && f in fs.files
    ensures MakeDirs(fs, f + "/" + rest).None?
  {
    var d := f + "/" + rest;
    assert d[|f|] == '/' && d[..|f|] == f;
    assert f in Ancestors(d);
  }

  /** Opening `p` for writing and writing `f`: fails when `p` is a directory,
      which stands here for every destination that cannot be created. */
  function WriteFile(fs: FileSystem, p: Path, f: File): (r: Option<FileSystem>)
    ensures r.Some? <==> p !in fs.dirs
    ensures r.Some? ==> r.value.files == fs.files[p := f] && r.value.dirs == fs.dirs
    ensures r.Some? && Valid(fs) ==> Valid(r.value)
  {
    if p in fs.dirs then None else Some(fs.(files := fs.files[p := f]))
  }

  /** `os.path.join(dir, name)` on POSIX for a relative `name`. */
  function JoinPath(dir: Path, name: string): Path
  {
    if dir == [] || dir[|dir| - 1] == '/' then dir + name else dir + "/" + name
  }

  /** Distinct file names land on distinct paths of the same directory. */
  lemma JoinPathInjective(dir: Path, a: string, b: string)
    requires JoinPath(dir, a) == JoinPath(dir, b)
    ensures a == b
  {
    var p := JoinPath(dir, a);
    var k := if dir == [] || dir[|dir| - 1] == '/' then |dir| else |dir| + 1;
    assert p[k..] == a;
    assert p[k..] == b;
  }

  /** One output file an engine writes. */
  datatype Output = Output(path: Path, file: File)

  /** Whether every write went through, and the file system afterwards. */
  datatype Written = Written(ok: bool, fs: FileSystem)

  /**
   * Writing `outs` one after the other, stopping at the first destination
   * that cannot be written; the files written before it stay in place.
   */
  function WriteAll(fs: FileSystem, outs: seq<Output>): Written
    decreases |outs|
  {
    if outs == [] then Written(true, fs)
    else
      var before := WriteAll(fs, outs[..|outs| - 1]);
      var last := outs[|outs| - 1];
      if !before.ok then before
      else match WriteFile(before.fs, last.path, last.file)
        case None => Written(false, before.fs)
        case Some(after) => Written(true, after)
  }

  function Paths(outs: seq<Output>): set<Path>
  {
    set j | 0 <= j < |outs| :: outs[j].path
  }

  /** The destinations of `outs`, in write order. */
  function PathList(outs: seq<Output>): (ps: seq<Path>)
    ensures |ps| == |outs|
  {
    seq(|outs|, j requires 0 <= j < |outs| => outs[j].path)
  }

  /** Writing never creates or removes directories, and keeps files and directories apart. */
  lemma {:induction false} WriteAllKeepsDirs(fs: FileSystem, outs: seq<Output>)
    ensures WriteAll(fs, outs).fs.dirs == fs.dirs
    ensures Valid(fs) ==> Valid(WriteAll(fs, outs).fs)
    decreases |outs|
  {
    if outs != [] {
      WriteAllKeepsDirs(fs, outs[..|outs| - 1]);
    }
  }

  /** All writes go through exactly when no destination is a directory. */
  lemma {:induction false} WriteAllSucceeds(fs: FileSystem, outs: seq<Output>)
    ensures WriteAll(fs, outs).ok <==> forall j :: 0 <= j < |outs| ==> outs[j].path !in fs.dirs
    decreases |outs|
  {
    if outs != [] {
      var init := outs[..|outs| - 1];
      WriteAllSucceeds(fs, init);
      WriteAllKeepsDirs(fs, init);
      assert forall j :: 0 <= j < |init| ==> init[j] == outs[j];
    }
  }

  /** The destinations of outputs with one more at the end. */
  lemma PathsSnoc(outs: seq<Output>)
    requires outs != []
    ensures Paths(outs) == Paths(outs[..|outs| - 1]) + {outs[|outs| - 1].path}
  {
    var init := outs[..|outs| - 1];
    forall p | p in Paths(outs) ensures p in Paths(init) + {outs[|outs| - 1].path} {
      var j :| 0 <= j < |outs| && outs[j].path == p;
      if j < |outs| - 1 { assert init[j] == outs[j]; }
    }
    forall p | p in Paths(init) ensures p in Paths(outs) {
      var j :| 0 <= j < |init| && init[j].path == p;
      assert outs[j] == init[j];
    }
  }

  /** After a successful run the paths are the old ones plus the destinations. */
  lemma {:induction false} WriteAllKeys(fs: FileSystem, outs: seq<Output>)
    requires WriteAll(fs, outs).ok
    ensures WriteAll(fs, outs).fs.files.Keys == fs.files.Keys + Paths(outs)
    decreases |outs|
  {
    if outs != [] {
      WriteAllKeys(fs, outs[..|outs| - 1]);
      PathsSnoc(outs);
    }
  }

  /** After a successful run every path that was not a destination keeps its file. */
  lemma {:induction false} WriteAllUntouched(fs: FileSystem, outs: seq<Output>, p: Path)
    requires WriteAll(fs, outs).ok
    requires p in fs.files && p !in Paths(outs)
    ensures p in WriteAll(fs, outs).fs.files && WriteAll(fs, outs).fs.files[p] == fs.files[p]
    decreases |outs|
  {
    WriteAllKeys(fs, outs);
    if outs != [] {
      PathsSnoc(outs);
      WriteAllKeys(fs, outs[..|outs| - 1]);
      WriteAllUntouched(fs, outs[..|outs| - 1], p);
    }
  }

  /** After a successful run a destination holds its file when no later output goes to the same path. */
  lemma {:induction false} WriteAllLast(fs: FileSystem, outs: seq<Output>, j: nat)
    requires WriteAll(fs, outs).ok
    requires j < |outs| && forall l :: j < l < |outs| ==> outs[l].path != outs[j].path
    ensures outs[j].path in WriteAll(fs, outs).fs.files
    ensures WriteAll(fs, outs).fs.files[outs[j].path] == outs[j].file
    decreases |outs|
  {
    var init := outs[..|outs| - 1];
    if j < |outs| - 1 {
      assert init[j] == outs[j];
      assert forall l :: j < l < |init| ==> init[l] == outs[l];
      WriteAllLast(fs, init, j);
    }
  }

  /** After a successful run whose destinations are all different, each destination holds its file. */
  lemma WriteAllDistinct(fs: FileSystem, outs: seq<Output>)
    requires WriteAll(fs, outs).ok
    requires forall j, l :: 0 <= j < l < |outs| ==> outs[j].path != outs[l].path
    ensures forall j :: 0 <= j < |outs| ==>
              outs[j].path in WriteAll(fs, outs).fs.files && WriteAll(fs, outs).fs.files[outs[j].path] == outs[j].file
  {
    forall j | 0 <= j < |outs|
      ensures outs[j].path in WriteAll(fs, outs).fs.files && WriteAll(fs, outs).fs.files[outs[j].path] == outs[j].file
    {
      WriteAllLast(fs, outs, j);
    }
  }

  /** A failed run stopped at a destination that is a directory, with every
      earlier output written. */
  lemma {:induction false} WriteAllStops(fs: FileSystem, outs: seq<Output>)
    requires !WriteAll(fs, outs).ok
    ensures exists m :: 0 <= m < |outs| && outs[m].path in fs.dirs &&
              WriteAll(fs, outs[..m]) == Written(true, WriteAll(fs, outs).fs)
    decreases |outs|
  {
    var init := outs[..|outs| - 1];
    if !WriteAll(fs, init).ok {
      WriteAllStops(fs, init);
      var m :| 0 <= m < |init| && init[m].path in fs.dirs && WriteAll(fs, init[..m]) == Written(true, WriteAll(fs, init).fs);
      assert init[..m] == outs[..m];
    } else {
      WriteAllKeepsDirs(fs, init);
      assert outs[..|outs| - 1] == init;
    }
  }

  /** Writing more after a failure changes nothing. */
  lemma {:induction false} WriteAllAfterFailure(fs: FileSystem, a: seq<Output>, b: seq<Output>)
    requires !WriteAll(fs, a).ok
    ensures WriteAll(fs, a + b) == WriteAll(fs, a)
    decreases |b|
  {
    if b == [] {
      assert a + b == a;
    } else {
      var c := a + b;
      assert c[..|c| - 1] == a + b[..|b| - 1];
      WriteAllAfterFailure(fs, a, b[..|b| - 1]);
    }
  }

  /**
   * After a successful run a destination holds its file even when it was
   * written several times, provided every write to it wrote the same file.
   */
  lemma {:induction false} WriteAllHolds(fs: FileSystem, outs: seq<Output>, p: Path, f: File)
    requires WriteAll(fs, outs).ok && p in Paths(outs)
    requires forall j :: 0 <= j < |outs| && outs[j].path == p ==> outs[j].file == f
    ensures p in WriteAll(fs, outs).fs.files && WriteAll(fs, outs).fs.files[p] == f
    decreases |outs|
  {
    var init := outs[..|outs| - 1];
    if outs[|outs| - 1].path != p {
      var j :| 0 <= j < |outs| && outs[j].path == p;
      assert init[j] == outs[j];
      assert p in Paths(init);
      WriteAllHolds(fs, init, p, f);
    }
  }

  /** One more write after a run of successful ones: either it goes through,
      or it fails and every later write is skipped. */
  lemma WriteAllNext(fs: FileSystem, outs: seq<Output>, j: nat, cur: FileSystem)
    requires j < |outs| && WriteAll(fs, outs[..j]) == Written(true, cur)
    ensures WriteFile(cur, outs[j].path, outs[j].file).None? ==> WriteAll(fs, outs) == Written(false, cur)
    ensures WriteFile(cur, outs[j].path, outs[j].file).Some? ==>
              WriteAll(fs, outs[..j + 1]) == Written(true, WriteFile(cur, outs[j].path, outs[j].file).value)
  {
    assert outs[..j + 1][..j] == outs[..j];
    if WriteFile(cur, outs[j].path, outs[j].file).None? {
      assert outs == outs[..j + 1] + outs[j + 1..];
      WriteAllAfterFailure(fs, outs[..j + 1], outs[j + 1..]);
    }
  }

  /** The pages at the given zero-based indices, in the order of the indices. */
  function Pick(pages: seq<Page>, indices: seq<int>): (r: seq<Page>)
    requires forall j :: 0 <= j < |indices| ==> 0 <= indices[j] < |pages|
    ensures |r| == |indices| && forall j :: 0 <= j < |r| ==> r[j] == pages[indices[j]]
  {
    seq(|indices|, j requires 0 <= j < |indices| => pages[indices[j]])
  }

  /** The metadata a fresh PyPDF2 writer starts with. */
  const WriterMetadata: map<string, string> := map["/Producer" := "PyPDF2"]

  /** A document as a fresh PyPDF2 writer writes it: the given pages, the
      writer's own metadata, no encryption. */
  function WriterDocument(pages: seq<Page>): (d: Document)
    ensures d.pages == pages && !Locked(d)
  {
    Document(pages, WriterMetadata, Plain)
  }

  /**
   * An output document under construction: PyPDF2's PdfWriter and PdfMerger,
   * and a new PyMuPDF document. Pages are appended in place; protection and
   * metadata are set on it before it is written out.
   */
  class Writer {
    var pages: seq<Page>
    var metadata: map<string, string>
    var protection: Protection

    constructor (initialMetadata: map<string, string>)
      ensures pages == [] && metadata == initialMetadata && protection == Plain
    {
      pages := [];
      metadata := initialMetadata;
      protection := Plain;
    }

    /** `writer.add_page(page)`. */
    method AddPage(p: Page)
      modifies this
      ensures pages == old(pages) + [p]
      ensures metadata == old(metadata) && protection == old(protection)
    {
      pages := pages + [p];
    }

    /** `merger.append(...)` of an already selected list of pages. */
    method Append(ps: seq<Page>)
      modifies this
      ensures pages == old(pages) + ps
      ensures metadata == old(metadata) && protection == old(protection)
    {
      pages := pages + ps;
    }

    /** `writer.encrypt(user_password, owner_password=None)`: a missing owner
        password means the user password serves both roles. */
    method Encrypt(userPassword: string, ownerPassword: Option<string>, cipher: Cipher)
      modifies this
      ensures protection == Protected(userPassword, if ownerPassword.Some? then ownerPassword.value else userPassword, cipher)
      ensures pages == old(pages) && metadata == old(metadata)
    {
      protection := Protected(userPassword, if ownerPassword.Some? then ownerPassword.value else userPassword, cipher);
    }

    /** `writer.add_metadata(m)`: entries of `m` are added, replacing equal keys. */
    method AddMetadata(m: map<string, string>)
      modifies this
      ensures metadata == old(metadata) + m
      ensures pages == old(pages) && protection == old(protection)
    {
      metadata := metadata + m;
    }

    /** The document this writer would write. */
    function Output(): Document
      reads this
    {
      Document(pages, metadata, protection)
    }
  }
}
