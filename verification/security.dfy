/**
 * The security engine (`PDFSecurity`): encryption, decryption and password
 * removal as transitions between a plain and a protected document, and the
 * two read-only queries on a document's protection. The cipher itself is the
 * library's: the model keeps the two passwords and the cipher parameters the
 * library chose, which arrive as a parameter.
 */
module Security {
  import opened Wrappers
  import opened Documents

  /** `if user_password:`: present and not the empty string. */
  predicate Truthy(userPassword: Option<string>)
  {
    userPassword.Some? && userPassword.value != ""
  }

  /** What `encrypt_pdf` does: a copy of every page, protected, written to `output`. */
  function EncryptOutcome(fs: FileSystem, input: Path, output: Path, password: string,
                          userPassword: Option<string>, cipher: Cipher): Written
  {
    if !Exists(fs, input) then Written(false, fs)
    else match ReadPages(fs, input)
      case None => Written(false, fs)
      case Some(pages) =>
        var protection :=
          if Truthy(userPassword) then Protected(userPassword.value, password, cipher)
          else Protected(password, password, cipher);
        match WriteFile(fs, output, PdfFile(Document(pages, WriterMetadata, protection)))
        case None => Written(false, fs)
        case Some(after) => Written(true, after)
  }

  /** `encrypt_pdf`: copy every page into a writer, protect it, write it. */
  method EncryptPdf(fs: FileSystem, input: Path, output: Path, password: string,
                    userPassword: Option<string>, cipher: Cipher) returns (ok: bool, fs': FileSystem)
    ensures Written(ok, fs') == EncryptOutcome(fs, input, output, password, userPassword, cipher)
  {
    if !Exists(fs, input) {
      return false, fs;
    }
    var read := ReadPages(fs, input);
    if read.None? {
      return false, fs;
    }
    var pages := read.value;
    var writer := new Writer(WriterMetadata);
    for i := 0 to |pages|
      invariant writer.pages == pages[..i]
      invariant writer.metadata == WriterMetadata && writer.protection == Plain
    {
      writer.AddPage(pages[i]);
      assert pages[..i + 1] == pages[..i] + [pages[i]];
    }
    assert pages[..|pages|] == pages;
    if Truthy(userPassword) {
      writer.Encrypt(userPassword.value, Some(password), cipher);
    } else {
      writer.Encrypt(password, None, cipher);
    }
    var written := WriteFile(fs, output, PdfFile(writer.Output()));
    if written.None? {
      return false, fs;
    }
    return true, written.value;
  }

  /**
   * The pages of `doc` once `password` has been offered: a plain document
   * reads whatever the password; a protected one only with its user or
   * owner password.
   */
  function Unlock(doc: Document, password: string): (r: Option<seq<Page>>)
    ensures r.Some? <==> !Locked(doc) || Opens(doc.protection, password)
    ensures r.Some? ==> r.value == doc.pages
  {
    if !Locked(doc) || Opens(doc.protection, password) then Some(doc.pages) else None
  }

  /** What `decrypt_pdf` does: an unprotected copy of every page, once the document unlocks. */
  function DecryptOutcome(fs: FileSystem, input: Path, output: Path, password: string): Written
  {
    if !Exists(fs, input) then Written(false, fs)
    else match OpenPdf(fs, input)
      case None => Written(false, fs)
      case Some(doc) =>
        match Unlock(doc, password)
        case None => Written(false, fs)
        case Some(pages) =>
          match WriteFile(fs, output, PdfFile(WriterDocument(pages)))
          case None => Written(false, fs)
          case Some(after) => Written(true, after)
  }

  /** Copy the pages of an unlocked document into a fresh writer. */
  method CopyPages(pages: seq<Page>) returns (writer: Writer)
    ensures fresh(writer)
    ensures writer.pages == pages && writer.metadata == WriterMetadata && writer.protection == Plain
  {
    writer := new Writer(WriterMetadata);
    for i := 0 to |pages|
      invariant writer.pages == pages[..i]
      invariant writer.metadata == WriterMetadata && writer.protection == Plain
    {
      writer.AddPage(pages[i]);
      assert pages[..i + 1] == pages[..i] + [pages[i]];
    }
    assert pages[..|pages|] == pages;
  }

  /** `decrypt_pdf`: offer the password when the document is protected, then copy every page and write. */
  method DecryptPdf(fs: FileSystem, input: Path, output: Path, password: string) returns (ok: bool, fs': FileSystem)
    ensures Written(ok, fs') == DecryptOutcome(fs, input, output, password)
  {
    if !Exists(fs, input) {
      return false, fs;
    }
    var source := OpenPdf(fs, input);
    if source.None? {
      return false, fs;
    }
    var pages := Unlock(source.value, password);
    if pages.None? {
      return false, fs;
    }
    var writer := CopyPages(pages.value);
    var written := WriteFile(fs, output, PdfFile(writer.Output()));
    if written.None? {
      return false, fs;
    }
    return true, written.value;
  }

  /** What `remove_password` does: as `decrypt_pdf`, and the source metadata is added to the writer's. */
  function RemovePasswordOutcome(fs: FileSystem, input: Path, output: Path, password: string): Written
  {
    if !Exists(fs, input) then Written(false, fs)
    else match OpenPdf(fs, input)
      case None => Written(false, fs)
      case Some(doc) =>
        match Unlock(doc, password)
        case None => Written(false, fs)
        case Some(pages) =>
          var metadata := if doc.metadata != map[] then WriterMetadata + doc.metadata else WriterMetadata;
          match WriteFile(fs, output, PdfFile(Document(pages, metadata, Plain)))
          case None => Written(false, fs)
          case Some(after) => Written(true, after)
  }

  /** `remove_password`: as `decrypt_pdf`, copying non-empty metadata before writing. */
  method RemovePassword(fs: FileSystem, input: Path, output: Path, password: string) returns (ok: bool, fs': FileSystem)
    ensures Written(ok, fs') == RemovePasswordOutcome(fs, input, output, password)
  {
    if !Exists(fs, input) {
      return false, fs;
    }
    var source := OpenPdf(fs, input);
    if source.None? {
      return false, fs;
    }
    var pages := Unlock(source.value, password);
    if pages.None? {
      return false, fs;
    }
    var writer := CopyPages(pages.value);
    if source.value.metadata != map[] {
      writer.AddMetadata(source.value.metadata);
    }
    var written := WriteFile(fs, output, PdfFile(writer.Output()));
    if written.None? {
      return false, fs;
    }
    return true, written.value;
  }

  /** `is_encrypted`: false for a missing path and for anything that is not a document. */
  function IsEncrypted(fs: FileSystem, input: Path): (r: bool)
    ensures r ==> Exists(fs, input)
  {
    Exists(fs, input) && OpenPdf(fs, input).Some? && Locked(OpenPdf(fs, input).value)
  }

  /** The record `get_encryption_info` returns. */
  datatype EncryptionInfo =
    | NotEncrypted
    | EncryptedInfo(algorithm: string, fileId: string, metadata: map<string, string>)

  /**
   * `get_encryption_info` as written: None for a missing path or a
   * non-document, and also for every encrypted document, because building
   * its record reads `reader.encryption_method`, an attribute PyPDF2's
   * `PdfReader` does not have; the error is caught and None returned.
   */
  function GetEncryptionInfo(fs: FileSystem, input: Path): (r: Option<EncryptionInfo>)
    ensures r.None? <==> OpenPdf(fs, input).None? || Locked(OpenPdf(fs, input).value)
    ensures r.Some? ==> r.value == NotEncrypted
  {
    if !Exists(fs, input) then None
    else match OpenPdf(fs, input)
      case None => None
      case Some(doc) =>
        match doc.protection
        case Plain => Some(NotEncrypted)
        case Protected(_, _, _) => None
  }

  /**
   * The record `get_encryption_info` is evidently meant to return: for an
   * encrypted document, its cipher's method and file identifier and its
   * metadata.
   */
  function IntendedEncryptionInfo(fs: FileSystem, input: Path): (r: Option<EncryptionInfo>)
    ensures r.None? <==> OpenPdf(fs, input).None?
  {
    if !Exists(fs, input) then None
    else match OpenPdf(fs, input)
      case None => None
      case Some(doc) =>
        match doc.protection
        case Plain => Some(NotEncrypted)
        case Protected(_, _, cipher) => Some(EncryptedInfo(cipher.algorithm, cipher.fileId, doc.metadata))
  }

  /**
   * The queries agree: the intended record says encrypted exactly when
   * `is_encrypted` does; the record as written is returned exactly for
   * documents that `is_encrypted` calls unencrypted; a missing path gives
   * False and None.
   */
  lemma QueriesAgree(fs: FileSystem, input: Path)
    ensures IntendedEncryptionInfo(fs, input).Some? ==>
      (IntendedEncryptionInfo(fs, input).value.EncryptedInfo? <==> IsEncrypted(fs, input))
    ensures GetEncryptionInfo(fs, input).Some? <==> OpenPdf(fs, input).Some? && !IsEncrypted(fs, input)
    ensures !Exists(fs, input) ==> !IsEncrypted(fs, input) && GetEncryptionInfo(fs, input).None?
  {
  }

  /**
   * Encryption copies every page and protects the copy: a truthy
   * `user_password` opens it and `password` is the owner password;
   * otherwise `password` plays both roles.
   */
  lemma EncryptContents(fs: FileSystem, input: Path, output: Path, password: string,
                        userPassword: Option<string>, cipher: Cipher)
    requires EncryptOutcome(fs, input, output, password, userPassword, cipher).ok
    ensures ReadPages(fs, input).Some?
    ensures var after := EncryptOutcome(fs, input, output, password, userPassword, cipher).fs;
      var user := if Truthy(userPassword) then userPassword.value else password;
      OpenPdf(after, output).Some? &&
      OpenPdf(after, output).value.pages == ReadPages(fs, input).value &&
      IsEncrypted(after, output) &&
      OpenPdf(after, output).value.protection == Protected(user, password, cipher) &&
      (forall p :: Opens(OpenPdf(after, output).value.protection, p) <==> p == user || p == password)
  {
  }

  /** Encrypting and then decrypting the result with either password gives back the pages, unprotected. */
  lemma EncryptThenDecrypt(fs: FileSystem, input: Path, output: Path, password: string,
                           userPassword: Option<string>, cipher: Cipher, plain: Path, offered: string)
    requires EncryptOutcome(fs, input, output, password, userPassword, cipher).ok
    requires plain !in fs.dirs
    requires offered == password || (Truthy(userPassword) && offered == userPassword.value)
    ensures var encrypted := EncryptOutcome(fs, input, output, password, userPassword, cipher).fs;
      var r := DecryptOutcome(encrypted, output, plain, offered);
      r.ok && ReadPages(r.fs, plain) == ReadPages(fs, input) && !IsEncrypted(r.fs, plain)
  {
    EncryptContents(fs, input, output, password, userPassword, cipher);
    var encrypted := EncryptOutcome(fs, input, output, password, userPassword, cipher).fs;
    assert encrypted.dirs == fs.dirs;
  }

  /** An unprotected document is copied page for page whatever the password. */
  lemma DecryptPlain(fs: FileSystem, input: Path, output: Path, password: string)
    requires OpenPdf(fs, input).Some? && !Locked(OpenPdf(fs, input).value)
    requires output !in fs.dirs
    ensures var r := DecryptOutcome(fs, input, output, password);
      r.ok && ReadPages(r.fs, output) == ReadPages(fs, input)
  {
  }

  /** A protected document offered neither of its passwords fails with nothing written. */
  lemma DecryptWrongPassword(fs: FileSystem, input: Path, output: Path, password: string)
    requires OpenPdf(fs, input).Some? && Locked(OpenPdf(fs, input).value)
    requires !Opens(OpenPdf(fs, input).value.protection, password)
    ensures DecryptOutcome(fs, input, output, password) == Written(false, fs)
    ensures RemovePasswordOutcome(fs, input, output, password) == Written(false, fs)
  {
  }

  /**
   * Removing the password succeeds exactly when decrypting does, writes the
   * same pages unprotected, and also carries over the source metadata.
   */
  lemma RemovePasswordIsDecryptWithMetadata(fs: FileSystem, input: Path, output: Path, password: string)
    ensures RemovePasswordOutcome(fs, input, output, password).ok == DecryptOutcome(fs, input, output, password).ok
    ensures RemovePasswordOutcome(fs, input, output, password).ok ==>
      var removed := OpenPdf(RemovePasswordOutcome(fs, input, output, password).fs, output).value;
      var decrypted := OpenPdf(DecryptOutcome(fs, input, output, password).fs, output).value;
      removed.pages == decrypted.pages && removed.protection == Plain == decrypted.protection &&
      removed.metadata == WriterMetadata + OpenPdf(fs, input).value.metadata
  {
    if RemovePasswordOutcome(fs, input, output, password).ok {
      var md := OpenPdf(fs, input).value.metadata;
      if md == map[] {
        assert WriterMetadata + md == WriterMetadata;
      }
    }
  }

  /**
   * Encrypting with no user password (or an empty one), as in the documented
   * `"owner123"` scenario, protects the file with `password` alone: it is
   * encrypted, only that password opens it, and decrypting with it succeeds.
   */
  lemma OwnerOnlyScenario(fs: FileSystem, input: Path, output: Path, plain: Path, password: string,
                          userPassword: Option<string>, cipher: Cipher)
    requires !Truthy(userPassword)
    requires ReadPages(fs, input).Some? && output !in fs.dirs && plain !in fs.dirs
    ensures var r := EncryptOutcome(fs, input, output, password, userPassword, cipher);
      r.ok && IsEncrypted(r.fs, output) &&
      OpenPdf(r.fs, output).value.protection == Protected(password, password, cipher) &&
      (forall p :: Opens(OpenPdf(r.fs, output).value.protection, p) <==> p == password) &&
      DecryptOutcome(r.fs, output, plain, password).ok
  {
    EncryptThenDecrypt(fs, input, output, password, userPassword, cipher, plain, password);
  }

  /** As written, the query finds no record for a file the engine has just encrypted. */
  lemma EncryptionInfoLost(fs: FileSystem, input: Path, output: Path, password: string,
                           userPassword: Option<string>, cipher: Cipher)
    requires EncryptOutcome(fs, input, output, password, userPassword, cipher).ok
    ensures var after := EncryptOutcome(fs, input, output, password, userPassword, cipher).fs;
      IsEncrypted(after, output) && GetEncryptionInfo(after, output) == None
  {
  }

  /** After encryption the intended record reports the cipher the library used and the writer's metadata. */
  lemma EncryptionInfoAfterEncrypt(fs: FileSystem, input: Path, output: Path, password: string,
                                   userPassword: Option<string>, cipher: Cipher)
    requires EncryptOutcome(fs, input, output, password, userPassword, cipher).ok
    ensures IntendedEncryptionInfo(EncryptOutcome(fs, input, output, password, userPassword, cipher).fs, output) ==
      Some(EncryptedInfo(cipher.algorithm, cipher.fileId, WriterMetadata))
  {
  }
}
