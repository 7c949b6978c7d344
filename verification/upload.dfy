/** The `POST /upload` handler: defaulting of the optional form fields,
    naming of the encrypted file, and building and saving the record once
    encryption has succeeded. */
module UploadRoute {
  import opened Types
  import opened FileStore

  const DefaultMaxDownloads: real := 1.0
  const DefaultExpiryHours: real := 24.0
  const MsPerHour: int := 60 * 60 * 1000

  /** The file multer stored before the handler runs: its original name,
      media type and size, and the directory and name of the raw temporary
      copy. */
  datatype UploadedFile = UploadedFile(
    originalName: string,
    mimeType: string,
    size: int,
    dir: Path,
    tempName: string
  )

  /** Result of `encryptFile`: success, or a rejected promise; a failed
      write stream may already have created the output file. */
  datatype EncryptOutcome = Encrypted | EncryptFailed(partialOutput: bool)

  /** The JSON answer: 400 without a file, 500 when encryption fails,
      otherwise the link data of the new record. */
  datatype Reply =
    | NoFile
    | UploadFailed
    | Uploaded(fileId: Id, downloadLink: string, expiresAt: real, downloadsRemaining: real)

  /** Download quota from the parsed `maxDownloads` field. `None` stands for
      a field that is absent or empty (the source then uses 1) or that parses
      to NaN or an infinity; any value that is not positive also falls back
      to 1. */
  function QuotaOf(maxDownloads: Option<real>): (q: real)
    ensures q > 0.0
    ensures maxDownloads.Some? && maxDownloads.value > 0.0 ==> q == maxDownloads.value
    ensures !(maxDownloads.Some? && maxDownloads.value > 0.0) ==> q == DefaultMaxDownloads
  {
    match maxDownloads
    case Some(n) => if n > 0.0 then n else DefaultMaxDownloads
    case None => DefaultMaxDownloads
  }

  /** Lifetime in hours from the parsed `expiryHours` field, with the same
      fallback rule and 24 as the default. */
  function HoursOf(expiryHours: Option<real>): (h: real)
    ensures h > 0.0
    ensures expiryHours.Some? && expiryHours.value > 0.0 ==> h == expiryHours.value
    ensures !(expiryHours.Some? && expiryHours.value > 0.0) ==> h == DefaultExpiryHours
  {
    match expiryHours
    case Some(x) => if x > 0.0 then x else DefaultExpiryHours
    case None => DefaultExpiryHours
  }

  /** Expiry instant in milliseconds: `now` plus the lifetime. It always lies
      strictly after `now`, by exactly the chosen number of hours. */
  function ExpiresAt(now: int, expiryHours: Option<real>): (t: real)
    ensures t > now as real
    ensures t - now as real == HoursOf(expiryHours) * 3600000.0
  {
    now as real + HoursOf(expiryHours) * (MsPerHour as real)
  }

  /** `path.join(dir, name)` for a plain directory and file name. */
  function Join(dir: Path, name: string): Path
  {
    dir + "/" + name
  }

  /** The encrypted file sits beside the temporary upload, named `<fileId>.enc`. */
  function EncryptedPath(dir: Path, fileId: Id): (p: Path)
    ensures |p| == |dir| + |fileId| + 5
    ensures p[..|dir|] == dir && p[|dir|] == '/' && p[|dir| + 1..|dir| + 1 + |fileId|] == fileId
    ensures p[|p| - 4..] == ".enc"
  {
    Join(dir, fileId + ".enc")
  }

  /** Distinct ids give distinct encrypted paths within one directory, so
      unlinking one record's file never touches another record's file. */
  lemma EncryptedPathInjective(dir: Path, a: Id, b: Id)
    requires EncryptedPath(dir, a) == EncryptedPath(dir, b)
    ensures a == b
  {
  }

  /** The record the handler saves. */
  function NewRecord(file: UploadedFile, maxDownloads: Option<real>, expiryHours: Option<real>,
                     fileId: Id, key: string, iv: string, now: int): (meta: Record)
    ensures meta.id == fileId
    ensures meta.encryptedPath == EncryptedPath(file.dir, fileId)
    ensures meta.downloadsRemaining == QuotaOf(maxDownloads) && meta.downloadsRemaining > 0.0
    ensures meta.expiresAt == ExpiresAt(now, expiryHours) && meta.expiresAt > now as real
    ensures meta.originalName == file.originalName && meta.mimeType == file.mimeType && meta.size == file.size
    ensures meta.key == key && meta.iv == iv && meta.createdAt == now
  {
    Record(fileId, file.originalName, file.mimeType, file.size, EncryptedPath(file.dir, fileId),
           key, iv, QuotaOf(maxDownloads), ExpiresAt(now, expiryHours), now)
  }

  /** The whole handler, with the fresh id, key, iv, clock, base URL and the
      outcome of the encryption passed in. Without a file nothing happens.
      When encryption fails nothing is saved and the raw upload stays. On
      success the encrypted file appears, the raw upload is unlinked, the
      record is saved under `fileId`, and the reply repeats the stored
      expiry and quota. */
  function Upload(st: State, file: Option<UploadedFile>, maxDownloads: Option<real>, expiryHours: Option<real>,
                  fileId: Id, key: string, iv: string, now: int, baseUrl: string,
                  enc: EncryptOutcome): (r: Step<Reply>)
    ensures file.None? ==> r == Step(NoFile, st)
    ensures file.Some? && enc.EncryptFailed? ==> r.reply == UploadFailed && r.st.records == st.records
    ensures file.Some? && enc.EncryptFailed? ==>
              r.st.files == (if enc.partialOutput then st.files + {EncryptedPath(file.value.dir, fileId)} else st.files)
    ensures r.reply.Uploaded? <==> file.Some? && enc == Encrypted
    ensures r.reply.Uploaded? ==>
              && r.reply.fileId == fileId
              && r.reply.downloadLink == baseUrl + "/download/" + fileId
              && fileId in r.st.records
              && r.st.records[fileId] == NewRecord(file.value, maxDownloads, expiryHours, fileId, key, iv, now)
              && r.reply.expiresAt == r.st.records[fileId].expiresAt
              && r.reply.downloadsRemaining == r.st.records[fileId].downloadsRemaining
              && r.st.files == st.files + {EncryptedPath(file.value.dir, fileId)} - {Join(file.value.dir, file.value.tempName)}
    ensures forall k :: k != fileId ==> Get(r.st.records, k) == Get(st.records, k)
  {
    match file
    case None => Step(NoFile, st)
    case Some(f) =>
      var encryptedPath := EncryptedPath(f.dir, fileId);
      match enc
      case EncryptFailed(partial) =>
        Step(UploadFailed, st.(files := if partial then st.files + {encryptedPath} else st.files))
      case Encrypted =>
        var written := st.files + {encryptedPath};
        var files := written - {Join(f.dir, f.tempName)};
        var meta := NewRecord(f, maxDownloads, expiryHours, fileId, key, iv, now);
        Step(Uploaded(fileId, baseUrl + "/download/" + fileId, meta.expiresAt, meta.downloadsRemaining),
             State(Save(st.records, meta), files))
  }

  /** Uploading keeps the store consistent: the new record is keyed by its
      id and starts with a positive quota. */
  lemma UploadPreservesConsistent(st: State, file: Option<UploadedFile>, maxDownloads: Option<real>,
                                  expiryHours: Option<real>, fileId: Id, key: string, iv: string,
                                  now: int, baseUrl: string, enc: EncryptOutcome)
    requires Consistent(st)
    ensures Consistent(Upload(st, file, maxDownloads, expiryHours, fileId, key, iv, now, baseUrl, enc).st)
  {
  }
}
