# Lifecycle of a shared file record

This project models, in Dafny, the part of the file-sharing backend that
decides what happens to an uploaded file's record from upload to eviction:

- the in-memory record store (`save`, `get`, `remove`) and its periodic
  sweeper `cleanupExpired` (`backend/utils/filestore.js`);
- the `GET /download/:id` handler: its fixed order of checks, the counter
  update when the decryption stream ends, `cleanup` and `sanitizeFilename`
  (`backend/routes/download.js`);
- the `POST /upload` handler: defaulting of `maxDownloads` / `expiryHours`,
  the `<fileId>.enc` naming, building the record, saving it only after
  encryption succeeded, and the JSON reply (`backend/routes/upload.js`).

State is immutable: `Types.State` pairs the store (`map<Id, Record>`) with the
set of paths that exist on disk, and every handler is a pure function from a
state (plus the clock, fresh id, key, iv and I/O outcomes as parameters) to a
reply and a new state. Counters and expiry instants are `real`, because the
source stores whatever JavaScript number the client sent: `maxDownloads=1.5`
is kept as 1.5 and grants two downloads (`Lifecycle.FractionalQuota`).

Modules: `Types` (record, state, consistency invariant), `FileStore`,
`DownloadRoute`, `UploadRoute`, and `Lifecycle` (properties spanning upload,
download and eviction).

## Notable behaviour of the code

- The counter drops only when the decryption stream emits `end`
  (`backend/routes/download.js:48-52`); nothing is decremented when
  streaming starts, and a stream error leaves the counter as it was
  (`backend/routes/download.js:54-57`).
- After the last allowed download the `end` handler has already removed
  the record and its file, so the next request gets 404 Not Found
  (`DownloadRoute.QuotaExact`, `Lifecycle.UploadServesQuota`).
- A positive `maxDownloads` or `expiryHours` is used as given, fractions
  included; only a non-positive or unparsable value falls back to 1 or 24
  (`backend/routes/upload.js:52-53`).
- A missing encrypted file only drops the store entry
  (`backend/routes/download.js:30-33`).
- In a store reached by the handlers every counter stays positive, so the
  410 Exhausted branch (`backend/routes/download.js:24-27`) and the
  sweeper's count clause are unreachable in sequential runs
  (`Lifecycle.ExhaustedUnreachable`, `FileStore.SweepEvictsOnlyExpired`).

## Model

| member | source | states |
|---|---|---|
| FileStore.Save | backend/utils/filestore.js:7-9 | the saved record is what `get` returns for its id; the key set grows by that id only; every other id reads as before |
| FileStore.Get | backend/utils/filestore.js:11-13 | returns a record exactly when the id is stored, and then the stored record |
| FileStore.Remove | backend/utils/filestore.js:15-17 | afterwards the id reads as absent, the key set loses only that id, every other id reads as before |
| FileStore.SaveOverwrites | backend/utils/filestore.js:7-9 | a second save under the same id replaces the first; the store grows by at most one entry |
| FileStore.RemoveIdempotent | backend/utils/filestore.js:15-17 | removing twice is the same as removing once |
| FileStore.SavePreservesWellKeyed | backend/utils/filestore.js:7-9 | saving keeps every record stored under its own id |
| FileStore.Sweep | backend/utils/filestore.js:19-27 | a record survives exactly when it is not past expiry (strict `>`) and has downloads left; survivors are unmodified; every evicted record's encrypted path is gone; no other path disappears |
| FileStore.CleanupExpired | backend/utils/filestore.js:19-27 | the entry-by-entry walk that unlinks and deletes reaches exactly the whole-map sweep, in any visiting order |
| FileStore.SweepIdempotent | backend/utils/filestore.js:19-27 | a second sweep at the same instant changes nothing |
| FileStore.SweepPreservesConsistent | backend/utils/filestore.js:21-25 | sweeping keeps records keyed by id with positive counters |
| FileStore.SweepEvictsOnlyExpired | backend/utils/filestore.js:22 | in a consistent store a record is evicted exactly when the clock is past its expiry |
| DownloadRoute.Sanitize | backend/routes/download.js:62-64 | same length; each of slash, backslash, `?`, `%`, `*`, `:`, vertical bar, double quote, `<` and `>` becomes `_`; every other character is unchanged; no unsafe character remains |
| DownloadRoute.SanitizeKeepsSafe | backend/routes/download.js:62-64 | a name without unsafe characters is returned unchanged |
| DownloadRoute.SanitizeIdempotent | backend/routes/download.js:62-64 | sanitizing twice equals sanitizing once |
| DownloadRoute.Cleanup | backend/routes/download.js:66-69 | removes the entry under the record's id and its encrypted path, whether or not the file existed; nothing else changes |
| DownloadRoute.Handle | backend/routes/download.js:11-45 | each answer holds exactly under its condition in the order not found, expired (strict `>`), exhausted, file missing, streaming; not found and streaming change nothing; expired and exhausted remove record and file; file missing removes only the entry; streaming sends the stored record under its sanitized name; the status is 200 exactly when streaming, 410 exactly when the record is expired or used up, 404 otherwise |
| DownloadRoute.Finish | backend/routes/download.js:48-57 | on `end` the counter drops by exactly one; at or below zero record and file are removed, otherwise the record is saved under its id with only the counter changed, even if it had been removed meanwhile; on `error` nothing changes; other ids are never touched |
| DownloadRoute.Retrieve | backend/routes/download.js:11-59 | a full request answers what the checks answer; only a started stream runs the finishing handler, on the record read at request time |
| DownloadRoute.Granted | backend/routes/download.js:49-50 | the number of one-by-one decrements a counter survives is its ceiling |
| DownloadRoute.QuotaExact | backend/routes/download.js:48-52 | a record with counter `q > 0` serves exactly `Granted(q)` back-to-back downloads at any instants up to its expiry, the i-th seeing counter `q - i`; then record and file are gone and a request at any later instant is not found |
| DownloadRoute.ExpiredBeforeExhausted | backend/routes/download.js:18-27 | an expired record with no downloads left is reported as expired |
| DownloadRoute.HandlePreservesConsistent | backend/routes/download.js:18-33 | the checks keep records keyed by id with positive counters |
| DownloadRoute.FinishPreservesConsistent | backend/routes/download.js:48-52 | the end handler re-saves a record only while its counter is positive |
| UploadRoute.QuotaOf | backend/routes/upload.js:52 | the quota is the parsed `maxDownloads` when positive, otherwise 1 (also when the field is absent, empty or not a finite number); always positive |
| UploadRoute.HoursOf | backend/routes/upload.js:53 | the lifetime is the parsed `expiryHours` when positive, otherwise 24; always positive |
| UploadRoute.ExpiresAt | backend/routes/upload.js:53 | the expiry lies exactly `hours * 3600000` ms after `now`, hence strictly after it |
| UploadRoute.EncryptedPath | backend/routes/upload.js:35 | the path is the upload directory, `/`, the file id, then `.enc` |
| UploadRoute.EncryptedPathInjective | backend/routes/upload.js:35 | two ids give the same encrypted path in one directory only if they are equal |
| UploadRoute.NewRecord | backend/routes/upload.js:44-55 | the record carries the file id, the file's name, type and size, the `.enc` path, the key and iv given, `createdAt = now`, the counter `QuotaOf(maxDownloads)` (positive) and the expiry `ExpiresAt(now, expiryHours)` (after `now`) |
| UploadRoute.Upload | backend/routes/upload.js:24-72 | no file: 400 and nothing changes; failed encryption: 500, no record saved, at most a partial output file appears; success: the encrypted file appears, the raw upload is unlinked, the record is saved under `fileId`, and the reply repeats the id, link, expiry and counter of the stored record; other ids are never touched |
| UploadRoute.UploadPreservesConsistent | backend/routes/upload.js:44-56 | uploading keeps records keyed by id with positive counters |
| Lifecycle.UploadThenDownload | backend/routes/upload.js:35-56 | a successful upload is downloadable, with the saved record, at any instant up to its expiry |
| Lifecycle.UploadServesQuota | backend/routes/upload.js:52 | for any `maxDownloads`, an upload serves exactly `Granted(QuotaOf(maxDownloads))` back-to-back downloads at instants up to its expiry, after which record and file are gone and the id is not found |
| Lifecycle.UploadServesExactlyMax | backend/routes/upload.js:52 | with whole `maxDownloads = k` that number is exactly `k` |
| Lifecycle.FractionalQuota | backend/routes/upload.js:52 | fractional quotas are kept: 1.5 grants two downloads, 0.5 grants one |
| Lifecycle.ExpiryIsFinal | backend/routes/download.js:18-21 | a request after expiry is answered expired, deletes the file, and every later request for the id is not found |
| Lifecycle.ExhaustedUnreachable | backend/routes/download.js:24-27 | in a consistent store the exhausted answer never occurs and a full request keeps the store consistent |
| Lifecycle.SweptStoreNeverGone | backend/utils/filestore.js:19-27 | right after a sweep no request at the same instant is answered expired or exhausted, and exactly the swept ids are not found |

## Left out

- The AES-256-CTR encryption and decryption (`backend/utils/crypto.js`): the outcome of `encryptFile` is a parameter of `Upload`; decryption is only the stream's `end` or `error` event.
- Key, IV and uuid generation: the id, key and iv are parameters; the id is not checked for freshness, exactly as in the source (a repeated id overwrites).
- Express and multer wiring: HTTP statuses are the reply datatypes; headers, `pipe`, `res.headersSent` and the multer 100 MB limit are not modelled (an oversize upload never reaches the handler).
- `backend/server.js` and `frontend/src/App.jsx`: bootstrap and UI, not part of this model.
- The 10-minute `setInterval(...).unref()` timer: the sweep is a function of an explicit `now`.
- Concurrency: the source mutates the shared record object in the `end` handler, so overlapping downloads can both pass the checks before either decrements. The model runs requests one at a time.
- DownloadRoute.Finish: the record is a value, not the object the store shares; applied to the record as read at request time it does not see the decrement of an overlapping download of the same record, which in the source lowers the same object (two overlapping downloads at counter 2 end at 0 in the source). `Finish` is faithful only when given the record's value at the moment `end` fires.
- JavaScript `Number()` parsing and IEEE doubles: form fields arrive already parsed as `Option<real>`, with `None` for absent, empty, NaN or infinite values; arithmetic is exact.
- `path.join` normalisation: paths are joined with a plain `/`.
- UploadRoute.Upload: the source reads the clock twice (expiry and `createdAt`); the model uses one reading for both.
- UploadRoute.Upload: `BASE_URL` comes from the environment with a localhost default; the model takes the base URL as a parameter.
- Logging (`console.error`) is not modelled.
