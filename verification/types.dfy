/** Shared vocabulary of the file-sharing backend: the metadata record kept per
    uploaded file, the state it lives in, and the small wrappers the route
    handlers return. */
module Types {

  datatype Option<+T> = None | Some(value: T)

  /** Record ids are the uuid strings handed out at upload time. */
  type Id = string

  /** A file-system path, compared as a plain string (no normalisation). */
  type Path = string

  /** One stored upload. `downloadsRemaining` and `expiresAt` are JavaScript
      numbers in the source and may be fractional (a client may send
      maxDownloads=1.5 or expiryHours=0.5), so they are reals here; the clock
      (`Date.now()`) is an integer number of milliseconds. `key` and `iv` are
      the base64 / hex encodings the record stores. */
  datatype Record = Record(
    id: Id,
    originalName: string,
    mimeType: string,
    size: int,
    encryptedPath: Path,
    key: string,
    iv: string,
    downloadsRemaining: real,
    expiresAt: real,
    createdAt: int
  )

  /** The process-wide store (`Map` from id to record) together with the set
      of paths that currently exist on disk. */
  datatype State = State(records: map<Id, Record>, files: set<Path>)

  /** What a handler answers together with the state it leaves behind. */
  datatype Step<+T> = Step(reply: T, st: State)

  /** Every stored record sits under its own id. `save` keys by `meta.id`,
      so nothing in the source can break this. */
  ghost predicate WellKeyed(m: map<Id, Record>)
  {
    forall k :: k in m ==> m[k].id == k
  }

  /** Besides being well keyed, no stored record has a used-up counter:
      the upload defaults keep new counters positive and the stream-end
      handler only re-saves a counter that is still positive. */
  ghost predicate Consistent(st: State)
  {
    && WellKeyed(st.records)
    && forall k :: k in st.records ==> st.records[k].downloadsRemaining > 0.0
  }
}
