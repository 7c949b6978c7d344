/** The `GET /download/:id` handler: the fixed sequence of checks before
    streaming, the counter update on stream end, `cleanup` and
    `sanitizeFilename`. */
module DownloadRoute {
  import opened Types
  import opened FileStore

  /** What the handler answers before any byte is streamed. The rejections
      carry status 404 (`NotFound`, `FileMissing`) or 410 (`Expired`,
      `Exhausted`); `Streaming` is the 200 response whose
      Content-Disposition names `filename`, streaming the record `meta` as it
      was read from the store. */
  datatype Outcome =
    | NotFound
    | Expired
    | Exhausted
    | FileMissing
    | Streaming(filename: string, meta: Record)
  {
    function Status(): int
    {
      match this
      case NotFound => 404
      case Expired => 410
      case Exhausted => 410
      case FileMissing => 404
      case Streaming(_, _) => 200
    }
  }

  /** How the decryption stream finished. */
  datatype StreamEvent = End | Error

  /** Characters the header filename must not contain. */
  predicate Unsafe(c: char)
  {
    c == '/' || c == '\\' || c == '?' || c == '%' || c == '*' || c == ':' || c == '|' || c == '"' || c == '<' || c == '>'
  }

  /** `sanitizeFilename(name)`: every unsafe character becomes `_`, every
      other character is kept in place. */
  function Sanitize(name: string): (r: string)
    ensures |r| == |name|
    ensures forall i :: 0 <= i < |name| && Unsafe(name[i]) ==> r[i] == '_'
    ensures forall i :: 0 <= i < |name| && !Unsafe(name[i]) ==> r[i] == name[i]
    ensures forall i :: 0 <= i < |r| ==> !Unsafe(r[i])
    decreases |name|
  {
    if |name| == 0 then []
    else [if Unsafe(name[0]) then '_' else name[0]] + Sanitize(name[1..])
  }

  /** A name without unsafe characters comes back unchanged; in particular
      sanitizing is idempotent. */
  lemma SanitizeKeepsSafe(name: string)
    requires forall i :: 0 <= i < |name| ==> !Unsafe(name[i])
    ensures Sanitize(name) == name
  {
  }

  lemma SanitizeIdempotent(name: string)
    ensures Sanitize(Sanitize(name)) == Sanitize(name)
  {
  }

  /** `cleanup(meta)`: unlink the encrypted file (failures swallowed) and
      remove the entry stored under `meta.id`. */
  function Cleanup(st: State, meta: Record): (r: State)
    ensures meta.id !in r.records && meta.encryptedPath !in r.files
    ensures r.files == st.files - {meta.encryptedPath}
    ensures forall k :: k != meta.id ==> Get(r.records, k) == Get(st.records, k)
  {
    State(Remove(st.records, meta.id), st.files - {meta.encryptedPath})
  }

  /** The request up to the start of streaming. Checks run in a fixed order:
      unknown id, strictly past expiry, no downloads left, encrypted file
      missing. Expiry and exhaustion evict record and file; a missing file
      only drops the entry; nothing changes when streaming starts. */
  function Handle(st: State, id: Id, now: int): (r: Step<Outcome>)
    ensures r.reply.NotFound? <==> id !in st.records
    ensures r.reply.Expired? <==> id in st.records && now as real > st.records[id].expiresAt
    ensures r.reply.Exhausted? <==>
              id in st.records && now as real <= st.records[id].expiresAt && st.records[id].downloadsRemaining <= 0.0
    ensures r.reply.FileMissing? <==>
              id in st.records && !Evictable(st.records[id], now) && st.records[id].encryptedPath !in st.files
    ensures r.reply.Streaming? <==>
              id in st.records && !Evictable(st.records[id], now) && st.records[id].encryptedPath in st.files
    ensures r.reply.NotFound? || r.reply.Streaming? ==> r.st == st
    ensures r.reply.Expired? || r.reply.Exhausted? ==>
              r.st == Cleanup(st, st.records[id])
    ensures r.reply.FileMissing? ==> r.st.records == st.records - {id} && r.st.files == st.files
    ensures r.reply.Streaming? ==>
              r.reply.meta == st.records[id] && r.reply.filename == Sanitize(st.records[id].originalName)
    ensures r.reply.Status() == 200 <==>
              id in st.records && !Evictable(st.records[id], now) && st.records[id].encryptedPath in st.files
    ensures r.reply.Status() == 410 <==> id in st.records && Evictable(st.records[id], now)
    ensures r.reply.Status() == 404 <==>
              id !in st.records || (!Evictable(st.records[id], now) && st.records[id].encryptedPath !in st.files)
  {
    match Get(st.records, id)
    case None => Step(NotFound, st)
    case Some(meta) =>
      if now as real > meta.expiresAt then Step(Expired, Cleanup(st, meta))
      else if meta.downloadsRemaining <= 0.0 then Step(Exhausted, Cleanup(st, meta))
      else if !(meta.encryptedPath in st.files) then Step(FileMissing, st.(records := Remove(st.records, id)))
      else Step(Streaming(Sanitize(meta.originalName), meta), st)
  }

  /** The stream's `end` / `error` handlers. `meta` is the value the record
      has when the stream finishes. On `end` its counter drops by one; a
      used-up record is cleaned up, otherwise it is saved back under its id
      even if it was removed from the store in the meantime. An `error` only
      answers 500 and changes nothing. */
  function Finish(st: State, meta: Record, ev: StreamEvent): (r: State)
    ensures ev == Error ==> r == st
    ensures ev == End && meta.downloadsRemaining - 1.0 <= 0.0 ==>
              meta.id !in r.records && r.files == st.files - {meta.encryptedPath}
    ensures ev == End && meta.downloadsRemaining - 1.0 > 0.0 ==>
              Get(r.records, meta.id) == Some(meta.(downloadsRemaining := meta.downloadsRemaining - 1.0))
              && r.files == st.files
    ensures forall k :: k != meta.id ==> Get(r.records, k) == Get(st.records, k)
  {
    match ev
    case Error => st
    case End =>
      var updated := meta.(downloadsRemaining := meta.downloadsRemaining - 1.0);
      if updated.downloadsRemaining <= 0.0 then Cleanup(st, updated)
      else st.(records := Save(st.records, updated))
  }

  /** One whole download with nothing interleaved: the checks, then, if
      streaming started, the stream's finishing handler applied to the record
      read by the checks (which is still its value, since nothing ran in
      between). */
  function Retrieve(st: State, id: Id, now: int, ev: StreamEvent): (r: Step<Outcome>)
    ensures r.reply == Handle(st, id, now).reply
    ensures !r.reply.Streaming? ==> r.st == Handle(st, id, now).st
    ensures r.reply.Streaming? ==> r.st == Finish(st, st.records[id], ev)
  {
    var h := Handle(st, id, now);
    match h.reply
    case Streaming(_, meta) => Step(h.reply, Finish(h.st, meta, ev))
    case _ => h
  }

  /** Number of downloads a counter starting at `q` grants when every
      download decrements it by one: the ceiling of `q`, since fractional
      counters are not rounded anywhere. */
  function Granted(q: real): (n: nat)
    ensures q <= 0.0 ==> n == 0
    ensures q > 0.0 ==> n as real >= q && (n as real) - 1.0 < q
    decreases if q <= 0.0 then 0 else q.Floor + 1
  {
    if q <= 0.0 then 0 else 1 + Granted(q - 1.0)
  }

  /** Successive complete downloads of `id`, the k-th one at instant `times[k]`. */
  function RetrieveTimes(st: State, id: Id, times: seq<int>): (r: Step<seq<Outcome>>)
    ensures |r.reply| == |times|
    decreases |times|
  {
    if |times| == 0 then Step([], st)
    else
      var first := Retrieve(st, id, times[0], End);
      var rest := RetrieveTimes(first.st, id, times[1..]);
      Step([first.reply] + rest.reply, rest.st)
  }

  /** Quota exactness for back-to-back downloads: a record whose counter is
      `q > 0` serves exactly `Granted(q)` downloads at any instants up to its
      expiry, the i-th streaming the file under its sanitized name with
      counter `q - i`; the last one removes the record and its encrypted
      file, so a request at any later instant gets 404 Not Found (not the 410
      Exhausted answer, which such a run never reaches). */
  lemma {:induction false} QuotaExact(st: State, id: Id, times: seq<int>, later: int)
    requires id in st.records && st.records[id].id == id
    requires st.records[id].downloadsRemaining > 0.0
    requires st.records[id].encryptedPath in st.files
    requires |times| == Granted(st.records[id].downloadsRemaining)
    requires forall k :: 0 <= k < |times| ==> times[k] as real <= st.records[id].expiresAt
    ensures var meta := st.records[id];
            var r := RetrieveTimes(st, id, times);
            && (forall i :: 0 <= i < |r.reply| ==>
                  r.reply[i] == Streaming(Sanitize(meta.originalName), meta.(downloadsRemaining := meta.downloadsRemaining - i as real)))
            && id !in r.st.records
            && meta.encryptedPath !in r.st.files
            && Retrieve(r.st, id, later, End).reply == NotFound
    decreases |times|
  {
    var meta := st.records[id];
    var q := meta.downloadsRemaining;
    var first := Retrieve(st, id, times[0], End);
    var updated := meta.(downloadsRemaining := q - 1.0);
    assert first.reply == Streaming(Sanitize(meta.originalName), meta);
    if q - 1.0 <= 0.0 {
      assert |times| == 1;
      assert RetrieveTimes(first.st, id, times[1..]) == Step([], first.st);
      assert [first.reply] + [] == [first.reply];
    } else {
      assert first.st.records[id] == updated;
      var tail := times[1..];
      assert forall k :: 0 <= k < |tail| ==> tail[k] == times[k + 1];
      QuotaExact(first.st, id, tail, later);
      var rest := RetrieveTimes(first.st, id, tail);
      assert RetrieveTimes(st, id, times) == Step([first.reply] + rest.reply, rest.st);
      forall i | 0 <= i < 1 + |rest.reply|
        ensures ([first.reply] + rest.reply)[i]
             == Streaming(Sanitize(meta.originalName), meta.(downloadsRemaining := q - i as real))
      {
        if i > 0 {
          assert ([first.reply] + rest.reply)[i] == rest.reply[i - 1];
          assert updated.(downloadsRemaining := q - 1.0 - (i - 1) as real) == meta.(downloadsRemaining := q - i as real);
        }
      }
    }
  }

  /** Expiry is checked before the counter: an expired record with no
      downloads left is reported as expired. */
  lemma ExpiredBeforeExhausted(st: State, id: Id, now: int)
    requires id in st.records
    requires now as real > st.records[id].expiresAt && st.records[id].downloadsRemaining <= 0.0
    ensures Handle(st, id, now).reply == Expired
  {
  }

  /** Neither the checks nor the finishing handlers break consistency. */
  lemma HandlePreservesConsistent(st: State, id: Id, now: int)
    requires Consistent(st)
    ensures Consistent(Handle(st, id, now).st)
  {
  }

  lemma FinishPreservesConsistent(st: State, meta: Record, ev: StreamEvent)
    requires Consistent(st)
    ensures Consistent(Finish(st, meta, ev))
  {
  }
}
