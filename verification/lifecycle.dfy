/** Properties of a record's whole life, from upload through downloads to
    eviction, combining the upload route, the download route and the store. */
module Lifecycle {
  import opened Types
  import opened FileStore
  import opened DownloadRoute
  import opened UploadRoute

  /** A freshly uploaded file is downloadable at any instant up to and
      including its expiry, provided the raw temporary file did not have the
      encrypted file's name (otherwise unlinking it would remove the
      ciphertext). */
  lemma UploadThenDownload(st: State, f: UploadedFile, maxDownloads: Option<real>, expiryHours: Option<real>,
                           fileId: Id, key: string, iv: string, now: int, baseUrl: string, later: int)
    requires f.tempName != fileId + ".enc"
    requires later as real <= ExpiresAt(now, expiryHours)
    ensures var up := Upload(st, Some(f), maxDownloads, expiryHours, fileId, key, iv, now, baseUrl, Encrypted);
            var meta := NewRecord(f, maxDownloads, expiryHours, fileId, key, iv, now);
            Handle(up.st, fileId, later) == Step(Streaming(Sanitize(f.originalName), meta), up.st)
  {
  }

  /** Whatever `maxDownloads` the client sent, the upload serves exactly
      `Granted(QuotaOf(maxDownloads))` back-to-back downloads at any instants
      up to the expiry; after them the record and its encrypted file are gone
      and a request at any later instant gets 404. */
  lemma UploadServesQuota(st: State, f: UploadedFile, maxDownloads: Option<real>, expiryHours: Option<real>,
                          fileId: Id, key: string, iv: string, now: int, baseUrl: string,
                          times: seq<int>, later: int)
    requires f.tempName != fileId + ".enc"
    requires |times| == Granted(QuotaOf(maxDownloads))
    requires forall k :: 0 <= k < |times| ==> times[k] as real <= ExpiresAt(now, expiryHours)
    ensures var up := Upload(st, Some(f), maxDownloads, expiryHours, fileId, key, iv, now, baseUrl, Encrypted);
            var r := RetrieveTimes(up.st, fileId, times);
            && (forall i :: 0 <= i < |times| ==> r.reply[i].Streaming?)
            && fileId !in r.st.records
            && EncryptedPath(f.dir, fileId) !in r.st.files
            && Handle(r.st, fileId, later).reply == NotFound
  {
    var up := Upload(st, Some(f), maxDownloads, expiryHours, fileId, key, iv, now, baseUrl, Encrypted);
    UploadThenDownload(st, f, maxDownloads, expiryHours, fileId, key, iv, now, baseUrl, now);
    QuotaExact(up.st, fileId, times, later);
  }

  /** With a whole `maxDownloads = k >= 1` that number is exactly `k`. */
  lemma UploadServesExactlyMax(st: State, f: UploadedFile, k: nat, expiryHours: Option<real>,
                               fileId: Id, key: string, iv: string, now: int, baseUrl: string,
                               times: seq<int>, later: int)
    requires k >= 1 && |times| == k
    requires f.tempName != fileId + ".enc"
    requires forall j :: 0 <= j < k ==> times[j] as real <= ExpiresAt(now, expiryHours)
    ensures var up := Upload(st, Some(f), Some(k as real), expiryHours, fileId, key, iv, now, baseUrl, Encrypted);
            var r := RetrieveTimes(up.st, fileId, times);
            && (forall i :: 0 <= i < k ==> r.reply[i].Streaming?)
            && fileId !in r.st.records
            && Handle(r.st, fileId, later).reply == NotFound
  {
    assert Granted(QuotaOf(Some(k as real))) == k;
    UploadServesQuota(st, f, Some(k as real), expiryHours, fileId, key, iv, now, baseUrl, times, later);
  }

  /** A counter is never rounded: `maxDownloads = 1.5` is accepted as is and
      grants two downloads, `0.5` grants one; by `UploadServesQuota` these
      are the numbers of downloads such uploads serve before answering 404. */
  lemma FractionalQuota()
    ensures QuotaOf(Some(1.5)) == 1.5 && Granted(QuotaOf(Some(1.5))) == 2
    ensures QuotaOf(Some(0.5)) == 0.5 && Granted(QuotaOf(Some(0.5))) == 1
  {
  }

  /** Once the clock has passed a record's expiry, a download request is
      answered 410 Expired and evicts record and file, so every later
      request for the same id gets 404. */
  lemma ExpiryIsFinal(st: State, id: Id, now: int, later: int)
    requires id in st.records && st.records[id].id == id
    requires now as real > st.records[id].expiresAt
    ensures var h := Handle(st, id, now);
            && h.reply == Expired
            && st.records[id].encryptedPath !in h.st.files
            && Handle(h.st, id, later).reply == NotFound
  {
  }

  /** Every handler keeps the store consistent, so in any sequential run that
      starts from an empty store the 410 Exhausted answer cannot occur and the
      sweeper's count clause never fires. */
  lemma ExhaustedUnreachable(st: State, id: Id, now: int)
    requires Consistent(st)
    ensures Handle(st, id, now).reply != Exhausted
    ensures Consistent(Handle(st, id, now).st)
    ensures forall ev :: Consistent(Retrieve(st, id, now, ev).st)
  {
  }

  /** Right after a sweep, a request at the same instant is never answered
      410: every surviving record is unexpired and has downloads left. */
  lemma SweptStoreNeverGone(st: State, id: Id, now: int)
    ensures var h := Handle(Sweep(st, now), id, now).reply;
            !h.Expired? && !h.Exhausted?
    ensures Handle(Sweep(st, now), id, now).reply.NotFound? <==>
              (id !in st.records || Evictable(st.records[id], now))
  {
  }
}
