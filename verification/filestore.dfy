/** The in-memory record store (`save`, `get`, `remove`) and the periodic
    sweeper that evicts expired or used-up records together with their
    encrypted files. */
module FileStore {
  import opened Types

  /** `save(meta)`: store `meta` under its own id, replacing whatever was there. */
  function Save(m: map<Id, Record>, meta: Record): (r: map<Id, Record>)
    ensures Get(r, meta.id) == Some(meta)
    ensures r.Keys == m.Keys + {meta.id}
    ensures forall k :: k != meta.id ==> Get(r, k) == Get(m, k)
  {
    m[meta.id := meta]
  }

  /** `get(id)`: the stored record, or nothing (`undefined`). */
  function Get(m: map<Id, Record>, id: Id): (r: Option<Record>)
    ensures r.Some? <==> id in m
    ensures r.Some? ==> r.value == m[id]
  {
    if id in m then Some(m[id]) else None
  }

  /** `remove(id)`: delete the entry if present; a missing id is no error. */
  function Remove(m: map<Id, Record>, id: Id): (r: map<Id, Record>)
    ensures Get(r, id) == None
    ensures r.Keys == m.Keys - {id}
    ensures forall k :: k != id ==> Get(r, k) == Get(m, k)
  {
    m - {id}
  }

  /** A second `save` under the same id replaces the first: the map never
      holds two records for one id. */
  lemma SaveOverwrites(m: map<Id, Record>, a: Record, b: Record)
    requires a.id == b.id
    ensures Save(Save(m, a), b) == Save(m, b)
    ensures |Save(Save(m, a), b)| <= |m| + 1
  {
  }

  /** `remove` is idempotent. */
  lemma RemoveIdempotent(m: map<Id, Record>, id: Id)
    ensures Remove(Remove(m, id), id) == Remove(m, id)
  {
  }

  /** Saving keeps every record under its own id. */
  lemma SavePreservesWellKeyed(m: map<Id, Record>, meta: Record)
    requires WellKeyed(m)
    ensures WellKeyed(Save(m, meta))
  {
  }

  /** The sweeper's eviction test: strictly past the expiry instant, or no
      downloads left. */
  predicate Evictable(meta: Record, now: int)
  {
    now as real > meta.expiresAt || meta.downloadsRemaining <= 0.0
  }

  /** Encrypted paths of the evictable records among the ids in `ids`. */
  function EvictedPaths(m: map<Id, Record>, ids: set<Id>, now: int): (ps: set<Path>)
    ensures forall k :: k in ids && k in m && Evictable(m[k], now) ==> m[k].encryptedPath in ps
    ensures forall p :: p in ps ==> exists k :: k in ids && k in m && Evictable(m[k], now) && m[k].encryptedPath == p
  {
    set k | k in ids && k in m && Evictable(m[k], now) :: m[k].encryptedPath
  }

  /** The outcome of one sweep, stated as a whole: every evictable record is
      gone together with its encrypted file; everything else is untouched.
      `unlinkSync` failures are swallowed, so a path is gone afterwards
      whether or not it existed. */
  function Sweep(st: State, now: int): (r: State)
    ensures forall k :: k in r.records <==> k in st.records && !Evictable(st.records[k], now)
    ensures forall k :: k in r.records ==> r.records[k] == st.records[k]
    ensures forall k :: k in r.records ==> now as real <= r.records[k].expiresAt && r.records[k].downloadsRemaining > 0.0
    ensures forall k :: k in st.records && Evictable(st.records[k], now) ==> st.records[k].encryptedPath !in r.files
    ensures r.files <= st.files
    ensures forall p :: p in st.files && p !in r.files ==>
              exists k :: k in st.records && Evictable(st.records[k], now) && st.records[k].encryptedPath == p
  {
    State(map k | k in st.records && !Evictable(st.records[k], now) :: st.records[k],
          st.files - EvictedPaths(st.records, st.records.Keys, now))
  }

  /** `cleanupExpired()`: walk the entries one by one, unlinking the file and
      deleting the entry of each evictable record. The walk reaches the same
      state as the whole-map description `Sweep`, whatever order it visits
      the entries in. */
  method CleanupExpired(st: State, now: int) returns (r: State)
    ensures r == Sweep(st, now)
  {
    var records := st.records;
    var files := st.files;
    var pending := st.records.Keys;
    while pending != {}
      invariant pending <= st.records.Keys
      invariant records.Keys <= st.records.Keys
      invariant forall k :: k in pending ==> k in records
      invariant forall k :: k in records ==> records[k] == st.records[k]
      invariant forall k :: k in st.records && k !in pending ==> (k in records <==> !Evictable(st.records[k], now))
      invariant files == st.files - EvictedPaths(st.records, st.records.Keys - pending, now)
      decreases pending
    {
      var id :| id in pending;
      var meta := records[id];
      assert st.records.Keys - (pending - {id}) == (st.records.Keys - pending) + {id};
      if Evictable(meta, now) {
        files := files - {meta.encryptedPath};
        records := records - {id};
      }
      pending := pending - {id};
    }
    assert st.records.Keys - pending == st.records.Keys;
    r := State(records, files);
    assert r.records == Sweep(st, now).records;
  }

  /** Sweeping twice at the same instant changes nothing the first sweep did
      not already change. */
  lemma SweepIdempotent(st: State, now: int)
    ensures Sweep(Sweep(st, now), now) == Sweep(st, now)
  {
  }

  /** The sweep keeps every record under its own id and keeps counters positive. */
  lemma SweepPreservesConsistent(st: State, now: int)
    requires Consistent(st)
    ensures Consistent(Sweep(st, now))
  {
  }

  /** In a consistent store no counter is used up, so the sweep evicts
      exactly the expired records: the count clause never fires. */
  lemma SweepEvictsOnlyExpired(st: State, now: int)
    requires Consistent(st)
    ensures forall k :: k in st.records ==> (k in Sweep(st, now).records <==> now as real <= st.records[k].expiresAt)
  {
  }
}
