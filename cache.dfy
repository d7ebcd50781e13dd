// The response cache: the directory "cache/" of files named after URL
// hashes, read, expired and written by handle_connection, and the
// expiration time chosen in main.

module Cache {
  import opened Wrappers
  import opened CStrings
  import opened Fnv

  /** A cached response file: its bytes and its modification time (st_mtime). */
  datatype Entry = Entry(bytes: string, mtime: int)

  /** The cache directory: file name to file. */
  type Files = map<string, Entry>

  /** current_time - cache_stat.st_mtime < expiration_time_s */
  predicate Fresh(e: Entry, now: int, expiration: int) {
    now - e.mtime < expiration
  }

  /** What a lookup serves, if anything: the bytes of a fresh file. */
  function Served(files: Files, path: string, now: int, expiration: int): (r: Option<string>)
    ensures r.Some? <==> path in files && Fresh(files[path], now, expiration)
    ensures r.Some? ==> r.value == files[path].bytes
  {
    if path in files && Fresh(files[path], now, expiration) then Some(files[path].bytes) else None
  }

  /** The directory after a lookup: an expired file is removed, nothing else changes. */
  function AfterLookup(files: Files, path: string, now: int, expiration: int): (r: Files)
    ensures path in r <==> path in files && Fresh(files[path], now, expiration)
    ensures path in r ==> r[path] == files[path]
    ensures forall p :: p != path ==> (p in r <==> p in files) && (p in r ==> r[p] == files[p])
  {
    if path in files && !Fresh(files[path], now, expiration) then files - {path} else files
  }

  /**
   * The directory after fopen(filepath, "wb") and an fwrite that wrote
   * `written` of the bytes: the new file, or no file when the write was short.
   */
  function AfterStore(files: Files, path: string, bytes: string, now: int, written: nat): (r: Files)
    ensures path in r <==> written == |bytes|
    ensures path in r ==> r[path] == Entry(bytes, now)
    ensures forall p :: p != path ==> (p in r <==> p in files) && (p in r ==> r[p] == files[p])
  {
    if written == |bytes| then files[path := Entry(bytes, now)] else files - {path}
  }

  // ---- properties of the cache ----

  /** An existing expired file is a miss and is deleted; every other file stays. */
  lemma ExpiredIsRemoved(files: Files, path: string, now: int, expiration: int)
    requires path in files && !Fresh(files[path], now, expiration)
    ensures Served(files, path, now, expiration) == None
    ensures path !in AfterLookup(files, path, now, expiration)
    ensures forall p :: p != path ==> (p in files <==> p in AfterLookup(files, path, now, expiration))
    ensures forall p :: p != path && p in files ==> AfterLookup(files, path, now, expiration)[p] == files[p]
  {
  }

  /** A missing file is a miss and changes nothing. */
  lemma MissingIsUnchanged(files: Files, path: string, now: int, expiration: int)
    requires path !in files
    ensures Served(files, path, now, expiration) == None
    ensures AfterLookup(files, path, now, expiration) == files
  {
  }

  /** A hit changes nothing, so an immediate second lookup is a hit with the same bytes. */
  lemma HitIsStable(files: Files, path: string, now: int, expiration: int)
    requires Served(files, path, now, expiration).Some?
    ensures AfterLookup(files, path, now, expiration) == files
    ensures Served(AfterLookup(files, path, now, expiration), path, now, expiration) == Served(files, path, now, expiration)
  {
  }

  /** A lookup is idempotent: doing it twice at the same time leaves what doing it once leaves. */
  lemma LookupIdempotent(files: Files, path: string, now: int, expiration: int)
    ensures var once := AfterLookup(files, path, now, expiration);
      AfterLookup(once, path, now, expiration) == once
      && Served(once, path, now, expiration) == Served(files, path, now, expiration)
  {
  }

  /**
   * A complete store is served back by every lookup before it expires:
   * within `expiration` seconds of the write.
   */
  lemma StoreThenLookup(files: Files, path: string, bytes: string, stored: int, now: int, expiration: int)
    requires now - stored < expiration
    ensures var after := AfterStore(files, path, bytes, stored, |bytes|);
      Served(after, path, now, expiration) == Some(bytes)
      && AfterLookup(after, path, now, expiration) == after
  {
  }

  /** A short write leaves no file, so the next lookup is a miss. */
  lemma ShortWriteIsMiss(files: Files, path: string, bytes: string, stored: int, written: nat, now: int, expiration: int)
    requires written != |bytes|
    ensures path !in AfterStore(files, path, bytes, stored, written)
    ensures Served(AfterStore(files, path, bytes, stored, written), path, now, expiration) == None
  {
  }

  /** Lookups and stores touch only their own file. */
  lemma OtherFilesUnchanged(files: Files, path: string, other: string, bytes: string, stored: int, written: nat, now: int, expiration: int)
    requires other != path
    ensures var a := AfterStore(files, path, bytes, stored, written);
      (other in a <==> other in files) && (other in files ==> a[other] == files[other])
    ensures var b := AfterLookup(files, path, now, expiration);
      (other in b <==> other in files) && (other in files ==> b[other] == files[other])
  {
  }

  // ---- the directory as mutable state ----

  /** The cache directory, updated in place by lookups (remove) and stores (fopen "wb", fwrite, remove). */
  class Directory {
    var files: Files

    /** handle_connection only ever names files "cache/XXXXXXXX". */
    ghost predicate Valid()
      reads this
    {
      forall p :: p in files ==> IsCachePath(p)
    }

    constructor ()
      ensures Valid() && files == map[]
    {
      files := map[];
    }

    /**
     * stat, the freshness test, then either the file's bytes or remove(filepath).
     * Without a file, or with an expired one, the result is None.
     */
    method Lookup(path: string, now: int, expiration: int) returns (hit: Option<string>)
      requires Valid()
      modifies this
      ensures Valid()
      ensures hit.Some? ==> IsCachePath(path)
      ensures hit.Some? <==> path in old(files) && Fresh(old(files)[path], now, expiration)
      ensures hit.Some? ==> hit.value == old(files)[path].bytes && files == old(files)
      ensures hit.None? ==> files == old(files) - {path}
      ensures hit == Served(old(files), path, now, expiration)
      ensures files == AfterLookup(old(files), path, now, expiration)
    {
      if path in files {
        var entry := files[path];
        if now - entry.mtime < expiration {
          hit := Some(entry.bytes);
        } else {
          files := files - {path};
          hit := None;
        }
      } else {
        hit := None;
      }
    }

    /** fopen(filepath, "wb"), fwrite of the bytes, and remove(filepath) when fewer were written. */
    method Store(path: string, bytes: string, now: int, written: nat)
      requires Valid() && IsCachePath(path)
      modifies this
      ensures Valid()
      ensures written == |bytes| ==> files == old(files)[path := Entry(bytes, now)]
      ensures written != |bytes| ==> files == old(files) - {path}
      ensures files == AfterStore(old(files), path, bytes, now, written)
    {
      files := files[path := Entry(bytes, now)];
      if written != |bytes| {
        files := files - {path};
      }
    }
  }

  // ---- expiration_time_s ----

  const DefaultExpiration := 60

  /** expiration_time_s = atoi(argv[2]), with 0 (no number, or "0") replaced by 60. */
  function Expiration(arg: string): (e: int)
    ensures e != 0
    ensures Atoi(arg) == 0 ==> e == DefaultExpiration
    ensures Atoi(arg) != 0 ==> e == Atoi(arg)
  {
    var e := Atoi(arg);
    if e == 0 then DefaultExpiration else e
  }

  /** An argument without digits, such as "abc" or "", gives the 60-second default. */
  lemma ExpirationWithoutDigits(arg: string)
    requires SkipSpaces(arg) == [] || (!IsDigit(SkipSpaces(arg)[0]) && SkipSpaces(arg)[0] != '+' && SkipSpaces(arg)[0] != '-')
    ensures Expiration(arg) == DefaultExpiration
  {
  }

  /** A decimal argument is taken as it is, unless it is 0. */
  lemma ExpirationOfDecimal(n: nat)
    requires n > 0
    ensures Expiration(Decimal(n)) == n
  {
    AtoiDecimal(n, []);
    assert Decimal(n) + [] == Decimal(n);
  }
}
