/** The persistent digest cache of `FileScanner`: a map from the text key
    `path ++ ":" ++ mtime` to a content digest. Entries are added on a miss
    and never removed or overwritten; a changed mtime simply produces a new
    key, leaving the old entry orphaned. */
module HashCache {
  import opened Wrappers
  import Text
  import PathExt

  type Digest = string
  type Cache = map<string, Digest>

  /** The key under which the digest of `path`, modified at `mtime`, is stored. */
  function CacheKey(path: string, mtime: int): string {
    path + ":" + Text.IntToText(mtime)
  }

  /** Splits a key at its last colon into the path and the mtime text. */
  function ParseKey(k: string): Option<(string, string)> {
    var i := PathExt.RFind(k, ':');
    if i < 0 then None else Some((k[..i], k[i + 1..]))
  }

  /** A key splits back into its path and mtime text, even when the path itself
      holds colons, because the rendered mtime never does. */
  lemma KeyRoundTrip(path: string, mtime: int)
    ensures ParseKey(CacheKey(path, mtime)) == Some((path, Text.IntToText(mtime)))
  {
    var t := Text.IntToText(mtime);
    var k := CacheKey(path, mtime);
    PathExt.RFindAppend(path, ":" + t, ':');
    assert forall i :: 0 <= i < |t| ==> t[i] != ':';
    PathExt.RFindAppend(":", t, ':');
    assert PathExt.RFind(":", ':') == 0;
    assert k == path + (":" + t);
    assert k[..|path|] == path;
    assert k[|path| + 1..] == t;
  }

  /** Different (path, mtime) pairs never share a key. */
  lemma CacheKeyInjective(p1: string, m1: int, p2: string, m2: int)
    requires CacheKey(p1, m1) == CacheKey(p2, m2)
    ensures p1 == p2 && m1 == m2
  {
    KeyRoundTrip(p1, m1);
    KeyRoundTrip(p2, m2);
    Text.IntToTextInjective(m1, m2);
  }

  /** `later` keeps every entry of `earlier` with the same digest. */
  ghost predicate Grows(earlier: Cache, later: Cache) {
    forall k :: k in earlier ==> k in later && later[k] == earlier[k]
  }

  /** What the file system answers while one file is hashed: its mtime
      (`os.path.getmtime`, None when it raises) and the digest of its content
      as of that mtime (None when opening or reading raises). */
  datatype Disk = Disk(mtimeOf: string -> Option<int>, digestOf: (string, int) -> Option<Digest>)

  datatype Outcome = Hit(digest: Digest) | Computed(digest: Digest) | Failed

  datatype Hashed = Hashed(outcome: Outcome, cache: Cache) {
    /** The value `calculate_file_hash` returns. */
    function Result(): Option<Digest> {
      if outcome.Failed? then None else Some(outcome.digest)
    }
  }

  /** `calculate_file_hash`: a hit returns the stored digest without reading
      the file; a miss reads the file and stores the digest under the key;
      any failure returns None and leaves the cache as it was. */
  function HashFile(cache: Cache, disk: Disk, path: string): (r: Hashed)
    ensures Grows(cache, r.cache)
    ensures r.outcome.Failed? ==> r.cache == cache
    ensures r.outcome.Hit? ==>
      && disk.mtimeOf(path).Some?
      && CacheKey(path, disk.mtimeOf(path).value) in cache
      && r.outcome.digest == cache[CacheKey(path, disk.mtimeOf(path).value)]
      && r.cache == cache
    ensures r.outcome.Computed? ==>
      && disk.mtimeOf(path).Some?
      && CacheKey(path, disk.mtimeOf(path).value) !in cache
      && disk.digestOf(path, disk.mtimeOf(path).value) == Some(r.outcome.digest)
      && r.cache.Keys == cache.Keys + {CacheKey(path, disk.mtimeOf(path).value)}
      && r.cache[CacheKey(path, disk.mtimeOf(path).value)] == r.outcome.digest
    ensures r.outcome.Failed? <==>
      || disk.mtimeOf(path).None?
      || (CacheKey(path, disk.mtimeOf(path).value) !in cache
          && disk.digestOf(path, disk.mtimeOf(path).value).None?)
  {
    match disk.mtimeOf(path)
    case None => Hashed(Failed, cache)
    case Some(mtime) =>
      var key := CacheKey(path, mtime);
      if key in cache then Hashed(Hit(cache[key]), cache)
      else match disk.digestOf(path, mtime)
        case None => Hashed(Failed, cache)
        case Some(d) => Hashed(Computed(d), cache[key := d])
  }

  /** On a hit the file content is not consulted: two disks that agree on the
      mtime give the same answer whatever their contents. */
  lemma HitIgnoresContent(cache: Cache, d1: Disk, d2: Disk, path: string)
    requires d1.mtimeOf(path) == d2.mtimeOf(path)
    requires HashFile(cache, d1, path).outcome.Hit?
    ensures HashFile(cache, d2, path) == HashFile(cache, d1, path)
  {
  }

  /** Once a file has been hashed, asking again against any cache that kept
      the entry is a hit with the same digest and changes nothing. */
  lemma WarmCacheHits(cache: Cache, disk: Disk, path: string, later: Cache)
    requires !HashFile(cache, disk, path).outcome.Failed?
    requires Grows(HashFile(cache, disk, path).cache, later)
    ensures HashFile(later, disk, path) == Hashed(Hit(HashFile(cache, disk, path).outcome.digest), later)
  {
  }

  /** The state of the cache file on disk when the scanner starts. */
  datatype CacheFile = Absent | Unreadable | Stored(entries: Cache)

  /** `load_cache`: a missing file leaves the cache as it is, an unreadable or
      corrupt one resets it to empty, a readable one replaces it. */
  function LoadCache(current: Cache, file: CacheFile): (c: Cache)
    ensures file.Absent? ==> c == current
    ensures file.Unreadable? ==> c == map[]
    ensures file.Stored? ==> c == file.entries
  {
    match file
    case Absent => current
    case Unreadable => map[]
    case Stored(entries) => entries
  }

  /** The scanner's constructor starts from an empty cache, so after loading
      the cache is empty unless a readable cache file held entries. */
  lemma StartupCache(file: CacheFile)
    ensures LoadCache(map[], file) != map[] ==> file.Stored? && file.entries != map[]
  {
  }

  /** A loaded cache answers for the files it holds: a file whose current
      key the cache file stored hashes to the stored digest, without its
      content being read, while a missing cache file changes no answer. */
  lemma LoadedEntriesHit(current: Cache, file: CacheFile, disk: Disk, path: string)
    requires file.Stored? && disk.mtimeOf(path).Some?
    requires CacheKey(path, disk.mtimeOf(path).value) in file.entries
    ensures HashFile(LoadCache(current, file), disk, path)
      == Hashed(Hit(file.entries[CacheKey(path, disk.mtimeOf(path).value)]), file.entries)
  {
  }
}
