/** `FileScanner.get_file_stats`: one entry per lower-cased extension (the
    sentinel `sans extension` for files without one), with the number of
    files and their total size, sorted by size from largest to smallest. */
module FileStats {
  import opened Seqs
  import Text
  import PathExt
  import opened Tally
  import opened Scanner

  /** The bucket of files without an extension. */
  const NoExtension: string := "sans extension"

  /** The table key of a file: its extension lower-cased, or the sentinel. */
  function StatKey(path: string): string {
    var e := PathExt.Ext(path);
    if e != "" then Text.Lower(e) else NoExtension
  }

  /** The sentinel never collides with a real extension, which starts with a dot. */
  lemma SentinelOnlyForNoExtension(path: string)
    ensures StatKey(path) == NoExtension <==> PathExt.Ext(path) == ""
  {
    var e := PathExt.Ext(path);
    if e != "" {
      PathExt.ExtCharacterization(path, e);
      assert Text.Lower(e)[0] == '.';
    }
  }

  /** One row of the result: `{'type', 'count', 'size'}`. */
  datatype ExtStat = ExtStat(kind: string, count: nat, size: nat)

  function StatKind(s: ExtStat): string { s.kind }
  function StatCount(s: ExtStat): int { s.count }
  function StatSize(s: ExtStat): int { s.size }

  function ItemOf(f: FileRecord): Item {
    Item(StatKey(f.path), f.size, f.mtime)
  }

  function ItemsOf(files: seq<FileRecord>): (items: seq<Item>)
    ensures |items| == |files|
  {
    seq(|files|, i requires 0 <= i < |files| => ItemOf(files[i]))
  }

  function ToStat(b: Bucket): ExtStat {
    ExtStat(b.key, b.count, b.size)
  }

  /** The extensions a table covers. */
  function Kinds(r: seq<ExtStat>): set<string> {
    set x | x in r :: x.kind
  }

  /** The table keys of a batch of files. */
  function FileKeys(files: seq<FileRecord>): set<string> {
    set f | f in files :: StatKey(f.path)
  }

  lemma FileKeysAreItemKeys(files: seq<FileRecord>)
    ensures FileKeys(files) == ItemKeys(ItemsOf(files))
  {
    var items := ItemsOf(files);
    forall k | k in FileKeys(files) ensures k in ItemKeys(items) {
      var f :| f in files && StatKey(f.path) == k;
      var j :| 0 <= j < |files| && files[j] == f;
      assert items[j] in items;
    }
    forall k | k in ItemKeys(items) ensures k in FileKeys(files) {
      var it :| it in items && it.key == k;
      var j :| 0 <= j < |items| && items[j] == it;
      assert files[j] in files;
    }
  }

  function ToStats(s: seq<Bucket>): (r: seq<ExtStat>)
    ensures |r| == |s|
    ensures forall i :: 0 <= i < |s| ==> r[i] == ToStat(s[i])
  {
    seq(|s|, i requires 0 <= i < |s| => ToStat(s[i]))
  }

  lemma ToStatsFacts(s: seq<Bucket>)
    ensures Kinds(ToStats(s)) == KeysOf(s)
    ensures SumBy(ToStats(s), StatCount) == SumBy(s, BucketCount)
    ensures SumBy(ToStats(s), StatSize) == SumBy(s, BucketSize)
  {
    var r := ToStats(s);
    SumByPointwise(r, StatCount, s, BucketCount);
    SumByPointwise(r, StatSize, s, BucketSize);
    forall k | k in KeysOf(s) ensures k in Kinds(r) {
      var b :| b in s && b.key == k;
      var i :| 0 <= i < |s| && s[i] == b;
      assert r[i] in r;
    }
  }

  /** `x` holds the number and total size of the files of its extension, at least one. */
  ghost predicate StatCounted(files: seq<FileRecord>, x: ExtStat) {
    Counted(ItemsOf(files), Bucket(x.kind, x.count, x.size, 0))
  }

  function StatsOf(files: seq<FileRecord>): seq<ExtStat> {
    ToStats(Table(ItemsOf(files)))
  }

  lemma StatsOrder(files: seq<FileRecord>)
    ensures NonIncreasing(StatsOf(files), StatSize)
    ensures DistinctBy(StatsOf(files), StatKind)
  {
    TableEntries(ItemsOf(files));
  }

  lemma StatsCounted(files: seq<FileRecord>)
    ensures forall i :: 0 <= i < |StatsOf(files)| ==> StatCounted(files, StatsOf(files)[i])
  {
    var items := ItemsOf(files);
    var t := Table(items);
    TableCounts(items);
    assert forall i :: 0 <= i < |t| ==> Counted(items, t[i]);
  }

  lemma StatsTotals(files: seq<FileRecord>)
    ensures Kinds(StatsOf(files)) == FileKeys(files)
    ensures SumBy(StatsOf(files), StatCount) == |files|
    ensures SumBy(StatsOf(files), StatSize) == TotalSize(files)
  {
    var items := ItemsOf(files);
    TableEntries(items);
    TableSums(items);
    SumByPointwise(items, ItemSize, files, SizeOf);
    FileKeysAreItemKeys(files);
    ToStatsFacts(Table(items));
  }

  /** `get_file_stats(files)`. */
  function GetFileStats(files: seq<FileRecord>): (r: seq<ExtStat>)
    ensures NonIncreasing(r, StatSize)
    ensures DistinctBy(r, StatKind)
    ensures forall i :: 0 <= i < |r| ==> StatCounted(files, r[i])
    ensures Kinds(r) == FileKeys(files)
    ensures SumBy(r, StatCount) == |files|
    ensures SumBy(r, StatSize) == TotalSize(files)
  {
    StatsOrder(files);
    StatsCounted(files);
    StatsTotals(files);
    StatsOf(files)
  }
}
