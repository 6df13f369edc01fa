/** `FileScanner.scan_directory` and `FileScanner.parallel_scan`. The file
    system is an input: a listing per directory, as `os.scandir` yields it,
    and the order in which the per-directory tasks complete. */
module Scanner {
  import opened Wrappers
  import opened Seqs

  /** One scanned file: `{'path', 'size', 'mtime'}`. */
  datatype FileRecord = FileRecord(path: string, size: nat, mtime: int)

  /** The answer of `entry.stat()`. */
  datatype Stat = Stat(size: nat, mtime: int)

  /** One step of iterating `os.scandir(path)`. */
  datatype DirEntry =
      /** `entry.is_file()` is true; `stat` is None when `entry.stat()` raises. */
    | File(path: string, stat: Option<Stat>)
      /** A directory or any other entry that is not a regular file. */
    | NotFile(path: string)
      /** `entry.is_file()` or the directory iterator itself raised. */
    | Broken

  /** What `os.scandir(path)` gives: an error on opening, or its entries. */
  datatype Listing = OpenFailed | Entries(entries: seq<DirEntry>)

  /** An entry that raises inside the scanning loop. */
  predicate Fails(e: DirEntry) {
    e.Broken? || (e.File? && e.stat.None?)
  }

  function RecordOf(path: string, st: Stat): FileRecord {
    FileRecord(path, st.size, st.mtime)
  }

  /** The scanning loop of `scan_directory`: regular files are recorded in
      listing order, other entries are skipped, and the first entry that
      raises ends the loop, keeping what was gathered so far. */
  function ScanEntries(es: seq<DirEntry>): (r: seq<FileRecord>)
    ensures |r| <= |es|
    ensures forall rec :: rec in r ==> File(rec.path, Some(Stat(rec.size, rec.mtime))) in es
  {
    if |es| == 0 then []
    else
      var rest := ScanEntries(es[1..]);
      assert forall e :: e in es[1..] ==> e in es;
      match es[0]
      case File(p, Some(st)) => [RecordOf(p, st)] + rest
      case File(_, None) => []
      case NotFile(_) => rest
      case Broken => []
  }

  /** `scan_directory(path)`. */
  function ScanDirectory(l: Listing): (r: seq<FileRecord>)
    ensures l.OpenFailed? ==> r == []
    ensures l.Entries? ==> forall rec :: rec in r ==> File(rec.path, Some(Stat(rec.size, rec.mtime))) in l.entries
  {
    match l
    case OpenFailed => []
    case Entries(es) => ScanEntries(es)
  }

  /** No entry of the listing raises. */
  ghost predicate Healthy(es: seq<DirEntry>) {
    forall i :: 0 <= i < |es| ==> !Fails(es[i])
  }

  /** The number of regular files in a listing. */
  function CountFiles(es: seq<DirEntry>): nat {
    if |es| == 0 then 0 else (if es[0].File? then 1 else 0) + CountFiles(es[1..])
  }

  /** A listing that raises nowhere yields one record per regular file, and
      every regular file with its stat. */
  lemma {:induction false} ScanHealthyListing(es: seq<DirEntry>)
    requires Healthy(es)
    ensures |ScanEntries(es)| == CountFiles(es)
    ensures forall i :: 0 <= i < |es| && es[i].File? ==> RecordOf(es[i].path, es[i].stat.value) in ScanEntries(es)
  {
    if |es| > 0 {
      ScanHealthyListing(es[1..]);
      forall i | 1 <= i < |es| && es[i].File?
        ensures RecordOf(es[i].path, es[i].stat.value) in ScanEntries(es)
      {
        assert es[1..][i - 1] == es[i];
      }
    }
  }

  /** Records gathered before an error are kept: the records of a healthy
      prefix come first, followed by whatever the rest of the listing gives. */
  lemma {:induction false} ScanPrefix(es: seq<DirEntry>, more: seq<DirEntry>)
    requires Healthy(es)
    ensures ScanEntries(es + more) == ScanEntries(es) + ScanEntries(more)
  {
    if |es| == 0 {
      assert es + more == more;
    } else {
      assert (es + more)[1..] == es[1..] + more;
      ScanPrefix(es[1..], more);
    }
  }

  /** Listing order is kept: a regular file listed after a healthy prefix
      adds its record after the prefix's records, any other entry adds
      nothing. */
  lemma ScanKeepsListingOrder(es: seq<DirEntry>, e: DirEntry)
    requires Healthy(es) && !Fails(e)
    ensures ScanEntries(es + [e]) == ScanEntries(es) + (if e.File? then [RecordOf(e.path, e.stat.value)] else [])
  {
    ScanPrefix(es, [e]);
    assert [e][1..] == [];
  }

  /** Nothing after an entry that raises is recorded. */
  lemma ScanStopsAtError(e: DirEntry, more: seq<DirEntry>)
    requires Fails(e)
    ensures ScanEntries([e] + more) == []
  {
  }

  /** One scanning task per directory yielded by the walk, in submission order. */
  function TaskResults(dirs: seq<string>, list: string -> Listing): (r: seq<seq<FileRecord>>)
    ensures |r| == |dirs|
  {
    seq(|dirs|, i requires 0 <= i < |dirs| => ScanDirectory(list(dirs[i])))
  }

  function SizeOf(f: FileRecord): int {
    f.size
  }

  /** Sum of the sizes of a batch of records. */
  function TotalSize(files: seq<FileRecord>): int {
    SumBy(files, SizeOf)
  }

  /** The progress value reported after `completed` of `total` tasks. */
  function Percent(completed: nat, total: nat): real
    requires total > 0
  {
    (completed as real / total as real) * 100.0
  }

  lemma PercentIncreasing(a: nat, b: nat, n: nat)
    requires a < b && n > 0
    ensures Percent(a, n) < Percent(b, n)
  {
    assert a as real / n as real < b as real / n as real;
  }

  lemma PercentFull(n: nat)
    requires n > 0
    ensures Percent(n, n) == 100.0
  {
  }

  /** `parallel_scan`: one task per directory of the walk (root included);
      `completed` is the order in which `as_completed` hands the task results
      back, any permutation of them. The files are the union of all task
      results, the total is their size sum, and after the k-th completed task
      the progress reported is `k / total_dirs * 100`; these values rise
      strictly up to 100. */
  method ParallelScan(dirs: seq<string>, list: string -> Listing, completed: seq<seq<FileRecord>>)
    returns (files: seq<FileRecord>, total: int, progress: seq<real>)
    requires multiset(completed) == multiset(TaskResults(dirs, list))
    ensures multiset(files) == multiset(Flatten(TaskResults(dirs, list)))
    ensures total == TotalSize(files)
    ensures |progress| == |dirs|
    ensures forall i :: 0 <= i < |progress| ==> progress[i] == Percent(i + 1, |dirs|)
    ensures forall i, j :: 0 <= i < j < |progress| ==> progress[i] < progress[j]
    ensures |progress| > 0 ==> progress[|progress| - 1] == 100.0
  {
    var n := |completed|;
    assert n == |dirs| by {
      assert |multiset(completed)| == |multiset(TaskResults(dirs, list))|;
    }
    files := [];
    total := 0;
    progress := [];
    var k := 0;
    while k < n
      invariant 0 <= k <= n
      invariant files == Flatten(completed[..k])
      invariant total == TotalSize(files)
      invariant |progress| == k
      invariant forall i :: 0 <= i < k ==> progress[i] == Percent(i + 1, n)
    {
      var batch := completed[k];
      assert completed[..k + 1] == completed[..k] + [batch];
      FlattenAppend(completed[..k], [batch]);
      assert Flatten([batch]) == batch;
      SumByAppend(files, batch, SizeOf);
      files := files + batch;
      total := total + TotalSize(batch);
      progress := progress + [Percent(k + 1, n)];
      k := k + 1;
    }
    assert completed[..n] == completed;
    FlattenPerm(completed, TaskResults(dirs, list));
    ProgressRises(progress, n);
  }

  /** The progress values `Percent(1, n)`, ..., `Percent(n, n)` rise strictly to 100. */
  lemma ProgressRises(progress: seq<real>, n: nat)
    requires |progress| == n
    requires forall i :: 0 <= i < n ==> progress[i] == Percent(i + 1, n)
    ensures forall i, j :: 0 <= i < j < |progress| ==> progress[i] < progress[j]
    ensures |progress| > 0 ==> progress[|progress| - 1] == 100.0
  {
    forall i, j | 0 <= i < j < |progress| ensures progress[i] < progress[j] {
      PercentIncreasing(i + 1, j + 1, n);
    }
    if n > 0 {
      PercentFull(n);
    }
  }

  /** The total does not depend on the completion order: it is the size sum
      over the walk's directories taken in order. */
  lemma TotalIndependentOfOrder(dirs: seq<string>, list: string -> Listing, files: seq<FileRecord>)
    requires multiset(files) == multiset(Flatten(TaskResults(dirs, list)))
    ensures TotalSize(files) == TotalSize(Flatten(TaskResults(dirs, list)))
  {
    SumByPerm(files, Flatten(TaskResults(dirs, list)), SizeOf);
  }
}
