/** `Analysis`: the folder analysis window. For every walked file the size,
    the extension of its name (lower-cased, or a sentinel) and its
    modification time are read; the window shows one row per extension with
    the file count, total size and latest modification time, largest size
    first, and a TOTAL row. */
module Analysis {
  import opened Wrappers
  import opened Seqs
  import Text
  import PathExt
  import opened Tally

  /** The row of files whose name has no extension. */
  const NoExtensionRow: string := "(sans extension)"

  /** The row key of a file name. */
  function RowKey(name: string): (k: string)
    ensures k == NoExtensionRow <==> PathExt.Ext(name) == ""
  {
    var e := Text.Lower(PathExt.Ext(name));
    PathExt.ExtCharacterization(name, PathExt.Ext(name));
    assert PathExt.Ext(name) != "" ==> e[0] == '.' != NoExtensionRow[0];
    if e != "" then e
    else NoExtensionRow
  }

  /** What the file system answers for one walked file: its name, and its
      size and modification time (None where the call raises). */
  datatype Probe = Probe(name: string, size: Option<nat>, mtime: Option<int>)

  /** Both reads succeed: the file reaches the table. */
  predicate Counts(p: Probe) {
    p.size.Some? && p.mtime.Some?
  }

  /** The table input of the files that reach it, in walk order. */
  function UsableItems(ps: seq<Probe>): (items: seq<Item>)
    ensures |items| <= |ps|
  {
    if |ps| == 0 then []
    else
      var p := ps[|ps| - 1];
      UsableItems(ps[..|ps| - 1]) + (if Counts(p) then [Item(RowKey(p.name), p.size.value, p.mtime.value)] else [])
  }

  /** The window's content: the extension rows and the TOTAL row's count and size. */
  datatype Window = Window(rows: seq<Bucket>, totalCount: nat, totalSize: nat)

  /** Total size of the probes whose size was read, whatever happened next. */
  function SizeRead(ps: seq<Probe>): nat {
    if |ps| == 0 then 0
    else
      var p := ps[|ps| - 1];
      SizeRead(ps[..|ps| - 1]) + (if p.size.Some? then p.size.value else 0)
  }

  /** Total size of the probes that reach the table. */
  function SizeCounted(ps: seq<Probe>): nat {
    if |ps| == 0 then 0
    else
      var p := ps[|ps| - 1];
      SizeCounted(ps[..|ps| - 1]) + (if Counts(p) then p.size.value else 0)
  }

  /** `afficher_analyse` as written: the running total takes the size as soon
      as it is read, before the modification time, so a file whose
      modification time cannot be read counts in TOTAL but in no row. */
  function AnalyseAsWritten(ps: seq<Probe>): (w: Window)
    ensures w.totalSize == SizeRead(ps)
    ensures w.totalCount == SumBy(w.rows, BucketCount)
    ensures w.rows == Analyse(ps).rows && w.totalCount == Analyse(ps).totalCount
  {
    var rows := Table(UsableItems(ps));
    TableSums(UsableItems(ps));
    Window(rows, |UsableItems(ps)|, SizeRead(ps))
  }

  /** The size counted by the rows, and the size only the total sees. */
  lemma SizeSplit(ps: seq<Probe>)
    ensures SizeCounted(ps) == SumBy(UsableItems(ps), ItemSize)
    ensures SizeRead(ps) == SizeCounted(ps) + SizeRead(Lost(ps))
  {
    SizeCountedIsItemSum(ps);
    SizeReadSplits(ps);
  }

  lemma {:induction false} SizeCountedIsItemSum(ps: seq<Probe>)
    ensures SizeCounted(ps) == SumBy(UsableItems(ps), ItemSize)
  {
    if |ps| > 0 {
      var init := ps[..|ps| - 1];
      var p := ps[|ps| - 1];
      SizeCountedIsItemSum(init);
      var tail := if Counts(p) then [Item(RowKey(p.name), p.size.value, p.mtime.value)] else [];
      SumByAppend(UsableItems(init), tail, ItemSize);
      assert UsableItems(ps) == UsableItems(init) + tail;
      assert SumBy(tail, ItemSize) == if Counts(p) then p.size.value else 0;
    }
  }

  lemma {:induction false} SizeReadSplits(ps: seq<Probe>)
    ensures SizeRead(ps) == SizeCounted(ps) + SizeRead(Lost(ps))
  {
    if |ps| > 0 {
      var init := ps[..|ps| - 1];
      var p := ps[|ps| - 1];
      SizeReadSplits(init);
      var lost := Lost(init) + (if p.size.Some? && p.mtime.None? then [p] else []);
      assert Lost(ps) == lost;
      if p.size.Some? && p.mtime.None? {
        assert lost[..|lost| - 1] == Lost(init);
        assert SizeRead(lost) == SizeRead(Lost(init)) + p.size.value;
      } else {
        assert lost == Lost(init);
      }
    }
  }

  /** The files whose size was read but whose modification time was not. */
  function Lost(ps: seq<Probe>): (r: seq<Probe>)
    ensures forall i :: 0 <= i < |r| ==> r[i].size.Some? && r[i].mtime.None?
  {
    if |ps| == 0 then []
    else
      var p := ps[|ps| - 1];
      Lost(ps[..|ps| - 1]) + (if p.size.Some? && p.mtime.None? then [p] else [])
  }

  /** As written, TOTAL exceeds the sum of the rows by exactly the sizes of
      the files whose modification time could not be read. */
  lemma AsWrittenTotalGap(ps: seq<Probe>)
    ensures AnalyseAsWritten(ps).totalSize == SumBy(AnalyseAsWritten(ps).rows, BucketSize) + SizeRead(Lost(ps))
  {
    SizeSplit(ps);
    TableSums(UsableItems(ps));
  }

  /** The concrete case: one 5-byte file whose modification time cannot be
      read gives no row but a TOTAL of 5 bytes. */
  lemma AsWrittenTotalExample()
    ensures var w := AnalyseAsWritten([Probe("a.txt", Some(5), None)]);
      w.rows == [] && w.totalCount == 0 && w.totalSize == 5
  {
    var ps := [Probe("a.txt", Some(5), None)];
    assert ps[..0] == [];
    assert UsableItems(ps) == [];
  }

  /** `afficher_analyse` with the size added to the total only once the file
      reaches the table. */
  function Analyse(ps: seq<Probe>): (w: Window)
    ensures NonIncreasing(w.rows, BucketSize)
    ensures DistinctBy(w.rows, BucketKey)
    ensures KeysOf(w.rows) == ItemKeys(UsableItems(ps))
    ensures forall i :: 0 <= i < |w.rows| ==> Counted(UsableItems(ps), w.rows[i]) && IsLatest(UsableItems(ps), w.rows[i])
    ensures w.totalCount == SumBy(w.rows, BucketCount) == |UsableItems(ps)|
    ensures w.totalSize == SumBy(w.rows, BucketSize) == SizeCounted(ps)
  {
    var items := UsableItems(ps);
    var rows := Table(items);
    TableEntries(items);
    TableCounts(items);
    TableSums(items);
    SizeSplit(ps);
    Window(rows, |items|, SizeCounted(ps))
  }

  /** The two agree whenever every modification time can be read. */
  lemma {:induction false} AgreeWhenNothingLost(ps: seq<Probe>)
    requires forall i :: 0 <= i < |ps| ==> ps[i].size.Some? ==> ps[i].mtime.Some?
    ensures AnalyseAsWritten(ps) == Analyse(ps)
  {
    SizeSplit(ps);
    assert Lost(ps) == [] by {
      if |Lost(ps)| > 0 {
        LostFrom(ps, Lost(ps)[0]);
      }
    }
    TableSums(UsableItems(ps));
  }

  lemma {:induction false} LostFrom(ps: seq<Probe>, p: Probe)
    ensures p in Lost(ps) ==> exists i :: 0 <= i < |ps| && ps[i] == p && p.size.Some? && p.mtime.None?
  {
    if |ps| > 0 {
      LostFrom(ps[..|ps| - 1], p);
      assert forall i :: 0 <= i < |ps| - 1 ==> ps[..|ps| - 1][i] == ps[i];
    }
  }
}
