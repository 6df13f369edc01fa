/** Per-key aggregation as the two extension tables do it: a dictionary
    filled in input order, one entry per key, holding the number of items,
    their total size and the latest timestamp seen. */
module Tally {
  import opened Seqs

  /** One input to the tally: its key (an extension or a sentinel), its size
      and its timestamp. */
  datatype Item = Item(key: string, size: nat, stamp: int)

  /** One dictionary entry. */
  datatype Bucket = Bucket(key: string, count: nat, size: nat, latest: int)

  function BucketKey(b: Bucket): string { b.key }
  function BucketCount(b: Bucket): int { b.count }
  function BucketSize(b: Bucket): int { b.size }
  function ItemSize(it: Item): int { it.size }

  /** The keys present in a table. */
  function KeysOf(bs: seq<Bucket>): set<string> {
    set b | b in bs :: b.key
  }

  /** Number of items with key `k`. */
  function CountKey(items: seq<Item>, k: string): nat {
    if |items| == 0 then 0
    else CountKey(items[..|items| - 1], k) + (if items[|items| - 1].key == k then 1 else 0)
  }

  /** Total size of the items with key `k`. */
  function SizeKey(items: seq<Item>, k: string): nat {
    if |items| == 0 then 0
    else SizeKey(items[..|items| - 1], k) + (if items[|items| - 1].key == k then items[|items| - 1].size else 0)
  }

  /** Position of the entry for `k`, or -1. */
  function IndexOfKey(bs: seq<Bucket>, k: string): (i: int)
    ensures -1 <= i < |bs|
    ensures i >= 0 ==> bs[i].key == k
    ensures i < 0 ==> k !in KeysOf(bs)
  {
    if |bs| == 0 then -1
    else if bs[|bs| - 1].key == k then |bs| - 1
    else
      var i := IndexOfKey(bs[..|bs| - 1], k);
      assert forall b :: b in bs ==> b in bs[..|bs| - 1] || b == bs[|bs| - 1];
      i
  }

  /** One loop iteration: update the entry for the item's key, or add one. */
  function Add(bs: seq<Bucket>, it: Item): seq<Bucket> {
    var i := IndexOfKey(bs, it.key);
    if i < 0 then bs + [Bucket(it.key, 1, it.size, it.stamp)]
    else
      var b := bs[i];
      bs[i := Bucket(b.key, b.count + 1, b.size + it.size, if it.stamp > b.latest then it.stamp else b.latest)]
  }

  /** Adding an item keeps the existing entries' keys in place and adds its
      key at the end when it is new. */
  lemma AddShape(bs: seq<Bucket>, it: Item)
    requires DistinctBy(bs, BucketKey)
    ensures var r := Add(bs, it);
      && |r| == (if it.key in KeysOf(bs) then |bs| else |bs| + 1)
      && (forall i :: 0 <= i < |bs| ==> r[i].key == bs[i].key)
      && (|r| > |bs| ==> r[|bs|].key == it.key)
      && KeysOf(r) == KeysOf(bs) + {it.key}
      && DistinctBy(r, BucketKey)
  {
    var r := Add(bs, it);
    var m := IndexOfKey(bs, it.key);
    assert forall i :: 0 <= i < |bs| ==> r[i].key == bs[i].key;
    if m >= 0 {
      assert bs[m] in bs;
    }
    forall k | k in KeysOf(r) ensures k in KeysOf(bs) + {it.key} {
      var b :| b in r && b.key == k;
      var i :| 0 <= i < |r| && r[i] == b;
    }
    forall k | k in KeysOf(bs) + {it.key} ensures k in KeysOf(r) {
      if k in KeysOf(bs) {
        var b :| b in bs && b.key == k;
        var i :| 0 <= i < |bs| && bs[i] == b;
        assert r[i] in r;
      } else {
        assert m < 0;
        assert r[|bs|] in r;
      }
    }
  }

  /** The whole loop, in input order. */
  function TallyItems(items: seq<Item>): seq<Bucket> {
    if |items| == 0 then []
    else Add(TallyItems(items[..|items| - 1]), items[|items| - 1])
  }

  /** One entry per key, and a key has an entry exactly when some item carries it. */
  lemma {:induction false} TallyKeys(items: seq<Item>)
    ensures DistinctBy(TallyItems(items), BucketKey)
    ensures forall k :: k in KeysOf(TallyItems(items)) <==> exists j :: 0 <= j < |items| && items[j].key == k
  {
    if |items| > 0 {
      var init := items[..|items| - 1];
      var it := items[|items| - 1];
      TallyKeys(init);
      AddShape(TallyItems(init), it);
      assert forall j :: 0 <= j < |init| ==> items[j] == init[j];
    }
  }

  lemma {:induction false} CountAbsent(items: seq<Item>, k: string)
    requires forall j :: 0 <= j < |items| ==> items[j].key != k
    ensures CountKey(items, k) == 0 && SizeKey(items, k) == 0
  {
    if |items| > 0 {
      CountAbsent(items[..|items| - 1], k);
    }
  }

  /** `b` holds the number and the total size of the items with its key,
      and at least one item. */
  ghost predicate Counted(items: seq<Item>, b: Bucket) {
    b.count == CountKey(items, b.key) && b.size == SizeKey(items, b.key) && b.count > 0
  }

  /** Every entry counts and sizes the items with its key. */
  lemma {:induction false} TallyCounts(items: seq<Item>)
    ensures forall i :: 0 <= i < |TallyItems(items)| ==> Counted(items, TallyItems(items)[i])
  {
    if |items| > 0 {
      var init := items[..|items| - 1];
      var it := items[|items| - 1];
      TallyCounts(init);
      TallyKeys(init);
      var bs := TallyItems(init);
      var r := TallyItems(items);
      AddShape(bs, it);
      var m := IndexOfKey(bs, it.key);
      forall i | 0 <= i < |r| ensures Counted(items, r[i]) {
        assert forall k :: 0 <= k < |bs| ==> Counted(init, bs[k]);
        if i >= |bs| {
          forall j | 0 <= j < |init| ensures init[j].key != it.key {
            assert init[j].key in KeysOf(bs);
          }
          CountAbsent(init, it.key);
        } else if i != m {
          assert r[i] == bs[i];
          assert bs[i].key != it.key by {
            if m >= 0 {
              assert bs[m].key == it.key;
            } else {
              assert bs[i] in bs;
            }
          }
        }
      }
    }
  }

  /** `b.latest` is the largest timestamp among the items with `b`'s key. */
  ghost predicate IsLatest(items: seq<Item>, b: Bucket) {
    && (forall j :: 0 <= j < |items| && items[j].key == b.key ==> items[j].stamp <= b.latest)
    && (exists j :: 0 <= j < |items| && items[j].key == b.key && items[j].stamp == b.latest)
  }

  /** One entry of the table after adding `it` keeps the latest timestamp. */
  lemma AddLatestAt(init: seq<Item>, bs: seq<Bucket>, it: Item, i: nat)
    requires forall k :: 0 <= k < |bs| ==> IsLatest(init, bs[k])
    requires DistinctBy(bs, BucketKey)
    requires forall k :: k in KeysOf(bs) <==> exists j :: 0 <= j < |init| && init[j].key == k
    requires i < |Add(bs, it)|
    ensures IsLatest(init + [it], Add(bs, it)[i])
  {
    var items := init + [it];
    var n := |init|;
    var r := Add(bs, it);
    var m := IndexOfKey(bs, it.key);
    AddShape(bs, it);
    assert forall j :: 0 <= j < n ==> items[j] == init[j];
    assert items[n] == it;
    if i >= |bs| {
      forall j | 0 <= j < n ensures init[j].key != it.key {
        assert init[j].key in KeysOf(bs);
      }
      assert items[n].key == r[i].key && items[n].stamp == r[i].latest;
    } else if i != m {
      assert r[i] == bs[i];
      assert bs[i].key != it.key by {
        if m >= 0 {
          assert bs[m].key == it.key;
        } else {
          assert bs[i] in bs;
        }
      }
      assert IsLatest(init, bs[i]);
      var j :| 0 <= j < n && init[j].key == bs[i].key && init[j].stamp == bs[i].latest;
      assert items[j].key == r[i].key && items[j].stamp == r[i].latest;
    } else {
      assert IsLatest(init, bs[i]);
      var j :| 0 <= j < n && init[j].key == bs[i].key && init[j].stamp == bs[i].latest;
      if it.stamp > bs[i].latest {
        assert items[n].key == r[i].key && items[n].stamp == r[i].latest;
      } else {
        assert items[j].key == r[i].key && items[j].stamp == r[i].latest;
      }
    }
  }

  /** Every entry's timestamp is the latest among the items with its key. */
  lemma {:induction false} TallyLatest(items: seq<Item>)
    ensures forall i :: 0 <= i < |TallyItems(items)| ==> IsLatest(items, TallyItems(items)[i])
  {
    if |items| > 0 {
      var init := items[..|items| - 1];
      var it := items[|items| - 1];
      TallyLatest(init);
      TallyKeys(init);
      assert items == init + [it];
      forall i | 0 <= i < |TallyItems(items)| ensures IsLatest(items, TallyItems(items)[i]) {
        AddLatestAt(init, TallyItems(init), it, i);
      }
    }
  }

  lemma AddSums(bs: seq<Bucket>, it: Item)
    ensures SumBy(Add(bs, it), BucketCount) == SumBy(bs, BucketCount) + 1
    ensures SumBy(Add(bs, it), BucketSize) == SumBy(bs, BucketSize) + it.size
  {
    var m := IndexOfKey(bs, it.key);
    if m < 0 {
      SumByAppend(bs, [Bucket(it.key, 1, it.size, it.stamp)], BucketCount);
      SumByAppend(bs, [Bucket(it.key, 1, it.size, it.stamp)], BucketSize);
    } else {
      var b := bs[m];
      var nb := Bucket(b.key, b.count + 1, b.size + it.size, if it.stamp > b.latest then it.stamp else b.latest);
      assert Add(bs, it) == bs[m := nb];
      SumByUpdate(bs, m, nb, BucketCount);
      SumByUpdate(bs, m, nb, BucketSize);
    }
  }

  /** The counts add up to the number of items and the sizes to their total size. */
  lemma {:induction false} TallySums(items: seq<Item>)
    ensures SumBy(TallyItems(items), BucketCount) == |items|
    ensures SumBy(TallyItems(items), BucketSize) == SumBy(items, ItemSize)
  {
    if |items| > 0 {
      var init := items[..|items| - 1];
      var it := items[|items| - 1];
      TallySums(init);
      AddSums(TallyItems(init), it);
      assert items == init + [it];
      SumByAppend(init, [it], ItemSize);
    }
  }

  /** The keys the items carry. */
  function ItemKeys(items: seq<Item>): set<string> {
    set it | it in items :: it.key
  }

  /** The dictionary's entries sorted by total size, largest first. */
  function Table(items: seq<Item>): seq<Bucket> {
    SortDesc(TallyItems(items), BucketSize)
  }

  /** The sorted table has exactly the tally's entries, one per item key. */
  lemma TableEntries(items: seq<Item>)
    ensures forall b :: b in Table(items) <==> b in TallyItems(items)
    ensures KeysOf(Table(items)) == ItemKeys(items)
    ensures DistinctBy(Table(items), BucketKey)
  {
    var t := TallyItems(items);
    var s := Table(items);
    forall b ensures b in s <==> b in t {
      assert b in s <==> b in multiset(s);
    }
    TallyKeys(items);
    SortKeepsDistinct(t, BucketSize, BucketKey);
    forall k | k in ItemKeys(items) ensures k in KeysOf(t) {
      var it :| it in items && it.key == k;
      var j :| 0 <= j < |items| && items[j] == it;
    }
    forall k | k in KeysOf(t) ensures k in ItemKeys(items) {
      var j :| 0 <= j < |items| && items[j].key == k;
      assert items[j] in items;
    }
  }

  /** Every sorted entry counts and sizes its key's items and keeps their
      latest timestamp. */
  lemma TableCounts(items: seq<Item>)
    ensures forall i :: 0 <= i < |Table(items)| ==> Counted(items, Table(items)[i]) && IsLatest(items, Table(items)[i])
  {
    var t := TallyItems(items);
    var s := Table(items);
    TallyCounts(items);
    TallyLatest(items);
    TableEntries(items);
    forall i | 0 <= i < |s| ensures Counted(items, s[i]) && IsLatest(items, s[i]) {
      assert s[i] in t;
      var k :| 0 <= k < |t| && t[k] == s[i];
    }
  }

  /** The sorted counts add up to the number of items and the sizes to their total. */
  lemma TableSums(items: seq<Item>)
    ensures SumBy(Table(items), BucketCount) == |items|
    ensures SumBy(Table(items), BucketSize) == SumBy(items, ItemSize)
  {
    TallySums(items);
    SumByPerm(Table(items), TallyItems(items), BucketCount);
    SumByPerm(Table(items), TallyItems(items), BucketSize);
  }
}
