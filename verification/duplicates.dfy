/** `FileScanner.find_duplicates`: every file is hashed through the cache,
    the (file, digest) results are grouped by digest in the order the tasks
    complete, and only digests shared by two or more files are kept. */
module Duplicates {
  import opened Wrappers
  import opened Seqs
  import opened HashCache
  import opened Scanner

  /** What one hashing task returns: the file and its digest, if any. */
  type TaskResult = (FileRecord, Option<Digest>)

  /** The hashing tasks, run one after another in submission order, each
      against the cache the previous ones left. */
  function HashPass(cache: Cache, disk: Disk, files: seq<FileRecord>): (r: (seq<TaskResult>, Cache))
    ensures |r.0| == |files|
    ensures forall i :: 0 <= i < |files| ==> r.0[i].0 == files[i]
    ensures Grows(cache, r.1)
    ensures forall i :: 0 <= i < |files| && r.0[i].1.Some? ==>
      && disk.mtimeOf(files[i].path).Some?
      && CacheKey(files[i].path, disk.mtimeOf(files[i].path).value) in r.1
      && r.1[CacheKey(files[i].path, disk.mtimeOf(files[i].path).value)] == r.0[i].1.value
    decreases |files|
  {
    if |files| == 0 then ([], cache)
    else
      var h := HashFile(cache, disk, files[0].path);
      var rest := HashPass(h.cache, disk, files[1..]);
      ([(files[0], h.Result())] + rest.0, rest.1)
  }

  /** A second pass over the same files, against the cache the first pass
      left, hits the cache for every file and recomputes nothing, provided
      every file was hashed the first time. */
  lemma {:induction false} WarmPassHitsEverything(cache: Cache, disk: Disk, files: seq<FileRecord>, warm: Cache)
    requires forall i :: 0 <= i < |files| ==> HashPass(cache, disk, files).0[i].1.Some?
    requires Grows(HashPass(cache, disk, files).1, warm)
    ensures forall i :: 0 <= i < |files| ==> HashFile(warm, disk, files[i].path).outcome.Hit?
    ensures HashPass(warm, disk, files) == (HashPass(cache, disk, files).0, warm)
    decreases |files|
  {
    var first := HashPass(cache, disk, files);
    if |files| > 0 {
      var h := HashFile(cache, disk, files[0].path);
      var rest := HashPass(h.cache, disk, files[1..]);
      assert rest.1 == first.1;
      forall i | 0 <= i < |files| - 1 ensures rest.0[i].1.Some? {
        assert rest.0[i] == first.0[i + 1];
      }
      WarmPassHitsEverything(h.cache, disk, files[1..], warm);
      forall i | 0 <= i < |files| ensures HashFile(warm, disk, files[i].path).outcome.Hit? {
        assert first.0[i].1.Some?;
      }
      assert HashFile(warm, disk, files[0].path).cache == warm;
    }
  }

  /** Every entry of `c` that `base` lacks, under a file's current key, is
      the digest the disk gives for that file: what hashing it afresh
      against `base` would store. */
  ghost predicate Faithful(base: Cache, c: Cache, disk: Disk) {
    && Grows(base, c)
    && forall p :: disk.mtimeOf(p).Some? && CacheKey(p, disk.mtimeOf(p).value) in c
         && CacheKey(p, disk.mtimeOf(p).value) !in base
         ==> disk.digestOf(p, disk.mtimeOf(p).value) == Some(c[CacheKey(p, disk.mtimeOf(p).value)])
  }

  /** Hashing against a faithful cache answers as hashing against the base
      would, and leaves a faithful cache. */
  lemma HashFileFaithful(base: Cache, c: Cache, disk: Disk, path: string)
    requires Faithful(base, c, disk)
    ensures HashFile(c, disk, path).Result() == HashFile(base, disk, path).Result()
    ensures Faithful(base, HashFile(c, disk, path).cache, disk)
  {
    var h := HashFile(c, disk, path);
    if h.outcome.Computed? {
      var mt := disk.mtimeOf(path).value;
      var key := CacheKey(path, mt);
      forall p | disk.mtimeOf(p).Some? && CacheKey(p, disk.mtimeOf(p).value) in h.cache
          && CacheKey(p, disk.mtimeOf(p).value) !in base
        ensures disk.digestOf(p, disk.mtimeOf(p).value) == Some(h.cache[CacheKey(p, disk.mtimeOf(p).value)])
      {
        if CacheKey(p, disk.mtimeOf(p).value) == key {
          CacheKeyInjective(p, disk.mtimeOf(p).value, path, mt);
        }
      }
    }
  }

  lemma {:induction false} HashPassFaithful(base: Cache, c: Cache, disk: Disk, files: seq<FileRecord>)
    requires Faithful(base, c, disk)
    ensures forall i :: 0 <= i < |files| ==>
      HashPass(c, disk, files).0[i].1 == HashFile(base, disk, files[i].path).Result()
    decreases |files|
  {
    if |files| > 0 {
      var h := HashFile(c, disk, files[0].path);
      HashFileFaithful(base, c, disk, files[0].path);
      HashPassFaithful(base, h.cache, disk, files[1..]);
      var r := HashPass(c, disk, files);
      forall i | 0 <= i < |files| ensures r.0[i].1 == HashFile(base, disk, files[i].path).Result() {
        if i > 0 {
          assert r.0[i] == HashPass(h.cache, disk, files[1..]).0[i - 1];
          assert files[1..][i - 1] == files[i];
        }
      }
    }
  }

  /** The order the tasks run in does not matter to their answers: every
      file's result is the digest hashing that file alone against the
      starting cache returns. */
  lemma HashPassIsPerFile(cache: Cache, disk: Disk, files: seq<FileRecord>)
    ensures forall i :: 0 <= i < |files| ==>
      HashPass(cache, disk, files).0[i].1 == HashFile(cache, disk, files[i].path).Result()
  {
    HashPassFaithful(cache, cache, disk, files);
  }

  /** The results of a pass report each file with one digest. */
  lemma HashPassOneDigestPerFile(cache: Cache, disk: Disk, files: seq<FileRecord>)
    ensures OneDigestPerFile(HashPass(cache, disk, files).0)
  {
    HashPassIsPerFile(cache, disk, files);
  }

  type Groups = map<Digest, seq<FileRecord>>

  /** `if file_hash:` — a missing or empty digest groups nothing. */
  predicate Groupable(d: Option<Digest>) {
    d.Some? && d.value != ""
  }

  /** Adding one task result to the digest groups. */
  function AddResult(g: Groups, x: TaskResult): Groups {
    if !Groupable(x.1) then g
    else if x.1.value in g then g[x.1.value := g[x.1.value] + [x.0]]
    else g[x.1.value := [x.0]]
  }

  /** The files reported with digest `d`, as a multiset. */
  function Members(xs: seq<TaskResult>, d: Digest): multiset<FileRecord> {
    if |xs| == 0 then multiset{}
    else
      var last := if xs[|xs| - 1].1 == Some(d) then multiset{xs[|xs| - 1].0} else multiset{};
      Members(xs[..|xs| - 1], d) + last
  }

  /** The groups built from the results in the order given: one group per
      non-empty digest seen, holding exactly the files with that digest. */
  function GroupAll(xs: seq<TaskResult>): (g: Groups)
    ensures forall d :: d in g <==> d != "" && |Members(xs, d)| > 0
    ensures forall d :: d in g ==> multiset(g[d]) == Members(xs, d)
  {
    if |xs| == 0 then map[]
    else
      var g := GroupAll(xs[..|xs| - 1]);
      AddResultStep(g, xs[..|xs| - 1], xs[|xs| - 1]);
      assert xs[..|xs| - 1] + [xs[|xs| - 1]] == xs;
      AddResult(g, xs[|xs| - 1])
  }

  /** Adding one result to groups that hold exactly the files of `xs` gives
      groups that hold exactly the files of `xs + [x]`. */
  lemma AddResultStep(g: Groups, xs: seq<TaskResult>, x: TaskResult)
    requires forall d :: d in g <==> d != "" && |Members(xs, d)| > 0
    requires forall d :: d in g ==> multiset(g[d]) == Members(xs, d)
    ensures forall d :: d in AddResult(g, x) <==> d != "" && |Members(xs + [x], d)| > 0
    ensures forall d :: d in AddResult(g, x) ==> multiset(AddResult(g, x)[d]) == Members(xs + [x], d)
  {
    var ys := xs + [x];
    var g' := AddResult(g, x);
    assert ys[..|ys| - 1] == xs;
    forall d ensures (d in g' <==> d != "" && |Members(ys, d)| > 0) && (d in g' ==> multiset(g'[d]) == Members(ys, d)) {
      var added := if x.1 == Some(d) then multiset{x.0} else multiset{};
      assert Members(ys, d) == Members(xs, d) + added;
      if Groupable(x.1) && x.1.value == d {
        if d in g {
          assert g'[d] == g[d] + [x.0];
        } else {
          assert Members(xs, d) == multiset{};
          assert g'[d] == [x.0];
        }
      } else {
        assert d in g' <==> d in g;
        if d in g {
          assert g'[d] == g[d];
        }
      }
    }
  }

  /** The final filter: groups with more than one file. */
  function KeepShared(g: Groups): Groups {
    map d | d in g && |g[d]| > 1 :: g[d]
  }

  /** The count of `f` under digest `d` is the number of results `(f, Some(d))`. */
  lemma {:induction false} MembersCount(xs: seq<TaskResult>, d: Digest, f: FileRecord)
    ensures Members(xs, d)[f] == multiset(xs)[(f, Some(d))]
  {
    if |xs| > 0 {
      MembersCount(xs[..|xs| - 1], d, f);
      assert xs == xs[..|xs| - 1] + [xs[|xs| - 1]];
    }
  }

  /** Membership does not depend on the order the tasks completed in. */
  lemma MembersPerm(xs: seq<TaskResult>, ys: seq<TaskResult>, d: Digest)
    requires multiset(xs) == multiset(ys)
    ensures Members(xs, d) == Members(ys, d)
  {
    forall f ensures Members(xs, d)[f] == Members(ys, d)[f] {
      MembersCount(xs, d, f);
      MembersCount(ys, d, f);
    }
  }

  /** `find_duplicates(files)`, given the order `completed` in which the
      hashing tasks finished. A digest has a group exactly when at least two
      files have it, and the group holds exactly those files. */
  function FindDuplicates(cache: Cache, disk: Disk, files: seq<FileRecord>, completed: seq<TaskResult>)
    : (r: (Groups, Cache))
    requires multiset(completed) == multiset(HashPass(cache, disk, files).0)
    ensures r.1 == HashPass(cache, disk, files).1
    ensures forall d :: d in r.0 ==> |r.0[d]| >= 2
    ensures forall d :: d in r.0 <==> d != "" && |Members(HashPass(cache, disk, files).0, d)| >= 2
    ensures forall d :: d in r.0 ==> multiset(r.0[d]) == Members(HashPass(cache, disk, files).0, d)
  {
    var pass := HashPass(cache, disk, files);
    var g := GroupAll(completed);
    forall d ensures Members(completed, d) == Members(pass.0, d) {
      MembersPerm(completed, pass.0, d);
    }
    (KeepShared(g), pass.1)
  }

  /** No false grouping: every grouped file was reported with its group's
      digest, so a file whose hashing failed appears in no group. */
  lemma GroupedFilesHaveTheirDigest(xs: seq<TaskResult>, completed: seq<TaskResult>, d: Digest, f: FileRecord)
    requires multiset(completed) == multiset(xs)
    requires d in KeepShared(GroupAll(completed))
    ensures f in KeepShared(GroupAll(completed))[d] ==> (f, Some(d)) in xs
  {
    var g := GroupAll(completed);
    MembersCount(completed, d, f);
    if f in g[d] {
      assert f in multiset(g[d]);
      assert (f, Some(d)) in multiset(xs);
    }
  }

  /** Each file is reported with one digest, as it is when no path repeats. */
  ghost predicate OneDigestPerFile(xs: seq<TaskResult>) {
    forall i, j :: 0 <= i < |xs| && 0 <= j < |xs| && xs[i].0 == xs[j].0 ==> xs[i].1 == xs[j].1
  }

  /** When each file is reported with one digest, a file appears in at most
      one group. */
  lemma AtMostOneGroup(xs: seq<TaskResult>, completed: seq<TaskResult>, f: FileRecord)
    requires multiset(completed) == multiset(xs)
    requires OneDigestPerFile(xs)
    ensures var g := KeepShared(GroupAll(completed));
      forall d1, d2 :: d1 in g && f in g[d1] && d2 in g && f in g[d2] ==> d1 == d2
  {
    var g := KeepShared(GroupAll(completed));
    forall d1, d2 | d1 in g && f in g[d1] && d2 in g && f in g[d2] ensures d1 == d2 {
      GroupedFilesHaveTheirDigest(xs, completed, d1, f);
      GroupedFilesHaveTheirDigest(xs, completed, d2, f);
      var i :| 0 <= i < |xs| && xs[i] == (f, Some(d1));
      var j :| 0 <= j < |xs| && xs[j] == (f, Some(d2));
      assert xs[i].0 == xs[j].0;
    }
  }

  /** A file reported without a digest, whose hashing therefore failed, is
      in no group. */
  lemma FailedFilesAreUngrouped(xs: seq<TaskResult>, completed: seq<TaskResult>, f: FileRecord)
    requires multiset(completed) == multiset(xs)
    requires OneDigestPerFile(xs)
    requires (f, None) in xs
    ensures var g := KeepShared(GroupAll(completed));
      forall d :: d in g ==> f !in g[d]
  {
    var g := KeepShared(GroupAll(completed));
    var j :| 0 <= j < |xs| && xs[j] == (f, None);
    forall d | d in g ensures f !in g[d] {
      GroupedFilesHaveTheirDigest(xs, completed, d, f);
      forall i | 0 <= i < |xs| ensures xs[i] != (f, Some(d)) {
        if xs[i].0 == f {
          assert xs[i].1 == xs[j].1;
        }
      }
    }
  }

  lemma FindDuplicatesGroups(cache: Cache, disk: Disk, files: seq<FileRecord>, completed: seq<TaskResult>)
    requires multiset(completed) == multiset(HashPass(cache, disk, files).0)
    ensures FindDuplicates(cache, disk, files, completed).0 == KeepShared(GroupAll(completed))
  {
  }

  /** No file of `find_duplicates`' answer is in two groups. */
  lemma NoFileInTwoGroups(cache: Cache, disk: Disk, files: seq<FileRecord>, completed: seq<TaskResult>, f: FileRecord)
    requires multiset(completed) == multiset(HashPass(cache, disk, files).0)
    ensures var g := FindDuplicates(cache, disk, files, completed).0;
      forall d1, d2 :: d1 in g && f in g[d1] && d2 in g && f in g[d2] ==> d1 == d2
  {
    FindDuplicatesGroups(cache, disk, files, completed);
    HashPassOneDigestPerFile(cache, disk, files);
    AtMostOneGroup(HashPass(cache, disk, files).0, completed, f);
  }

  /** Every grouped file is one of the files given, and hashing it alone
      against the starting cache gives its group's digest; so a file whose
      hashing fails is in no group. */
  lemma GroupedFilesHashToTheirGroup(cache: Cache, disk: Disk, files: seq<FileRecord>,
                                     completed: seq<TaskResult>, d: Digest, f: FileRecord)
    requires multiset(completed) == multiset(HashPass(cache, disk, files).0)
    requires d in FindDuplicates(cache, disk, files, completed).0
    requires f in FindDuplicates(cache, disk, files, completed).0[d]
    ensures f in files && HashFile(cache, disk, f.path).Result() == Some(d)
  {
    var xs := HashPass(cache, disk, files).0;
    FindDuplicatesGroups(cache, disk, files, completed);
    GroupedFilesHaveTheirDigest(xs, completed, d, f);
    var i :| 0 <= i < |xs| && xs[i] == (f, Some(d));
    assert files[i] == f;
    HashPassIsPerFile(cache, disk, files);
    assert xs[i].1 == HashFile(cache, disk, files[i].path).Result();
  }

  /** A file whose hashing fails is in none of `find_duplicates`' groups. */
  lemma FailedFileUngrouped(cache: Cache, disk: Disk, files: seq<FileRecord>, completed: seq<TaskResult>, f: FileRecord)
    requires multiset(completed) == multiset(HashPass(cache, disk, files).0)
    requires HashFile(cache, disk, f.path).Result().None?
    ensures var g := FindDuplicates(cache, disk, files, completed).0;
      forall d :: d in g ==> f !in g[d]
  {
    var g := FindDuplicates(cache, disk, files, completed).0;
    forall d | d in g ensures f !in g[d] {
      if f in g[d] {
        GroupedFilesHashToTheirGroup(cache, disk, files, completed, d, f);
      }
    }
  }
}
