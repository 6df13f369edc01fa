/** `Sweep`: the duplicate search of the cleanup window. Files are read in
    walk order; the first file with a given MD5 digest is remembered, every
    later one with the same digest is listed as a duplicate, and unreadable
    files are skipped. */
module Sweep {
  import opened Wrappers

  type Digest = string

  /** One walked file: its path and the digest of its contents, None when it
      cannot be read. */
  datatype Read = Read(path: string, digest: Option<Digest>)

  /** The loop's state: the first path seen per digest (`h`) and the
      duplicates listed so far (`d`). */
  datatype State = State(first: map<Digest, string>, dups: seq<string>)

  /** One iteration of the loop. */
  function Step(s: State, f: Read): (r: State)
    ensures f.digest.None? ==> r == s
    ensures f.digest.Some? && f.digest.value in s.first ==> r.first == s.first && r.dups == s.dups + [f.path]
    ensures f.digest.Some? && f.digest.value !in s.first ==>
      r.dups == s.dups && r.first.Keys == s.first.Keys + {f.digest.value} && r.first[f.digest.value] == f.path
  {
    match f.digest
    case None => s
    case Some(h) =>
      if h in s.first then s.(dups := s.dups + [f.path])
      else s.(first := s.first[h := f.path])
  }

  /** The whole walk, in order. */
  function SweepFiles(files: seq<Read>): State {
    if |files| == 0 then State(map[], [])
    else Step(SweepFiles(files[..|files| - 1]), files[|files| - 1])
  }

  /** The digests of the readable files. */
  function Digests(files: seq<Read>): set<Digest> {
    set i | 0 <= i < |files| && files[i].digest.Some? :: files[i].digest.value
  }

  /** Number of readable files. */
  function Readable(files: seq<Read>): nat {
    if |files| == 0 then 0
    else Readable(files[..|files| - 1]) + (if files[|files| - 1].digest.Some? then 1 else 0)
  }

  /** File `i` is readable and an earlier file has the same digest. */
  predicate SeenBefore(files: seq<Read>, i: int)
    requires 0 <= i < |files|
  {
    files[i].digest.Some? && exists j :: 0 <= j < i && files[j].digest == files[i].digest
  }

  /** Reference list: the paths of the readable files whose digest already
      appeared earlier, in walk order. */
  function Later(files: seq<Read>): seq<string> {
    if |files| == 0 then []
    else
      var n := |files| - 1;
      Later(files[..n]) + (if SeenBefore(files, n) then [files[n].path] else [])
  }

  /** `p` is the path of the first readable file with digest `h`. */
  ghost predicate FirstWith(files: seq<Read>, h: Digest, p: string) {
    exists i :: 0 <= i < |files| && files[i] == Read(p, Some(h))
      && forall j :: 0 <= j < i ==> files[j].digest != Some(h)
  }

  lemma DigestsSnoc(files: seq<Read>)
    requires |files| > 0
    ensures var n := |files| - 1; var f := files[n];
      Digests(files) == Digests(files[..n]) + (if f.digest.Some? then {f.digest.value} else {})
  {
    var n := |files| - 1;
    var init := files[..n];
    var f := files[n];
    assert forall i :: 0 <= i < n ==> files[i] == init[i];
    forall h | h in Digests(files) ensures h in Digests(init) || (f.digest.Some? && h == f.digest.value) {
      var i :| 0 <= i < |files| && files[i].digest.Some? && files[i].digest.value == h;
      if i < n { assert init[i].digest.value == h; }
    }
    forall h | h in Digests(init) ensures h in Digests(files) {
      var i :| 0 <= i < n && init[i].digest.Some? && init[i].digest.value == h;
      assert files[i].digest.value == h;
    }
  }

  /** The last file repeats a digest exactly when an earlier file had it. */
  lemma SeenBeforeIff(files: seq<Read>)
    requires |files| > 0 && files[|files| - 1].digest.Some?
    ensures var n := |files| - 1;
      SeenBefore(files, n) <==> files[n].digest.value in Digests(files[..n])
  {
    var n := |files| - 1;
    var init := files[..n];
    var h := files[n].digest.value;
    if h in Digests(init) {
      var i :| 0 <= i < n && init[i].digest.Some? && init[i].digest.value == h;
      assert files[i].digest == files[n].digest;
    }
    if SeenBefore(files, n) {
      var j :| 0 <= j < n && files[j].digest == files[n].digest;
      assert init[j] == files[j];
    }
  }

  /** The loop remembers exactly the digests read and lists exactly the
      later files with a repeated digest. */
  lemma {:induction false} SweepFacts(files: seq<Read>)
    ensures SweepFiles(files).first.Keys == Digests(files)
    ensures SweepFiles(files).dups == Later(files)
  {
    if |files| > 0 {
      var n := |files| - 1;
      SweepFacts(files[..n]);
      DigestsSnoc(files);
      if files[n].digest.Some? {
        SeenBeforeIff(files);
      }
    }
  }

  /** Each remembered digest maps to the path of the first file that had it. */
  lemma {:induction false} SweepKeepsFirst(files: seq<Read>)
    ensures forall h :: h in SweepFiles(files).first ==> FirstWith(files, h, SweepFiles(files).first[h])
  {
    if |files| > 0 {
      var n := |files| - 1;
      var init := files[..n];
      var f := files[n];
      SweepKeepsFirst(init);
      SweepFacts(init);
      var s := SweepFiles(init);
      var r := SweepFiles(files);
      forall h | h in r.first ensures FirstWith(files, h, r.first[h]) {
        if h in s.first {
          assert r.first[h] == s.first[h];
          var i :| 0 <= i < n && init[i] == Read(s.first[h], Some(h))
            && forall j :: 0 <= j < i ==> init[j].digest != Some(h);
          assert files[i] == init[i];
          assert forall j :: 0 <= j < i ==> files[j] == init[j];
        } else {
          assert f.digest == Some(h) && h !in Digests(init);
          forall j | 0 <= j < n ensures files[j].digest != Some(h) {
            assert files[j] == init[j];
            if init[j].digest.Some? { assert init[j].digest.value in Digests(init); }
          }
          assert files[n] == Read(r.first[h], Some(h));
        }
      }
    }
  }

  /** Every file read is either the first of its digest or listed:
      duplicates plus distinct digests make up the readable files. */
  lemma {:induction false} SweepCount(files: seq<Read>)
    ensures |SweepFiles(files).dups| + |SweepFiles(files).first| == Readable(files)
  {
    if |files| > 0 {
      var n := |files| - 1;
      SweepCount(files[..n]);
      var s := SweepFiles(files[..n]);
      var f := files[n];
      if f.digest.Some? && f.digest.value !in s.first {
        assert SweepFiles(files).first.Keys == s.first.Keys + {f.digest.value};
        assert |SweepFiles(files).first.Keys| == |s.first.Keys| + 1;
      }
    }
  }

  /** A listed path belongs to a readable file whose digest appeared earlier. */
  lemma {:induction false} LaterMembers(files: seq<Read>, p: string)
    ensures p in Later(files) ==> exists k :: 0 <= k < |files| && files[k].path == p && SeenBefore(files, k)
  {
    if |files| > 0 {
      var n := |files| - 1;
      var init := files[..n];
      LaterMembers(init, p);
      if p in Later(init) {
        var k :| 0 <= k < n && init[k].path == p && SeenBefore(init, k);
        var j :| 0 <= j < k && init[j].digest == init[k].digest;
        assert files[j] == init[j] && files[k] == init[k];
      }
    }
  }

  /** With distinct paths, the file kept for each digest is never listed
      for deletion, so one copy of every content survives. */
  lemma KeptNeverListed(files: seq<Read>, h: Digest)
    requires forall i, j :: 0 <= i < j < |files| ==> files[i].path != files[j].path
    requires h in SweepFiles(files).first
    ensures SweepFiles(files).first[h] !in SweepFiles(files).dups
  {
    SweepFacts(files);
    SweepKeepsFirst(files);
    var p := SweepFiles(files).first[h];
    var i :| 0 <= i < |files| && files[i] == Read(p, Some(h))
      && forall j :: 0 <= j < i ==> files[j].digest != Some(h);
    forall k | 0 <= k < |files| && SeenBefore(files, k) ensures files[k].path != p {
      var j :| 0 <= j < k && files[j].digest == files[k].digest;
      assert k != i;
    }
    LaterMembers(files, p);
  }
}
