/** POSIX `os.path.splitext`: the extension of a path is the suffix of its
    last component that starts at the component's last `.`, unless every
    character before that dot in the component is itself a dot (`.bashrc`,
    `..x`), in which case there is no extension. */
module PathExt {

  /** `s.rfind(c)`: the index of the last `c` in `s`, or -1. */
  function RFind(s: string, c: char): (r: int)
    ensures -1 <= r < |s|
    ensures r >= 0 ==> s[r] == c
    ensures forall i :: r < i < |s| ==> s[i] != c
  {
    if |s| == 0 then -1
    else if s[|s| - 1] == c then |s| - 1
    else RFind(s[..|s| - 1], c)
  }

  /** Some character of `p[lo..hi]` is not a dot. */
  predicate HasNonDot(p: string, lo: int, hi: int) {
    exists k :: lo <= k < hi && 0 <= k < |p| && p[k] != '.'
  }

  /** The extension, as `os.path.splitext(p)[1]` returns it. */
  function Ext(p: string): string {
    var sep := RFind(p, '/');
    var dot := RFind(p, '.');
    if dot > sep && HasNonDot(p, sep + 1, dot) then p[dot..] else ""
  }

  /** A reference description of a non-empty extension `e` of `p`, written
      without reference to the search order: `e` ends `p`, starts with the
      only dot it contains, contains no separator, and the rest of the last
      component holds a character other than a dot. */
  ghost predicate IsExtensionOf(p: string, e: string) {
    && 0 < |e| <= |p|
    && p[|p| - |e|..] == e
    && e[0] == '.'
    && (forall i :: 1 <= i < |e| ==> e[i] != '.')
    && (forall i :: 0 <= i < |e| ==> e[i] != '/')
    && exists k :: 0 <= k < |p| - |e| && p[k] != '.' && (forall j :: k <= j < |p| - |e| ==> p[j] != '/')
  }

  /** `Ext` agrees with the reference description in both directions. */
  lemma ExtCharacterization(p: string, e: string)
    ensures (e != "" && Ext(p) == e) <==> IsExtensionOf(p, e)
  {
    var sep := RFind(p, '/');
    var dot := RFind(p, '.');
    if e != "" && Ext(p) == e {
      var k :| sep + 1 <= k < dot && 0 <= k < |p| && p[k] != '.';
      assert |p| - |e| == dot;
      assert forall j :: k <= j < |p| - |e| ==> p[j] != '/';
      assert forall i :: 0 <= i < |e| ==> e[i] == p[dot + i];
    }
    if IsExtensionOf(p, e) {
      var d := |p| - |e|;
      assert p[d] == e[0];
      forall i | d < i < |p| ensures p[i] != '.' {
        assert p[i] == e[i - d];
      }
      assert dot == d;
      forall i | d <= i < |p| ensures p[i] != '/' {
        assert p[i] == e[i - d];
      }
      assert sep < d;
      var k :| 0 <= k < d && p[k] != '.' && (forall j :: k <= j < d ==> p[j] != '/');
      assert sep < k;
      assert HasNonDot(p, sep + 1, dot);
    }
  }

  /** A last component without any dot has no extension. */
  lemma NoDotNoExt(p: string)
    requires forall i :: RFind(p, '/') < i < |p| ==> p[i] != '.'
    ensures Ext(p) == ""
  {
  }

  /** A last component whose dots all lead it (`.bashrc`) has no extension. */
  lemma LeadingDotsNoExt(dir: string, dots: nat, name: string)
    requires dots > 0
    requires forall i :: 0 <= i < |name| ==> name[i] != '.' && name[i] != '/'
    ensures Ext(dir + "/" + seq(dots, _ => '.') + name) == ""
  {
    var p := dir + "/" + seq(dots, _ => '.') + name;
    var sep := RFind(p, '/');
    var dot := RFind(p, '.');
    assert p[|dir|] == '/';
    assert sep == |dir|;
    assert p[|dir| + dots] == '.';
    assert dot == |dir| + dots;
    assert !HasNonDot(p, sep + 1, dot);
  }

  /** The last `c` of a concatenation lies in the second part when that part has one. */
  lemma RFindAppend(a: string, b: string, c: char)
    ensures RFind(b, c) >= 0 ==> RFind(a + b, c) == |a| + RFind(b, c)
    ensures RFind(b, c) < 0 ==> RFind(a + b, c) == RFind(a, c)
  {
    assert forall i :: 0 <= i < |a| ==> (a + b)[i] == a[i];
    assert forall i :: |a| <= i < |a| + |b| ==> (a + b)[i] == b[i - |a|];
    var rb := RFind(b, c);
    if rb >= 0 {
      var r := RFind(a + b, c);
      assert (a + b)[|a| + rb] == c;
      assert r >= |a| + rb;
      assert b[r - |a|] == c;
    }
  }

  /** Only the last component matters: joining a directory in front of a
      file name does not change its extension. */
  lemma ExtIgnoresDirectory(dir: string, name: string)
    requires forall i :: 0 <= i < |name| ==> name[i] != '/'
    ensures Ext(dir + "/" + name) == Ext(name)
  {
    var a := dir + "/";
    var p := a + name;
    var o := |a|;
    RFindAppend(a, name, '/');
    RFindAppend(a, name, '.');
    assert RFind(a, '/') == |dir|;
    assert RFind(p, '/') == |dir|;
    var dn := RFind(name, '.');
    if dn >= 0 {
      var dp := RFind(p, '.');
      assert dp == o + dn;
      assert p[dp..] == name[dn..];
      if HasNonDot(name, 0, dn) {
        var k :| 0 <= k < dn && 0 <= k < |name| && name[k] != '.';
        assert p[o + k] == name[k];
        assert HasNonDot(p, o, dp);
      }
      if HasNonDot(p, o, dp) {
        var k :| o <= k < dp && 0 <= k < |p| && p[k] != '.';
        assert name[k - o] == p[k];
        assert HasNonDot(name, 0, dn);
      }
    } else {
      assert RFind(p, '.') <= |dir|;
    }
  }

  /** The algorithm of CPython's `genericpath._splitext`, with its two
      backward searches and its skip over leading dots. */
  method SplitExt(p: string) returns (root: string, ext: string)
    ensures root + ext == p
    ensures ext == Ext(p)
  {
    var sepIndex := -1;
    var i := |p|;
    while i > 0
      invariant 0 <= i <= |p|
      invariant forall j :: i <= j < |p| ==> p[j] != '/'
      decreases i
    {
      if p[i - 1] == '/' {
        sepIndex := i - 1;
        break;
      }
      i := i - 1;
    }
    assert sepIndex == RFind(p, '/');
    var dotIndex := -1;
    i := |p|;
    while i > 0
      invariant 0 <= i <= |p|
      invariant forall j :: i <= j < |p| ==> p[j] != '.'
      decreases i
    {
      if p[i - 1] == '.' {
        dotIndex := i - 1;
        break;
      }
      i := i - 1;
    }
    assert dotIndex == RFind(p, '.');
    if dotIndex > sepIndex {
      var filenameIndex := sepIndex + 1;
      while filenameIndex < dotIndex
        invariant sepIndex + 1 <= filenameIndex <= dotIndex
        invariant forall k :: sepIndex + 1 <= k < filenameIndex ==> p[k] == '.'
        decreases dotIndex - filenameIndex
      {
        if p[filenameIndex] != '.' {
          assert HasNonDot(p, sepIndex + 1, dotIndex);
          return p[..dotIndex], p[dotIndex..];
        }
        filenameIndex := filenameIndex + 1;
      }
    }
    return p, "";
  }
}
