/** `Criteria`: the cleanup window's criteria (the comma-separated extension
    and exclusion lists and the minimum size in megabytes), the per-file
    selection test `suppr_crit`, and the preview that lists the files a
    cleanup would delete. */
module Criteria {
  import opened Wrappers
  import opened Text
  import opened PathExt
  import opened Seqs

  // ------------------------------------------------------------- parsing

  /** The non-blank pieces, stripped, in order. */
  function StripAll(pieces: seq<string>): (r: seq<string>)
    ensures |r| <= |pieces|
    ensures forall i :: 0 <= i < |r| ==> r[i] != "" && Strip(r[i]) == r[i]
  {
    if |pieces| == 0 then []
    else
      var rest := StripAll(pieces[1..]);
      StripIdempotent(pieces[0]);
      (if Strip(pieces[0]) != "" then [Strip(pieces[0])] else []) + rest
  }

  /** Stripping one piece keeps it, stripped, exactly when it is not blank. */
  lemma StripAllSingle(x: string)
    ensures StripAll([x]) == if Strip(x) != "" then [Strip(x)] else []
  {
    assert [x][1..] == [];
  }

  /** The stripped form of one piece: itself stripped, or nothing when blank. */
  function StripOne(x: string): (r: seq<string>)
    ensures |r| <= 1
  {
    if Strip(x) != "" then [Strip(x)] else []
  }

  lemma StripAllCons(x: string, xs: seq<string>)
    ensures StripAll([x] + xs) == StripOne(x) + StripAll(xs)
  {
    assert ([x] + xs)[0] == x && ([x] + xs)[1..] == xs;
  }

  /** Stripping distributes over concatenation: the result keeps the pieces'
      order. */
  lemma {:induction false} StripAllAppend(a: seq<string>, b: seq<string>)
    ensures StripAll(a + b) == StripAll(a) + StripAll(b)
  {
    if |a| == 0 {
      assert a + b == b;
    } else {
      assert a + b == [a[0]] + (a[1..] + b);
      assert a == [a[0]] + a[1..];
      StripAllCons(a[0], a[1..] + b);
      StripAllCons(a[0], a[1..]);
      StripAllAppend(a[1..], b);
      ConcatAssoc(StripOne(a[0]), StripAll(a[1..]), StripAll(b));
    }
  }

  /** A list entry as a user would type it: non-empty, no comma, no
      surrounding whitespace. */
  predicate Clean(x: string) {
    x != "" && ',' !in x && Strip(x) == x
  }

  /** The exclusion list: the comma-separated pieces, stripped, blank ones
      dropped (case is kept). */
  function ParseList(text: string): seq<string> {
    StripAll(Split(text, ','))
  }

  lemma {:induction false} StripAllClean(xs: seq<string>)
    requires forall i :: 0 <= i < |xs| ==> Clean(xs[i])
    ensures StripAll(xs) == xs
  {
    if |xs| > 0 {
      StripAllClean(xs[1..]);
      assert [xs[0]] + xs[1..] == xs;
    }
  }

  /** Reading back a list written with commas gives the list. */
  lemma ParseListRoundTrip(xs: seq<string>)
    requires |xs| >= 1
    requires forall i :: 0 <= i < |xs| ==> Clean(xs[i])
    ensures ParseList(Join(xs, ',')) == xs
  {
    SplitJoin(xs, ',');
    StripAllClean(xs);
  }

  /** The extension filter: empty text gives no filter; otherwise the
      comma-separated pieces, stripped, blank ones dropped, lower-cased. */
  function ParseExtensions(text: string): (r: seq<string>)
    ensures text == "" ==> r == []
    ensures |r| == |ParseList(text)|
    ensures forall i :: 0 <= i < |r| ==> r[i] == Lower(ParseList(text)[i]) && r[i] != ""
  {
    if text == "" then []
    else
      var pieces := ParseList(text);
      seq(|pieces|, i requires 0 <= i < |pieces| => Lower(pieces[i]))
  }

  /** Reading back a lower-case extension list written with commas gives the list. */
  lemma ParseExtensionsRoundTrip(xs: seq<string>)
    requires |xs| >= 1
    requires forall i :: 0 <= i < |xs| ==> Clean(xs[i]) && Lower(xs[i]) == xs[i]
    ensures ParseExtensions(Join(xs, ',')) == xs
  {
    ParseListRoundTrip(xs);
    assert Join(xs, ',') != "" by {
      JoinNonEmpty(xs, ',');
    }
  }

  lemma JoinNonEmpty(xs: seq<string>, sep: char)
    requires |xs| >= 1 && xs[0] != ""
    ensures |Join(xs, sep)| > 0
  {
  }

  const BytesPerMB: nat := 1048576

  /** The minimum size in bytes: a text of digits is a number of megabytes,
      anything else means no minimum. */
  function MinSizeBytes(text: string): (r: nat)
    ensures !IsDigits(text) ==> r == 0
    ensures r % BytesPerMB == 0
  {
    if IsDigits(text) then DecimalValue(text) * BytesPerMB else 0
  }

  /** A number of megabytes written in decimal reads back as that many
      megabytes, in bytes. */
  lemma MinSizeRoundTrip(n: nat)
    ensures MinSizeBytes(NatToDecimal(n)) == n * BytesPerMB
  {
    DecimalRoundTrip(n);
  }

  lemma MinSizeExamples()
    ensures MinSizeBytes("10") == 10 * BytesPerMB
    ensures MinSizeBytes("") == 0
    ensures MinSizeBytes("-1") == 0
    ensures MinSizeBytes("1.5") == 0
  {
    assert IsDigits("10");
    assert DecimalValue("10") == DecimalValue("1") * 10 + 0;
    assert !IsDigits("-1") by { assert !IsDigit("-1"[0]); }
    assert !IsDigits("1.5") by { assert !IsDigit("1.5"[1]); }
  }

  // ----------------------------------------------------------- selection

  /** What the file system answers about one file: its creation time (as a
      local timestamp in whole microseconds, the resolution of `datetime`)
      and size, None where the call raises. */
  datatype FileInfo = FileInfo(path: string, ctime: Option<int>, size: Option<nat>)

  /** The selection criteria, parsed. `reference` is the chosen date and
      `mode` is "avant" (before) or "apres" (after). */
  datatype Crit = Crit(reference: int, mode: string, exts: seq<string>, minSize: nat, excluded: seq<string>)

  /** Some exclusion text occurs in the path. */
  predicate Excluded(path: string, excluded: seq<string>) {
    exists i :: 0 <= i < |excluded| && Contains(path, excluded[i])
  }

  /** The date test: strictly before or strictly after the reference date,
      and false for any other mode. */
  predicate DateMatches(ctime: int, c: Crit) {
    (c.mode == "avant" && ctime < c.reference) || (c.mode == "apres" && ctime > c.reference)
  }

  /** `suppr_crit` as written: the exclusion test, then the creation time
      (which may raise), then the extension filter comparing the extension
      as it appears in the path, then the size (read only when a minimum is
      set; it may raise), then the date. None means the call raises. */
  function SupprCritAsWritten(f: FileInfo, c: Crit): (r: Option<bool>)
    ensures Excluded(f.path, c.excluded) ==> r == Some(false)
    ensures r == Some(true) ==> |c.exts| > 0 ==> Ext(f.path) in c.exts
    ensures r == Some(true) <==>
      && !Excluded(f.path, c.excluded) && f.ctime.Some? && (|c.exts| == 0 || Ext(f.path) in c.exts)
      && (c.minSize != 0 ==> f.size.Some? && f.size.value >= c.minSize)
      && DateMatches(f.ctime.value, c)
    ensures r == None <==>
      && !Excluded(f.path, c.excluded)
      && (f.ctime.None? || ((|c.exts| == 0 || Ext(f.path) in c.exts) && c.minSize != 0 && f.size.None?))
  {
    if Excluded(f.path, c.excluded) then Some(false)
    else if f.ctime.None? then None
    else if |c.exts| > 0 && Ext(f.path) !in c.exts then Some(false)
    else if c.minSize != 0 && f.size.None? then None
    else if c.minSize != 0 && f.size.value < c.minSize then Some(false)
    else Some(DateMatches(f.ctime.value, c))
  }

  /** The extension filter admits the path: no filter, or the path's
      extension in lower case is listed. */
  predicate ExtAdmits(path: string, exts: seq<string>) {
    |exts| == 0 || Lower(Ext(path)) in exts
  }

  /** `suppr_crit` with the extension lower-cased before it is looked up in
      the (lower-cased) filter. */
  function SupprCrit(f: FileInfo, c: Crit): (r: Option<bool>)
    ensures r == Some(true) <==>
      && !Excluded(f.path, c.excluded) && f.ctime.Some? && ExtAdmits(f.path, c.exts)
      && (c.minSize != 0 ==> f.size.Some? && f.size.value >= c.minSize)
      && DateMatches(f.ctime.value, c)
    ensures r == None <==>
      && !Excluded(f.path, c.excluded)
      && (f.ctime.None? || (ExtAdmits(f.path, c.exts) && c.minSize != 0 && f.size.None?))
  {
    if Excluded(f.path, c.excluded) then Some(false)
    else if f.ctime.None? then None
    else if !ExtAdmits(f.path, c.exts) then Some(false)
    else if c.minSize != 0 && f.size.None? then None
    else if c.minSize != 0 && f.size.value < c.minSize then Some(false)
    else Some(DateMatches(f.ctime.value, c))
  }

  /** The two agree whenever the path's extension has no upper-case letter. */
  lemma AsWrittenAgreesOnLowerCase(f: FileInfo, c: Crit)
    requires forall i :: 0 <= i < |Ext(f.path)| ==> !IsUpper(Ext(f.path)[i])
    ensures SupprCritAsWritten(f, c) == SupprCrit(f, c)
  {
    LowerIdempotent(Ext(f.path));
  }

  /** As written, a file whose extension has an upper-case letter is never
      selected once an extension filter is set from the criteria text. */
  lemma AsWrittenMissesUpperCase(f: FileInfo, c: Crit, text: string, k: nat)
    requires c.exts == ParseExtensions(text) && |c.exts| > 0
    requires k < |Ext(f.path)| && IsUpper(Ext(f.path)[k])
    ensures SupprCritAsWritten(f, c) != Some(true)
  {
    forall i | 0 <= i < |c.exts| ensures c.exts[i] != Ext(f.path) {
      if |c.exts[i]| == |Ext(f.path)| {
        assert c.exts[i][k] != Ext(f.path)[k];
      }
    }
  }

  /** The concrete case: `PHOTO.JPG` created before the reference date, with
      the filter ".jpg", is skipped as written and selected once corrected. */
  lemma UpperCaseExtensionExample()
    ensures var f := FileInfo("img/PHOTO.JPG", Some(0), Some(10));
      var c := Crit(1, "avant", [".jpg"], 0, []);
      SupprCritAsWritten(f, c) == Some(false) && SupprCrit(f, c) == Some(true)
  {
    var p := "img/PHOTO.JPG";
    assert RFind(p, '/') == 3 by {
      assert p[3] == '/';
      assert forall i :: 3 < i < |p| ==> p[i] != '/';
    }
    assert RFind(p, '.') == 9 by {
      assert p[9] == '.';
      assert forall i :: 9 < i < |p| ==> p[i] != '.';
    }
    assert HasNonDot(p, 4, 9) by { assert p[4] != '.'; }
    assert Ext(p) == ".JPG";
    assert Lower(".JPG") == ".jpg";
    assert ".JPG" != ".jpg" by { assert ".JPG"[1] != ".jpg"[1]; }
    assert !Excluded(p, []);
  }

  /** More exclusions, a larger minimum or a narrower extension filter never
      select a file the looser criteria skip, under either extension test. */
  lemma StricterSelectsLess(f: FileInfo, c: Crit, d: Crit)
    requires d.reference == c.reference && d.mode == c.mode
    requires forall i :: 0 <= i < |c.excluded| ==> c.excluded[i] in d.excluded
    requires c.minSize != 0 ==> d.minSize >= c.minSize
    requires |c.exts| > 0 ==> |d.exts| > 0 && forall e :: e in d.exts ==> e in c.exts
    ensures SupprCrit(f, d) == Some(true) ==> SupprCrit(f, c) == Some(true)
    ensures SupprCritAsWritten(f, d) == Some(true) ==> SupprCritAsWritten(f, c) == Some(true)
  {
    if SupprCrit(f, d) == Some(true) || SupprCritAsWritten(f, d) == Some(true) {
      forall i | 0 <= i < |c.excluded| ensures !Contains(f.path, c.excluded[i]) {
        var j :| 0 <= j < |d.excluded| && d.excluded[j] == c.excluded[i];
        assert !Contains(f.path, d.excluded[j]);
      }
    }
  }

  /** A mode other than "avant" and "apres" selects nothing, under either
      extension test. */
  lemma UnknownModeSelectsNothing(f: FileInfo, c: Crit)
    requires c.mode != "avant" && c.mode != "apres"
    ensures SupprCrit(f, c) != Some(true)
    ensures SupprCritAsWritten(f, c) != Some(true)
  {
  }

  // ------------------------------------------------------------- preview

  /** The preview: a missing directory shows an error; a date that does not
      parse or a selection test that raises aborts the whole preview;
      otherwise the selected files whose size and creation time can be read. */
  datatype Preview = MissingDirectory | Aborted | Listed(paths: seq<string>)

  /** Whether a selected file is listed (the second size and creation-time
      reads succeed). */
  predicate Listable(f: FileInfo) {
    f.size.Some? && f.ctime.Some?
  }

  /** The walk over the files, in walk order, under the selection test
      `select` (None when the test raises). */
  function Scan(files: seq<FileInfo>, select: FileInfo -> Option<bool>): (r: Option<seq<string>>)
    ensures r.None? <==> exists i :: 0 <= i < |files| && select(files[i]).None?
    ensures r.Some? ==> |r.value| <= |files|
    ensures r.Some? ==> forall p :: p in r.value <==>
      exists i :: 0 <= i < |files| && files[i].path == p && select(files[i]) == Some(true) && Listable(files[i])
  {
    if |files| == 0 then Some([])
    else
      var init := files[..|files| - 1];
      var f := files[|files| - 1];
      var before := Scan(init, select);
      assert forall i :: 0 <= i < |init| ==> init[i] == files[i];
      match select(f)
      case None => None
      case Some(sel) =>
        if before.None? then None
        else if sel && Listable(f) then Some(before.value + [f.path])
        else before
  }

  /** The walk keeps walk order: a file walked after the others adds its
      path at the end, when it is selected and listable. */
  lemma ScanSnoc(files: seq<FileInfo>, f: FileInfo, select: FileInfo -> Option<bool>)
    requires Scan(files, select).Some? && select(f).Some?
    ensures Scan(files + [f], select) ==
      Some(Scan(files, select).value + (if select(f) == Some(true) && Listable(f) then [f.path] else []))
  {
    var all := files + [f];
    assert all[..|all| - 1] == files && all[|all| - 1] == f;
    assert Scan(files, select).value + [] == Scan(files, select).value;
  }

  /** The criteria read from the form: the parsed reference date, the mode,
      and the extension, size and exclusion texts. */
  function CritOf(date: int, mode: string, extText: string, sizeText: string, exclText: string): (c: Crit)
    ensures c.reference == date && c.mode == mode
    ensures c.exts == ParseExtensions(extText) && c.excluded == ParseList(exclText)
    ensures c.minSize == MinSizeBytes(sizeText)
  {
    Crit(date, mode, ParseExtensions(extText), MinSizeBytes(sizeText), ParseList(exclText))
  }

  /** `preview_elements` after the criteria are read, with `suppr_crit` as
      written: `date` is the parsed reference date, None when the text does
      not parse. */
  function PreviewFiles(dirExists: bool, date: Option<int>, mode: string, extText: string,
                        sizeText: string, exclText: string, files: seq<FileInfo>): (r: Preview)
    ensures !dirExists ==> r == MissingDirectory
    ensures dirExists && date.None? ==> r == Aborted
    ensures dirExists && date.Some? ==>
      (r == Aborted <==>
         exists i :: 0 <= i < |files| && SupprCritAsWritten(files[i], CritOf(date.value, mode, extText, sizeText, exclText)).None?)
    ensures r.Listed? ==> forall p :: p in r.paths <==>
      exists i :: 0 <= i < |files| && files[i].path == p && Listable(files[i])
        && SupprCritAsWritten(files[i], CritOf(date.value, mode, extText, sizeText, exclText)) == Some(true)
  {
    if !dirExists then MissingDirectory
    else if date.None? then Aborted
    else
      var c := CritOf(date.value, mode, extText, sizeText, exclText);
      match Scan(files, f => SupprCritAsWritten(f, c))
      case None => Aborted
      case Some(paths) => Listed(paths)
  }

  /** The preview with the corrected selection test, which lower-cases the
      path's extension before the lookup. */
  function PreviewFilesCorrected(dirExists: bool, date: Option<int>, mode: string, extText: string,
                                 sizeText: string, exclText: string, files: seq<FileInfo>): (r: Preview)
    ensures !dirExists ==> r == MissingDirectory
    ensures dirExists && date.None? ==> r == Aborted
    ensures dirExists && date.Some? ==>
      (r == Aborted <==>
         exists i :: 0 <= i < |files| && SupprCrit(files[i], CritOf(date.value, mode, extText, sizeText, exclText)).None?)
    ensures r.Listed? ==> forall p :: p in r.paths <==>
      exists i :: 0 <= i < |files| && files[i].path == p && Listable(files[i])
        && SupprCrit(files[i], CritOf(date.value, mode, extText, sizeText, exclText)) == Some(true)
  {
    if !dirExists then MissingDirectory
    else if date.None? then Aborted
    else
      var c := CritOf(date.value, mode, extText, sizeText, exclText);
      match Scan(files, f => SupprCrit(f, c))
      case None => Aborted
      case Some(paths) => Listed(paths)
  }

  /** Both previews agree on a walk whose extensions have no upper-case
      letter. */
  lemma PreviewsAgreeOnLowerCase(dirExists: bool, date: Option<int>, mode: string, extText: string,
                                 sizeText: string, exclText: string, files: seq<FileInfo>)
    requires forall i, j :: 0 <= i < |files| && 0 <= j < |Ext(files[i].path)| ==> !IsUpper(Ext(files[i].path)[j])
    ensures PreviewFiles(dirExists, date, mode, extText, sizeText, exclText, files)
         == PreviewFilesCorrected(dirExists, date, mode, extText, sizeText, exclText, files)
  {
    if dirExists && date.Some? {
      var c := CritOf(date.value, mode, extText, sizeText, exclText);
      ScanAgree(files, c);
    }
  }

  lemma {:induction false} ScanAgree(files: seq<FileInfo>, c: Crit)
    requires forall i, j :: 0 <= i < |files| && 0 <= j < |Ext(files[i].path)| ==> !IsUpper(Ext(files[i].path)[j])
    ensures Scan(files, f => SupprCritAsWritten(f, c)) == Scan(files, f => SupprCrit(f, c))
  {
    if |files| > 0 {
      var init := files[..|files| - 1];
      ScanAgree(init, c);
      AsWrittenAgreesOnLowerCase(files[|files| - 1], c);
    }
  }

  /** A file whose path contains an exclusion text is never listed, and
      never makes the preview abort, under either selection test. */
  lemma ExcludedNeverListed(files: seq<FileInfo>, c: Crit, k: nat)
    requires k < |files| && Excluded(files[k].path, c.excluded)
    requires forall i :: 0 <= i < |files| && files[i].path == files[k].path ==> i == k
    ensures Scan(files, f => SupprCritAsWritten(f, c)).Some? ==>
      files[k].path !in Scan(files, f => SupprCritAsWritten(f, c)).value
    ensures Scan(files, f => SupprCrit(f, c)).Some? ==> files[k].path !in Scan(files, f => SupprCrit(f, c)).value
    ensures SupprCritAsWritten(files[k], c) == Some(false) && SupprCrit(files[k], c) == Some(false)
  {
  }
}
