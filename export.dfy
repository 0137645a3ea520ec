/**
 * `export_img`: check that the destination directory exists, open the source
 * in the host, choose the pages, name the output files and export each page
 * to its file, stopping at the first failure; the host is released on every
 * exit from the `with` block.
 *
 * Whether each `Export` call succeeds is decided by the host; the k-th call
 * (0-based) succeeds when `exportOk(k)` holds.
 */
module Export {
  import opened Wrappers
  import opened Errors
  import opened Pages
  import opened Decimal
  import opened PathText
  import opened Naming
  import opened Selection
  import opened Session

  /** One `page.Export(filename)` call. */
  datatype ExportCall = ExportCall(page: Page, filename: string)

  /**
   * The calls for exporting `pages[k]` to `names[k]`, in order: Python's
   * `zip`, which stops at the shorter of the two.
   */
  function Calls(pages: seq<Page>, names: seq<string>): (r: seq<ExportCall>)
    ensures |r| == (if |pages| <= |names| then |pages| else |names|)
    ensures forall k :: 0 <= k < |r| ==> r[k] == ExportCall(pages[k], names[k])
  {
    var n := if |pages| <= |names| then |pages| else |names|;
    seq(n, k requires 0 <= k < n => ExportCall(pages[k], names[k]))
  }

  /** The position of the first of `n` calls that fails, or `n` when none does. */
  function FirstFailure(n: nat, exportOk: nat -> bool): (k: nat)
    ensures k <= n
    ensures forall j :: 0 <= j < k ==> exportOk(j)
    ensures k < n ==> !exportOk(k)
  {
    if n == 0 then 0
    else
      var k := FirstFailure(n - 1, exportOk);
      if k < n - 1 then k else if exportOk(n - 1) then n else n - 1
  }

  /** The calls actually made from `jobs`: in order, up to and including the first that fails. */
  function CallsUntilFailure(jobs: seq<ExportCall>, exportOk: nat -> bool): seq<ExportCall>
  {
    var k := FirstFailure(|jobs|, exportOk);
    jobs[..if k < |jobs| then k + 1 else k]
  }

  /**
   * The Export calls made for the selected pages: one page to the
   * destination path itself, several to their numbered names. None for an
   * empty selection, whose naming raises first.
   */
  function ExportsMade(selected: seq<Page>, path: string, exportOk: nat -> bool): seq<ExportCall>
  {
    if |selected| == 0 then []
    else CallsUntilFailure(Calls(selected, NamesFor(path, |selected|).value), exportOk)
  }

  /** Every selected page was exported. */
  predicate ExportsSucceed(selected: seq<Page>, exportOk: nat -> bool)
  {
    |selected| > 0 && FirstFailure(|selected|, exportOk) == |selected|
  }

  /**
   * The loop making each call of `jobs` in turn; an Export call that raises
   * ends it. Ok is true when every call succeeded.
   */
  method ExportEach(jobs: seq<ExportCall>, exportOk: nat -> bool) returns (calls: seq<ExportCall>, ok: bool)
    ensures calls == CallsUntilFailure(jobs, exportOk)
    ensures ok <==> FirstFailure(|jobs|, exportOk) == |jobs|
  {
    calls := [];
    var i := 0;
    while i < |jobs|
      invariant 0 <= i <= |jobs|
      invariant calls == jobs[..i]
      invariant forall j :: 0 <= j < i ==> exportOk(j)
    {
      calls := calls + [jobs[i]];
      if !exportOk(i) {
        assert FirstFailure(|jobs|, exportOk) == i;
        assert calls == jobs[..i + 1];
        return calls, false;
      }
      i := i + 1;
    }
    ok := true;
  }

  /**
   * The `try` block of `export_img`: one page goes to the destination path
   * itself, several to numbered names. Ok is false when the block raises (an
   * Export call failing, or the naming of an empty selection).
   */
  method WritePages(pages: seq<Page>, imagePathname: string, exportOk: nat -> bool)
    returns (calls: seq<ExportCall>, ok: bool)
    ensures calls == ExportsMade(pages, imagePathname, exportOk)
    ensures ok == ExportsSucceed(pages, exportOk)
  {
    if |pages| == 1 {
      calls := [ExportCall(pages[0], imagePathname)];
      ok := exportOk(0);
      assert NamesFor(imagePathname, 1).value == [imagePathname];
      return;
    }
    var names := NamesFor(imagePathname, |pages|);
    if names.None? {
      return [], false;
    }
    calls, ok := ExportEach(Calls(pages, names.value), exportOk);
  }

  /**
   * Each call exports the page at its position; every call before the last
   * succeeded, and the calls stop short of the selection only after a
   * failure. The export succeeds exactly when every page was exported.
   */
  lemma ExportsStopAtFirstFailure(selected: seq<Page>, path: string, exportOk: nat -> bool)
    ensures |ExportsMade(selected, path, exportOk)| <= |selected|
    ensures forall k :: 0 <= k < |ExportsMade(selected, path, exportOk)| ==> ExportsMade(selected, path, exportOk)[k].page == selected[k]
    ensures forall k :: 0 <= k < |ExportsMade(selected, path, exportOk)| - 1 ==> exportOk(k)
    ensures 0 < |ExportsMade(selected, path, exportOk)| < |selected| ==> !exportOk(|ExportsMade(selected, path, exportOk)| - 1)
    ensures ExportsSucceed(selected, exportOk) <==>
      |selected| > 0 && |ExportsMade(selected, path, exportOk)| == |selected| && forall k :: 0 <= k < |selected| ==> exportOk(k)
    ensures |selected| > 0 ==> |ExportsMade(selected, path, exportOk)| > 0
  {
  }

  /** A single selected page is exported to the destination path verbatim. */
  lemma SinglePageVerbatim(page: Page, path: string, exportOk: nat -> bool)
    ensures ExportsMade([page], path, exportOk) == [ExportCall(page, path)]
  {
    assert NamesFor(path, 1).value == [path];
  }

  /** No two Export calls write the same file. */
  lemma ExportsWriteDistinctFiles(selected: seq<Page>, path: string, exportOk: nat -> bool)
    ensures forall i, j :: 0 <= i < j < |ExportsMade(selected, path, exportOk)| ==>
      ExportsMade(selected, path, exportOk)[i].filename != ExportsMade(selected, path, exportOk)[j].filename
  {
    var made := ExportsMade(selected, path, exportOk);
    if |selected| >= 2 {
      NamesForOrdered(path, |selected|);
      var names := NamesFor(path, |selected|).value;
      forall i, j | 0 <= i < j < |made|
        ensures made[i].filename != made[j].filename
      {
        assert made[i].filename == names[i] && made[j].filename == names[j];
      }
    }
  }

  /**
   * `export_img(visio_filename, image_filename, pagenum, pagename)`, where
   * `imagePathname` is the absolute form of `imageFilename`. Returns the
   * outcome, the Export calls made, and the VisioFile the `with` block held
   * (null when the destination check failed first).
   */
  method ExportImg(visioFilename: string, imageFilename: string, imagePathname: string,
                   pagenum: Option<int>, pagename: Option<string>,
                   outputDirExists: bool, sourceExists: bool, launchOk: bool, documentOk: bool,
                   document: seq<Page>, exportOk: nat -> bool)
    returns (r: Outcome<Error>, calls: seq<ExportCall>, visio: VisioFile?)
    ensures visio == null <==> !outputDirExists
    ensures visio != null ==> visio.Valid() && !visio.live && visio.launches == visio.quits
    ensures visio != null ==> visio.launches == (if sourceExists && launchOk then 1 else 0)
    ensures !outputDirExists ==> r == Fail(CouldNotWriteImageFile(imageFilename)) && calls == []
    ensures outputDirExists && !sourceExists ==> r == Fail(NoSuchVisioFile(visioFilename)) && calls == []
    ensures outputDirExists && sourceExists && !launchOk ==> r == Fail(VisioNotFound) && calls == []
    ensures outputDirExists && sourceExists && launchOk && !documentOk ==>
      r == Fail(CouldNotOpenFile(visioFilename)) && calls == []
    ensures outputDirExists && sourceExists && launchOk && documentOk ==>
      match FilterPages(document, pagenum, pagename)
      case Err(e) => r == Fail(e) && calls == []
      case Ok(selected) =>
        calls == ExportsMade(selected, imagePathname, exportOk) &&
        (if ExportsSucceed(selected, exportOk) then r == Pass else r == Fail(CouldNotWriteImage(imagePathname)))
  {
    if !outputDirExists {
      return Fail(CouldNotWriteImageFile(imageFilename)), [], null;
    }
    var openResult;
    visio, openResult := VisioFile.OpenNew(visioFilename, sourceExists, launchOk, documentOk, document);
    if openResult.Fail? {
      return openResult, [], visio;
    }
    // the body of the `with` block; every exit from it runs `__exit__`
    var selection := FilterPages(visio.Pages(), pagenum, pagename);
    if selection.Err? {
      var _ := visio.Exit();
      return Fail(selection.error), [], visio;
    }
    var ok;
    calls, ok := WritePages(selection.value, imagePathname, exportOk);
    var _ := visio.Exit();
    r := if ok then Pass else Fail(CouldNotWriteImage(imagePathname));
  }
}
