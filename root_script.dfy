/**
 * The earlier single-file script `visio2img.py`: the same pipeline without
 * page names, without zero padding and without a `with` block; the host is
 * quit in a `finally` clause. Host outcomes enter as parameters, as in the
 * package version; here the host is asked for the ProgID that
 * `get_dispatch_format` derives from the source's extension, and
 * `dispatchOk` says whether the host starts for that ProgID.
 */
module RootScript {
  import opened Wrappers
  import opened Pages
  import opened Decimal
  import opened PathText
  import Export

  datatype Failure =
    | FileNotFound                  // 'File Not Found' printed, process exits
    | ApplicationUnbound            // Dispatch raised: `application` is unbound in `finally`
    | DocumentOpenFailed            // Documents.Open raised
    | PageIndexError(pageNum: int)  // list index out of range
    | ExportFailed(filename: string) // page.Export raised

  const InvisibleApp := "Visio.InvisibleApp"

  /** `get_dispatch_format`: the ProgID for `.vsd` sources; None (the implicit return) for any other. */
  function DispatchFormat(extension: string): (r: Option<string>)
    ensures r.Some? <==> extension == "vsd"
    ensures r.Some? ==> r.value == InvisibleApp
  {
    if extension == "vsd" then Some(InvisibleApp) else None
  }

  /** Python's `s[1:]`. */
  function DropFirst(s: string): string
  {
    if s == [] then [] else s[1..]
  }

  /**
   * A ProgID is requested exactly for sources whose extension is `.vsd`,
   * compared case-sensitively: `.VSD` and `.vsdx` get None.
   */
  lemma DispatchFormatOfSource(filename: string)
    ensures DispatchFormat(DropFirst(Extension(filename))).Some? <==> Extension(filename) == ".vsd"
  {
    var ext := Extension(filename);
    if ext != [] && DropFirst(ext) == "vsd" {
      assert ext == [ext[0]] + ext[1..];
    }
  }

  /** `get_pages`: every page, or the single page at 1-based `page_num` (Python indexing). */
  function GetPages(pages: seq<Page>, pageNum: Option<int>): (r: Result<seq<Page>, Failure>)
    ensures pageNum.None? || pageNum.value == 0 ==> r == Ok(pages)
    ensures pageNum.Some? && 1 <= pageNum.value <= |pages| ==> r == Ok([pages[pageNum.value - 1]])
    ensures pageNum.Some? && pageNum.value > |pages| ==> r == Err(PageIndexError(pageNum.value))
    ensures pageNum.Some? && pageNum.value < 0 && 1 - |pages| <= pageNum.value ==> r == Ok([pages[|pages| + pageNum.value - 1]])
    ensures pageNum.Some? && pageNum.value != 0 && pageNum.value < 1 - |pages| ==> r == Err(PageIndexError(pageNum.value))
    ensures r.Ok? ==> IsSubsequence(r.value, pages)
  {
    if pageNum.Some? && pageNum.value != 0 then
      match PyIndex(|pages|, pageNum.value - 1)
      case Some(k) => (SingletonSubsequence(pages, k); Ok([pages[k]]))
      case None => Err(PageIndexError(pageNum.value))
    else
      SubsequenceRefl(pages);
      Ok(pages)
  }

  /** The name of page `i` when page numbers are not padded. */
  function UnpaddedName(outFilename: string, i: nat): string
  {
    SplitExt(outFilename).0 + NatToString(i) + SplitExt(outFilename).1
  }

  /**
   * `page_names`: the output name itself for one page; otherwise the stem,
   * the unpadded page number and the extension for each page (none for no
   * pages).
   */
  function PageNames(outFilename: string, n: nat): (r: seq<string>)
    ensures |r| == n
    ensures n == 1 ==> r == [outFilename]
    ensures n != 1 ==> forall k :: 0 <= k < n ==> r[k] == UnpaddedName(outFilename, k + 1)
  {
    if n == 1 then [outFilename]
    else seq(n, k requires 0 <= k < n => UnpaddedName(outFilename, k + 1))
  }

  /** With two or more pages, the names are pairwise distinct. */
  lemma PageNamesDistinct(outFilename: string, n: nat)
    requires n >= 2
    ensures forall i, j :: 0 <= i < j < n ==> PageNames(outFilename, n)[i] != PageNames(outFilename, n)[j]
  {
    var stem, ext := SplitExt(outFilename).0, SplitExt(outFilename).1;
    var names := PageNames(outFilename, n);
    forall i, j | 0 <= i < j < n
      ensures names[i] != names[j]
    {
      if names[i] == names[j] {
        InfixCancel(stem, NatToString(i + 1), NatToString(j + 1), ext);
        NatToStringInjective(i + 1, j + 1);
      }
    }
  }

  lemma InfixCancel(stem: string, a: string, b: string, ext: string)
    requires stem + a + ext == stem + b + ext
    ensures a == b
  {
    var s := stem + a + ext;
    assert |a| == |b|;
    assert a == s[|stem|..|stem| + |a|];
  }

  /**
   * Without padding, name order is not page order once there are ten pages:
   * page 10's name sorts before page 2's.
   */
  lemma PageNamesUnsortedFromTen(outFilename: string, n: nat)
    requires n >= 10
    ensures LexLess(PageNames(outFilename, n)[9], PageNames(outFilename, n)[1])
  {
    TenBeforeTwo(SplitExt(outFilename).0, SplitExt(outFilename).1);
  }

  /** The calls `zip(pages, page_names)` leads to, up to and including the first that fails. */
  function ExportsMade(selected: seq<Page>, outFilename: string, exportOk: nat -> bool): seq<Export.ExportCall>
  {
    Export.CallsUntilFailure(Export.Calls(selected, PageNames(outFilename, |selected|)), exportOk)
  }

  /**
   * One Export per page, in order: call k exports page k to name k, and when
   * no call fails every page is exported.
   */
  lemma ExportsInPageOrder(selected: seq<Page>, outFilename: string, exportOk: nat -> bool)
    ensures |ExportsMade(selected, outFilename, exportOk)| <= |selected|
    ensures forall k :: 0 <= k < |ExportsMade(selected, outFilename, exportOk)| ==>
      ExportsMade(selected, outFilename, exportOk)[k] == Export.ExportCall(selected[k], PageNames(outFilename, |selected|)[k])
    ensures Export.FirstFailure(|selected|, exportOk) == |selected| ==> |ExportsMade(selected, outFilename, exportOk)| == |selected|
  {
  }

  /**
   * `export_img(in_filename, out_filename, page_num)`. `launched` tells
   * whether Dispatch returned a host; `quits` counts `application.Quit()`.
   * The script reads the global `options.page` where this takes `pageNum`.
   */
  method ExportImg(inFilename: string, outFilename: string, pageNum: Option<int>,
                   sourceExists: bool, dispatchOk: Option<string> -> bool, documentOk: bool,
                   document: seq<Page>, exportOk: nat -> bool)
    returns (r: Outcome<Failure>, calls: seq<Export.ExportCall>, launched: bool, ghost quits: nat)
    ensures !sourceExists ==> r == Fail(FileNotFound) && calls == [] && !launched
    ensures sourceExists ==> (launched <==> dispatchOk(DispatchFormat(DropFirst(Extension(inFilename)))))
    ensures quits == (if launched then 1 else 0)
    ensures sourceExists && !launched ==> r == Fail(ApplicationUnbound) && calls == []
    ensures launched && !documentOk ==> r == Fail(DocumentOpenFailed) && calls == []
    ensures launched && documentOk ==>
      match GetPages(document, pageNum)
      case Err(e) => r == Fail(e) && calls == []
      case Ok(selected) =>
        calls == ExportsMade(selected, outFilename, exportOk) &&
        (r == Pass <==> Export.FirstFailure(|selected|, exportOk) == |selected|) &&
        (r != Pass ==> r == Fail(ExportFailed(calls[|calls| - 1].filename)))
  {
    quits := 0;
    launched := false;
    calls := [];
    if !sourceExists {
      return Fail(FileNotFound), [], false, 0;
    }
    var format := DispatchFormat(DropFirst(Extension(inFilename)));
    if !dispatchOk(format) {
      // the `finally` clause names `application`, which was never bound
      return Fail(ApplicationUnbound), [], false, 0;
    }
    launched := true;
    if !documentOk {
      quits := quits + 1;
      return Fail(DocumentOpenFailed), [], true, quits;
    }
    var selection := GetPages(document, pageNum);
    if selection.Err? {
      quits := quits + 1;
      return Fail(selection.error), [], true, quits;
    }
    var pages := selection.value;
    var ok;
    calls, ok := Export.ExportEach(Export.Calls(pages, PageNames(outFilename, |pages|)), exportOk);
    quits := quits + 1;
    if !ok {
      return Fail(ExportFailed(calls[|calls| - 1].filename)), calls, true, quits;
    }
    r := Pass;
  }
}
