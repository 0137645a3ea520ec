/**
 * `filter_pages`: choosing the pages to export by an optional 1-based page
 * number and an optional exact page name. Both options follow Python's
 * truthiness: a page number of 0 and an empty name count as not given.
 */
module Selection {
  import opened Wrappers
  import opened Errors
  import opened Pages

  /** The page number is truthy. */
  predicate NumberGiven(pagenum: Option<int>) { pagenum.Some? && pagenum.value != 0 }

  /** The page name is truthy. */
  predicate NameGiven(pagename: Option<string>) { pagename.Some? && pagename.value != [] }

  /** The list comprehension `[page for page in pages if page.name == name]`. */
  function Matching(pages: seq<Page>, name: string): seq<Page>
  {
    if pages == [] then []
    else (if pages[0].name == name then [pages[0]] else []) + Matching(pages[1..], name)
  }

  /**
   * The pages chosen by `pagenum` and then `pagename`. A page number indexes
   * the page list as Python does (so -1 picks the second-to-last page: the
   * program subtracts one before indexing) and fails with InvalidPageNumber
   * when Python raises IndexError; a name keeps the pages carrying exactly
   * that name and fails with PageNotFound when none does.
   */
  function FilterPages(pages: seq<Page>, pagenum: Option<int>, pagename: Option<string>): (r: Result<seq<Page>, Error>)
    ensures r.Ok? ==> IsSubsequence(r.value, pages)
    ensures r.Ok? && (NumberGiven(pagenum) || NameGiven(pagename)) ==> r.value != []
    ensures r.Err? ==> r.error.Exception() == IndexError
  {
    var byNumber: Result<seq<Page>, Error> :=
      if NumberGiven(pagenum) then
        match PyIndex(|pages|, pagenum.value - 1)
        case Some(k) => (SingletonSubsequence(pages, k); Ok([pages[k]]))
        case None => Err(InvalidPageNumber(pagenum.value))
      else (SubsequenceRefl(pages); Ok(pages));
    if byNumber.Err? then byNumber
    else if NameGiven(pagename) then
      var named := Matching(byNumber.value, pagename.value);
      MatchingIsSubsequence(byNumber.value, pagename.value);
      SubsequenceTrans(named, byNumber.value, pages);
      if named == [] then Err(PageNotFound(pagename.value)) else Ok(named)
    else byNumber
  }

  /**
   * The name filter keeps exactly the pages carrying the name, each as often
   * as it occurs, in their original order.
   */
  lemma {:induction false} MatchingIsSubsequence(pages: seq<Page>, name: string)
    ensures IsSubsequence(Matching(pages, name), pages)
    ensures forall p :: p in Matching(pages, name) ==> p.name == name
    ensures forall p :: multiset(Matching(pages, name))[p] == if p.name == name then multiset(pages)[p] else 0
  {
    if pages != [] {
      MatchingIsSubsequence(pages[1..], name);
      var rest := Matching(pages[1..], name);
      assert pages == [pages[0]] + pages[1..];
      if pages[0].name == name {
        assert Matching(pages, name) == [pages[0]] + rest;
        assert Matching(pages, name)[1..] == rest;
      } else {
        assert Matching(pages, name) == rest;
      }
    }
  }

  lemma {:induction false} SubsequenceTrans<T>(a: seq<T>, b: seq<T>, c: seq<T>)
    requires IsSubsequence(a, b) && IsSubsequence(b, c)
    ensures IsSubsequence(a, c)
    decreases |c|
  {
    if a != [] && c != [] {
      assert b != [];
      if b[0] == c[0] && IsSubsequence(b[1..], c[1..]) {
        if a[0] == b[0] && IsSubsequence(a[1..], b[1..]) {
          SubsequenceTrans(a[1..], b[1..], c[1..]);
        } else {
          SubsequenceTrans(a, b[1..], c[1..]);
        }
      } else {
        SubsequenceTrans(a, b, c[1..]);
      }
    }
  }

  /** No page matches the name exactly when no page carries it. */
  lemma {:induction false} MatchingEmpty(pages: seq<Page>, name: string)
    ensures Matching(pages, name) == [] <==> forall i :: 0 <= i < |pages| ==> pages[i].name != name
  {
    if pages != [] {
      MatchingEmpty(pages[1..], name);
      assert forall i :: 1 <= i < |pages| ==> pages[i] == pages[1..][i - 1];
    }
  }

  /** With neither option given, every page is exported. */
  lemma FilterNothing(pages: seq<Page>, pagenum: Option<int>, pagename: Option<string>)
    requires !NumberGiven(pagenum) && !NameGiven(pagename)
    ensures FilterPages(pages, pagenum, pagename) == Ok(pages)
  {
  }

  /**
   * A page number alone picks the single page at that 1-based position; a
   * number past the last page is an error naming the number; a negative
   * number counts from the end as Python indexing does.
   */
  lemma FilterByNumber(pages: seq<Page>, n: int, pagename: Option<string>)
    requires n != 0 && !NameGiven(pagename)
    ensures 1 <= n <= |pages| ==> FilterPages(pages, Some(n), pagename) == Ok([pages[n - 1]])
    ensures n > |pages| ==> FilterPages(pages, Some(n), pagename) == Err(InvalidPageNumber(n))
    ensures n < 0 && 1 - |pages| <= n ==> FilterPages(pages, Some(n), pagename) == Ok([pages[|pages| + n - 1]])
    ensures n < 1 - |pages| ==> FilterPages(pages, Some(n), pagename) == Err(InvalidPageNumber(n))
  {
  }

  /**
   * A name alone selects every page carrying it, duplicates included, and is
   * an error exactly when no page carries it.
   */
  lemma FilterByName(pages: seq<Page>, pagenum: Option<int>, name: string)
    requires !NumberGiven(pagenum) && name != []
    ensures FilterPages(pages, pagenum, Some(name)).Err? <==> forall i :: 0 <= i < |pages| ==> pages[i].name != name
    ensures FilterPages(pages, pagenum, Some(name)).Err? ==> FilterPages(pages, pagenum, Some(name)).error == PageNotFound(name)
    ensures FilterPages(pages, pagenum, Some(name)).Ok? ==> FilterPages(pages, pagenum, Some(name)).value == Matching(pages, name)
  {
    MatchingEmpty(pages, name);
  }

  /**
   * Both options given: the number is applied first, so a number out of
   * range is reported whatever the name; otherwise the name is checked
   * against the page the number picked (counting from the end for a
   * negative number), giving that page or PageNotFound.
   */
  lemma FilterByNumberAndName(pages: seq<Page>, n: int, name: string)
    requires n != 0 && name != []
    ensures PyIndex(|pages|, n - 1).None? ==> FilterPages(pages, Some(n), Some(name)) == Err(InvalidPageNumber(n))
    ensures PyIndex(|pages|, n - 1).Some? && pages[PyIndex(|pages|, n - 1).value].name == name ==>
      FilterPages(pages, Some(n), Some(name)) == Ok([pages[PyIndex(|pages|, n - 1).value]])
    ensures PyIndex(|pages|, n - 1).Some? && pages[PyIndex(|pages|, n - 1).value].name != name ==>
      FilterPages(pages, Some(n), Some(name)) == Err(PageNotFound(name))
  {
    match PyIndex(|pages|, n - 1) {
      case None =>
      case Some(k) =>
        var picked := [pages[k]];
        assert picked[1..] == [];
        assert Matching(picked, name) == if pages[k].name == name then picked else [];
    }
  }

  /**
   * In a document whose pages carry their 1-based positions, a page number
   * in range picks the page with that position.
   */
  lemma FilterByNumberPicksPosition(pages: seq<Page>, n: int, pagename: Option<string>)
    requires Numbered(pages) && 1 <= n <= |pages| && !NameGiven(pagename)
    ensures FilterPages(pages, Some(n), pagename).Ok?
    ensures |FilterPages(pages, Some(n), pagename).value| == 1
    ensures FilterPages(pages, Some(n), pagename).value[0].position == n
  {
    FilterByNumber(pages, n, pagename);
  }
}
