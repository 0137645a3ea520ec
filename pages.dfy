/** Pages of an open document, and Python's list indexing over them. */
module Pages {
  import opened Wrappers

  /** One page of the open document: its 1-based position and its display name. */
  datatype Page = Page(position: nat, name: string)

  /** The pages as the document lists them: the k-th (0-based) carries position k + 1. */
  predicate Numbered(pages: seq<Page>)
  {
    forall k :: 0 <= k < |pages| ==> pages[k].position == k + 1
  }

  /**
   * Python's `xs[i]` on a list of length `n`: a negative `i` counts from the
   * end. The 0-based position read, or None where Python raises IndexError.
   */
  function PyIndex(n: nat, i: int): (r: Option<nat>)
    ensures r.Some? <==> -(n as int) <= i < n
    ensures r.Some? ==> r.value < n && (if i >= 0 then r.value == i else r.value == n + i)
  {
    if 0 <= i < n then Some(i) else if -(n as int) <= i < 0 then Some(n + i) else None
  }

  /** `a` is `b` with some elements dropped, the rest kept in order. */
  predicate IsSubsequence<T(==)>(a: seq<T>, b: seq<T>)
    decreases |b|
  {
    if a == [] then true
    else if b == [] then false
    else (a[0] == b[0] && IsSubsequence(a[1..], b[1..])) || IsSubsequence(a, b[1..])
  }

  lemma {:induction false} SubsequenceRefl<T>(b: seq<T>)
    ensures IsSubsequence(b, b)
  {
    if b != [] {
      SubsequenceRefl(b[1..]);
    }
  }

  lemma {:induction false} SingletonSubsequence<T>(b: seq<T>, k: nat)
    requires k < |b|
    ensures IsSubsequence([b[k]], b)
  {
    if k > 0 {
      SingletonSubsequence(b[1..], k - 1);
    } else {
      assert [b[k]][1..] == [];
    }
  }
}
