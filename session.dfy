/**
 * `VisioFile`: the hold on the automation host. Its field `app` is either
 * None or a launched host that has opened the source document; `live` below
 * stands for "`app` is not None". Whether launching the host and opening the
 * document succeed is decided outside the program, so it enters as
 * parameters. The ghost counters record every launch and every quit, so
 * that "the host is released exactly once" can be stated.
 */
module Session {
  import opened Wrappers
  import opened Errors
  import opened Pages

  class VisioFile {
    /** `self.app is not None`. */
    var live: bool
    /** The pages of the document the host opened (`app.ActiveDocument.Pages`). */
    var document: seq<Page>
    ghost var launches: nat
    ghost var quits: nat

    /** Every launched host but the one held has been quit. */
    ghost predicate Valid()
      reads this
    {
      quits <= launches && launches - quits == (if live then 1 else 0)
    }

    /** `VisioFile()`: no host yet. */
    constructor ()
      ensures Valid() && !live && launches == 0 && quits == 0 && document == []
    {
      live := false;
      document := [];
      launches, quits := 0, 0;
    }

    /** The `pages` property: the document's pages while a host is held, otherwise none. */
    function Pages(): (r: seq<Page>)
      reads this
      ensures live ==> r == document
      ensures !live ==> r == []
    {
      if live then document else []
    }

    /**
     * `open(filename)`: only on a file holding no host. A missing source
     * fails before the host is launched; a failed launch leaves no host; a
     * failed document open quits the host it just launched.
     */
    method Open(filename: string, sourceExists: bool, launchOk: bool, documentOk: bool, pages: seq<Page>)
      returns (r: Outcome<Error>)
      requires Valid() && !live
      modifies this
      ensures Valid()
      ensures !sourceExists ==>
        r == Fail(NoSuchVisioFile(filename)) && !live && launches == old(launches) && quits == old(quits)
      ensures sourceExists && !launchOk ==>
        r == Fail(VisioNotFound) && !live && launches == old(launches) && quits == old(quits)
      ensures sourceExists && launchOk && !documentOk ==>
        r == Fail(CouldNotOpenFile(filename)) && !live && launches == old(launches) + 1 && quits == old(quits) + 1
      ensures sourceExists && launchOk && documentOk ==>
        r == Pass && live && Pages() == pages && launches == old(launches) + 1 && quits == old(quits)
    {
      if !sourceExists {
        return Fail(NoSuchVisioFile(filename));
      }
      if !launchOk {
        return Fail(VisioNotFound);
      }
      live := true;
      launches := launches + 1;
      if !documentOk {
        Close();
        return Fail(CouldNotOpenFile(filename));
      }
      document := pages;
      r := Pass;
    }

    /** `close()`: quits the held host, if any, and drops it; on a file holding none it does nothing. */
    method Close()
      requires Valid()
      modifies this
      ensures Valid() && !live
      ensures launches == old(launches)
      ensures quits == old(quits) + (if old(live) then 1 else 0)
      ensures document == old(document)
    {
      if live {
        quits := quits + 1;
        live := false;
      }
    }

    /** `__exit__`: closes, and never suppresses the exception in flight. */
    method Exit() returns (suppress: bool)
      requires Valid()
      modifies this
      ensures Valid() && !live && !suppress
      ensures launches == old(launches)
      ensures quits == old(quits) + (if old(live) then 1 else 0)
    {
      Close();
      suppress := false;
    }

    /** The classmethod `Open`: a new file, opened on `filename`. */
    static method OpenNew(filename: string, sourceExists: bool, launchOk: bool, documentOk: bool, pages: seq<Page>)
      returns (v: VisioFile, r: Outcome<Error>)
      ensures fresh(v) && v.Valid()
      ensures r.Pass? <==> sourceExists && launchOk && documentOk
      ensures r.Pass? ==> v.live && v.Pages() == pages && v.launches == 1 && v.quits == 0
      ensures r.Fail? ==> !v.live && v.launches == v.quits && v.launches == (if sourceExists && launchOk then 1 else 0)
      ensures !sourceExists ==> r == Fail(NoSuchVisioFile(filename))
      ensures sourceExists && !launchOk ==> r == Fail(VisioNotFound)
      ensures sourceExists && launchOk && !documentOk ==> r == Fail(CouldNotOpenFile(filename))
    {
      v := new VisioFile();
      r := v.Open(filename, sourceExists, launchOk, documentOk, pages);
    }
  }

  /** Closing twice quits the host once: the second close does nothing. */
  method CloseTwice(v: VisioFile)
    requires v.Valid()
    modifies v
    ensures v.Valid() && !v.live
    ensures v.quits == old(v.quits) + (if old(v.live) then 1 else 0)
  {
    v.Close();
    v.Close();
  }
}
