/**
 * The checks `parse_options` applies once the command line is parsed: the
 * page-number and page-name options exclude each other, exactly two
 * positional arguments (source and destination) are required, and the
 * destination's extension, lower-cased, must name a supported image format.
 */
module Options {
  import opened Wrappers
  import opened PathText
  import opened Selection

  /** Each check ends the process with a usage message. */
  datatype OptionsError =
    | ConflictingOptions                  // 'options --page and --name are mutually exclusive'
    | WrongArgumentCount(count: nat)      // usage printed, process exits
    | UnsupportedImageFormat(filename: string)

  /** The destination extensions accepted, compared in lower case. */
  const ImageExtensions: set<string> := {".gif", ".jpg", ".png"}

  predicate SupportedFormat(filename: string)
  {
    Lower(Extension(filename)) in ImageExtensions
  }

  /** The checks in the program's order; the first that fails is reported. */
  function ValidateOptions(pagenum: Option<int>, pagename: Option<string>, argv: seq<string>): (r: Result<seq<string>, OptionsError>)
    ensures r.Ok? <==> !(NumberGiven(pagenum) && NameGiven(pagename)) && |argv| == 2 && SupportedFormat(argv[1])
    ensures r.Ok? ==> r.value == argv
    ensures NumberGiven(pagenum) && NameGiven(pagename) ==> r == Err(ConflictingOptions)
  {
    if NumberGiven(pagenum) && NameGiven(pagename) then Err(ConflictingOptions)
    else if |argv| != 2 then Err(WrongArgumentCount(|argv|))
    else if !SupportedFormat(argv[1]) then Err(UnsupportedImageFormat(argv[1]))
    else Ok(argv)
  }

  /**
   * For a destination made of a stem and one extension, the format check
   * looks at that extension alone, ignoring its case.
   */
  lemma SupportedFormatOfJoin(stem: string, ext: string)
    requires stem != [] && !IsSep(stem[|stem| - 1]) && !IsDot(stem[|stem| - 1])
    requires ext != [] && IsDot(ext[0])
    requires forall i :: 1 <= i < |ext| ==> !IsDot(ext[i]) && !IsSep(ext[i])
    ensures SupportedFormat(stem + ext) <==> Lower(ext) in ImageExtensions
  {
    SplitExtOfJoin(stem, ext);
  }

  /** `.png` is accepted in either case. */
  lemma PngAccepted(stem: string)
    requires stem != [] && !IsSep(stem[|stem| - 1]) && !IsDot(stem[|stem| - 1])
    ensures SupportedFormat(stem + ".png") && SupportedFormat(stem + ".PNG")
  {
    LowerExamples();
    SupportedFormatOfJoin(stem, ".png");
    SupportedFormatOfJoin(stem, ".PNG");
  }

  lemma LowerExamples()
    ensures Lower(".png") == ".png" && Lower(".PNG") == ".png"
  {
    assert Lower(".png") == ".png";
    assert Lower(".PNG") == ".png";
  }

  /** `.jpeg` and `.pdf` are rejected. */
  lemma RejectedExamples(stem: string)
    requires stem != [] && !IsSep(stem[|stem| - 1]) && !IsDot(stem[|stem| - 1])
    ensures !SupportedFormat(stem + ".jpeg") && !SupportedFormat(stem + ".pdf")
  {
    SupportedFormatOfJoin(stem, ".jpeg");
    assert |Lower(".jpeg")| == 5;
    SupportedFormatOfJoin(stem, ".pdf");
    assert Lower(".pdf") == ".pdf";
  }

  /** A destination whose last component has no dot past its start has no extension and is rejected. */
  lemma NoExtensionRejected(filename: string)
    requires forall i :: LastSep(filename) < i < |filename| ==> !IsDot(filename[i])
    ensures !SupportedFormat(filename)
  {
    NoDotNoExtension(filename);
    EmptyExtensionRejected(filename);
  }

  lemma EmptyExtensionRejected(filename: string)
    requires Extension(filename) == []
    ensures !SupportedFormat(filename)
  {
  }
}
