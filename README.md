# visio2img page export, modelled in Dafny

visio2img converts the pages of a Visio drawing into image files. It drives
Visio through its automation interface: it launches an invisible Visio
instance and opens the drawing. Then it picks pages by number or by name,
and calls each chosen page's `Export` with an output file name. This
project models the logic around those calls, in two versions:

- **the package** `visio2img/visio2img.py`:
  - page selection (`filter_pages`);
  - the `VisioFile` hold on the host (open, close, `with`-block exit, pages);
  - output naming and the export loop of `export_img`;
  - the destination and option checks of `parse_options`;
- **the earlier single-file script** `visio2img.py`:
  - `get_dispatch_format` and `get_pages`;
  - the unpadded page names of `export_img`, its export loop, and its
    `finally` that quits the host.

The modules follow that structure:

- `Selection` models `filter_pages`.
- `Options` models the `parse_options` checks.
- `Naming` models the output file names.
- `Session` models the `VisioFile` class.
- `Export` models the package's `export_img`.
- `RootScript` models the single-file script.
- `PathText`, `Decimal`, `Pages`, `Errors` and `Wrappers` are supporting
  modules. They model:
  - Python's `os.path.splitext` and `str.lower`;
  - `str(n)` and `'%0<w>d' % n`, and string order;
  - list indexing;
  - the exception classes.

The host is not part of the model. Each of its answers enters as a
parameter:

- whether the source file exists;
- whether the host launches;
- whether the document opens;
- the document's pages;
- `exportOk(k)`, whether the k-th `Export` call succeeds.

The filesystem checks of the destination are parameters in the same way.
`VisioFile` is a class: its `live` flag stands for "`app` is not None", and
ghost counters record launches and quits. So "every launched host is quit
exactly once" is a postcondition of `Export.ExportImg`. In the script,
"the host is quit exactly when it was launched" is a postcondition of
`RootScript.ExportImg`. The one loop both versions share, exporting page k
to name k until a call fails, is the method `Export.ExportEach`. It is
proved against the specification function `Export.CallsUntilFailure`.

The script's `export_img` reads the page number from the global
`options.page` (visio2img.py:45), not from its `page_num` parameter.
`RootScript.ExportImg` takes the page number as a parameter; the script's
`__main__` block passes the same value both ways.

## Model

| member | source | states |
|---|---|---|
| `Pages.PyIndex` | visio2img/visio2img.py:35 | Python indexing of a list of length n: defined exactly for -n <= i < n, a negative index counting from the end |
| `Selection.FilterPages` | visio2img/visio2img.py:31-44 | an accepted selection is a subsequence of the document's pages, non-empty whenever a number or a name was given; every rejection is raised as IndexError |
| `Selection.FilterNothing` | visio2img/visio2img.py:31-44 | with no page number (absent or 0) and no page name (absent or empty), all pages are returned unchanged |
| `Selection.FilterByNumber` | visio2img/visio2img.py:33-37 | a number 1..n picks the singleton at that 1-based position; past the end it fails with InvalidPageNumber(n); a negative number counts from the end, and fails below -(n-1) |
| `Selection.MatchingIsSubsequence` | visio2img/visio2img.py:40 | the name filter keeps exactly the pages carrying the name, each as many times as it occurs, in their original order |
| `Selection.MatchingEmpty` | visio2img/visio2img.py:40-41 | the name filter is empty exactly when no page carries the name |
| `Selection.FilterByName` | visio2img/visio2img.py:39-42 | a name alone fails with PageNotFound(name) exactly when no page carries it, and otherwise returns the matching pages |
| `Selection.FilterByNumberAndName` | visio2img/visio2img.py:33-42 | with both options, a number out of range (by Python indexing) fails with InvalidPageNumber whatever the name; otherwise the name is checked against the page the number picked, counting from the end for a negative number: that page, or PageNotFound |
| `Selection.FilterByNumberPicksPosition` | visio2img/visio2img.py:33-35 | in a document whose pages carry their 1-based positions, a page number n in range selects exactly one page, the one at position n |
| `Options.ValidateOptions` | visio2img/visio2img.py:145-154 | accepted exactly when the number and the name are not both given, there are two positional arguments, and the destination's lower-cased extension is .gif, .jpg or .png; a conflict is reported before anything else |
| `Options.SupportedFormatOfJoin` | visio2img/visio2img.py:152-153 | for a destination made of a stem and one extension, the format check looks only at that extension, lower-cased |
| `Options.PngAccepted` | visio2img/visio2img.py:152-153 | `.png` and `.PNG` destinations are accepted |
| `Options.RejectedExamples` | visio2img/visio2img.py:152-154 | `.jpeg` and `.pdf` destinations are rejected |
| `Options.NoExtensionRejected` | visio2img/visio2img.py:152-154 | a destination whose last component has no extension is rejected |
| `PathText.SplitExt` | visio2img/visio2img.py:123 | stem and extension concatenate back to the path; the extension is empty or a dot followed by neither dots nor separators |
| `PathText.SplitExtOfJoin` | visio2img/visio2img.py:123 | splitting a stem joined to a well-formed extension gives both parts back, when the stem does not end in a separator or a dot |
| `Decimal.DecimalLengthIsLeastWidth` | visio2img/visio2img.py:122 | for n >= 1, the padding width is the least w with n < 10^w (for 0 it is 1) |
| `Decimal.ZeroPadIsFixedDigits` | visio2img/visio2img.py:124-126 | `%0<w>d` of a number that fits in w digits is exactly its last w decimal digits |
| `Decimal.ZeroPadOrdered` | visio2img/visio2img.py:124-126 | numbers padded to a width holding the larger one have that width and sort as strings in numeric order |
| `Decimal.NatToStringInjective` | visio2img.py:51 | distinct page numbers have distinct decimal renderings |
| `Naming.NamesFor` | visio2img/visio2img.py:119-126 | no names for an empty selection (the width computation raises there), otherwise one name per page |
| `Naming.NamesForShape` | visio2img/visio2img.py:119-126 | one page keeps the destination path verbatim; with n >= 2, name i is stem + the position padded to exactly the decimal length of n digits + extension |
| `Naming.NumberedNamesOrdered` | visio2img/visio2img.py:122-126 | two numbered names, padded to a width that holds the larger number, sort as strings in page order |
| `Naming.NamesForOrdered` | visio2img/visio2img.py:122-126 | with n >= 2 pages, string order of the names is page order, so the names are pairwise distinct |
| `Naming.NamesKeepExtension` | visio2img/visio2img.py:123-126 | splitting a numbered name again gives the stem with its number, and the destination's extension |
| `Naming.ThousandPagesMisordered` | visio2img/visio2img.py:122 | with the width of 3 that the floating-point logarithm gives for 1000 pages, page 1000's name is one character longer and sorts before page 999's |
| `Naming.NameAsWrittenWithoutPercent` | visio2img/visio2img.py:124-126 | when the destination holds no `%`, formatting the built template gives exactly stem + padded number + extension |
| `Naming.DoubledPercentCollapsed` | visio2img/visio2img.py:124-126 | a `%%` in the destination's stem comes out as a single `%` in every page's name |
| `Naming.LonePercentRaises` | visio2img/visio2img.py:124-126 | a `%` in the destination's stem followed by a letter other than the length modifiers `h`, `l`, `L` makes the formatting raise, in every Python version |
| `Session.VisioFile.constructor` | visio2img/visio2img.py:54-55 | a new file holds no host, and nothing was launched or quit |
| `Session.VisioFile.Pages` | visio2img/visio2img.py:99-104 | the document's pages while a host is held, no pages otherwise |
| `Session.VisioFile.Open` | visio2img/visio2img.py:64-92 | only on a file holding no host: a missing source fails with NoSuchVisioFile and a failed launch with VisioNotFound, both before any host is held; a failed document open quits the host it launched and fails with CouldNotOpenFile; success holds one host whose pages are the document's |
| `Session.VisioFile.Close` | visio2img/visio2img.py:94-97 | quits the held host, if any, exactly once, and leaves none held |
| `Session.VisioFile.Exit` | visio2img/visio2img.py:60-62 | closes and never suppresses the exception in flight |
| `Session.VisioFile.OpenNew` | visio2img/visio2img.py:48-52 | a fresh file, opened: it holds a host exactly when all three steps succeed, and otherwise everything it launched was quit |
| `Session.CloseTwice` | visio2img/visio2img.py:94-97 | a second close does nothing: the host is quit at most once |
| `Export.FirstFailure` | visio2img/visio2img.py:125-127 | the position of the first failing Export call: every earlier call succeeded, and the call there failed unless it is past the last page |
| `Export.Calls` | visio2img.py:55 | `zip(pages, names)`: as many calls as the shorter list, call k exporting page k to name k |
| `Export.ExportEach` | visio2img/visio2img.py:125-127 | the calls are made in order, up to and including the first that fails; the loop succeeds exactly when no call failed |
| `Export.WritePages` | visio2img/visio2img.py:118-130 | the Export calls made are ExportsMade (one page to the destination itself, several to numbered names, none for an empty selection), and the block succeeds exactly when the selection is non-empty and every call succeeded |
| `Export.ExportsStopAtFirstFailure` | visio2img/visio2img.py:118-130 | each call exports the page at its position, every call but the last succeeded, and calls stop short of the selection only after a failure; success means every page was exported |
| `Export.SinglePageVerbatim` | visio2img/visio2img.py:119-120 | a single selected page is exported to the destination path itself |
| `Export.ExportsWriteDistinctFiles` | visio2img/visio2img.py:119-127 | no two Export calls write the same file |
| `Export.ExportImg` | visio2img/visio2img.py:107-130 | a missing destination directory fails with CouldNotWriteImageFile before any host is launched; each open failure is reported as Open reports it; a selection error is passed on; otherwise the calls are ExportsMade, and any failure is CouldNotWriteImage; on every path the host launched is quit exactly once |
| `RootScript.DispatchFormat` | visio2img.py:9-13 | a ProgID exactly for the extension `vsd`, and it is the invisible Visio application's |
| `RootScript.DispatchFormatOfSource` | visio2img.py:40 | the host is asked for a ProgID exactly when the source's extension is `.vsd`, compared case-sensitively |
| `RootScript.GetPages` | visio2img.py:16-23 | all pages for a falsy page number, the singleton at a 1-based number in range, an index error past the end; a negative number counts from the end and fails below -(n-1); always a subsequence |
| `RootScript.PageNames` | visio2img.py:48-52 | one name per page: the output name itself for one page, otherwise stem + unpadded page number + extension |
| `RootScript.PageNamesDistinct` | visio2img.py:50-52 | with two or more pages, the names are pairwise distinct |
| `RootScript.PageNamesUnsortedFromTen` | visio2img.py:50-52 | from ten pages on, page 10's name sorts before page 2's |
| `RootScript.ExportsInPageOrder` | visio2img.py:55-56 | one Export per page, in order: call k exports page k to name k, and every page is exported when no call fails |
| `RootScript.ExportImg` | visio2img.py:25-59 | a missing source fails before any launch; a failed Dispatch leaves `application` unbound and nothing is quit; otherwise the host is quit exactly once, on success and on each failure (open, page index, a failing Export); the calls are page k to name k up to the first failure |

## Left out

- `is_pywin32_available` and `main` are not modelled: module probing, stderr writes and exit codes.
- Option parsing by `OptionParser`, its usage and help text, and `parser.error`/`parser.exit` are not modelled: `Options.ValidateOptions` returns the error instead of ending the process.
- The script's `__main__` block and its `print`/`exit` on a missing source are process I/O: `RootScript.ExportImg` reports FileNotFound.
- The automation host is left out. `Dispatch`, `Documents.Open`/`OpenEx`, `ActiveDocument.Pages` and `page.Export` are replaced by parameters giving their outcomes.
- `Quit` is assumed to succeed and is counted by the ghost quit counter. If it raised, `close` would leave `app` set (visio2img/visio2img.py:95-97), and in the script the raising `Quit` would replace the exception in flight (visio2img.py:59).
- The script's `application.Visible = False` (visio2img.py:41) is assumed to succeed. If it raised, the `finally` clause would quit the host and the exception would propagate.
- `os.path.abspath`, `os.path.exists`, `os.path.isdir` and `os.path.dirname` are not modelled: their results depend on the disk and the working directory, so they enter as parameters (`imagePathname`, `sourceExists`, `outputDirExists`).
- Session.VisioFile.Open: the choice between `OpenEx` with the copy and read-only flags and `Open` is folded into `documentOk`.
- Error messages are not modelled: an error carries only its kind and the file name or number. The tuple-shaped message of the missing-source IOError (visio2img/visio2img.py:69) is not reproduced.
- Naming.NamesFor: the width is the exact decimal length of the page count, not the floating-point `int(log(n, 10)) + 1` the program computes. The two differ where the logarithm rounds below an integer; see Findings.
- Naming.NamesFor: names are built by concatenation, not through a `%`-format template; see Findings.
- Naming.LonePercentRaises: covers a `%` followed by a letter other than `h`, `l`, `L`. A `%` followed by a digit, a flag, a `.` or a length modifier is not covered.
- Naming.Interpolate: follows the `%` rules of Python 3.7 and later. Earlier versions, Python 2.7 among them, print `%` for a `%` whose flags, width, precision or length modifier end in `%` (such as `%5%`), where the model raises.
- PathText.SplitExt: follows the Windows path rules (both `\` and `/` separate components, no drive letter handling beyond that).
- PathText.Lower: lower-cases ASCII letters only.
- RootScript.ExportImg: takes the page number as a parameter, where the script reads the global `options.page`.
- RootScript.ExportImg: `dispatchOk` decides whether Dispatch succeeds for the ProgID asked for, including for None, which the host would reject.

## Findings

| source | as written | input that shows it | evidently intended | confidence | as-written member | corrected member |
|---|---|---|---|---|---|---|
| visio2img/visio2img.py:122 | the padding width is the integer part of the floating-point base-10 logarithm of the page count, plus one | 1000 selected pages: the floating-point `log(1000, 10)` is just below 3, so the width is 3; page 1000 is named with four digits and sorts before page 999 (likewise at 10^6 and 10^9) | the width is the number of decimal digits of the page count, so names sort in page order | medium (depends on the platform's `log`), not executed | `Naming.ThousandPagesMisordered` | `Naming.NamesForOrdered` |
| visio2img/visio2img.py:124-126 | the destination's stem and extension are pasted into a `%`-format template, which is then formatted with the page number | destination `C:\a%%b\out.png` with two pages: the files go to `C:\a%b\out1.png` and `C:\a%b\out2.png`; destination `C:\a%b\out.png` makes the formatting raise, reported as "Could not write image" | page i is written to stem + padded i + extension, whatever characters the destination holds | high, not executed | `Naming.DoubledPercentCollapsed` | `Naming.NamesFor` |
