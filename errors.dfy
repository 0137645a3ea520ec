/** The errors the export pipeline raises, with the Python exception class of each. */
module Errors {

  datatype PyException = IOError | OSError | IndexError

  datatype Error =
    | InvalidPageNumber(pagenum: int)        // 'Invalid page number: %d'
    | PageNotFound(pagename: string)         // 'Page not found: pagename=%s'
    | NoSuchVisioFile(filename: string)      // the source document does not exist
    | VisioNotFound                          // the host application could not be launched
    | CouldNotOpenFile(filename: string)     // the host could not open the source document
    | CouldNotWriteImageFile(filename: string) // the destination directory does not exist
    | CouldNotWriteImage(pathname: string)   // naming or exporting a page failed
  {
    /** The class of the exception the program raises for this error. */
    function Exception(): PyException
    {
      match this
      case InvalidPageNumber(_) => IndexError
      case PageNotFound(_) => IndexError
      case VisioNotFound => OSError
      case _ => IOError
    }
  }
}
