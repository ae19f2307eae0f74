/** Values shared by every stage of the glyph scan: optional values, error
    returns, the errors the program raises, and what a scanned text file
    delivers. */
module Base {

  datatype Option<+T> = None | Some(value: T)

  /** A Go `(value, error)` pair where exactly one side is meaningful. */
  datatype Outcome<+T> = Ok(value: T) | Err(error: Error)

  /** The errors the program returns, and the two runtime panics that some
      older revisions run into (they abort the process instead of returning). */
  datatype Error =
    | IoError(reason: string)          // open, read or scan failure reported by the OS or bufio.Scanner
    | BlankLine(fileName: string)      // a blank line in the glyph catalog
    | ColumnCount(line: string)        // find worker: the line does not split into the expected fields
    | TooFewColumns(line: string)      // sql worker: an unload row with fewer than 3 fields
    | Canceled                         // ctx.Err() once the shared context is cancelled
    | NotClosed                        // CheckError found the error channel open and empty
    | MissingFlag(flag: string)        // a required command-line flag is empty
    | NoPlaceholder                    // -sql lacks the glyph placeholder %s
    | BadWorkerCount(count: int)       // -w is not a positive integer
    | CommandFailed(reason: string)    // the rdbunlsql process could not be parsed, started or exited non-zero
    | IndexOutOfRange                  // panic: []rune("")[0]
    | NilDereference                   // panic: field access through a nil *gaiji
    | Eof                              // io.EOF: a read at the end of the input

  /** What `os.Open` followed by a `bufio.Scanner` loop yields: either the open
      fails, or the scanner delivers some lines and then stops, with
      `scanner.Err()` being `scanErr`. */
  datatype LineFile =
    | Unopenable(openErr: Error)
    | Lines(lines: seq<string>, scanErr: Option<Error>)

  /** The result of a worker loop: what it sent on the result channel before
      returning, and the error it returned (None for nil). */
  datatype WorkerRun<+T> = WorkerRun(results: seq<T>, err: Option<Error>)
}
