# Gaijer in Dafny

Gaijer looks for *gaiji* in large delimited text extracts. Gaiji are special glyphs outside a standard character set, and finding them is part of a data-migration audit. The glyphs to look for come from a catalog file: one glyph per line, UTF-16BE. The program finds every record that contains one of those glyphs and writes the matches, sorted, into a CSV report. It can do this in two ways:

- the `find` command (cmd/find/cmdFind.go) reads records `id,attr,value` from an input file;
- the `sql` command (cmd/sql/cmdSql.go) builds one `rdbunlsql` unload job per glyph and reads back the rows each job unloads.

Both commands run a producer, several workers and an aggregator over channels, followed by a first-error check, a sort and the CSV writer. Two older variants are also modelled:

- the root package (find.go, gaiji.go, result.go) has a two-column `find`;
- the prototype in Gaijer/main.go (with helpers repeated in main.go) reads a UTF-16LE input in byte chunks and flags each catalog glyph whose two-byte pattern it sees.

This project models the sequential logic of every stage and proves what each stage promises.

How the model represents the program:

- A channel is a sequence. What a stage sends is returned as a sequence, and what a stage receives is passed in as one.
- The shared cancellation context is `cancelFrom`, the index of the first dequeue at which `ctx.Done()` is already closed. Once the context is cancelled it stays cancelled, so one number gives the context's state at every dequeue.
- A file read line by line is a `LineFile`: either it cannot be opened, or it yields some lines and then `scanner.Err()`.
- Go's `(value, error)` returns become an `Outcome` or an `Option<Error>`. The runtime panics of the older revisions (`[]rune("")[0]` and a nil `*gaiji`) become the errors `IndexOutOfRange` and `NilDereference`.
- The `used` flag of a Gaijer glyph is updated in place, so a glyph is a class. The catalog is a sequence of possibly-nil references. The chunked read is modelled on arrays, as a file behind a `bufio.Reader`.

Some code appears more than once in the repository, and each copy is modelled once:

- `checkError` of cmd/find/cmdFind.go and find.go is `CheckError` of cmd/error.go.
- `collectResults` of both is `CollectResults` of cmd/result.go.
- `writeOutputFile` of cmd/find/cmdFind.go is `WriteOutputFile` of cmd/result.go.
- `createJobs` and `validate` of find.go are those of cmd/find/cmdFind.go. The older `validate` reads only the flags they share.
- result.go is the same as cmd/result.go.
- `swap`, `contains` and `readFileByChunk` of main.go are those of Gaijer/main.go.

Four facts about the code that the model keeps:

- A worker that sees the context cancelled returns `ctx.Err()`, not success.
- The `find` worker copies the fields untrimmed.
- `sort.Slice` is not stable.
- A record yields one result per catalog glyph it contains. Occurrences are not deduplicated across records.

Modules, one file each:

- `Base`: shared types.
- `Text`: the parts of Go's `strings` and `fmt` that are used.
- `Sorting`: the comparator and sort.
- `Gaiji` and `LegacyGaiji`: catalog loading.
- `Results`: rows, report and aggregation.
- `ErrorQueue`: the first-error check.
- `Find` and `LegacyFind`: the `find` commands.
- `Sql`: the `sql` command.
- `Bytes`: byte pairs and character encodings.
- `Reader`: the file, `bufio.Reader` and `readFileByChunk`.
- `Gaijer`: the prototype scanner.

## Model

| member | source | states |
|---|---|---|
| Text.Split | cmd/find/cmdFind.go:269 | `strings.Split` on one separator gives one field more than there are separators |
| Text.SplitJoinRoundTrip | cmd/sql/cmdSql.go:270 | joining the comma fields with a comma gives the line back: splitting loses no character |
| Text.JoinSplit | cmd/sql/cmdSql.go:274 | joining the fields of a split with `sep` is replacing every separator by `sep` |
| Text.SplitOfJoin | cmd/sql/cmdSql.go:270 | splitting fields joined by a separator none of them contains gives the fields back |
| Text.JoinAvoids | cmd/sql/cmdSql.go:274 | a character in no field and not in the separator is not in the joined value |
| Text.RemoveAll | cmd/sql/cmdSql.go:274 | `strings.ReplaceAll(s, "\"", "")` leaves no quote and keeps every other character, each as often as before |
| Text.RemoveAllIsReplace | cmd/sql/cmdSql.go:274 | removing the quote is replacing each quote by nothing, so the other characters keep their order |
| Text.RemoveAllAppend | cmd/sql/cmdSql.go:274 | removing the quote from a concatenation removes it from each part and keeps the parts in order |
| Text.RemoveNothing | cmd/sql/cmdSql.go:274 | removing a character that does not occur changes nothing |
| Text.TrimShape | cmd/sql/cmdSql.go:278-279 | `strings.Trim` keeps one contiguous slice, drops every leading and every trailing quote, and what it keeps neither starts nor ends with a quote |
| Text.TrimNothing | cmd/sql/cmdSql.go:278-279 | text without a quote is left as it is |
| Text.TrimLeftCut | cmd/sql/cmdSql.go:278-279 | trimming on the left keeps a suffix, and everything it drops is the quote |
| Text.TrimRightCut | cmd/sql/cmdSql.go:278-279 | trimming on the right keeps a prefix, and everything it drops is the quote |
| Text.TrimLeftStops | cmd/sql/cmdSql.go:278-279 | what trimming on the left keeps does not start with the quote |
| Text.TrimRightStops | cmd/sql/cmdSql.go:278-279 | what trimming on the right keeps does not end with the quote |
| Text.ContainsAt | cmd/find/cmdFind.go:275 | `strings.Contains` holds exactly when the pattern sits at some offset |
| Text.ContainsChar | cmd/find/cmdFind.go:275 | containing the one-character string of a glyph is containing the glyph's character |
| Text.StrLessTotal | cmd/find/cmdFind.go:165-168 | Go's string `<` orders any two different strings one way round |
| Text.StrLessTransitive | cmd/find/cmdFind.go:165-168 | string `<` is transitive |
| Text.StrLessIrreflexive | cmd/find/cmdFind.go:165-168 | no string is less than itself |
| Text.Hex | cmd/gaiji.go:49 | `%X` of a rune is a non-empty run of hexadecimal digits with no leading zero |
| Text.HexRoundTrip | cmd/gaiji.go:49 | a code read back as hexadecimal gives the code point it was formatted from |
| Text.HexInjective | cmd/gaiji.go:49 | two code points share a code exactly when they are equal |
| Text.HexLowerOfUpper | gaiji.go:40 | `%x` is `%X` with its letters lower-cased |
| Text.FormatOneStringVerb | cmd/sql/cmdSql.go:216 | formatting a template whose only verbs are one `%s` and `%%` escapes consumes the argument, prints it, and passes trailing literal text through |
| Text.LiteralFormat | cmd/sql/cmdSql.go:216 | text without `%` formats to itself and leaves the argument unused |
| Text.LiteralPrefix | cmd/sql/cmdSql.go:216 | literal text in front of a format is copied through, and whether the argument is used is decided by the rest |
| Text.FormatTemplate | cmd/sql/cmdSql.go:216 | a template `pre%spost` with no other `%` is a one-`%s` format and formats to `pre` + argument + `post`, consuming the argument |
| Text.EscapeFormat | cmd/sql/cmdSql.go:216 | a `%%` escape in front of literal text prints a single `%` and leaves the argument unused |
| Sorting.KeyLessTotal | cmd/find/cmdFind.go:164-169 | the comparator (code, then identifier) orders any two different keys one way round |
| Sorting.KeyLessTransitive | cmd/find/cmdFind.go:164-169 | the comparator is transitive |
| Sorting.KeyLessAsymmetric | cmd/find/cmdFind.go:164-169 | the comparator never holds both ways round |
| Sorting.SortBy | cmd/find/cmdFind.go:164-169 | the sort returns a permutation of its input ordered by the comparator |
| Sorting.SortSortedIsIdentity | cmd/find/cmdFind.go:164-169 | sorting a list already in order leaves it as it is |
| Gaiji.CreateGaijiList | cmd/gaiji.go:41-57 | an unopenable file returns its error; else the first blank line fails naming the file; else a scanner error is returned; otherwise one glyph per line, in line order, duplicates kept, with the line's first character and its `%X` code; no list on any error |
| Gaiji.CodeIsCodePoint | cmd/gaiji.go:47-49 | a glyph's code reads back as its character's code point, and the rest of the line is ignored |
| Gaiji.SameCodeIffSameCharacter | cmd/gaiji.go:49 | two lines get the same code exactly when they start with the same character |
| Gaiji.CodeIsUpperUnpadded | cmd/gaiji.go:49 | a code has only digits and upper-case letters and no leading zero |
| LegacyGaiji.CreateGaijiList | gaiji.go:36-46 | as the newer loader, but an empty line ends in the index panic instead of an error, and codes use `%x` |
| LegacyGaiji.LegacyCodeIsLowerCased | gaiji.go:40 | the older glyph has the same character, and its code is the newer code lower-cased |
| Results.CsvRoundTrip | cmd/result.go:18-20 | the five-field row reads back as the result: fields are copied unchanged |
| Results.CsvWithoutValueIsPrefix | cmd/result.go:18-28 | the row without the value is the first four fields of the full row, and the header always has five titles |
| Results.CsvWithoutValueForgetsOnlyValue | cmd/result.go:21-22 | two results give the same short row exactly when they differ at most in their value |
| Results.WriteOutputFile | cmd/result.go:31-65 | a failed create writes nothing and returns its error; otherwise the header comes first exactly when asked, then one row per result in order, and the counter `i` equals the number of results |
| Results.CollectResults | cmd/result.go:67-80 | every received item is kept, in arrival order, and the counter equals their number |
| ErrorQueue.CheckError | cmd/error.go:8-23 | a queued error is returned and only it is consumed; a closed, empty channel gives nil; an open, empty channel gives the "not closed" error without blocking |
| ErrorQueue.CheckErrorReportsOnlyQueued | cmd/error.go:10-22 | whatever is reported was queued or is the "not closed" error, and the queue loses at most the error reported |
| Find.Validate | cmd/find/cmdFind.go:48-63 | input, output and catalog must be given and the worker count positive, checked in that order, and the first failure is reported |
| Find.CreateJobs | cmd/find/cmdFind.go:181-212 | an unopenable file returns its error; lines are queued in file order; a cancellation stops the queueing without error; otherwise the scanner's error is returned; the counter equals the number of lines queued |
| Find.FirstStop | cmd/find/cmdFind.go:261-273 | a worker stops at the first line dequeued after cancellation or with a field count other than expected, and at no earlier line |
| Find.Worker | cmd/find/cmdFind.go:254-283 | every line before the stop has three fields; the results are exactly those of these lines; the error is nil at the end of the queue, the context's error on cancellation, and otherwise the format error naming the line |
| Find.LineMatches | cmd/find/cmdFind.go:274-278 | a record yields at most one result per catalog glyph |
| Find.MatchLine | cmd/find/cmdFind.go:274-278 | the loop over the catalog sends exactly the record's matches, in catalog order |
| Find.LineMatchesMembership | cmd/find/cmdFind.go:274-277 | a record yields a result exactly for each catalog glyph whose character occurs in its third field, carrying the glyph and the untrimmed fields |
| Find.LineMatchesInCatalogOrder | cmd/find/cmdFind.go:274-278 | a record's results follow catalog order |
| Find.LineMatchesCount | cmd/find/cmdFind.go:274-278 | with distinct catalog characters, a third field containing K of them yields exactly K results, however often each occurs |
| Find.MatchesMembership | cmd/find/cmdFind.go:261-280 | across lines, a result is sent exactly for a (line, glyph) pair whose glyph occurs in that line's third field |
| Find.CancelledWorkerSendsNothing | cmd/find/cmdFind.go:264-267 | a worker that finds the context cancelled on its first dequeue sends nothing and returns the context's error |
| Find.SortResults | cmd/find/cmdFind.go:164-169 | the sorted results are a permutation of the input, ordered by code string, and by identifier string among equal codes |
| Find.CodesCompareAsText | cmd/find/cmdFind.go:165-168 | codes compare as text: the code of U+20B9F sorts before that of U+5799 |
| LegacyFind.Worker | find.go:243-272 | as the newer worker, with records of exactly two fields and results carrying key and value |
| LegacyFind.LineMatches | find.go:263-267 | a record yields at most one result per catalog glyph |
| LegacyFind.MatchLine | find.go:263-267 | the loop over the catalog sends exactly the record's matches, in catalog order |
| LegacyFind.LineMatchesInCatalogOrder | find.go:263-267 | a record's results name their glyphs in catalog order |
| LegacyFind.LineMatchesMembership | find.go:263-267 | a record yields a result exactly for each catalog glyph whose character occurs in its second field, carrying the glyph, the key and the value |
| LegacyFind.FormatsDiffer | find.go:258-262 | the older worker rejects a three-field record that the newer accepts, and the newer rejects a two-field record that the older accepts |
| LegacyFind.SortResults | find.go:154-159 | the sorted results are a permutation ordered by code string, then by key string |
| LegacyFind.RowRoundTrip | find.go:225-231 | the older row has four fields and reads back as the result |
| LegacyFind.WriteOutputFile | find.go:206-238 | a failed create writes nothing; otherwise the four-title header always comes first, then one row per result in order |
| Sql.Validate | cmd/sql/cmdSql.go:62-86 | database and SQL must be given, the SQL must contain `%s`, then output (`-o`), catalog (`-g`) and work folder (`-tmpdir`) must be given and the worker count positive, in that order; the first check that fails names the error |
| Sql.ValidateStrict | cmd/sql/cmdSql.go:69-71 | the evidently intended check: the template's only verb is one `%s`, with `%%` escapes allowed |
| Sql.ValidateStrictImpliesValidate | cmd/sql/cmdSql.go:69 | every template the corrected check accepts passes the check as written |
| Sql.OneStringVerbContainsPlaceholder | cmd/sql/cmdSql.go:69 | a template with one `%s` verb contains the text `%s` |
| Sql.CreateJobs | cmd/sql/cmdSql.go:204-224 | one job per catalog glyph, in catalog order, with the glyph, the unload path, and the command built from database, formatted SQL and path; it never fails, and the counter equals the number of jobs |
| Sql.UnloadFileIffSameCharacter | cmd/sql/cmdSql.go:215 | two jobs share an unload file exactly when their glyphs are the same character |
| Sql.JobSqlPlacesGlyph | cmd/sql/cmdSql.go:216-217 | under the corrected check, a job's SQL is the quoted, formatted template with nothing appended, and it contains the glyph |
| Sql.JobSqlOfTemplate | cmd/sql/cmdSql.go:216-217 | a template `pre%spost` with no other `%` passes the corrected check, and its job's SQL is `"pre` + glyph + `post"` |
| Sql.EscapedPercentFormat | cmd/sql/cmdSql.go:216 | the template `%%s` formats to `"%s"` followed by Go's unused-argument complaint |
| Sql.EscapedPercentPassesValidate | cmd/sql/cmdSql.go:69 | the check as written accepts `%%s` and the corrected one rejects it |
| Sql.ParseRow | cmd/sql/cmdSql.go:274-281 | a row's result carries the job's glyph, the first two fields with surrounding double quotes trimmed, and a value free of double quotes |
| Sql.RowRoundTrip | cmd/sql/cmdSql.go:270-281 | a row of quote-free, comma-free fields (identifier, attribute, one or more value fields) reads back as the identifier, the attribute and the value fields joined by " \| " |
| Sql.SendRows | cmd/sql/cmdSql.go:267-287 | the scan loop sends each row of three or more fields as it is read, stops at the first shorter row with an error naming it, and ends with the scanner's error |
| Sql.Worker | cmd/sql/cmdSql.go:229-292 | the context is checked on every job; a failed command or unopenable unload file ends the worker; otherwise every row is sent, job after job |
| Sql.RowsFromSucceedsIff | cmd/sql/cmdSql.go:270-273 | an unload file ends without error exactly when every row has at least three fields and the scan ends cleanly |
| Sql.RowsFromOnePerRow | cmd/sql/cmdSql.go:267-282 | every row yields exactly one result, in row order, each the parse of its row |
| Sql.ShortRowHasFewerThanTwoCommas | cmd/sql/cmdSql.go:270-271 | a row is rejected exactly when it has fewer than two commas, so longer rows are accepted |
| Sql.WorkerResultsComeFromJobs | cmd/sql/cmdSql.go:236-282 | every result belongs to a job dequeued before cancellation, names that job's glyph, and has no double quote in its value |
| Sql.RowsCarryJob | cmd/sql/cmdSql.go:275-281 | every result of a job's rows names the job's glyph and code, not anything found in the row |
| Bytes.SwapInvolution | Gaijer/main.go:69-72 | `swap` applied twice is the identity, and it changes a pair unless its bytes are equal |
| Bytes.ContainsPairIff | Gaijer/main.go:106-108 | `contains` holds exactly when the two bytes stand side by side, in order, somewhere in the chunk |
| Bytes.Utf8RoundTrip | Gaijer/main.go:40 | `[]byte(string(r))` decodes back to the rune, with its length set by the rune's range |
| Bytes.Utf16LEKeyRoundTrip | Gaijer/main.go:37-41 | the intended pattern of a BMP character is its UTF-16LE encoding and reads back as the character |
| Bytes.MatchKeyIsNotUtf16LE | Gaijer/main.go:39-41 | the pattern as written equals the UTF-16LE pattern only for U+0000 and U+EEBA |
| Bytes.MatchKeyExample | Gaijer/main.go:39-41 | for 垠 the scanner searches 9E E5, but a UTF-16LE input holds A0 57, so the glyph is not found at 垠's position |
| Reader.File.Read | Gaijer/main.go:57 | a read copies the next available bytes, as many as fit, to the front of the buffer and advances; an empty buffer reads nothing; at the end it fails with EOF or the device error |
| Reader.BufReader.constructor | Gaijer/main.go:27 | a new reader starts with an empty buffer over the file's remaining bytes, with size raised to at least 16 |
| Reader.BufReader.Read | Gaijer/main.go:57 | the bytes returned are the next bytes of the stream; an empty buffer and a large read go to the file, a small one fills the buffer once; a non-empty buffer is served first |
| Reader.ReadFileByChunk | Gaijer/main.go:55-66 | at most `chunkSize` bytes, the next ones of the stream and at least one; the end of input gives EOF or the read error and consumes nothing |
| Gaijer.Glyph.constructor | Gaijer/main.go:94 | a new glyph holds its character and code and is not used |
| Gaijer.CreateGaijiList | Gaijer/main.go:76-103 | the list is `initialLen` nils followed by one fresh, unused glyph per line, in order, with a `%x` code; an open error, the empty-line panic or a scanner error gives no list |
| Gaijer.FirstNull | Gaijer/main.go:33 | the marking loop gets as far as the first nil entry, which exists exactly when the list holds a nil |
| Gaijer.MarkUsed | Gaijer/main.go:33-46 | a glyph before the first nil becomes used when its pattern occurs in the chunk; no flag goes back to false; a nil entry panics |
| Gaijer.StridedChunk | Gaijer/main.go:26-28 | chunk `q` starts at byte `stride * q` and holds up to `width` bytes |
| Gaijer.Coverage | Gaijer/main.go:26-28 | a byte is read exactly when its offset within its stride is below the chunk width, so the loop as written skips 9000 of every 10000 bytes |
| Gaijer.ScanInput | Gaijer/main.go:26-47 | the loop as written marks a glyph used when its pattern occurs in one of the chunks taken every 10000 bytes; the end of input stops it, another read error panics, and a nil entry panics at the first chunk |
| Gaijer.AsWrittenMissesGlyph | Gaijer/main.go:26-28 | a 1002-byte UTF-16LE input ending in 垠 is scanned only up to byte 1000, so the glyph is missed even under its correct pattern |
| Gaijer.ReadPiece | Gaijer/main.go:27-28 | a reader kept across passes hands out the next 1000-byte piece of the input |
| Gaijer.ScanInputFixed | Gaijer/main.go:26-47 | with the reader hoisted out of the loop, a glyph is marked used exactly when its pattern occurs in one of the consecutive 1000-byte chunks |
| Gaijer.FixedChunksFindEveryCharacter | Gaijer/main.go:26-41 | with the reader hoisted and the UTF-16LE pattern, every character of a UTF-16LE input is found |
| Gaijer.Report | Gaijer/main.go:49-51 | one line per entry, in list order, with index, character and flag; a nil entry panics |
| Gaijer.Run | Gaijer/main.go:14-52 | as written the program always ends in an error or panic and prints no line |
| Gaijer.RunFixed | Gaijer/main.go:14-52 | as corrected it prints one line per catalog line, in order, flagged exactly when the glyph's UTF-16LE pattern occurs in a chunk of the input |

## Left out

- Goroutines, `sync.WaitGroup`, `context.WithCancel`, closing channels and waiting on `done` in every `Execute`. The stages are modelled one after another, and cancellation is the index `cancelFrom`. Blocking sends are not modelled. Nor is the error channel of capacity W, which can receive up to W+1 errors (a producer failure plus W cancelled workers).
- Which error is reported first. A failing stage calls `cancel()` before `errChan <- err` (cmd/find/cmdFind.go:109-110, 122-123), so a cancelled worker may queue "context canceled" before the real cause, and that is what gets reported. `ErrorQueue.CheckError` receives the queued errors as input, in whatever order they arrived; the model does not derive which order the goroutines produce.
- Running `rdbunlsql` (`runCmdStr`, shell-word parsing, `exec.Command`), `os.Remove` of the unload file, and the `defer fp.Close()` that keeps every unload file open until the worker returns. These are foreign calls: the worker receives each job's command error and unload file as input.
- UTF-16BE decoding of the catalog, with or without a byte-order mark. The loaders receive the decoded lines.
- CSV quoting, CRLF line ends, and the errors of `writer.Write` and `Flush` (encoding/csv). A written row is its list of fields.
- Logging (`slog`), flag parsing and subcommand registration.
- The root cmdSql.go and sql.go. The first is orchestration that refers to undefined names; the second's `Execute` is a stub that reports success.
- `bufio.Scanner` limits such as over-long lines. They appear only as the scanner error of a `LineFile`.
- Strings are sequences of Unicode code points. Go compares and searches UTF-8 bytes, which gives the same answers on valid UTF-8. Invalid UTF-8 in an input, which Go would decode to U+FFFD, is not modelled.
- Sorting.SortBy: stands for `sort.Slice`. Only sortedness and being a permutation are claimed for the commands' sort, because `sort.Slice` is not stable. `SortSortedIsIdentity` holds for this insertion sort; `sort.Slice` may reorder results with equal code and identifier.
- Sql.JobSqlOfTemplate: the exact job SQL is stated for templates with no `%` other than the one `%s`. For templates that also hold `%%` escapes, Sql.JobSqlPlacesGlyph states only that the glyph occurs and nothing is appended.
- Sql.UnloadPath: `filepath.Join` also cleans the path (`.`, `..`, doubled or trailing separators). The model joins with a single `/`.
- Text.FormatArg: only `%%`, `%s` and `%v` are formatted. Flags, width, precision and argument indexes are not parsed. Every other verb letter, including `%q` and `%x`, which Go accepts for strings, is printed as a bad verb.
- Reader.File.Read: returns every available byte that fits in the buffer. An operating system may return fewer, and then the chunks would be shorter.
- Gaijer.ScanInput: the `fmt.Println` of each chunk is left out, and so is the `fmt.Printf` format of the closing report, which is given as `Usage` values.
- Gaijer.RunFixed: the flag means that the pattern occurs somewhere in a chunk. The pattern can also occur at an odd offset, across two characters, so a set flag does not guarantee the character is present.
- Gaijer.FixedChunksFindEveryCharacter: stated for inputs of characters of the Basic Multilingual Plane. Supplementary characters (surrogate pairs) are not encoded by the model.

## Findings

| source | as written | input that shows it | evidently intended | confidence | as-written member | corrected member |
|---|---|---|---|---|---|---|
| Gaijer/main.go:78 | `make([]*gaiji, 2000)` creates 2000 nil entries before the glyphs are appended; the marking loop and the report dereference them | any catalog that loads and any input that opens: the first chunk, or the report for an empty input, reaches entry 0, which is nil | a list that starts empty, as the newer loader's does (`var gaijiList []*Gaiji`, cmd/gaiji.go:25) | not executed | Gaijer.Run | Gaijer.RunFixed |
| Gaijer/main.go:39-41 | the pattern is the first two bytes of the character's UTF-8 encoding, swapped | 垠 (U+57A0): the pattern is 9E E5, but the UTF-16LE input holds A0 57 | the character's UTF-16LE code unit, as the comment at lines 37-38 describes | not executed | Bytes.MatchKeyIsNotUtf16LE | Bytes.Utf16LEKeyRoundTrip |
| cmd/sql/cmdSql.go:69 | `strings.Contains(s.sql, "%s")` accepts any template in which the text `%s` appears | the template `%%s` passes; every job's SQL becomes `"%s"%!(EXTRA string=垠)` and never holds the glyph | the template's only verb is one `%s` | not executed | Sql.EscapedPercentPassesValidate | Sql.JobSqlOfTemplate |
| Gaijer/main.go:26-28 | each pass makes a new `bufio.NewReaderSize(fpIn, 10000)`, reads 1000 bytes from it, and drops the other 9000 bytes it took from the file | 500 'A' then 垠 in UTF-16LE (1002 bytes): only bytes 0-999 are scanned, and 垠 at bytes 1000-1001 is missed | one reader for the whole loop, so every byte is scanned | not executed | Gaijer.AsWrittenMissesGlyph | Gaijer.FixedChunksFindEveryCharacter |
