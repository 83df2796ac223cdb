# yoink: directive expansion, modelled in Dafny

yoink is a text preprocessor. A document is read as lines. Every line that
starts with `.` and whose first field names a registered handler (`.yoink`,
`.zip`) is a *directive*. The handler fetches a file or URL, cuts out the
span the directive's address selects, widens it to whole lines, drops the
lines ending in `OMIT`, trims blank lines at both ends, and returns the
remaining lines joined with `\n`. That text replaces the directive line.
Lines starting with the comment prefix `//` are never directives. The first
handler failure aborts the whole document.

The model is pure and functional. These are its modules:

- `Results`: `Option`, `Result` and the error kinds of the source.
- `Strings`: Go's `unicode.IsSpace`, `strings.Fields`, `Join`, `TrimSpace`,
  `HasPrefix` and `HasSuffix` on `string`, plus the round trip between
  `Fields` and `Join`.
- `LineBuffer`: the `Lines` buffer of `parser.go` and its `next`,
  `nextNonEmpty`, `set` and `back`.
- `Parsers`: the handler table and `RegisterParser`.
- `Dispatch`: the scan of `parseLines`, the write-backs of
  `concurrentParse`, and `Parse`. They are run sequentially: the scan
  collects one job per directive line, then each job runs and writes its
  result back in order. `Dispatch.Interleaved`, where each handler runs as
  soon as the scan meets its line, is proved to give the same result.
  Every write lands behind the scan cursor, so when the handlers run does
  not change the outcome.
- `Extract`: `extractLines`, the swap, and the rounding of a byte range to
  whole lines. `yoinker.go` and `zipper.go` hold identical copies of this
  code, and it is modelled once.
- `Directive`: `yoinkParser` and `parseZip` share one definition,
  `Resolve`. The registration in `init`, and the `configure` rule that
  turns the configuration into a concurrency gate and a delay, are also
  here.

Go strings are Dafny strings. A directive line is read as runes, one
character per rune, which is how `strings.Fields` and `unicode.IsSpace` see
it. Fetched content is read as bytes, one character per byte, which is how
the widening loops and `extractLines` index it. Fetching a source
(HTTP or the file system) is the function parameter
`fetch: Source -> Result<string>`. The address grammar (`addrToByteRange`)
is the parameter `ranges: (string, string) -> Result<(int, int)>`. A range
that falls outside the fetched text makes the source either panic when it
slices the bytes, or read past the content into the slice's spare capacity;
the model reports it as `Err(SliceBounds(lo, hi))`. A
`log.Fatal` on the first error becomes an `Err` result of the whole run.

## Model

| member | source | states |
|---|---|---|
| Strings.FieldsOfJoin | yoinker.go:67-71 | Words joined with single spaces split back into exactly those words, so the re-joined address keeps its fields |
| Strings.FieldsTrimSpace | yoinker.go:60-62 | Trimming the directive before splitting it into fields does not change the fields |
| LineBuffer.Next | parser.go:110-128 | `next` returns the first non-comment line at or after the cursor and leaves the cursor just past it. Every line it skipped is a comment. It fails exactly when only comments remain, and then the cursor still advances. The text never changes |
| LineBuffer.NextNonEmpty | parser.go:149-160 | Like `next`, but it also passes over empty lines. A returned line is non-empty and not a comment. It fails exactly when every remaining line is empty or a comment |
| LineBuffer.Set | parser.go:130-140 | `set` fails with out-of-bounds exactly when the index is outside the document. Otherwise it replaces only that line and keeps the length, the cursor and the comment prefix |
| LineBuffer.Back | parser.go:142-147 | `back` moves the cursor back one line and changes nothing else |
| LineBuffer.BackRereads | parser.go:142-147 | `back` after a successful `next` makes the next read return the same line and the same buffer |
| LineBuffer.NextOnNonComment | parser.go:114-125 | On a non-comment line, `next` returns that line at once |
| LineBuffer.SetRestores | parser.go:130-140 | Writing a line's old text back restores the buffer (`set` is undone by `set`) |
| Parsers.RegisterParser | parser.go:59-66 | Fails exactly for an empty name or one starting with `;`. Otherwise the table gains only the key `"." + name`, which maps to the handler. Every other entry is unchanged, and well-formed keys stay well-formed |
| Dispatch.CommandNameIsFirstField | parser.go:178-181 | The name a directive is looked up by is the first of its fields (`args[0]`) and begins with `.` |
| Dispatch.Scan | parser.go:169-188 | Each job targets its own directive line at or after the cursor, carries that line's text and the handler registered under its first field. Jobs come in strictly increasing line order, so no two write the same line |
| Dispatch.DirectiveIndicesComplete | parser.go:178-185 | The reference list of directive lines misses no directive line |
| Dispatch.ScanFindsDirectives | parser.go:169-188 | The lines the scan dispatches are exactly the directive lines at or after the cursor, in order. Comments, empty lines, other lines and unknown names are passed over |
| Dispatch.ScanTargets | parser.go:178-202 | A line gets a job exactly when it is a directive at or after the cursor. Each job calls its handler with the line's 1-based number and raw text |
| Dispatch.ApplySucceeds | parser.go:202-210 | The write-backs succeed exactly when every job's handler succeeds and every write is in bounds |
| Dispatch.ApplyKeepsOtherLines | parser.go:208 | Lines no job targets keep their text |
| Dispatch.ApplyWritesResults | parser.go:202-210 | When targets are distinct, each targeted line holds its own job's handler result |
| Dispatch.Apply | parser.go:196-212 | Writing the handlers' results back never changes the cursor, the comment prefix or the number of lines |
| Dispatch.ParseLines | parser.go:162-194 | Resolution never changes the document's line count |
| Dispatch.ParseLinesSucceeds | parser.go:190-193 | `parseLines` succeeds exactly when the handler of every directive line at or after the cursor succeeds |
| Dispatch.ParseLinesOutcome | parser.go:162-212 | After success, each directive line holds its own handler's result and every other line is unchanged |
| Dispatch.ScanIgnoresBehind | parser.go:169-186 | The scan reads only at or after the cursor, so writes behind it do not change the jobs |
| Dispatch.ApplyIgnoresCursor | parser.go:130-140 | The text left by the write-backs does not depend on the cursor |
| Dispatch.InterleavedIsParseLines | parser.go:169-212 | Running each handler as soon as its line is scanned gives the same result as scanning first and writing afterwards |
| Dispatch.ParseLinesRunsFirstJob | parser.go:186-210 | At a directive, `parseLines` either fails with that handler's error or continues on the buffer with the result written back |
| Dispatch.Parse | parser.go:73-86 | A successful parse is `\n`-joined lines, one per document line: each directive line holds its handler's text, and every other line is kept as it was |
| Dispatch.ParseIdentity | parser.go:73-86 | A document with no directive lines comes back as its lines joined with `\n` |
| Dispatch.ParseSucceeds | parser.go:73-86 | `Parse` fails exactly when the handler of some directive line fails |
| Dispatch.CommentLinesUntouched | parser.go:79 | With the comment prefix `//`, lines starting with `//` are never dispatched and come out unchanged |
| Extract.ScanLines | yoinker.go:139-141 | The scanner yields no token exactly when the input is empty |
| Extract.ScanLinesHaveNoNewline | yoinker.go:139-141 | No token the scanner yields contains a newline |
| Extract.ScanLinesAppend | yoinker.go:139-141 | Content that ends at a line break scans into its own lines followed by the lines of what comes after it |
| Extract.ScanLinesOfJoin | yoinker.go:123 | Lines without newlines and without a trailing `\r`, joined with `\n`, scan back into exactly those lines, provided the last one is not blank |
| Extract.ScanLinesCRLF | yoinker.go:139-141 | A line ended by `\r\n` is scanned without its carriage return |
| Extract.ScanLinesOfCRLFJoin | yoinker.go:139-141 | Lines joined with `\r\n` scan back into exactly those lines, provided the last one is not blank and does not end in `\r` |
| Extract.JoinOfScanLines | yoinker.go:139-141 | Content with no `\r` that does not end in a newline is restored by joining its scanned lines with `\n` |
| Extract.FilterOmit | yoinker.go:140-146 | No kept line ends in `OMIT`, and order is preserved. The result is shorter than the input by exactly the number of `OMIT` lines, so every other line is kept, repeats included. Without `OMIT` lines nothing changes |
| Extract.FilterOmitKeepsOthers | yoinker.go:140-146 | Every line that does not end in `OMIT` appears in the result |
| Extract.FilterOmitUnique | yoinker.go:140-146 | Any in-order selection of the lines that has no `OMIT` line and drops only `OMIT` lines is the filter's result |
| Extract.TrimBlank | yoinker.go:147-153 | The result is a contiguous slice of the input whose ends are not blank, and everything cut away is blank |
| Extract.FilterTrimFixedPoint | yoinker.go:140-153 | Lines with no `OMIT` line and no blank line at either end are left unchanged |
| Extract.ExtractLines | yoinker.go:129-155 | No extracted line ends in `OMIT`, and neither end is blank. The result is a contiguous run of the span's non-`OMIT` lines, and every such line outside the run is blank |
| Extract.TrimBlankKeepsInterior | yoinker.go:147-153 | Trimming keeps every line from the first non-blank line to the last, blank interior lines included |
| Extract.ExtractKeepsInterior | yoinker.go:139-153 | Every non-`OMIT` line of the span from the first non-blank one to the last is extracted, blank or not, in its place |
| Extract.ExtractIsSubsequence | yoinker.go:139-153 | The extracted lines are the span's lines with some left out and the rest in order |
| Extract.ExtractIdempotent | yoinker.go:139-153 | Filtering and trimming the extracted lines again changes nothing |
| Extract.ExtractStartEndExample | parser_test.go:59-66 | Between the `/START OMIT` and `/END OMIT` markers of the test snippet only `1.2 Included` is extracted |
| Extract.LineStart | yoinker.go:114-116 | `lo` moves back to the start of its line, and never past a newline |
| Extract.LineEnd | yoinker.go:117-121 | `hi` moves forward to just past the next newline, or to the end of the content |
| Extract.RoundToLines | yoinker.go:109-121 | The rounded span covers the ordered range. It starts at a line start and ends at a line end, or stays at 0 when the range ends at 0 |
| Extract.AlignedSliceLines | yoinker.go:113-121 | The lines of a span that starts and ends on line boundaries are lines of the whole content, in order |
| Extract.RoundedExtractIsSubsequence | yoinker.go:109-123 | Whatever in-bounds range the address gives, the extracted lines are lines of the fetched content, in their original order |
| Extract.RoundToLinesLoop | zipper.go:102-114 | The swap and the two widening loops, as written, compute `RoundToLines` |
| Directive.AddressFields | yoinker.go:67-71 | The address splits back into the fields after the target, and is empty exactly when there are none |
| Directive.Tokenize | yoinker.go:60-71 | Fewer than two fields is a syntax error. Otherwise the target is the second field, and the address is the fields after it joined with single spaces |
| Directive.TokenizeOfJoin | yoinker.go:60-71 | A directive written as name, target and address words gives back the target and the address |
| Directive.Classify | yoinker.go:76-98 | A target is fetched over HTTP exactly when it starts with `http://` or `https://`. Any other target is read relative to the document's own path |
| Directive.Resolve | yoinker.go:59-124 | Fewer than two fields gives the syntax error. Success needs a successful fetch of the classified target. The result is lines joined with `\n`. Those lines are lines of the fetched content, in order, none ends in `OMIT`, and neither end is blank |
| Directive.ResolveSucceeds | yoinker.go:59-124 | The handler succeeds exactly when the command has a target, the target can be read, and the address resolves to a range inside the text read |
| Directive.ResolveOutcome | yoinker.go:105-123 | With the text read and the range resolved: an in-bounds range gives the extracted lines of the ordered, whole-line span joined with `\n`; any other range is the slicing failure |
| Directive.AddressFailure | yoinker.go:105-108 | An address that does not resolve is reported prefixed with the directive's file and line |
| Directive.YoinkParser | yoinker.go:63-65 | A `.yoink` with fewer than two fields fails with the `yoink` syntax error at its file and line |
| Directive.ParseZip | zipper.go:55-58 | A `.zip` with fewer than two fields fails with a syntax error that names `.inc` |
| Directive.YoinkAgreesWithZip | zipper.go:52-117 | The two handlers agree exactly on the commands with at least two fields |
| Directive.BareDirectiveIsSyntaxError | yoinker_test.go:53-57 | A bare `.yoink` is a syntax error |
| Directive.FetchFailure | yoinker.go:83-102 | A failed remote fetch is passed on unchanged. A failed local read is prefixed with the directive's file and line |
| Directive.WholeText | yoinker.go:105-123 | When the address resolves to the whole content, the result is the whole content without `OMIT` lines and without blank lines at either end, joined with `\n` |
| Directive.YoinkRegistered | yoinker.go:51-54 | Registering `yoink` succeeds, and `.yoink` lines reach `yoinkParser` |
| Directive.SingleDirectiveFails | parser.go:190-193 | A document whose single line is a failing directive fails with that handler's error |
| Directive.BareDirectiveFailsParse | yoinker_test.go:53-57 | A document holding only a bare `.yoink` fails with the syntax error for line 1 |
| Directive.Configure | yoinker.go:42-49 | A gate exists exactly when the concurrency limit is positive, and has that capacity. The delay is the interval when positive and zero otherwise |
| Directive.DefaultIsUnthrottled | cfg.go:16-21 | The default configuration neither gates nor delays remote fetches |

## Left out

- Concurrency: the goroutines, the `WaitGroup`, the single-slot error channel and the cancellation `select` in `Wait` are not modelled. Jobs run in document order, and the first failing job in that order is the one reported. In the source the reported error is whichever goroutine reports first. `Dispatch.InterleavedIsParseLines` and the distinct-targets property justify the sequential reading for successful runs.
- Dispatch.ParseSucceeds, Dispatch.ParseLinesSucceeds and Dispatch.Parse: state the intended rule that a failing directive aborts the whole run. The source does not guarantee it. Once a task has failed and every task has finished, `Wait` (parser.go:33-41) can find both the error channel and the closed `done` channel ready, and `select` then picks one at random. If it picks `done`, `Parse` succeeds and the failed directive's line is left as it was. This follows from reading the code.
- The semaphore and `time.Sleep`: only `Directive.Configure` models their setup. Acquiring the gate and waiting out the delay are not modelled.
- I/O: `http.Get`, `url.ParseRequestURI`, `io.ReadAll` and `os.ReadFile` are folded into the `fetch` parameter. `readLines` (parser.go:74, 95-108), which reads the document itself, is not modelled: the model's `Parse` starts from the document's lines, and its read errors are not modelled. `filepath.Join(filepath.Dir(...))` is kept abstract in `Source.Local(relativeTo, path)`.
- The address grammar, `addrToByteRange` (regular expressions, `+N`/`-N` offsets, the unsupported reverse search), is not part of this model. It is the `ranges` parameter, so the bad-regex and reverse-search cases at yoinker_test.go:63-72 are not covered.
- The 64 KiB token limit of `bufio.Scanner`, and its error on longer lines, are not modelled.
- The `startLine` counter in `extractLines` is computed but never used, so it is not modelled.
- `log.Printf` for unknown directive names is not modelled. The line is simply passed over.
- The loop at parser.go:171-173 can never run, because `nextNonEmpty` returns no empty line with `ok`; it is not modelled.
- `Register` in zipper.go is not part of this model. `ParseZip` is modelled, but not its registration.
- `main.go` and the rest of `cfg.go` (`InitConfig`) are not part of this model.
- LineBuffer.Next: requires a non-negative cursor. With a negative cursor the source indexes the slice with a negative index and panics. Only `back` makes the cursor negative: once before any read, or more often than lines have been read.
- Extract.ExtractLines and Extract.RoundToLines: require a range inside the content. In the source, a range past the content either panics when it slices the bytes or, when it ends inside the slice's spare capacity, reads bytes that are not part of the content. `Directive.Resolve` checks the range first and returns `SliceBounds` in both cases.
- Directive.Resolve: the address grammar lies outside the model, so the span an address selects is whatever the `ranges` parameter returns. `Directive.ResolveOutcome` gives the exact text for that span, and `Directive.WholeText` for the whole content.
- Byte and rune offsets are not related: directive lines are modelled as runes and fetched content as bytes, and the decoding between the two is not modelled.

Points where the code's behaviour is easy to misread:

- `DefaultConfig` (cfg.go:16-21) sets the concurrency limit and the interval to 0 and 0, so by default there is no gate and no delay (`Directive.DefaultIsUnthrottled`).
- The address is the fields after the target re-joined with single spaces (yoinker.go:67-71), so runs of white space in it collapse to one space (`Directive.Tokenize`).
- `Parse` does not return a directive-free document byte for byte. It reads lines with `bufio.Scanner`, which drops a final newline and one trailing `\r` per line, and joins them with `\n`. `Dispatch.ParseIdentity` states what the code does, on the line sequence.
- `strings.Fields` splits on Unicode white space, and `Strings.IsSpace` follows it.
- yoinker.go's `configure` reads `Config.MaxConcurrent` on the type name `Config`, while cfg.go keeps the settings in the `config` variable. `Directive.Configure` models the rule that both handlers apply to the configuration they are given.
