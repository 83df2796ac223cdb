/** The `.yoink` and `.zip` directive handlers (`yoinkParser` in yoinker.go
    and `parseZip` in zipper.go). The two are the same algorithm and share
    one definition, `Resolve`, which differs between them only in the name
    its syntax error quotes. Fetching and the address grammar lie outside
    the model and come in as function parameters. */
module Directive {
  import opened Results
  import opened Strings
  import opened Extract
  import opened LineBuffer
  import opened Parsers
  import opened Dispatch

  /** A tokenised directive: the file or URL to read from, and the address
      that selects a span of it. */
  datatype Command = Command(target: string, address: string)

  /** The address part of a directive's fields: the fields after the
      second, re-joined with single spaces. */
  function Address(parts: seq<string>): string {
    if |parts| > 2 then Join(parts[2..], " ") else ""
  }

  /** Splitting the address again gives back the fields it came from, and
      it is empty exactly when there are no fields after the target. */
  lemma AddressFields(parts: seq<string>)
    requires |parts| >= 2
    requires forall i :: 0 <= i < |parts| ==> IsWord(parts[i])
    ensures Fields(Address(parts)) == parts[2..]
    ensures Address(parts) == "" <==> |parts| == 2
  {
    FieldsOfJoin(parts[2..]);
  }

  /** Splits a directive line into its fields: the second is the target and
      the rest, re-joined with single spaces, is the address. Fewer than two
      fields is a syntax error. */
  function Tokenize(cmd: string): (r: Option<Command>)
    ensures r.None? <==> |Fields(cmd)| < 2
    ensures r.Some? ==> r.value.target == Fields(cmd)[1]
    ensures r.Some? ==> r.value.address == Join(Fields(cmd)[2..], " ")
    ensures r.Some? ==> Fields(r.value.address) == Fields(cmd)[2..]
    ensures r.Some? ==> (r.value.address == "" <==> |Fields(cmd)| == 2)
  {
    FieldsTrimSpace(cmd);
    var parts := Fields(TrimSpace(cmd));
    if |parts| < 2 then None
    else
      AddressFields(parts);
      Some(Command(parts[1], Address(parts)))
  }

  /** Writing a directive as its name, target and address words separated
      by single spaces and tokenising it again gives the target and the
      address back. */
  lemma {:induction false} TokenizeOfJoin(name: string, target: string, words: seq<string>)
    requires IsWord(name) && IsWord(target)
    requires forall i :: 0 <= i < |words| ==> IsWord(words[i])
    ensures Tokenize(Join([name, target] + words, " ")) == Some(Command(target, Join(words, " ")))
  {
    var ws := [name, target] + words;
    var cmd := Join(ws, " ");
    FieldsOfJoin(ws);
    FieldsTrimSpace(cmd);
    var parts := Fields(TrimSpace(cmd));
    assert parts == ws;
    assert parts[1] == target;
    assert parts[2..] == words;
  }

  /** Where a target is read from: a URL fetched over HTTP, or a path taken
      relative to the directory of the document that holds the directive. */
  datatype Source = Remote(url: string) | Local(relativeTo: string, path: string)

  predicate IsRemote(target: string) {
    HasPrefix(target, "http://") || HasPrefix(target, "https://")
  }

  /** The target a source reads. */
  function TargetOf(s: Source): string {
    match s
    case Remote(url) => url
    case Local(_, path) => path
  }

  /** A target is remote exactly when it names an `http://` or `https://`
      URL; any other target is a path beside the source document. */
  function Classify(sourceFile: string, target: string): (r: Source)
    ensures r.Remote? <==> IsRemote(target)
    ensures r.Local? ==> r.relativeTo == sourceFile
    ensures TargetOf(r) == target
  {
    if IsRemote(target) then Remote(target) else Local(sourceFile, target)
  }

  /** Lines a handler may return: none ends in `OMIT` and neither end is
      blank. */
  predicate Excerpt(lines: seq<string>) {
    && (forall i :: 0 <= i < |lines| ==> !Omitted(lines[i]))
    && (lines != [] ==> lines[0] != "" && lines[|lines| - 1] != "")
  }

  /** The shared body of `yoinkParser` and `parseZip`. `fetch` reads a
      source; `ranges(address, text)` resolves an address to a byte range of
      `text`. A remote fetch failure is passed on as it is, while a local
      read failure and an address failure are prefixed with the directive's
      position. The range is ordered, widened to whole lines, and its lines
      are extracted and joined with `\n`: the replacement is made of lines
      of the fetched text, in their order. */
  function Resolve(name: string, fetch: Source -> Result<string>, ranges: (string, string) -> Result<(int, int)>,
                   sourceFile: string, sourceLine: int, cmd: string): (r: Result<string>)
    ensures |Fields(cmd)| < 2 ==> r == Err(SyntaxError(sourceFile, sourceLine, name))
    ensures r.Ok? ==> |Fields(cmd)| >= 2 && fetch(Classify(sourceFile, Fields(cmd)[1])).Ok?
    ensures r.Ok? ==> exists lines ::
      && Excerpt(lines)
      && IsSubsequence(lines, ScanLines(fetch(Classify(sourceFile, Fields(cmd)[1])).value))
      && r.value == Join(lines, "\n")
  {
    match Tokenize(cmd)
    case None => Err(SyntaxError(sourceFile, sourceLine, name))
    case Some(c) =>
      var src := Classify(sourceFile, c.target);
      match fetch(src)
      case Err(e) => Err(if src.Remote? then e else At(sourceFile, sourceLine, e))
      case Ok(text) =>
        match ranges(c.address, text)
        case Err(e) => Err(At(sourceFile, sourceLine, e))
        case Ok((lo, hi)) =>
          if !(0 <= lo <= |text| && 0 <= hi <= |text|) then Err(SliceBounds(lo, hi))
          else
            var span := RoundToLines(text, lo, hi);
            var lines := ExtractLines(text, span.lo, span.hi);
            assert Excerpt(lines);
            RoundedExtractIsSubsequence(text, lo, hi);
            Ok(Join(lines, "\n"))
  }

  /** `yoinkParser`. */
  function YoinkParser(fetch: Source -> Result<string>, ranges: (string, string) -> Result<(int, int)>,
                       sourceFile: string, sourceLine: int, cmd: string): (r: Result<string>)
    ensures |Fields(cmd)| < 2 ==> r == Err(SyntaxError(sourceFile, sourceLine, "yoink"))
  {
    Resolve("yoink", fetch, ranges, sourceFile, sourceLine, cmd)
  }

  /** `parseZip`; its syntax error names `.inc`, not `.zip`. */
  function ParseZip(fetch: Source -> Result<string>, ranges: (string, string) -> Result<(int, int)>,
                    sourceFile: string, sourceLine: int, cmd: string): (r: Result<string>)
    ensures |Fields(cmd)| < 2 ==> r == Err(SyntaxError(sourceFile, sourceLine, "inc"))
  {
    Resolve("inc", fetch, ranges, sourceFile, sourceLine, cmd)
  }

  /** The two handlers give the same outcome on every well-formed command;
      only their syntax errors differ. */
  lemma YoinkAgreesWithZip(fetch: Source -> Result<string>, ranges: (string, string) -> Result<(int, int)>,
                           sourceFile: string, sourceLine: int, cmd: string)
    ensures |Fields(cmd)| >= 2 <==>
      YoinkParser(fetch, ranges, sourceFile, sourceLine, cmd) == ParseZip(fetch, ranges, sourceFile, sourceLine, cmd)
  {
  }

  /** A bare `.yoink` is a syntax error. */
  lemma BareDirectiveIsSyntaxError(fetch: Source -> Result<string>, ranges: (string, string) -> Result<(int, int)>,
                                   sourceFile: string, sourceLine: int)
    ensures YoinkParser(fetch, ranges, sourceFile, sourceLine, ".yoink") == Err(SyntaxError(sourceFile, sourceLine, "yoink"))
  {
    FieldsOfWord(".yoink", "");
    assert ".yoink" + "" == ".yoink";
  }

  /** A failed read is reported: unchanged for a URL, and prefixed with the
      directive's position for a local file. */
  lemma FetchFailure(name: string, fetch: Source -> Result<string>, ranges: (string, string) -> Result<(int, int)>,
                     sourceFile: string, sourceLine: int, cmd: string)
    requires |Fields(cmd)| >= 2
    requires fetch(Classify(sourceFile, Fields(cmd)[1])).Err?
    ensures var e := fetch(Classify(sourceFile, Fields(cmd)[1])).error;
      Resolve(name, fetch, ranges, sourceFile, sourceLine, cmd) ==
        Err(if IsRemote(Fields(cmd)[1]) then e else At(sourceFile, sourceLine, e))
  {
  }

  /** `Resolve` succeeds exactly when the command has a target, the
      target can be read, and its address resolves to a range inside the
      text read. */
  lemma ResolveSucceeds(name: string, fetch: Source -> Result<string>, ranges: (string, string) -> Result<(int, int)>,
                        sourceFile: string, sourceLine: int, cmd: string)
    ensures Resolve(name, fetch, ranges, sourceFile, sourceLine, cmd).Ok? <==>
      && |Fields(cmd)| >= 2
      && var c := Tokenize(cmd).value;
         var f := fetch(Classify(sourceFile, c.target));
         && f.Ok?
         && var a := ranges(c.address, f.value);
            && a.Ok?
            && 0 <= a.value.0 <= |f.value| && 0 <= a.value.1 <= |f.value|
  {
  }

  /** Once the target is read as `text` and the address gives `(lo, hi)`:
      a range inside the text yields the extracted lines of the span,
      ordered and widened to whole lines, joined with `\n`; a range outside
      it is the slicing failure. */
  lemma ResolveOutcome(name: string, fetch: Source -> Result<string>, ranges: (string, string) -> Result<(int, int)>,
                       sourceFile: string, sourceLine: int, cmd: string, text: string, lo: int, hi: int)
    requires Tokenize(cmd).Some?
    requires fetch(Classify(sourceFile, Tokenize(cmd).value.target)) == Ok(text)
    requires ranges(Tokenize(cmd).value.address, text) == Ok((lo, hi))
    ensures 0 <= lo <= |text| && 0 <= hi <= |text| ==>
      var span := RoundToLines(text, lo, hi);
      Resolve(name, fetch, ranges, sourceFile, sourceLine, cmd) == Ok(Join(ExtractLines(text, span.lo, span.hi), "\n"))
    ensures !(0 <= lo <= |text| && 0 <= hi <= |text|) ==>
      Resolve(name, fetch, ranges, sourceFile, sourceLine, cmd) == Err(SliceBounds(lo, hi))
  {
    var c := Tokenize(cmd).value;
    var r := Resolve(name, fetch, ranges, sourceFile, sourceLine, cmd);
    if 0 <= lo <= |text| && 0 <= hi <= |text| {
      var span := RoundToLines(text, lo, hi);
      assert r == Ok(Join(ExtractLines(text, span.lo, span.hi), "\n"));
    } else {
      assert r == Err(SliceBounds(lo, hi));
    }
  }

  /** An address that does not resolve is reported with the directive's
      position, for remote and local targets alike. */
  lemma AddressFailure(name: string, fetch: Source -> Result<string>, ranges: (string, string) -> Result<(int, int)>,
                       sourceFile: string, sourceLine: int, cmd: string, text: string)
    requires Tokenize(cmd).Some?
    requires fetch(Classify(sourceFile, Tokenize(cmd).value.target)) == Ok(text)
    requires ranges(Tokenize(cmd).value.address, text).Err?
    ensures Resolve(name, fetch, ranges, sourceFile, sourceLine, cmd) ==
      Err(At(sourceFile, sourceLine, ranges(Tokenize(cmd).value.address, text).error))
  {
  }

  /** An address that resolves to the whole text includes the whole text,
      less its `OMIT` lines and its blank lines at either end. */
  lemma WholeText(name: string, fetch: Source -> Result<string>, ranges: (string, string) -> Result<(int, int)>,
                  sourceFile: string, sourceLine: int, cmd: string)
    requires Tokenize(cmd).Some?
    requires var c := Tokenize(cmd).value;
      && fetch(Classify(sourceFile, c.target)).Ok?
      && var text := fetch(Classify(sourceFile, c.target)).value;
         ranges(c.address, text) == Ok((0, |text|))
    ensures var text := fetch(Classify(sourceFile, Tokenize(cmd).value.target)).value;
      Resolve(name, fetch, ranges, sourceFile, sourceLine, cmd) == Ok(Join(TrimBlank(FilterOmit(ScanLines(text))), "\n"))
  {
    var text := fetch(Classify(sourceFile, Tokenize(cmd).value.target)).value;
    assert text[0..|text|] == text;
  }

  /** The handler `init` in yoinker.go registers, with its reading and
      address resolution supplied. */
  function YoinkHandler(fetch: Source -> Result<string>, ranges: (string, string) -> Result<(int, int)>): Handler {
    (file: string, line: int, cmd: string) => YoinkParser(fetch, ranges, file, line, cmd)
  }

  /** `init` in yoinker.go: `yoink` is a valid name, so registration
      succeeds and `.yoink` lines reach `yoinkParser`. */
  lemma YoinkRegistered(table: Table, fetch: Source -> Result<string>, ranges: (string, string) -> Result<(int, int)>,
                        file: string, line: int, cmd: string)
    ensures RegisterParser(table, "yoink", YoinkHandler(fetch, ranges)).Ok?
    ensures ".yoink" in RegisterParser(table, "yoink", YoinkHandler(fetch, ranges)).value
    ensures RegisterParser(table, "yoink", YoinkHandler(fetch, ranges)).value[".yoink"](file, line, cmd) ==
      YoinkParser(fetch, ranges, file, line, cmd)
  {
    assert "." + "yoink" == ".yoink";
  }

  /** A document of one directive line fails when that line's handler
      does, with the handler's error for line 1. */
  lemma {:induction false} SingleDirectiveFails(table: Table, file: string, d: string)
    requires d != "" && HasPrefix(d, ".") && !IsComment(d, DocComment) && CommandName(d) in table
    requires table[CommandName(d)](file, 1, d).Err?
    ensures Parse(table, file, [d]) == Err(table[CommandName(d)](file, 1, d).error)
  {
    var l := Lines([d], 0, DocComment);
    NextOnNonComment(l);
    assert NextNonEmpty(l) == Read(l.(line := 1), d, true);
    ParseLinesRunsFirstJob(file, l, table);
  }

  /** End to end: in a document whose only line is a bare `.yoink`, the
      handler reports the syntax error for line 1 and `Parse` fails with
      it. */
  lemma BareDirectiveFailsParse(table: Table, fetch: Source -> Result<string>, ranges: (string, string) -> Result<(int, int)>,
                                file: string)
    requires table == RegisterParser(map[], "yoink", YoinkHandler(fetch, ranges)).value
    ensures Parse(table, file, [".yoink"]) == Err(SyntaxError(file, 1, "yoink"))
  {
    var d := ".yoink";
    YoinkRegistered(map[], fetch, ranges, file, 1, d);
    BareYoinkLine();
    BareDirectiveIsSyntaxError(fetch, ranges, file, 1);
    SingleDirectiveFails(table, file, d);
  }

  /** A bare `.yoink` line is not a comment and is its own command name. */
  lemma BareYoinkLine()
    ensures HasPrefix(".yoink", ".") && !IsComment(".yoink", DocComment)
    ensures CommandName(".yoink") == ".yoink"
  {
    var d := ".yoink";
    assert d[..1] == ".";
    assert d[..2][0] != DocComment[0];
    forall k | 0 <= k < |d| ensures !IsSpace(d[k]) {
      assert d[k] in {'.', 'y', 'o', 'i', 'n', 'k'};
    }
    WordLenOfWord(d, "");
    assert d + "" == d;
  }

  /** The package configuration the handlers read. */
  datatype Config = Config(maxConcurrent: int, minInterval: int)

  /** The rate limit a handler applies to remote fetches: an optional
      admission gate of the given capacity, and the delay before each
      fetch. */
  datatype Throttle = Throttle(gate: Option<int>, delay: int)

  /** `configure` (yoinker.go) and the first half of `init` (zipper.go): a
      gate only for a positive concurrency limit, and a delay only for a
      positive interval; the package defaults are no gate and no delay. */
  function Configure(c: Config): (r: Throttle)
    ensures r.gate.Some? <==> c.maxConcurrent > 0
    ensures r.gate.Some? ==> r.gate.value == c.maxConcurrent
    ensures r.delay >= 0 && (r.delay == 0 <==> c.minInterval <= 0)
    ensures c.minInterval > 0 ==> r.delay == c.minInterval
  {
    Throttle(if c.maxConcurrent > 0 then Some(c.maxConcurrent) else None,
             if c.minInterval > 0 then c.minInterval else 0)
  }

  /** `DefaultConfig` in cfg.go. */
  const DefaultConfig: Config := Config(0, 0)

  /** With the default configuration remote fetches are neither gated nor
      delayed. */
  lemma DefaultIsUnthrottled()
    ensures Configure(DefaultConfig) == Throttle(None, 0)
  {
  }
}
