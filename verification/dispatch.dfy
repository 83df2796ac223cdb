/** The directive scan and write-back of `parseLines`/`concurrentParse`,
    run sequentially: the scan collects one job per directive line, then
    every job's handler runs and its result is written in turn. */
module Dispatch {
  import opened Results
  import opened Strings
  import opened LineBuffer
  import opened Parsers

  /** The name a directive line is looked up by, such as `.yoink`: the
      line's leading run of non-space characters. */
  function CommandName(s: string): string
    requires HasPrefix(s, ".")
  {
    s[..WordLen(s)]
  }

  /** The name is `args[0]` of `parseLines`, the first of the line's
      fields, and starts with the `.` of the line. */
  lemma CommandNameIsFirstField(s: string)
    requires HasPrefix(s, ".")
    ensures |Fields(s)| > 0 && CommandName(s) == Fields(s)[0]
    ensures IsWord(CommandName(s)) && HasPrefix(s, CommandName(s)) && CommandName(s)[0] == '.'
  {
    assert s[0] == '.';
  }

  /** A line the scan dispatches: not a comment, starting with `.`, and
      whose first field has a handler. */
  predicate IsDirective(s: string, comment: string, table: Table) {
    !IsComment(s, comment) && HasPrefix(s, ".") && CommandName(s) in table
  }

  /** A dispatched directive: its handler, the 1-based line number the scan
      captured, and the raw line. */
  datatype Job = Job(handler: Handler, lineNo: int, cmd: string)

  /** The line index a job writes back to (`sourceLine-1`). */
  function Target(job: Job): int { job.lineNo - 1 }

  function Targets(jobs: seq<Job>): (r: seq<int>)
    ensures |r| == |jobs| && forall i :: 0 <= i < |jobs| ==> r[i] == Target(jobs[i])
  {
    if jobs == [] then [] else [Target(jobs[0])] + Targets(jobs[1..])
  }

  /** `job` was dispatched for a directive line at or after `from`: it
      targets that line's own index, carries its text, and holds the
      handler registered under its first field. */
  ghost predicate Dispatched(job: Job, text: seq<string>, comment: string, table: Table, from: int) {
    && 0 <= from <= Target(job) < |text|
    && job.cmd == text[Target(job)]
    && IsDirective(job.cmd, comment, table)
    && job.handler == table[CommandName(job.cmd)]
  }

  /** The scan loop of `parseLines`. Every job writes to the index of its
      own directive line and the jobs come in strictly increasing line
      order, so no two share a line. */
  function Scan(l: Lines, table: Table): (jobs: seq<Job>)
    requires 0 <= l.line
    ensures forall i :: 0 <= i < |jobs| ==> Dispatched(jobs[i], l.text, l.comment, table, l.line)
    ensures forall i, j :: 0 <= i < j < |jobs| ==> jobs[i].lineNo < jobs[j].lineNo
    decreases |l.text| - l.line
  {
    var r := NextNonEmpty(l);
    if !r.ok then []
    else
      var rest := Scan(r.lines, table);
      if HasPrefix(r.text, ".") && CommandName(r.text) in table then
        var job := Job(table[CommandName(r.text)], r.lines.line, r.text);
        ConsJobs(job, rest, l.text, l.comment, table, l.line);
        [job] + rest
      else
        WidenFrom(rest, l.text, l.comment, table, r.lines.line, l.line);
        rest
  }

  /** Jobs dispatched at or after one line are dispatched at or after any
      earlier line too. */
  lemma WidenFrom(jobs: seq<Job>, text: seq<string>, comment: string, table: Table, from: int, from': int)
    requires 0 <= from' <= from
    requires forall i :: 0 <= i < |jobs| ==> Dispatched(jobs[i], text, comment, table, from)
    ensures forall i :: 0 <= i < |jobs| ==> Dispatched(jobs[i], text, comment, table, from')
  {
  }

  /** A job followed by jobs for later lines keeps the scan's ordering. */
  lemma ConsJobs(job: Job, rest: seq<Job>, text: seq<string>, comment: string, table: Table, from: int)
    requires Dispatched(job, text, comment, table, from)
    requires forall i :: 0 <= i < |rest| ==> Dispatched(rest[i], text, comment, table, job.lineNo)
    requires forall i, j :: 0 <= i < j < |rest| ==> rest[i].lineNo < rest[j].lineNo
    ensures forall i :: 0 <= i < |[job] + rest| ==> Dispatched(([job] + rest)[i], text, comment, table, from)
    ensures forall i, j :: 0 <= i < j < |[job] + rest| ==> ([job] + rest)[i].lineNo < ([job] + rest)[j].lineNo
  {
  }

  /** Reference definition: the indices at or after `from` of the lines
      that are directives, in order. */
  function DirectiveIndices(text: seq<string>, comment: string, table: Table, from: int): (r: seq<int>)
    requires 0 <= from
    ensures forall i :: 0 <= i < |r| ==> from <= r[i] < |text| && IsDirective(text[r[i]], comment, table)
    decreases |text| - from
  {
    if from >= |text| then []
    else if IsDirective(text[from], comment, table) then [from] + DirectiveIndices(text, comment, table, from + 1)
    else DirectiveIndices(text, comment, table, from + 1)
  }

  /** The reference misses no directive. */
  lemma {:induction false} DirectiveIndicesComplete(text: seq<string>, comment: string, table: Table, from: int, k: int)
    requires 0 <= from <= k < |text| && IsDirective(text[k], comment, table)
    ensures k in DirectiveIndices(text, comment, table, from)
    decreases k - from
  {
    var rest := DirectiveIndices(text, comment, table, from + 1);
    if from < k {
      DirectiveIndicesComplete(text, comment, table, from + 1, k);
    }
    if IsDirective(text[from], comment, table) {
      assert DirectiveIndices(text, comment, table, from) == [from] + rest;
    } else {
      assert DirectiveIndices(text, comment, table, from) == rest;
    }
  }

  /** Lines with no directive among them do not change the reference. */
  lemma {:induction false} DirectiveIndicesSkip(text: seq<string>, comment: string, table: Table, lo: int, hi: int)
    requires 0 <= lo <= hi
    requires forall k :: lo <= k < hi && k < |text| ==> !IsDirective(text[k], comment, table)
    ensures DirectiveIndices(text, comment, table, lo) == DirectiveIndices(text, comment, table, hi)
    decreases hi - lo
  {
    if lo < hi && lo < |text| {
      DirectiveIndicesSkip(text, comment, table, lo + 1, hi);
    }
  }

  /** The scan dispatches exactly the directive lines at or after the
      cursor: unknown names, comments and other lines are passed over. */
  lemma {:induction false} ScanFindsDirectives(l: Lines, table: Table)
    requires 0 <= l.line
    ensures Targets(Scan(l, table)) == DirectiveIndices(l.text, l.comment, table, l.line)
    decreases |l.text| - l.line
  {
    var r := NextNonEmpty(l);
    if !r.ok {
      ScanAtEnd(l, table);
    } else {
      ScanFindsDirectives(r.lines, table);
      ScanStep(l, table);
    }
  }

  /** The inductive step: if the scan from just past the line
      `nextNonEmpty` returns finds the directives there, the scan from the
      cursor finds those at or after the cursor. */
  lemma {:induction false} ScanStep(l: Lines, table: Table)
    requires 0 <= l.line
    requires NextNonEmpty(l).ok
    requires Targets(Scan(NextNonEmpty(l).lines, table)) == DirectiveIndices(l.text, l.comment, table, NextNonEmpty(l).lines.line)
    ensures Targets(Scan(l, table)) == DirectiveIndices(l.text, l.comment, table, l.line)
  {
    var j := NextNonEmpty(l).lines.line - 1;
    DirectivesFromNext(l, table);
    ScanStepTargets(l, table);
    DirectiveIndicesAt(l.text, l.comment, table, j);
  }

  /** Before the line `nextNonEmpty` returns there is no directive. */
  lemma {:induction false} DirectivesFromNext(l: Lines, table: Table)
    requires 0 <= l.line
    requires NextNonEmpty(l).ok
    ensures NextNonEmpty(l).lines.text == l.text && NextNonEmpty(l).lines.comment == l.comment
    ensures l.line < NextNonEmpty(l).lines.line <= |l.text|
    ensures DirectiveIndices(l.text, l.comment, table, l.line) ==
      DirectiveIndices(l.text, l.comment, table, NextNonEmpty(l).lines.line - 1)
  {
    SkippedLinesAreNotDirectives(l, table);
    DirectiveIndicesSkip(l.text, l.comment, table, l.line, NextNonEmpty(l).lines.line - 1);
  }

  /** One step of the scan: the line `nextNonEmpty` returns is a target
      exactly when it is a directive. */
  lemma {:induction false} ScanStepTargets(l: Lines, table: Table)
    requires 0 <= l.line
    requires NextNonEmpty(l).ok
    ensures var r := NextNonEmpty(l);
      Targets(Scan(l, table)) ==
        (if IsDirective(l.text[r.lines.line - 1], l.comment, table) then [r.lines.line - 1] else []) + Targets(Scan(r.lines, table))
  {
    var r := NextNonEmpty(l);
    if IsDirective(l.text[r.lines.line - 1], l.comment, table) {
      ScanDispatches(l, table);
    } else {
      ScanPassesOver(l, table);
      assert [] + Targets(Scan(r.lines, table)) == Targets(Scan(r.lines, table));
    }
  }

  lemma {:induction false} ScanAtEnd(l: Lines, table: Table)
    requires 0 <= l.line
    requires !NextNonEmpty(l).ok
    ensures Scan(l, table) == []
    ensures DirectiveIndices(l.text, l.comment, table, l.line) == []
  {
    DirectiveIndicesSkip(l.text, l.comment, table, l.line, Max(l.line, |l.text|));
  }

  lemma {:induction false} DirectiveIndicesAt(text: seq<string>, comment: string, table: Table, j: int)
    requires 0 <= j < |text|
    ensures DirectiveIndices(text, comment, table, j) ==
      (if IsDirective(text[j], comment, table) then [j] else []) + DirectiveIndices(text, comment, table, j + 1)
  {
    if !IsDirective(text[j], comment, table) {
      assert [] + DirectiveIndices(text, comment, table, j + 1) == DirectiveIndices(text, comment, table, j + 1);
    }
  }

  lemma {:induction false} SkippedLinesAreNotDirectives(l: Lines, table: Table)
    requires 0 <= l.line
    requires NextNonEmpty(l).ok
    ensures forall k :: l.line <= k < NextNonEmpty(l).lines.line - 1 ==> !IsDirective(l.text[k], l.comment, table)
  {
  }

  /** A directive line found by `nextNonEmpty` becomes the next job. */
  lemma {:induction false} ScanDispatches(l: Lines, table: Table)
    requires 0 <= l.line
    requires NextNonEmpty(l).ok
    requires IsDirective(l.text[NextNonEmpty(l).lines.line - 1], l.comment, table)
    ensures Targets(Scan(l, table)) == [NextNonEmpty(l).lines.line - 1] + Targets(Scan(NextNonEmpty(l).lines, table))
  {
    var rest := Scan(NextNonEmpty(l).lines, table);
    var jobs := [FirstJob(l, table)] + rest;
    ScanConsJob(l, table);
    TargetsCons(jobs);
    assert jobs[1..] == rest;
    assert Target(jobs[0]) == NextNonEmpty(l).lines.line - 1;
  }

  /** Any other line is passed over. */
  lemma {:induction false} ScanPassesOver(l: Lines, table: Table)
    requires 0 <= l.line
    requires NextNonEmpty(l).ok
    requires !IsDirective(l.text[NextNonEmpty(l).lines.line - 1], l.comment, table)
    ensures Scan(l, table) == Scan(NextNonEmpty(l).lines, table)
  {
  }

  /** Running one job's handler. */
  function Run(job: Job, file: string): Result<string> {
    job.handler(file, job.lineNo, job.cmd)
  }

  /** A job succeeds when its handler does and its write is in bounds. */
  predicate Succeeds(job: Job, file: string, size: int) {
    Run(job, file).Ok? && 0 <= Target(job) < size
  }

  /** The write-backs of `concurrentParse`, applied in job order: each
      job's handler runs and its result is `set` at the job's target; the
      first failure, of a handler or of `set`, aborts the run. The line
      count and the cursor never change. */
  function Apply(l: Lines, file: string, jobs: seq<Job>): (r: Result<Lines>)
    ensures r.Ok? ==> r.value.line == l.line && r.value.comment == l.comment
    ensures r.Ok? ==> |r.value.text| == |l.text|
    decreases |jobs|
  {
    if jobs == [] then Ok(l)
    else
      match Run(jobs[0], file)
      case Err(e) => Err(e)
      case Ok(t) =>
        match Set(l, t, Target(jobs[0]))
        case Err(e) => Err(e)
        case Ok(l') => Apply(l', file, jobs[1..])
  }

  /** The run succeeds exactly when every job does. */
  lemma {:induction false} ApplySucceeds(l: Lines, file: string, jobs: seq<Job>)
    ensures Apply(l, file, jobs).Ok? <==> forall i :: 0 <= i < |jobs| ==> Succeeds(jobs[i], file, |l.text|)
    decreases |jobs|
  {
    if jobs != [] && Run(jobs[0], file).Ok? && Set(l, Run(jobs[0], file).value, Target(jobs[0])).Ok? {
      var l' := Set(l, Run(jobs[0], file).value, Target(jobs[0])).value;
      ApplySucceeds(l', file, jobs[1..]);
      assert forall i :: 1 <= i < |jobs| ==> jobs[i] == jobs[1..][i - 1];
    }
  }

  /** Lines no job targets keep their text. */
  lemma {:induction false} ApplyKeepsOtherLines(l: Lines, file: string, jobs: seq<Job>)
    requires Apply(l, file, jobs).Ok?
    ensures forall k :: 0 <= k < |l.text| && k !in Targets(jobs) ==> Apply(l, file, jobs).value.text[k] == l.text[k]
    decreases |jobs|
  {
    if jobs != [] {
      var l' := Set(l, Run(jobs[0], file).value, Target(jobs[0])).value;
      ApplyKeepsOtherLines(l', file, jobs[1..]);
      TargetsCons(jobs);
    }
  }

  /** With distinct targets, every targeted line ends up holding its own
      job's result. */
  lemma {:induction false} ApplyWritesResults(l: Lines, file: string, jobs: seq<Job>)
    requires Apply(l, file, jobs).Ok?
    requires forall i, j :: 0 <= i < j < |jobs| ==> Target(jobs[i]) != Target(jobs[j])
    ensures forall i :: 0 <= i < |jobs| ==>
      && Succeeds(jobs[i], file, |l.text|)
      && Apply(l, file, jobs).value.text[Target(jobs[i])] == Run(jobs[i], file).value
    decreases |jobs|
  {
    if jobs != [] {
      var l' := Set(l, Run(jobs[0], file).value, Target(jobs[0])).value;
      var rest := jobs[1..];
      assert forall i :: 0 <= i < |rest| ==> rest[i] == jobs[i + 1];
      ApplyWritesResults(l', file, rest);
      ApplyKeepsOtherLines(l', file, rest);
      ApplySucceeds(l, file, jobs);
      TargetsCons(jobs);
    }
  }

  lemma TargetsCons(jobs: seq<Job>)
    requires jobs != []
    ensures Targets(jobs) == [Target(jobs[0])] + Targets(jobs[1..])
  {
  }

  /** `parseLines`: scan from the cursor, then apply every job. The result
      is the document's lines afterwards; there are as many as before. */
  function ParseLines(file: string, l: Lines, table: Table): (r: Result<seq<string>>)
    requires 0 <= l.line
    ensures r.Ok? ==> |r.value| == |l.text|
  {
    Texts(Apply(l, file, Scan(l, table)))
  }

  /** The lines of a finished buffer, or the failure. */
  function Texts(r: Result<Lines>): Result<seq<string>> {
    match r
    case Ok(done) => Ok(done.text)
    case Err(e) => Err(e)
  }

  /** The handler call `concurrentParse` makes for the directive on line
      index `k`: 1-based line number `k + 1` and the raw line. */
  function Invoke(table: Table, file: string, text: seq<string>, k: int): Result<string>
    requires 0 <= k < |text| && HasPrefix(text[k], ".") && CommandName(text[k]) in table
  {
    table[CommandName(text[k])](file, k + 1, text[k])
  }

  /** The scan's targets are exactly the directive lines at or after the
      cursor, and each job calls the handler as `concurrentParse` does. */
  lemma ScanTargets(file: string, l: Lines, table: Table)
    requires 0 <= l.line
    ensures forall k :: k in Targets(Scan(l, table)) <==>
      l.line <= k < |l.text| && IsDirective(l.text[k], l.comment, table)
    ensures forall i :: 0 <= i < |Scan(l, table)| ==>
      Run(Scan(l, table)[i], file) == Invoke(table, file, l.text, Target(Scan(l, table)[i]))
  {
    ScanFindsDirectives(l, table);
    forall k | l.line <= k < |l.text| && IsDirective(l.text[k], l.comment, table)
      ensures k in Targets(Scan(l, table))
    {
      DirectiveIndicesComplete(l.text, l.comment, table, l.line, k);
    }
  }

  /** `parseLines` fails exactly when some directive's handler fails. */
  lemma {:induction false} ParseLinesSucceeds(file: string, l: Lines, table: Table)
    requires 0 <= l.line
    ensures ParseLines(file, l, table).Ok? <==>
      forall k :: l.line <= k < |l.text| && IsDirective(l.text[k], l.comment, table) ==> Invoke(table, file, l.text, k).Ok?
  {
    var jobs := Scan(l, table);
    ApplySucceeds(l, file, jobs);
    if forall k :: l.line <= k < |l.text| && IsDirective(l.text[k], l.comment, table) ==> Invoke(table, file, l.text, k).Ok? {
      AllJobsSucceed(file, l, table);
    } else {
      var k :| l.line <= k < |l.text| && IsDirective(l.text[k], l.comment, table) && !Invoke(table, file, l.text, k).Ok?;
      SomeJobFails(file, l, table, k);
    }
  }

  lemma {:induction false} AllJobsSucceed(file: string, l: Lines, table: Table)
    requires 0 <= l.line
    requires forall k :: l.line <= k < |l.text| && IsDirective(l.text[k], l.comment, table) ==> Invoke(table, file, l.text, k).Ok?
    ensures forall i :: 0 <= i < |Scan(l, table)| ==> Succeeds(Scan(l, table)[i], file, |l.text|)
  {
    var jobs := Scan(l, table);
    forall i | 0 <= i < |jobs| ensures Succeeds(jobs[i], file, |l.text|) {
      JobInvokes(jobs[i], file, l.text, l.comment, table, l.line);
    }
  }

  /** A dispatched job calls its line's handler as `Invoke` does. */
  lemma JobInvokes(job: Job, file: string, text: seq<string>, comment: string, table: Table, from: int)
    requires Dispatched(job, text, comment, table, from)
    ensures 0 <= Target(job) < |text| && IsDirective(text[Target(job)], comment, table)
    ensures Run(job, file) == Invoke(table, file, text, Target(job))
  {
  }

  /** Two jobs dispatched for the same line of buffers that agree on that
      line are the same job. */
  lemma SameLineSameJob(job: Job, job': Job, text: seq<string>, text': seq<string>, comment: string, table: Table, from: int)
    requires Dispatched(job, text, comment, table, from) && Dispatched(job', text', comment, table, from)
    requires Target(job) == Target(job') && text[Target(job)] == text'[Target(job)]
    ensures job == job'
  {
  }

  lemma {:induction false} SomeJobFails(file: string, l: Lines, table: Table, k: int)
    requires 0 <= l.line <= k < |l.text|
    requires IsDirective(l.text[k], l.comment, table) && !Invoke(table, file, l.text, k).Ok?
    ensures exists i :: 0 <= i < |Scan(l, table)| && !Succeeds(Scan(l, table)[i], file, |l.text|)
  {
    var jobs := Scan(l, table);
    ScanFindsDirectives(l, table);
    DirectiveIndicesComplete(l.text, l.comment, table, l.line, k);
    assert k in Targets(jobs);
    var i :| 0 <= i < |jobs| && Targets(jobs)[i] == k;
    assert Dispatched(jobs[i], l.text, l.comment, table, l.line);
    assert !Succeeds(jobs[i], file, |l.text|);
  }

  /** After a successful `parseLines`, every directive line at or after
      the cursor holds its own handler's result and every other line is
      unchanged. */
  lemma {:induction false} ParseLinesOutcome(file: string, l: Lines, table: Table)
    requires 0 <= l.line
    requires ParseLines(file, l, table).Ok?
    ensures forall k :: l.line <= k < |l.text| && IsDirective(l.text[k], l.comment, table) ==> Invoke(table, file, l.text, k).Ok?
    ensures forall k :: 0 <= k < |l.text| ==>
      ParseLines(file, l, table).value[k] ==
        if l.line <= k && IsDirective(l.text[k], l.comment, table) then Invoke(table, file, l.text, k).value else l.text[k]
  {
    ParseLinesSucceeds(file, l, table);
    var jobs := Scan(l, table);
    ScanTargets(file, l, table);
    var done := Apply(l, file, jobs).value;
    ApplyKeepsOtherLines(l, file, jobs);
    ApplyWritesResults(l, file, jobs);
    forall k | 0 <= k < |l.text|
      ensures done.text[k] ==
        if l.line <= k && IsDirective(l.text[k], l.comment, table) then Invoke(table, file, l.text, k).value else l.text[k]
    {
      if l.line <= k && IsDirective(l.text[k], l.comment, table) {
        var i :| 0 <= i < |jobs| && Targets(jobs)[i] == k;
        assert Target(jobs[i]) == k;
      }
    }
  }

  /** `parseLines` as the loop runs it with one job at a time: each handler
      result is written back before the scan reads on. */
  function Interleaved(file: string, l: Lines, table: Table): (r: Result<seq<string>>)
    requires 0 <= l.line
    decreases |l.text| - l.line
  {
    var n := NextNonEmpty(l);
    if !n.ok then Ok(n.lines.text)
    else if HasPrefix(n.text, ".") && CommandName(n.text) in table then
      match Run(FirstJob(l, table), file)
      case Err(e) => Err(e)
      case Ok(t) =>
        match Set(n.lines, t, n.lines.line - 1)
        case Err(e) => Err(e)
        case Ok(l') => Interleaved(file, l', table)
    else Interleaved(file, n.lines, table)
  }

  /** The job for the directive `nextNonEmpty` returns. */
  function FirstJob(l: Lines, table: Table): Job
    requires 0 <= l.line
    requires NextNonEmpty(l).ok
    requires HasPrefix(NextNonEmpty(l).text, ".") && CommandName(NextNonEmpty(l).text) in table
  {
    var n := NextNonEmpty(l);
    Job(table[CommandName(n.text)], n.lines.line, n.text)
  }

  /** The buffer after the first job's result `t` is written back, with
      the cursor past the directive. */
  function WrittenBack(l: Lines, t: string): (r: Lines)
    requires 0 <= l.line
    requires NextNonEmpty(l).ok
    ensures r.line == NextNonEmpty(l).lines.line && r.comment == l.comment && |r.text| == |l.text|
    ensures forall k :: r.line <= k < |r.text| ==> r.text[k] == l.text[k]
  {
    var n := NextNonEmpty(l);
    n.lines.(text := n.lines.text[n.lines.line - 1 := t])
  }

  /** Two buffers that agree from `from` on have the same directives there. */
  lemma {:induction false} DirectiveIndicesAhead(text: seq<string>, text': seq<string>, comment: string, table: Table, from: int)
    requires 0 <= from && |text| == |text'|
    requires forall k :: from <= k < |text| ==> text[k] == text'[k]
    ensures DirectiveIndices(text, comment, table, from) == DirectiveIndices(text', comment, table, from)
    decreases |text| - from
  {
    if from < |text| {
      DirectiveIndicesAhead(text, text', comment, table, from + 1);
    }
  }

  /** The scan reads only lines at or after the cursor, so writes behind
      the cursor do not change the jobs it produces. */
  lemma ScanIgnoresBehind(l: Lines, l': Lines, table: Table)
    requires 0 <= l.line == l'.line && l.comment == l'.comment && |l.text| == |l'.text|
    requires forall k :: l.line <= k < |l.text| ==> l.text[k] == l'.text[k]
    ensures Scan(l, table) == Scan(l', table)
  {
    var jobs, jobs' := Scan(l, table), Scan(l', table);
    ScanFindsDirectives(l, table);
    ScanFindsDirectives(l', table);
    DirectiveIndicesAhead(l.text, l'.text, l.comment, table, l.line);
    assert Targets(jobs) == Targets(jobs');
    forall i | 0 <= i < |jobs| ensures jobs[i] == jobs'[i] {
      assert Targets(jobs)[i] == Targets(jobs')[i];
      SameLineSameJob(jobs[i], jobs'[i], l.text, l'.text, l.comment, table, l.line);
    }
  }

  /** The text `Apply` leaves does not depend on where the cursor stands. */
  lemma {:induction false} ApplyIgnoresCursor(l: Lines, file: string, jobs: seq<Job>, line: int)
    ensures Texts(Apply(l, file, jobs)) == Texts(Apply(l.(line := line), file, jobs))
    decreases |jobs|
  {
    if jobs != [] && Run(jobs[0], file).Ok? && Set(l, Run(jobs[0], file).value, Target(jobs[0])).Ok? {
      var l1 := Set(l, Run(jobs[0], file).value, Target(jobs[0])).value;
      assert Set(l.(line := line), Run(jobs[0], file).value, Target(jobs[0])) == Ok(l1.(line := line));
      ApplyIgnoresCursor(l1, file, jobs[1..], line);
    }
  }

  /** Running each job as soon as the scan meets its line gives the same
      outcome as scanning first and applying the jobs afterwards: the
      outcome of `parseLines` does not depend on when the handlers run. */
  lemma {:induction false} InterleavedIsParseLines(file: string, l: Lines, table: Table)
    requires 0 <= l.line
    ensures Interleaved(file, l, table) == ParseLines(file, l, table)
    decreases |l.text| - l.line
  {
    var n := NextNonEmpty(l);
    if !n.ok {
      assert Scan(l, table) == [];
    } else if HasPrefix(n.text, ".") && CommandName(n.text) in table {
      InterleavedRunsFirstJob(file, l, table);
      ParseLinesRunsFirstJob(file, l, table);
      var out := Run(FirstJob(l, table), file);
      if out.Ok? {
        InterleavedIsParseLines(file, WrittenBack(l, out.value), table);
      }
    } else {
      ParseLinesPassesOver(file, l, table);
      InterleavedIsParseLines(file, n.lines, table);
    }
  }

  lemma {:induction false} InterleavedRunsFirstJob(file: string, l: Lines, table: Table)
    requires 0 <= l.line
    requires NextNonEmpty(l).ok
    requires HasPrefix(NextNonEmpty(l).text, ".") && CommandName(NextNonEmpty(l).text) in table
    ensures var out := Run(FirstJob(l, table), file);
      && (out.Err? ==> Interleaved(file, l, table) == Err(out.error))
      && (out.Ok? ==> Interleaved(file, l, table) == Interleaved(file, WrittenBack(l, out.value), table))
  {
    var n := NextNonEmpty(l);
    var out := Run(FirstJob(l, table), file);
    if out.Ok? {
      assert Set(n.lines, out.value, n.lines.line - 1) == Ok(WrittenBack(l, out.value));
    }
  }

  /** A line that is not a directive is passed over by `parseLines`. */
  lemma {:induction false} ParseLinesPassesOver(file: string, l: Lines, table: Table)
    requires 0 <= l.line
    requires NextNonEmpty(l).ok
    requires !(HasPrefix(NextNonEmpty(l).text, ".") && CommandName(NextNonEmpty(l).text) in table)
    ensures ParseLines(file, l, table) == ParseLines(file, NextNonEmpty(l).lines, table)
  {
    var n := NextNonEmpty(l);
    assert Scan(l, table) == Scan(n.lines, table);
    assert l == n.lines.(line := l.line);
    ApplyIgnoresCursor(n.lines, file, Scan(n.lines, table), l.line);
  }

  /** At a directive, `parseLines` runs its handler first; on success the
      rest is `parseLines` on the buffer with the result written back. */
  lemma {:induction false} ParseLinesRunsFirstJob(file: string, l: Lines, table: Table)
    requires 0 <= l.line
    requires NextNonEmpty(l).ok
    requires HasPrefix(NextNonEmpty(l).text, ".") && CommandName(NextNonEmpty(l).text) in table
    ensures var out := Run(FirstJob(l, table), file);
      && (out.Err? ==> ParseLines(file, l, table) == Err(out.error))
      && (out.Ok? ==> ParseLines(file, l, table) == ParseLines(file, WrittenBack(l, out.value), table))
  {
    var n := NextNonEmpty(l);
    var job := FirstJob(l, table);
    var rest := Scan(n.lines, table);
    ScanConsJob(l, table);
    var out := Run(job, file);
    if out.Ok? {
      var l' := WrittenBack(l, out.value);
      ApplyFirstJob(l, file, job, rest);
      assert Set(l, out.value, Target(job)) == Ok(l'.(line := l.line));
      ScanIgnoresBehind(n.lines, l', table);
      ApplyIgnoresCursor(l', file, rest, l.line);
    }
  }

  /** The scan's first job is the directive `nextNonEmpty` returns. */
  lemma {:induction false} ScanConsJob(l: Lines, table: Table)
    requires 0 <= l.line
    requires NextNonEmpty(l).ok
    requires HasPrefix(NextNonEmpty(l).text, ".") && CommandName(NextNonEmpty(l).text) in table
    ensures Scan(l, table) == [FirstJob(l, table)] + Scan(NextNonEmpty(l).lines, table)
  {
  }

  /** `Apply` runs the first job and writes its result before the rest. */
  lemma {:induction false} ApplyFirstJob(l: Lines, file: string, job: Job, rest: seq<Job>)
    requires Run(job, file).Ok? && 0 <= Target(job) < |l.text|
    ensures Apply(l, file, [job] + rest) == Apply(Set(l, Run(job, file).value, Target(job)).value, file, rest)
  {
    assert ([job] + rest)[0] == job && ([job] + rest)[1..] == rest;
  }

  /** The comment prefix `Parse` sets for documents. */
  const DocComment: string := "//"

  /** `Parse`: resolve every directive of the document, which is read with
      `//` as its comment prefix, and join the lines with `\n`. The output
      has one line per input line: a directive line holds its handler's
      text, and every other line is kept. */
  function Parse(table: Table, file: string, doc: seq<string>): (r: Result<string>)
    ensures r.Ok? ==>
      exists lines ::
        && |lines| == |doc|
        && r.value == Join(lines, "\n")
        && forall k :: 0 <= k < |doc| ==>
             if IsDirective(doc[k], DocComment, table)
             then Invoke(table, file, doc, k).Ok? && lines[k] == Invoke(table, file, doc, k).value
             else lines[k] == doc[k]
  {
    var l := Lines(doc, 0, DocComment);
    match ParseLines(file, l, table)
    case Ok(lines) =>
      ParseLinesOutcome(file, l, table);
      Ok(Join(lines, "\n"))
    case Err(e) => Err(e)
  }

  /** A document without directive lines comes back as its lines joined
      with `\n`. */
  lemma ParseIdentity(table: Table, file: string, doc: seq<string>)
    requires forall k :: 0 <= k < |doc| ==> !IsDirective(doc[k], DocComment, table)
    ensures Parse(table, file, doc) == Ok(Join(doc, "\n"))
  {
    var l := Lines(doc, 0, DocComment);
    ParseLinesSucceeds(file, l, table);
    ParseLinesOutcome(file, l, table);
    var r := ParseLines(file, l, table);
    assert r.value == doc;
  }

  /** `Parse` fails exactly when the handler of some directive line fails. */
  lemma ParseSucceeds(table: Table, file: string, doc: seq<string>)
    ensures Parse(table, file, doc).Ok? <==>
      forall k :: 0 <= k < |doc| && IsDirective(doc[k], DocComment, table) ==> Invoke(table, file, doc, k).Ok?
  {
    ParseLinesSucceeds(file, Lines(doc, 0, DocComment), table);
  }

  /** Lines starting with `//` are never dispatched and come out unchanged. */
  lemma CommentLinesUntouched(table: Table, file: string, doc: seq<string>)
    ensures var r := ParseLines(file, Lines(doc, 0, DocComment), table);
      r.Ok? ==> forall k :: 0 <= k < |doc| && HasPrefix(doc[k], DocComment) ==> r.value[k] == doc[k]
  {
    if ParseLines(file, Lines(doc, 0, DocComment), table).Ok? {
      ParseLinesOutcome(file, Lines(doc, 0, DocComment), table);
    }
  }
}
