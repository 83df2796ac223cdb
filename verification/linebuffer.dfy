/** The document buffer of `parser.go`: the lines, a forward cursor and a
    comment prefix, threaded through the reads and writes as a value. */
module LineBuffer {
  import opened Results
  import opened Strings

  /** `line` is the cursor: the 0-based index of the next line to read,
      which is also the 1-based number of the line read last. */
  datatype Lines = Lines(text: seq<string>, line: int, comment: string)

  /** A line is a comment when the prefix is set and the line starts with it. */
  predicate IsComment(s: string, comment: string) {
    comment != "" && HasPrefix(s, comment)
  }

  /** A line `nextNonEmpty` passes over. */
  predicate Skipped(s: string, comment: string) {
    IsComment(s, comment) || s == ""
  }

  /** What a read returns: the buffer afterwards, the text and `ok`. */
  datatype Read = Read(lines: Lines, text: string, ok: bool)

  function Max(a: int, b: int): int { if a < b then b else a }

  /** `next`: the first non-comment line at or after the cursor, with the
      cursor left just past it; at the end of input the cursor still
      moves on and `ok` is false. The text is never changed. A negative
      cursor is excluded: the source indexes the slice with it and panics. */
  function Next(l: Lines): (r: Read)
    requires 0 <= l.line
    ensures r.lines.text == l.text && r.lines.comment == l.comment
    ensures r.lines.line >= l.line + 1
    ensures r.ok ==> r.lines.line <= |l.text| && r.text == l.text[r.lines.line - 1]
    ensures r.ok ==> !IsComment(r.text, l.comment)
    ensures r.ok ==> forall k :: l.line <= k < r.lines.line - 1 ==> IsComment(l.text[k], l.comment)
    ensures !r.ok ==> r.text == "" && r.lines.line == Max(l.line, |l.text|) + 1
    ensures !r.ok <==> forall k :: l.line <= k < |l.text| ==> IsComment(l.text[k], l.comment)
    decreases |l.text| - l.line
  {
    var current := l.line;
    var l' := l.(line := l.line + 1);
    if current >= |l.text| then Read(l', "", false)
    else if l.comment == "" || !HasPrefix(l.text[current], l.comment) then Read(l', l.text[current], true)
    else Next(l')
  }

  /** `nextNonEmpty`: like `next`, but zero-length lines are passed over too. */
  function NextNonEmpty(l: Lines): (r: Read)
    requires 0 <= l.line
    ensures r.lines.text == l.text && r.lines.comment == l.comment
    ensures r.lines.line >= l.line + 1
    ensures r.ok ==> r.lines.line <= |l.text| && r.text == l.text[r.lines.line - 1]
    ensures r.ok ==> |r.text| > 0 && !IsComment(r.text, l.comment)
    ensures r.ok ==> forall k :: l.line <= k < r.lines.line - 1 ==> Skipped(l.text[k], l.comment)
    ensures !r.ok ==> r.text == ""
    ensures !r.ok <==> forall k :: l.line <= k < |l.text| ==> Skipped(l.text[k], l.comment)
    decreases |l.text| - l.line
  {
    var r := Next(l);
    if !r.ok || |r.text| > 0 then r
    else
      assert forall k :: l.line <= k < r.lines.line ==> Skipped(l.text[k], l.comment);
      NextNonEmpty(r.lines)
  }

  /** `set`: overwrite one line; an index outside the document fails and
      leaves nothing changed. */
  function Set(l: Lines, txt: string, i: int): (r: Result<Lines>)
    ensures r.Err? <==> i < 0 || i >= |l.text|
    ensures r.Err? ==> r.error == OutOfBounds(i)
    ensures r.Ok? ==> r.value.line == l.line && r.value.comment == l.comment
    ensures r.Ok? ==> |r.value.text| == |l.text| && r.value.text[i] == txt
    ensures r.Ok? ==> forall k :: 0 <= k < |l.text| && k != i ==> r.value.text[k] == l.text[k]
  {
    if i < 0 || i >= |l.text| then Err(OutOfBounds(i))
    else Ok(l.(text := l.text[i := txt]))
  }

  /** `back`: step the cursor back one line. */
  function Back(l: Lines): (r: Lines)
    ensures r.line == l.line - 1
    ensures r.text == l.text && r.comment == l.comment
  {
    l.(line := l.line - 1)
  }

  /** After a successful `next`, `back` puts the cursor on the line just
      read, so reading again yields the same line and the same buffer. */
  lemma {:induction false} BackRereads(l: Lines)
    requires 0 <= l.line
    requires Next(l).ok
    ensures Next(Back(Next(l).lines)) == Next(l)
  {
    var r := Next(l);
    var b := Lines(l.text, r.lines.line - 1, l.comment);
    assert Back(r.lines) == b;
    NextOnNonComment(b);
    assert r.lines == Lines(l.text, r.lines.line, l.comment);
    assert r == Read(r.lines, r.text, true);
  }

  /** `next` on a non-comment line returns that line at once. */
  lemma NextOnNonComment(l: Lines)
    requires 0 <= l.line < |l.text|
    requires !IsComment(l.text[l.line], l.comment)
    ensures Next(l) == Read(l.(line := l.line + 1), l.text[l.line], true)
  {
  }

  /** Writing a line's old text back restores the buffer. */
  lemma SetRestores(l: Lines, txt: string, i: int)
    requires Set(l, txt, i).Ok?
    ensures Set(Set(l, txt, i).value, l.text[i], i) == Ok(l)
  {
    var l' := Set(l, txt, i).value;
    assert l'.text[i := l.text[i]] == l.text;
  }
}
