/** Carving the requested excerpt out of fetched content: rounding a span
    to whole lines, splitting it the way `bufio.ScanLines` does, dropping
    `OMIT` lines and trimming blank lines at both ends. `yoinker.go` and
    `zipper.go` carry identical copies of this code; it is modelled once. */
module Extract {
  import opened Strings

  /** Position of the first `c` in `s`, or -1 (`bytes.IndexByte`). */
  function IndexOf(s: string, c: char): (r: int)
    ensures -1 <= r < |s|
    ensures r >= 0 ==> s[r] == c && forall k :: 0 <= k < r ==> s[k] != c
    ensures r < 0 ==> forall k :: 0 <= k < |s| ==> s[k] != c
  {
    if s == [] then -1
    else if s[0] == c then 0
    else
      var i := IndexOf(s[1..], c);
      if i < 0 then -1 else i + 1
  }

  /** Drops one trailing carriage return. */
  function DropCR(s: string): (r: string)
    ensures r == s || (s == r + ['\r'])
    ensures s == [] || s[|s| - 1] != '\r' ==> r == s
  {
    if |s| > 0 && s[|s| - 1] == '\r' then s[..|s| - 1] else s
  }

  /** The tokens a `bufio.Scanner` with the `ScanLines` split function
      yields for `s`: lines split at `\n`, one trailing `\r` removed from
      each, and no empty token after a final `\n`. */
  function ScanLines(s: string): (r: seq<string>)
    ensures s == [] <==> r == []
    decreases |s|
  {
    if s == [] then []
    else
      var i := IndexOf(s, '\n');
      if i >= 0 then [DropCR(s[..i])] + ScanLines(s[i + 1..])
      else [DropCR(s)]
  }

  /** No token holds a newline. */
  lemma {:induction false} ScanLinesHaveNoNewline(s: string)
    ensures forall i :: 0 <= i < |ScanLines(s)| ==> '\n' !in ScanLines(s)[i]
    decreases |s|
  {
    if s != [] {
      var i := IndexOf(s, '\n');
      if i >= 0 {
        ScanLinesHaveNoNewline(s[i + 1..]);
        ScanLinesSplit(s, i);
        assert '\n' !in s[..i];
      } else {
        assert '\n' !in s;
      }
    }
  }

  predicate Omitted(line: string) {
    HasSuffix(line, "OMIT")
  }

  /** `a` is `b` with some elements left out, the rest in order. */
  predicate IsSubsequence<T(==)>(a: seq<T>, b: seq<T>)
    decreases |b|
  {
    if a == [] then true
    else if b == [] then false
    else (a[0] == b[0] && IsSubsequence(a[1..], b[1..])) || IsSubsequence(a, b[1..])
  }

  /** The loop body of `extractLines` that skips lines ending in `OMIT`. */
  function FilterOmit(lines: seq<string>): (r: seq<string>)
    ensures forall i :: 0 <= i < |r| ==> !Omitted(r[i])
    ensures IsSubsequence(r, lines)
    ensures |r| == |lines| - OmitCount(lines)
    ensures (forall i :: 0 <= i < |lines| ==> !Omitted(lines[i])) ==> r == lines
  {
    if lines == [] then []
    else if Omitted(lines[0]) then FilterOmit(lines[1..])
    else [lines[0]] + FilterOmit(lines[1..])
  }

  /** Every line that does not end in `OMIT` is kept. */
  lemma {:induction false} FilterOmitKeepsOthers(lines: seq<string>)
    ensures forall i :: 0 <= i < |lines| && !Omitted(lines[i]) ==> lines[i] in FilterOmit(lines)
    decreases |lines|
  {
    if lines != [] {
      FilterOmitKeepsOthers(lines[1..]);
      assert forall i :: 1 <= i < |lines| ==> lines[i] == lines[1..][i - 1];
    }
  }

  /** How many of the lines end in `OMIT`. */
  function OmitCount(lines: seq<string>): (n: nat)
    ensures n <= |lines|
  {
    if lines == [] then 0
    else if Omitted(lines[0]) then 1 + OmitCount(lines[1..])
    else OmitCount(lines[1..])
  }

  /** A subsequence without `OMIT` lines is no longer than the lines that
      do not end in `OMIT`. */
  lemma {:induction false} OmitFreeSubsequenceBound(r: seq<string>, lines: seq<string>)
    requires IsSubsequence(r, lines)
    requires forall i :: 0 <= i < |r| ==> !Omitted(r[i])
    ensures |r| <= |lines| - OmitCount(lines)
    decreases |lines|
  {
    if r != [] {
      if r[0] == lines[0] && IsSubsequence(r[1..], lines[1..]) {
        OmitFreeSubsequenceBound(r[1..], lines[1..]);
      } else {
        OmitFreeSubsequenceBound(r, lines[1..]);
      }
    } else if lines != [] {
      OmitFreeSubsequenceBound(r, lines[1..]);
    }
  }

  /** `FilterOmit` is the only subsequence without `OMIT` lines that keeps
      every other line: its contract pins the result down. */
  lemma {:induction false} FilterOmitUnique(r: seq<string>, lines: seq<string>)
    requires IsSubsequence(r, lines)
    requires forall i :: 0 <= i < |r| ==> !Omitted(r[i])
    requires |r| == |lines| - OmitCount(lines)
    ensures r == FilterOmit(lines)
    decreases |lines|
  {
    if lines == [] {
    } else if Omitted(lines[0]) {
      if r != [] {
        assert r[0] != lines[0];
      }
      FilterOmitUnique(r, lines[1..]);
    } else if r[0] == lines[0] && IsSubsequence(r[1..], lines[1..]) {
      FilterOmitUnique(r[1..], lines[1..]);
      assert r == [lines[0]] + r[1..];
    } else {
      OmitFreeSubsequenceBound(r, lines[1..]);
    }
  }

  /** Drops the zero-length lines at the front. */
  function TrimLeading(lines: seq<string>): (r: seq<string>)
    ensures |r| <= |lines| && r == lines[|lines| - |r|..]
    ensures forall k :: 0 <= k < |lines| - |r| ==> lines[k] == ""
    ensures r == [] || r[0] != ""
  {
    if lines != [] && lines[0] == "" then
      var r := TrimLeading(lines[1..]);
      assert lines[1..][|lines| - 1 - |r|..] == lines[|lines| - |r|..];
      r
    else lines
  }

  /** Drops the zero-length lines at the back. */
  function TrimTrailing(lines: seq<string>): (r: seq<string>)
    ensures |r| <= |lines| && r == lines[..|r|]
    ensures forall k :: |r| <= k < |lines| ==> lines[k] == ""
    ensures r == [] || r[|r| - 1] != ""
  {
    if lines != [] && lines[|lines| - 1] == "" then TrimTrailing(lines[..|lines| - 1]) else lines
  }

  /** `r` is the slice of `lines` starting at `a`, and every line outside
      that slice is blank. */
  predicate BlankOutside(lines: seq<string>, r: seq<string>, a: int) {
    && 0 <= a <= |lines| - |r| && r == lines[a..a + |r|]
    && (forall k :: 0 <= k < a ==> lines[k] == "")
    && (forall k :: a + |r| <= k < |lines| ==> lines[k] == "")
  }

  /** Trims blank lines at both ends and keeps the interior intact: the
      result is a contiguous slice of the input and everything cut away is
      blank. */
  function TrimBlank(lines: seq<string>): (r: seq<string>)
    ensures r != [] ==> r[0] != "" && r[|r| - 1] != ""
    ensures exists a :: BlankOutside(lines, r, a)
  {
    var front := TrimLeading(lines);
    var r := TrimTrailing(front);
    var a := |lines| - |front|;
    assert BlankOutside(lines, r, a);
    r
  }

  /** Whatever has no `OMIT` line and no blank line at either end is left
      alone by the filter-and-trim step. */
  lemma FilterTrimFixedPoint(lines: seq<string>)
    requires forall i :: 0 <= i < |lines| ==> !Omitted(lines[i])
    requires lines != [] ==> lines[0] != "" && lines[|lines| - 1] != ""
    ensures TrimBlank(FilterOmit(lines)) == lines
  {
  }

  /** `extractLines(src, start, end)`: the lines of `src[start:end]`
      without `OMIT` lines and without blank lines at either end. */
  function ExtractLines(src: string, start: int, end: int): (r: seq<string>)
    requires 0 <= start <= end <= |src|
    ensures forall i :: 0 <= i < |r| ==> !Omitted(r[i])
    ensures r != [] ==> r[0] != "" && r[|r| - 1] != ""
    ensures exists a :: BlankOutside(FilterOmit(ScanLines(src[start..end])), r, a)
  {
    var kept := FilterOmit(ScanLines(src[start..end]));
    TrimBlankKeepsOmitFree(kept);
    TrimBlank(kept)
  }

  /** Trimming keeps a line sequence free of `OMIT` lines. */
  lemma TrimBlankKeepsOmitFree(lines: seq<string>)
    requires forall i :: 0 <= i < |lines| ==> !Omitted(lines[i])
    ensures forall i :: 0 <= i < |TrimBlank(lines)| ==> !Omitted(TrimBlank(lines)[i])
  {
    var r := TrimBlank(lines);
    var a :| BlankOutside(lines, r, a);
    assert forall i :: 0 <= i < |r| ==> r[i] == lines[a + i];
  }

  /** Trimming keeps everything from the first to the last non-blank
      line, interior blank lines included. */
  lemma TrimBlankKeepsInterior(lines: seq<string>, i: int, k: int)
    requires 0 <= i <= k < |lines| && lines[i] != "" && lines[k] != ""
    ensures exists a :: BlankOutside(lines, TrimBlank(lines), a) && a <= i && k < a + |TrimBlank(lines)|
  {
    var r := TrimBlank(lines);
    var a :| BlankOutside(lines, r, a);
    assert a <= i && k < a + |r|;
  }

  /** Every line of the span that does not end in `OMIT` and lies between
      the first and the last non-blank such line is extracted, blank or
      not, in its place. */
  lemma ExtractKeepsInterior(src: string, start: int, end: int, i: int, k: int)
    requires 0 <= start <= end <= |src|
    requires var kept := FilterOmit(ScanLines(src[start..end]));
      0 <= i <= k < |kept| && kept[i] != "" && kept[k] != ""
    ensures var kept := FilterOmit(ScanLines(src[start..end]));
      var r := ExtractLines(src, start, end);
      exists a :: BlankOutside(kept, r, a) && a <= i && k < a + |r|
  {
    var kept := FilterOmit(ScanLines(src[start..end]));
    assert ExtractLines(src, start, end) == TrimBlank(kept);
    TrimBlankKeepsInterior(kept, i, k);
  }

  /** The extracted lines keep their order and come from the span. */
  lemma {:induction false} ExtractIsSubsequence(src: string, start: int, end: int)
    requires 0 <= start <= end <= |src|
    ensures IsSubsequence(ExtractLines(src, start, end), ScanLines(src[start..end]))
  {
    var lines := ScanLines(src[start..end]);
    var kept := FilterOmit(lines);
    TrimBlankIsSubsequence(kept);
    SubsequenceTransitive(TrimBlank(kept), kept, lines);
  }

  lemma {:induction false} TrimBlankIsSubsequence(lines: seq<string>)
    ensures IsSubsequence(TrimBlank(lines), lines)
  {
    var r := TrimBlank(lines);
    var a :| BlankOutside(lines, r, a);
    SliceIsSubsequence(lines, a, a + |r|);
  }

  /** Filtering and trimming the extracted lines again changes nothing. */
  lemma ExtractIdempotent(src: string, start: int, end: int)
    requires 0 <= start <= end <= |src|
    ensures TrimBlank(FilterOmit(ExtractLines(src, start, end))) == ExtractLines(src, start, end)
  {
    FilterTrimFixedPoint(ExtractLines(src, start, end));
  }

  lemma {:induction false} SliceIsSubsequence<T>(s: seq<T>, i: int, j: int)
    requires 0 <= i <= j <= |s|
    ensures IsSubsequence(s[i..j], s)
    decreases |s|
  {
    if i == j {
    } else if i == 0 {
      assert s[i..j][1..] == s[1..][0..j - 1];
      SliceIsSubsequence(s[1..], 0, j - 1);
    } else {
      assert forall k :: 0 <= k < j - i ==> s[i..j][k] == s[1..][i - 1..j - 1][k];
      assert s[i..j] == s[1..][i - 1..j - 1];
      SliceIsSubsequence(s[1..], i - 1, j - 1);
    }
  }

  lemma {:induction false} SubsequenceTransitive<T>(a: seq<T>, b: seq<T>, c: seq<T>)
    requires IsSubsequence(a, b) && IsSubsequence(b, c)
    ensures IsSubsequence(a, c)
    decreases |c|
  {
    if a == [] {
    } else if IsSubsequence(b, c[1..]) {
      SubsequenceTransitive(a, b, c[1..]);
    } else if a[0] == b[0] && IsSubsequence(a[1..], b[1..]) {
      SubsequenceTransitive(a[1..], b[1..], c[1..]);
    } else {
      SubsequenceTransitive(a, b[1..], c[1..]);
    }
  }

  /** One line and its newline split off the front. */
  lemma ScanLinesCons(w: string, rest: string)
    requires '\n' !in w
    requires w == [] || w[|w| - 1] != '\r'
    ensures ScanLines(w + "\n" + rest) == [w] + ScanLines(rest)
  {
    var s := w + "\n" + rest;
    assert s[|w|] == '\n';
    assert forall k :: 0 <= k < |w| ==> s[k] == w[k];
    assert IndexOf(s, '\n') == |w|;
    assert s[..|w|] == w;
    assert s[|w| + 1..] == rest;
  }

  /** A line ended by `\r\n` loses the carriage return: the scanner drops
      one `\r` before each line break. */
  lemma ScanLinesCRLF(w: string, rest: string)
    requires '\n' !in w
    ensures ScanLines(w + "\r\n" + rest) == [w] + ScanLines(rest)
  {
    var s := w + "\r\n" + rest;
    assert s[|w|] == '\r' && s[|w| + 1] == '\n';
    assert forall k :: 0 <= k < |w| ==> s[k] == w[k];
    assert IndexOf(s, '\n') == |w| + 1;
    assert s[..|w| + 1] == w + "\r";
    assert DropCR(w + "\r") == w;
    assert s[|w| + 2..] == rest;
  }

  /** Round trip for CRLF text: lines joined with `\r\n` scan back into
      exactly those lines, even lines that themselves end in `\r`, as
      long as the last one is not blank and does not end in `\r`. */
  lemma {:induction false} ScanLinesOfCRLFJoin(lines: seq<string>)
    requires forall i :: 0 <= i < |lines| ==> '\n' !in lines[i]
    requires lines != [] ==> lines[|lines| - 1] != "" && lines[|lines| - 1][|lines[|lines| - 1]| - 1] != '\r'
    ensures ScanLines(Join(lines, "\r\n")) == lines
    decreases |lines|
  {
    if |lines| == 1 {
      assert IndexOf(lines[0], '\n') < 0;
    } else if |lines| > 1 {
      ScanLinesCRLF(lines[0], Join(lines[1..], "\r\n"));
      ScanLinesOfCRLFJoin(lines[1..]);
      assert lines == [lines[0]] + lines[1..];
    }
  }

  lemma ScanThreeLines(a: string, b: string, c: string)
    requires '\n' !in a && '\n' !in b && '\n' !in c
    requires a != [] && a[|a| - 1] != '\r' && b != [] && b[|b| - 1] != '\r' && c != [] && c[|c| - 1] != '\r'
    ensures ScanLines(a + "\n" + (b + "\n" + (c + "\n" + ""))) == [a, b, c]
  {
    ScanLinesCons(c, "");
    ScanLinesCons(b, c + "\n" + "");
    ScanLinesCons(a, b + "\n" + (c + "\n" + ""));
  }

  lemma StartEndSplit(s: string)
    requires s == "/START OMIT" + "\n" + ("1.2 Included" + "\n" + ("/END OMIT" + "\n" + ""))
    ensures ScanLines(s) == ["/START OMIT", "1.2 Included", "/END OMIT"]
  {
    ScanThreeLines("/START OMIT", "1.2 Included", "/END OMIT");
  }

  /** Of three lines whose first and last end in `OMIT`, only the middle
      one is kept. */
  lemma {:induction false} OmitAround(a: string, b: string, c: string)
    requires Omitted(a) && !Omitted(b) && Omitted(c) && b != ""
    ensures TrimBlank(FilterOmit([a, b, c])) == [b]
  {
    var lines := [a, b, c];
    assert lines[1..] == [b, c] && lines[1..][1..] == [c] && [c][1..] == [];
    assert FilterOmit([c]) == [];
    assert FilterOmit([b, c]) == [b];
    assert FilterOmit(lines) == [b];
    assert TrimLeading([b]) == [b];
    assert TrimTrailing([b]) == [b];
  }

  lemma StartEndFilter(lines: seq<string>)
    requires lines == ["/START OMIT", "1.2 Included", "/END OMIT"]
    ensures TrimBlank(FilterOmit(lines)) == ["1.2 Included"]
  {
    var a, b, c := "/START OMIT", "1.2 Included", "/END OMIT";
    assert a[|a| - 4..] == "OMIT" && c[|c| - 4..] == "OMIT" && b[|b| - 4..] != "OMIT";
    OmitAround(a, b, c);
  }

  /** The `1.2 Included` excerpt between the `/START OMIT` and `/END OMIT`
      markers of the snippet used by the repository's tests. */
  lemma ExtractStartEndExample()
    ensures ExtractLines("/START OMIT\n1.2 Included\n/END OMIT\n", 0, 35) == ["1.2 Included"]
  {
    var s := "/START OMIT\n1.2 Included\n/END OMIT\n";
    assert s[0..35] == s;
    assert s == "/START OMIT" + "\n" + ("1.2 Included" + "\n" + ("/END OMIT" + "\n" + ""));
    StartEndSplit(s);
    StartEndFilter(ScanLines(s));
  }

  /** Round trip: the lines a handler returns, joined with `\n` as the
      replacement text, split back into exactly those lines. */
  lemma {:induction false} ScanLinesOfJoin(lines: seq<string>)
    requires forall i :: 0 <= i < |lines| ==> '\n' !in lines[i]
    requires forall i :: 0 <= i < |lines| ==> lines[i] == [] || lines[i][|lines[i]| - 1] != '\r'
    requires lines != [] ==> lines[|lines| - 1] != ""
    ensures ScanLines(Join(lines, "\n")) == lines
    decreases |lines|
  {
    if |lines| == 1 {
      assert IndexOf(lines[0], '\n') < 0;
    } else if |lines| > 1 {
      ScanLinesCons(lines[0], Join(lines[1..], "\n"));
      ScanLinesOfJoin(lines[1..]);
      assert lines == [lines[0]] + lines[1..];
    }
  }

  /** Joining with `\n` undoes the split whenever the content has no
      carriage returns and does not end in a newline. */
  lemma {:induction false} JoinOfScanLines(s: string)
    requires '\r' !in s
    requires s == [] || s[|s| - 1] != '\n'
    ensures Join(ScanLines(s), "\n") == s
    decreases |s|
  {
    if s != [] {
      var i := IndexOf(s, '\n');
      if i >= 0 {
        var rest := s[i + 1..];
        ScanLinesAt(s, i);
        JoinOfScanLines(rest);
        JoinCons(s[..i], ScanLines(rest));
        assert s == s[..i] + "\n" + rest;
      } else {
        assert DropCR(s) == s;
      }
    }
  }

  /** The first line split off at the first newline. */
  lemma {:induction false} ScanLinesAt(s: string, i: int)
    requires '\r' !in s
    requires s == [] || s[|s| - 1] != '\n'
    requires s != [] && i == IndexOf(s, '\n') && i >= 0
    ensures var rest := s[i + 1..];
      && rest != [] && '\r' !in rest && rest[|rest| - 1] != '\n'
      && ScanLines(s) == [s[..i]] + ScanLines(rest)
      && ScanLines(rest) != []
  {
    var rest := s[i + 1..];
    assert rest[|rest| - 1] == s[|s| - 1];
    assert '\r' !in s[..i];
    assert DropCR(s[..i]) == s[..i];
  }

  lemma JoinCons(a: string, t: seq<string>)
    requires t != []
    ensures Join([a] + t, "\n") == a + "\n" + Join(t, "\n")
  {
    assert ([a] + t)[1..] == t;
  }

  /** `lo` moved back to the start of its line. */
  function LineStart(src: string, lo: int): (r: int)
    requires 0 <= lo <= |src|
    ensures 0 <= r <= lo
    ensures r == 0 || src[r - 1] == '\n'
    ensures forall k :: r <= k < lo ==> src[k] != '\n'
    decreases lo
  {
    if lo > 0 && src[lo - 1] != '\n' then LineStart(src, lo - 1) else lo
  }

  /** `hi` moved forward to just past the next `\n`, or to the end. */
  function LineEnd(src: string, hi: int): (r: int)
    requires 0 < hi <= |src|
    ensures hi <= r <= |src|
    ensures r == |src| || src[r - 1] == '\n'
    ensures forall k :: hi - 1 <= k < r - 1 ==> src[k] != '\n'
    decreases |src| - hi
  {
    if hi < |src| && src[hi - 1] != '\n' then LineEnd(src, hi + 1) else hi
  }

  datatype Span = Span(lo: int, hi: int)

  /** The swap and the "Round to full lines" step of the handlers. The
      result covers the ordered span: `lo` is the greatest line start not
      after the smaller end, `hi` the least line end not before the larger
      one; a span ending at 0 stays at 0. */
  function RoundToLines(src: string, lo: int, hi: int): (r: Span)
    requires 0 <= lo <= |src| && 0 <= hi <= |src|
    ensures var (a, b) := if lo > hi then (hi, lo) else (lo, hi);
      && 0 <= r.lo <= a <= b <= r.hi <= |src|
      && (r.lo == 0 || src[r.lo - 1] == '\n')
      && (forall k :: r.lo <= k < a ==> src[k] != '\n')
      && (b == 0 ==> r.hi == 0)
      && (b > 0 ==> (r.hi == |src| || src[r.hi - 1] == '\n'))
      && (b > 0 ==> forall k :: b - 1 <= k < r.hi - 1 ==> src[k] != '\n')
  {
    var (a, b) := if lo > hi then (hi, lo) else (lo, hi);
    Span(LineStart(src, a), if b > 0 then LineEnd(src, b) else b)
  }

  /** The loops exactly as the handlers write them agree with
      `RoundToLines`. */
  method RoundToLinesLoop(src: string, lo0: int, hi0: int) returns (lo: int, hi: int)
    requires 0 <= lo0 <= |src| && 0 <= hi0 <= |src|
    ensures Span(lo, hi) == RoundToLines(src, lo0, hi0)
  {
    lo, hi := lo0, hi0;
    if lo > hi {
      hi, lo := lo, hi;
    }
    ghost var a, b := lo, hi;
    while lo > 0 && src[lo - 1] != '\n'
      invariant 0 <= lo <= a
      invariant LineStart(src, lo) == LineStart(src, a)
    {
      lo := lo - 1;
    }
    if hi > 0 {
      while hi < |src| && src[hi - 1] != '\n'
        invariant b <= hi <= |src|
        invariant LineEnd(src, hi) == LineEnd(src, b)
      {
        hi := hi + 1;
      }
    }
  }

  /** Content that ends at a line break scans into its own lines followed
      by the lines of whatever comes after it. */
  lemma {:induction false} ScanLinesAppend(x: string, y: string)
    requires x == [] || x[|x| - 1] == '\n'
    ensures ScanLines(x + y) == ScanLines(x) + ScanLines(y)
    decreases |x|
  {
    if x == [] {
      assert x + y == y;
    } else {
      var i := FirstBreak(x);
      ScanLinesAppend(x[i + 1..], y);
      ScanLinesAppendStep(x, y, i);
    }
  }

  /** The inductive step of `ScanLinesAppend`: the first line of `x`
      comes first in both scans. */
  lemma {:induction false} ScanLinesAppendStep(x: string, y: string, i: int)
    requires x != [] && x[|x| - 1] == '\n' && i == IndexOf(x, '\n')
    requires ScanLines(x[i + 1..] + y) == ScanLines(x[i + 1..]) + ScanLines(y)
    ensures ScanLines(x + y) == ScanLines(x) + ScanLines(y)
  {
    IndexOfPrefix(x, y, '\n');
    var rest := x[i + 1..];
    AppendAfter(x, y, i);
    ScanLinesSplit(x, i);
    ScanLinesSplit(x + y, i);
    var head := DropCR(x[..i]);
    assert ScanLines(x + y) == [head] + (ScanLines(rest) + ScanLines(y));
    ConsAssoc(head, ScanLines(rest), ScanLines(y));
  }

  /** Where the first line of content ending in a newline stops; what
      follows it ends in a newline again. */
  lemma FirstBreak(x: string) returns (i: int)
    requires x != [] && x[|x| - 1] == '\n'
    ensures i == IndexOf(x, '\n') && 0 <= i < |x|
    ensures x[i + 1..] == [] || x[i + 1..][|x[i + 1..]| - 1] == '\n'
  {
    i := IndexOf(x, '\n');
    assert x[|x| - 1] == '\n';
  }

  lemma ConsAssoc<T>(a: T, b: seq<T>, c: seq<T>)
    ensures [a] + (b + c) == ([a] + b) + c
  {
  }

  /** A string ending in `c` holds `c`; the same `c` is found first in
      `x + y` as in `x`. */
  lemma IndexOfPrefix(x: string, y: string, c: char)
    requires x != [] && x[|x| - 1] == c
    ensures 0 <= IndexOf(x, c) && IndexOf(x + y, c) == IndexOf(x, c)
  {
    var i := IndexOf(x, c);
    assert x[|x| - 1] == c;
    assert (x + y)[i] == c;
  }

  lemma AppendAfter(x: string, y: string, i: int)
    requires 0 <= i < |x| && x[|x| - 1] == '\n'
    ensures (x + y)[..i] == x[..i] && (x + y)[i + 1..] == x[i + 1..] + y
    ensures x[i + 1..] == [] || x[i + 1..][|x[i + 1..]| - 1] == '\n'
  {
  }

  /** `ScanLines` at a newline found first at `i`. */
  lemma ScanLinesSplit(s: string, i: int)
    requires 0 <= i && i == IndexOf(s, '\n')
    ensures ScanLines(s) == [DropCR(s[..i])] + ScanLines(s[i + 1..])
  {
  }

  /** The lines of a span that starts and ends on line boundaries are
      lines of the whole content, in order. */
  lemma {:induction false} AlignedSliceLines(text: string, a: int, b: int)
    requires 0 <= a <= b <= |text|
    requires a == 0 || text[a - 1] == '\n'
    requires b == a || b == |text| || text[b - 1] == '\n'
    ensures IsSubsequence(ScanLines(text[a..b]), ScanLines(text))
  {
    var p, m, s := text[..a], text[a..b], text[b..];
    assert text == p + (m + s);
    assert m == [] || s == [] || m[|m| - 1] == text[b - 1];
    ScanLinesThreeParts(p, m, s);
    MiddleIsSubsequence(ScanLines(p), ScanLines(m), ScanLines(s));
  }

  /** Content cut at line boundaries scans part by part. */
  lemma {:induction false} ScanLinesThreeParts(p: string, m: string, s: string)
    requires p == [] || p[|p| - 1] == '\n'
    requires m == [] || s == [] || m[|m| - 1] == '\n'
    ensures ScanLines(p + (m + s)) == ScanLines(p) + (ScanLines(m) + ScanLines(s))
  {
    ScanLinesAppend(p, m + s);
    if m == [] || m[|m| - 1] == '\n' {
      ScanLinesAppend(m, s);
    } else {
      assert m + s == m;
      assert ScanLines(s) == [];
    }
  }

  lemma MiddleIsSubsequence<T>(p: seq<T>, m: seq<T>, s: seq<T>)
    ensures IsSubsequence(m, p + (m + s))
  {
    var all := p + (m + s);
    assert all[|p|..|p| + |m|] == m;
    SliceIsSubsequence(all, |p|, |p| + |m|);
  }

  /** The lines extracted from a span aligned to line boundaries are lines
      of the whole content, in order. */
  lemma {:induction false} AlignedExtractIsSubsequence(text: string, a: int, b: int)
    requires 0 <= a <= b <= |text|
    requires a == 0 || text[a - 1] == '\n'
    requires b == a || b == |text| || text[b - 1] == '\n'
    ensures IsSubsequence(ExtractLines(text, a, b), ScanLines(text))
  {
    ExtractIsSubsequence(text, a, b);
    AlignedSliceLines(text, a, b);
    SubsequenceTransitive(ExtractLines(text, a, b), ScanLines(text[a..b]), ScanLines(text));
  }

  /** The rounded span starts and ends on line boundaries. */
  lemma RoundedSpanIsAligned(text: string, lo: int, hi: int)
    requires 0 <= lo <= |text| && 0 <= hi <= |text|
    ensures var span := RoundToLines(text, lo, hi);
      && 0 <= span.lo <= span.hi <= |text|
      && (span.lo == 0 || text[span.lo - 1] == '\n')
      && (span.hi == span.lo || span.hi == |text| || text[span.hi - 1] == '\n')
  {
  }

  /** Whatever range a handler is given, the lines it extracts are lines
      of the fetched content, in their original order. */
  lemma {:induction false} RoundedExtractIsSubsequence(text: string, lo: int, hi: int)
    requires 0 <= lo <= |text| && 0 <= hi <= |text|
    ensures var span := RoundToLines(text, lo, hi);
      IsSubsequence(ExtractLines(text, span.lo, span.hi), ScanLines(text))
  {
    RoundedSpanIsAligned(text, lo, hi);
    var span := RoundToLines(text, lo, hi);
    AlignedExtractIsSubsequence(text, span.lo, span.hi);
  }
}
