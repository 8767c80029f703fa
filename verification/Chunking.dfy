/** Splitting a text into chunks: what a chunk is, and the blank-line paragraphs. */
module Chunking {
  import opened Text

  /** A piece of the text and the 1-based inclusive range of lines it came from. */
  datatype Chunk = Chunk(text: string, lineLo: nat, lineHi: nat)

  datatype ChunkMode = Paragraph | LineMode(win: nat, step: nat)

  function ForExt(ext: string): ChunkMode {
    if ext in {"md", "mdx", "txt", "rst"} then Paragraph else LineMode(40, 30)
  }

  function TotalWords(cs: seq<Chunk>): nat {
    if cs == [] then 0 else TotalWords(cs[..|cs| - 1]) + WordCount(cs[|cs| - 1].text)
  }

  lemma TotalWordsEnd(cs: seq<Chunk>, c: Chunk)
    ensures TotalWords(cs + [c]) == TotalWords(cs) + WordCount(c.text)
  {
    assert (cs + [c])[..|cs|] == cs;
  }

  lemma {:induction false} TotalWordsAppend(a: seq<Chunk>, b: seq<Chunk>)
    ensures TotalWords(a + b) == TotalWords(a) + TotalWords(b)
  {
    if b == [] {
      assert a + b == a;
    } else {
      var b' := b[..|b| - 1];
      assert a + b == (a + b') + [b[|b| - 1]];
      TotalWordsEnd(a + b', b[|b| - 1]);
      TotalWordsAppend(a, b');
    }
  }

  // ================================================================ paragraphs

  predicate BlankAt(lines: seq<string>, l: nat)
    requires l < |lines|
  {
    Blank(lines[l])
  }

  /** First blank line at or after `i`, or the number of lines. */
  function RunEnd(lines: seq<string>, i: nat): (e: nat)
    requires i <= |lines|
    ensures i <= e <= |lines|
    ensures forall l :: i <= l < e ==> !BlankAt(lines, l)
    ensures e < |lines| ==> BlankAt(lines, e)
    decreases |lines| - i
  {
    if i == |lines| || BlankAt(lines, i) then i else RunEnd(lines, i + 1)
  }

  function Slice(lines: seq<string>, lo: nat, hi: nat): Chunk
    requires lo <= hi <= |lines|
  {
    Chunk(Join(lines[lo..hi]), lo + 1, hi)
  }

  /** The runs of non-blank lines from line index `i` on. */
  function Paragraphs(lines: seq<string>, i: nat): seq<Chunk>
    requires i <= |lines|
    decreases |lines| - i
  {
    if i == |lines| then []
    else if BlankAt(lines, i) then Paragraphs(lines, i + 1)
    else [Slice(lines, i, RunEnd(lines, i))] + Paragraphs(lines, RunEnd(lines, i))
  }

  /** A chunk that is a maximal run of non-blank lines, with its right line numbers and text. */
  predicate MaximalRun(lines: seq<string>, c: Chunk) {
    && 1 <= c.lineLo <= c.lineHi <= |lines|
    && c.text == Join(lines[c.lineLo - 1..c.lineHi])
    && (forall l :: c.lineLo - 1 <= l < c.lineHi ==> !BlankAt(lines, l))
    && (c.lineLo > 1 ==> BlankAt(lines, c.lineLo - 2))
    && (c.lineHi < |lines| ==> BlankAt(lines, c.lineHi))
  }

  predicate InChunk(c: Chunk, l: nat) { c.lineLo <= l + 1 <= c.lineHi }

  predicate Covered(cs: seq<Chunk>, l: nat) {
    exists k :: 0 <= k < |cs| && InChunk(cs[k], l)
  }

  /** Maximal runs, all of them at or after line index `i`. */
  predicate RunsFrom(lines: seq<string>, i: nat, cs: seq<Chunk>) {
    forall k :: 0 <= k < |cs| ==> MaximalRun(lines, cs[k]) && i < cs[k].lineLo
  }

  /** In order, each pair separated by a line. */
  predicate Apart(cs: seq<Chunk>) {
    forall k, m :: 0 <= k < m < |cs| ==> cs[k].lineHi + 1 < cs[m].lineLo
  }

  predicate AllCovered(lines: seq<string>, i: nat, cs: seq<Chunk>) {
    forall l :: i <= l < |lines| && !BlankAt(lines, l) ==> Covered(cs, l)
  }

  /** From line index `i` on: maximal runs, in order, each pair separated by a blank line, and no
      non-blank line left out. */
  predicate SplitFrom(lines: seq<string>, i: nat, cs: seq<Chunk>) {
    RunsFrom(lines, i, cs) && Apart(cs) && AllCovered(lines, i, cs)
  }

  predicate IsParagraphSplit(lines: seq<string>, cs: seq<Chunk>) { SplitFrom(lines, 0, cs) }

  /** `i` does not cut a run. */
  predicate Boundary(lines: seq<string>, i: nat) {
    i <= |lines| && (i == 0 || BlankAt(lines, i - 1) || i == |lines| || BlankAt(lines, i))
  }

  lemma CoveredCons(c: Chunk, rest: seq<Chunk>, l: nat)
    ensures Covered([c] + rest, l) <==> InChunk(c, l) || Covered(rest, l)
  {
    var cs := [c] + rest;
    if InChunk(c, l) { assert InChunk(cs[0], l); }
    if Covered(rest, l) {
      var k :| 0 <= k < |rest| && InChunk(rest[k], l);
      assert InChunk(cs[k + 1], l);
    }
    if Covered(cs, l) && !InChunk(c, l) {
      var k :| 0 <= k < |cs| && InChunk(cs[k], l);
      assert InChunk(rest[k - 1], l);
    }
  }

  /** The run starting at `i` is maximal, and every later run starts beyond the blank after it. */
  lemma FirstRun(lines: seq<string>, i: nat, rest: seq<Chunk>)
    requires i < |lines| && Boundary(lines, i) && !BlankAt(lines, i)
    requires RunsFrom(lines, RunEnd(lines, i), rest)
    ensures MaximalRun(lines, Slice(lines, i, RunEnd(lines, i)))
    ensures forall m :: 0 <= m < |rest| ==> RunEnd(lines, i) + 1 < rest[m].lineLo
  {
    var e := RunEnd(lines, i);
    forall m | 0 <= m < |rest| ensures e + 1 < rest[m].lineLo {
      assert MaximalRun(lines, rest[m]);
      assert e < |lines| && BlankAt(lines, e);
    }
  }

  lemma RunsCons(lines: seq<string>, i: nat, e: nat, c: Chunk, rest: seq<Chunk>)
    requires MaximalRun(lines, c) && i < c.lineLo && i <= e && RunsFrom(lines, e, rest)
    ensures RunsFrom(lines, i, [c] + rest)
  {
    var cs := [c] + rest;
    forall k | 0 <= k < |cs| ensures MaximalRun(lines, cs[k]) && i < cs[k].lineLo {
      if k > 0 {
        var r := rest[k - 1];
        assert MaximalRun(lines, r);
        assert cs[k] == r;
      }
    }
  }

  lemma ApartCons(c: Chunk, rest: seq<Chunk>)
    requires Apart(rest) && forall m :: 0 <= m < |rest| ==> c.lineHi + 1 < rest[m].lineLo
    ensures Apart([c] + rest)
  {
  }

  lemma SplitCons(lines: seq<string>, i: nat, rest: seq<Chunk>)
    requires i < |lines| && Boundary(lines, i) && !BlankAt(lines, i)
    requires SplitFrom(lines, RunEnd(lines, i), rest)
    ensures SplitFrom(lines, i, [Slice(lines, i, RunEnd(lines, i))] + rest)
  {
    var e := RunEnd(lines, i);
    var c := Slice(lines, i, e);
    FirstRun(lines, i, rest);
    RunsCons(lines, i, e, c, rest);
    ApartCons(c, rest);
    CoverCons(lines, i, e, c, rest);
  }

  lemma CoverCons(lines: seq<string>, i: nat, e: nat, c: Chunk, rest: seq<Chunk>)
    requires i <= e && c.lineLo == i + 1 && c.lineHi == e && AllCovered(lines, e, rest)
    ensures AllCovered(lines, i, [c] + rest)
  {
    forall l | i <= l < |lines| && !BlankAt(lines, l) ensures Covered([c] + rest, l) {
      CoveredCons(c, rest, l);
      if e <= l { assert Covered(rest, l); }
    }
  }

  lemma {:induction false} ParagraphsSplit(lines: seq<string>, i: nat)
    requires Boundary(lines, i)
    ensures SplitFrom(lines, i, Paragraphs(lines, i))
    decreases |lines| - i
  {
    if i == |lines| {
    } else if BlankAt(lines, i) {
      ParagraphsSplit(lines, i + 1);
      SplitBlank(lines, i, Paragraphs(lines, i + 1));
    } else {
      var e := RunEnd(lines, i);
      ParagraphsSplit(lines, e);
      SplitCons(lines, i, Paragraphs(lines, e));
    }
  }

  lemma SplitBlank(lines: seq<string>, i: nat, cs: seq<Chunk>)
    requires i < |lines| && BlankAt(lines, i) && SplitFrom(lines, i + 1, cs)
    ensures SplitFrom(lines, i, cs)
  {
  }

  /** A split from a non-blank boundary line starts with the run at that line. */
  lemma SplitHead(lines: seq<string>, i: nat, cs: seq<Chunk>)
    requires i < |lines| && Boundary(lines, i) && !BlankAt(lines, i) && SplitFrom(lines, i, cs)
    ensures cs != [] && cs[0] == Slice(lines, i, RunEnd(lines, i))
  {
    assert Covered(cs, i);
    var k :| 0 <= k < |cs| && InChunk(cs[k], i);
    assert MaximalRun(lines, cs[k]) && MaximalRun(lines, cs[0]);
    RunIs(lines, cs[k], i);
    assert k == 0;
  }

  /** The maximal run that holds a first line is the one scanned from it. */
  lemma RunIs(lines: seq<string>, c: Chunk, i: nat)
    requires i < |lines| && Boundary(lines, i) && !BlankAt(lines, i)
    requires MaximalRun(lines, c) && InChunk(c, i) && i < c.lineLo
    ensures c == Slice(lines, i, RunEnd(lines, i))
  {
    var e := RunEnd(lines, i);
    assert c.lineHi < |lines| ==> BlankAt(lines, c.lineHi);
    assert e < |lines| ==> BlankAt(lines, e);
  }

  lemma SplitTail(lines: seq<string>, i: nat, cs: seq<Chunk>)
    requires SplitFrom(lines, i, cs) && cs != []
    ensures cs[0].lineHi <= |lines| && SplitFrom(lines, cs[0].lineHi, cs[1..])
  {
    assert cs == [cs[0]] + cs[1..];
    assert MaximalRun(lines, cs[0]);
    forall l | cs[0].lineHi <= l < |lines| && !BlankAt(lines, l) ensures Covered(cs[1..], l) {
      CoveredCons(cs[0], cs[1..], l);
    }
  }

  lemma {:induction false} SplitUnique(lines: seq<string>, i: nat, cs: seq<Chunk>)
    requires Boundary(lines, i) && SplitFrom(lines, i, cs)
    ensures cs == Paragraphs(lines, i)
    decreases |lines| - i
  {
    if i == |lines| {
      SplitNothing(lines, cs);
    } else if BlankAt(lines, i) {
      SplitSkip(lines, i, cs);
      SplitUnique(lines, i + 1, cs);
    } else {
      SplitHead(lines, i, cs);
      RunEndIsBoundary(lines, i);
      SplitTail(lines, i, cs);
      var c, rest := HeadAndRest(cs);
      SplitUnique(lines, c.lineHi, rest);
    }
  }

  lemma SplitNothing(lines: seq<string>, cs: seq<Chunk>)
    requires SplitFrom(lines, |lines|, cs)
    ensures cs == []
  {
    assert cs != [] ==> MaximalRun(lines, cs[0]);
  }

  lemma HeadAndRest<T>(s: seq<T>) returns (head: T, rest: seq<T>)
    requires s != []
    ensures head == s[0] && rest == s[1..] && s == [head] + rest
  {
    head, rest := s[0], s[1..];
  }

  lemma RunEndIsBoundary(lines: seq<string>, i: nat)
    requires i < |lines| && !BlankAt(lines, i)
    ensures i < RunEnd(lines, i) && Boundary(lines, RunEnd(lines, i))
  {
  }

  lemma SplitSkip(lines: seq<string>, i: nat, cs: seq<Chunk>)
    requires i < |lines| && BlankAt(lines, i) && SplitFrom(lines, i, cs)
    ensures SplitFrom(lines, i + 1, cs)
  {
    forall k | 0 <= k < |cs| ensures MaximalRun(lines, cs[k]) && i + 1 < cs[k].lineLo {
      assert MaximalRun(lines, cs[k]);
    }
  }

  /** The paragraph chunks are the maximal runs of non-blank lines, and nothing else is. */
  lemma ParagraphsAreMaximalRuns(lines: seq<string>, cs: seq<Chunk>)
    ensures IsParagraphSplit(lines, cs) <==> cs == Paragraphs(lines, 0)
  {
    ParagraphsSplit(lines, 0);
    if IsParagraphSplit(lines, cs) { SplitUnique(lines, 0, cs); }
  }

  /** The words of consecutive lines, joined. */
  lemma SliceWords(lines: seq<string>, lo: nat, hi: nat)
    requires lo <= hi <= |lines|
    ensures WordCount(Slice(lines, lo, hi).text) == LineWords(lines, lo, hi)
  {
    JoinWords(lines[lo..hi]);
    PartWords(lines, lo, hi, lines[lo..hi]);
  }

  lemma PartWords(lines: seq<string>, lo: nat, hi: nat, part: seq<string>)
    requires lo <= hi <= |lines| && part == lines[lo..hi]
    ensures LineWords(part, 0, |part|) == LineWords(lines, lo, hi)
  {
    LineWordsOf(part, lines, 0, hi - lo, lo);
  }

  /** Blankness of a range of lines. */
  predicate AllBlank(lines: seq<string>, lo: nat, hi: nat)
    requires lo <= hi <= |lines|
  {
    forall l :: lo <= l < hi ==> BlankAt(lines, l)
  }

  lemma {:induction false} BlankLinesHaveNoWords(lines: seq<string>, lo: nat, hi: nat)
    requires lo <= hi <= |lines|
    ensures LineWords(lines, lo, hi) == 0 <==> AllBlank(lines, lo, hi)
    decreases hi
  {
    if lo < hi {
      BlankLinesHaveNoWords(lines, lo, hi - 1);
      BlankHasNoWords(lines[hi - 1]);
      assert AllBlank(lines, lo, hi) <==> AllBlank(lines, lo, hi - 1) && BlankAt(lines, hi - 1);
    }
  }

  /** A joined slice trims to nothing exactly when all its lines do. */
  lemma SliceBlank(lines: seq<string>, lo: nat, hi: nat)
    requires lo <= hi <= |lines|
    ensures Blank(Slice(lines, lo, hi).text) <==> AllBlank(lines, lo, hi)
  {
    SliceWords(lines, lo, hi);
    BlankHasNoWords(Slice(lines, lo, hi).text);
    BlankLinesHaveNoWords(lines, lo, hi);
  }

  lemma {:induction false} ParagraphWords(lines: seq<string>, i: nat)
    requires i <= |lines|
    ensures TotalWords(Paragraphs(lines, i)) == LineWords(lines, i, |lines|)
    decreases |lines| - i
  {
    var n := |lines|;
    if i < n {
      LineWordsSplit(lines, i, i + 1, n);
      if BlankAt(lines, i) {
        BlankHasNoWords(lines[i]);
        LineWordsOne(lines, i);
        ParagraphWords(lines, i + 1);
      } else {
        var e := RunEnd(lines, i);
        var c := Slice(lines, i, e);
        ParagraphWords(lines, e);
        SliceWords(lines, i, e);
        LineWordsSplit(lines, i, e, n);
        TotalWordsAppend([c], Paragraphs(lines, e));
        TotalWordsEnd([], c);
        assert [] + [c] == [c];
      }
    }
  }

  method PushPara(out: seq<Chunk>, lines: seq<string>, lo: nat, hi: nat) returns (out': seq<Chunk>)
    ensures out' == if Blank(Join(lines)) then out else out + [Chunk(Join(lines), lo, hi)]
  {
    var text := Join(lines);
    if Blank(text) {
      return out;
    }
    out' := out + [Chunk(text, lo, hi)];
  }

  predicate NoneBlank(lines: seq<string>, lo: nat, hi: nat)
    requires hi <= |lines|
  {
    forall l :: lo <= l < hi ==> !BlankAt(lines, l)
  }

  /** Pushing a whole run: the guard of `PushPara` never drops it. */
  lemma PushedRun(lines: seq<string>, s: nat, i: nat, out: seq<Chunk>)
    requires s < i <= |lines| && NoneBlank(lines, s, i) && (i < |lines| ==> BlankAt(lines, i))
    ensures !Blank(Join(lines[s..i]))
    ensures out + Paragraphs(lines, s) == (out + [Chunk(Join(lines[s..i]), s + 1, i)]) + Paragraphs(lines, i)
  {
    SliceBlank(lines, s, i);
    assert !BlankAt(lines, s);
    assert RunEnd(lines, s) == i;
    assert Paragraphs(lines, s) == [Slice(lines, s, i)] + Paragraphs(lines, i);
  }

  /** What the scanner emits: exactly the maximal runs of non-blank lines, and every word of the text. */
  lemma ParagraphsOf(text: string)
    ensures IsParagraphSplit(Lines(text), Paragraphs(Lines(text), 0))
    ensures TotalWords(Paragraphs(Lines(text), 0)) == WordCount(text)
  {
    ParagraphsAreMaximalRuns(Lines(text), Paragraphs(Lines(text), 0));
    ParagraphWords(Lines(text), 0);
    LinesKeepWords(text);
  }

  /** What the scanner knows before line `i`: the open paragraph `buf` began at line `start`, and
      what is out, with the paragraphs still to come, makes up all of them. */
  predicate Scanned(lines: seq<string>, i: nat, buf: seq<string>, start: nat, out: seq<Chunk>)
    requires i <= |lines|
  {
    if buf == [] then out + Paragraphs(lines, i) == Paragraphs(lines, 0)
    else
      && 1 <= start <= i && buf == lines[start - 1..i] && NoneBlank(lines, start - 1, i)
      && out + Paragraphs(lines, start - 1) == Paragraphs(lines, 0)
  }

  lemma ScanRunEnd(lines: seq<string>, i: nat, buf: seq<string>, start: nat, out: seq<Chunk>)
    requires i <= |lines| && buf != [] && Scanned(lines, i, buf, start, out) && (i < |lines| ==> BlankAt(lines, i))
    ensures !Blank(Join(buf)) && Scanned(lines, i, [], start, out + [Chunk(Join(buf), start, i)])
  {
    PushedRun(lines, start - 1, i, out);
  }

  lemma ScanBlank(lines: seq<string>, i: nat, start: nat, out: seq<Chunk>)
    requires i < |lines| && BlankAt(lines, i) && Scanned(lines, i, [], start, out)
    ensures Scanned(lines, i + 1, [], i + 2, out)
  {
  }

  lemma ScanText(lines: seq<string>, i: nat, buf: seq<string>, start: nat, out: seq<Chunk>)
    requires i < |lines| && !BlankAt(lines, i) && Scanned(lines, i, buf, start, out)
    ensures Scanned(lines, i + 1, buf + [lines[i]], if buf == [] then i + 1 else start, out)
  {
    var first := if buf == [] then i else start - 1;
    assert lines[first..i + 1] == lines[first..i] + [lines[i]];
    assert lines[i..i] == [];
    assert NoneBlank(lines, first, i + 1);
  }

  /** One turn of the scan. */
  method ScanLine(lines: seq<string>, i: nat, buf: seq<string>, start: nat, out: seq<Chunk>)
      returns (buf': seq<string>, start': nat, out': seq<Chunk>)
    requires i < |lines| && Scanned(lines, i, buf, start, out)
    ensures Scanned(lines, i + 1, buf', start', out')
  {
    buf', start', out' := buf, start, out;
    var lineno := i + 1;
    if BlankAt(lines, i) {
      if buf != [] {
        ScanRunEnd(lines, i, buf, start, out);
        out' := PushPara(out, buf, start, lineno - 1);
        buf' := [];
      }
      ScanBlank(lines, i, start, out');
      start' := lineno + 1;
    } else {
      ScanText(lines, i, buf, start, out);
      if buf == [] {
        start' := lineno;
      }
      buf' := buf + [lines[i]];
    }
  }

  method ParagraphChunks(text: string) returns (out: seq<Chunk>)
    ensures out == Paragraphs(Lines(text), 0)
  {
    var lines := Lines(text);
    out := [];
    var buf: seq<string> := [];
    var start := 1;
    for i := 0 to |lines|
      invariant Scanned(lines, i, buf, start, out)
    {
      buf, start, out := ScanLine(lines, i, buf, start, out);
    }
    if buf != [] {
      var end := |lines|;
      ScanRunEnd(lines, end, buf, start, out);
      out := PushPara(out, buf, start, end);
    }
  }
}
