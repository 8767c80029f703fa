/** Sliding line windows: how many there are, which lines they cover and how often, and how many
    words they carry. */
module Windows {
  import opened Numbers
  import opened Text
  import opened Chunking

  function CeilDiv(a: nat, b: nat): nat
    requires b > 0
  {
    (a + b - 1) / b
  }

  // ---------------------------------------------------------------- arithmetic

  /** Division is the unique quotient. */
  lemma DivIs(a: nat, b: nat, q: nat)
    requires b > 0 && q * b <= a < (q + 1) * b
    ensures a / b == q
  {
    var r := a - q * b;
    assert a == b * q + r && 0 <= r < b;
    DivUnique(a, b, q, r, a / b, a % b);
  }

  lemma DivUnique(a: nat, b: nat, q: nat, r: nat, q': nat, r': nat)
    requires b > 0 && a == b * q + r && r < b && a == b * q' + r' && r' < b
    ensures q == q'
  {
    if q < q' { MulMono(b, q + 1, q'); }
    if q' < q { MulMono(b, q' + 1, q); }
  }

  lemma MulMono(b: nat, x: nat, y: nat)
    requires x <= y
    ensures b * x <= b * y && x * b <= y * b
  {
    assert b * y == b * x + b * (y - x);
  }

  lemma MulMonoStrict(b: nat, x: nat, y: nat)
    requires x * b < y * b
    ensures x < y
  {
    if y <= x { MulMono(b, y, x); }
  }

  /** `CeilDiv(a, b)` is the least `q` with `q * b >= a`. */
  lemma CeilDivIs(a: nat, b: nat, q: nat)
    requires b > 0 && a <= q * b && (q > 0 ==> (q - 1) * b < a)
    ensures CeilDiv(a, b) == q
  {
    if q == 0 {
      DivIs(a + b - 1, b, 0);
    } else {
      assert q * b == (q - 1) * b + b && (q + 1) * b == q * b + b;
      DivIs(a + b - 1, b, q);
    }
  }

  lemma CeilDivBounds(a: nat, b: nat)
    requires b > 0
    ensures a <= CeilDiv(a, b) * b
    ensures CeilDiv(a, b) > 0 ==> (CeilDiv(a, b) - 1) * b < a
  {
    var q := CeilDiv(a, b);
    assert a + b - 1 == b * q + (a + b - 1) % b;
    assert q * b == b * q;
    if q > 0 { assert (q - 1) * b == q * b - b; }
  }

  // ---------------------------------------------------------------- the windows

  /** The windows visited over `n` lines: one every `step` lines until one reaches the end. */
  function VisitCount(n: nat, win: nat, step: nat): nat
    requires win > 0 && step > 0
  {
    Min(CeilDiv(n, step), 1 + CeilDiv(if n > win then n - win else 0, step))
  }

  /** The lines of window `v`. */
  function Lo(v: nat, step: nat): nat { v * step }

  function Hi(n: nat, v: nat, win: nat, step: nat): nat { Min(v * step + win, n) }

  predicate InWindow(l: nat, v: nat, win: nat, step: nat) { v * step <= l < v * step + win }

  /** Every visited window starts inside the text, none but the last reaches the end, and the last
      one does or is followed by nothing. */
  lemma VisitFacts(n: nat, win: nat, step: nat, v: nat)
    requires win > 0 && step > 0
    ensures VisitCount(n, win, step) == 0 <==> n == 0
    ensures v < VisitCount(n, win, step) ==> v * step < n
    ensures v + 1 < VisitCount(n, win, step) ==> v * step + win < n
    ensures v + 1 == VisitCount(n, win, step) ==> v * step + win >= n || (v + 1) * step >= n
  {
    var c, m := CeilDiv(n, step), if n > win then n - win else 0;
    var d := CeilDiv(m, step);
    CeilDivBounds(n, step);
    CeilDivBounds(m, step);
    if v < c { MulMono(step, v, c - 1); }
    if v < d { MulMono(step, v, d - 1); }
    if n == 0 { CeilDivIs(0, step, 0); }
  }

  /** The loop stops after exactly `VisitCount` windows, whichever of its two exits it takes. */
  lemma VisitsAtBreak(n: nat, win: nat, step: nat, v: nat)
    requires win > 0 && step > 0 && v * step < n <= v * step + win
    requires v > 0 ==> (v - 1) * step + win < n
    ensures VisitCount(n, win, step) == v + 1
  {
    var m := if n > win then n - win else 0;
    CeilDivIs(m, step, v);
    CeilDivBounds(n, step);
    MulMonoStrict(step, v, CeilDiv(n, step));
  }

  lemma VisitsAtEnd(n: nat, win: nat, step: nat, v: nat)
    requires win > 0 && step > 0 && v > 0 && n <= v * step && (v - 1) * step + win < n
    ensures VisitCount(n, win, step) == v
  {
    assert (v - 1) * step < n;
    CeilDivIs(n, step, v);
    var m := n - win;
    CeilDivBounds(m, step);
    MulMonoStrict(step, v - 1, CeilDiv(m, step));
  }

  predicate Inside(n: nat, step: nat, v: nat) { v * step < n }

  /** The first `count` windows start inside the text. */
  predicate StartInside(n: nat, step: nat, count: nat) {
    forall v :: 0 <= v < count ==> Inside(n, step, v)
  }

  lemma VisitsStartInside(n: nat, win: nat, step: nat)
    requires win > 0 && step > 0
    ensures StartInside(n, step, VisitCount(n, win, step))
  {
    forall v | 0 <= v < VisitCount(n, win, step) ensures Inside(n, step, v) {
      VisitFacts(n, win, step, v);
    }
  }

  function Window(lines: seq<string>, v: nat, win: nat, step: nat): Chunk
    requires Inside(|lines|, step, v)
  {
    Slice(lines, Lo(v, step), Hi(|lines|, v, win, step))
  }

  /** The non-blank ones of the first `count` windows. */
  function Emitted(lines: seq<string>, win: nat, step: nat, count: nat): seq<Chunk>
    requires StartInside(|lines|, step, count)
  {
    if count == 0 then []
    else
      var w := Window(lines, count - 1, win, step);
      Emitted(lines, win, step, count - 1) + (if Blank(w.text) then [] else [w])
  }

  lemma EmittedNext(lines: seq<string>, win: nat, step: nat, v: nat, out: seq<Chunk>, lo: nat, hi: nat)
    requires StartInside(|lines|, step, v) && lo == v * step < |lines| && hi == Min(lo + win, |lines|)
    requires out == Emitted(lines, win, step, v)
    ensures StartInside(|lines|, step, v + 1)
    ensures Emitted(lines, win, step, v + 1) == out + if Blank(Slice(lines, lo, hi).text) then [] else [Slice(lines, lo, hi)]
  {
    assert Inside(|lines|, step, v);
  }

  lemma EmittedMembers(lines: seq<string>, win: nat, step: nat, count: nat, c: Chunk)
    requires count > 0 && StartInside(|lines|, step, count)
    ensures c in Emitted(lines, win, step, count)
            <==> c in Emitted(lines, win, step, count - 1)
                 || (c == Window(lines, count - 1, win, step) && !Blank(c.text))
  {
  }

  function WindowChunks(lines: seq<string>, win: nat, step: nat): seq<Chunk>
    requires win > 0 && step > 0
  {
    VisitsStartInside(|lines|, win, step);
    Emitted(lines, win, step, VisitCount(|lines|, win, step))
  }

  method PushWindow(out: seq<Chunk>, lines: seq<string>, lo: nat, hi: nat) returns (out': seq<Chunk>)
    requires lo <= hi <= |lines|
    ensures out' == out + if Blank(Slice(lines, lo, hi).text) then [] else [Slice(lines, lo, hi)]
  {
    out' := out;
    var body := Join(lines[lo..hi]);
    if !Blank(body) {
      out' := out + [Chunk(body, lo + 1, hi)];
    }
  }

  method LineWindows(text: string, win: nat, step: nat) returns (out: seq<Chunk>)
    requires win > 0 && step > 0
    ensures out == WindowChunks(Lines(text), win, step)
  {
    var lines := Lines(text);
    out := [];
    var i := 0;
    ghost var v := 0;
    while i < |lines|
      invariant i == v * step
      invariant StartInside(|lines|, step, v)
      invariant v > 0 ==> (v - 1) * step + win < |lines|
      invariant out == Emitted(lines, win, step, v)
      decreases |lines| - i
    {
      var end := Min(i + win, |lines|);
      EmittedNext(lines, win, step, v, out, i, end);
      out := PushWindow(out, lines, i, end);
      if end == |lines| {
        VisitsAtBreak(|lines|, win, step, v);
        return;
      }
      assert (v + 1) * step == i + step;
      i := i + step;
      v := v + 1;
    }
    if v > 0 {
      VisitsAtEnd(|lines|, win, step, v);
    } else {
      VisitFacts(|lines|, win, step, 0);
    }
  }

  // ---------------------------------------------------------------- coverage

  predicate Visited(n: nat, l: nat, win: nat, step: nat)
    requires win > 0 && step > 0
  {
    exists v :: 0 <= v < VisitCount(n, win, step) && InWindow(l, v, win, step)
  }

  /** A line lies in some visited window exactly when it is not in a gap between windows; with
      `step <= win` there are no gaps, in spite of the early exit. */
  lemma CoveredExactlyWhen(n: nat, l: nat, win: nat, step: nat)
    requires win > 0 && step > 0 && l < n
    ensures Visited(n, l, win, step) <==> l % step < win
  {
    if l % step < win {
      var v := CoveringVisit(n, l, win, step);
    } else {
      forall v: nat ensures !InWindow(l, v, win, step) {
        GapIsMissed(l, v, win, step);
      }
    }
  }

  lemma CoveringVisit(n: nat, l: nat, win: nat, step: nat) returns (v: nat)
    requires win > 0 && step > 0 && l < n && l % step < win
    ensures v < VisitCount(n, win, step) && InWindow(l, v, win, step)
  {
    v := l / step;
    assert l == step * v + l % step;
    assert v * step == step * v;
    if VisitCount(n, win, step) <= v {
      VisitFacts(n, win, step, 0);
      LastVisitHolds(n, l, v, win, step);
      v := VisitCount(n, win, step) - 1;
    }
  }

  lemma GapIsMissed(l: nat, v: nat, win: nat, step: nat)
    requires step > 0 && l % step >= win
    ensures !InWindow(l, v, win, step)
  {
    var q := l / step;
    assert l == step * q + l % step;
    assert q * step == step * q;
    if v < q {
      MulMono(step, v + 1, q);
      assert (v + 1) * step == v * step + step;
    } else if v > q {
      MulMono(step, q + 1, v);
      assert (q + 1) * step == q * step + step;
    }
  }

  /** Where the windows stop before the one that starts next to `l`, the last one reaches past it. */
  lemma LastVisitHolds(n: nat, l: nat, q: nat, win: nat, step: nat)
    requires win > 0 && step > 0 && l < n && q * step <= l
    requires VisitCount(n, win, step) <= q
    ensures InWindow(l, VisitCount(n, win, step) - 1, win, step)
  {
    var count := VisitCount(n, win, step);
    VisitFacts(n, win, step, count - 1);
    MulMono(step, count - 1, q);
    MulMono(step, count, q);
  }

  /** How many of the first `count` windows hold line `l`. */
  function Mult(l: nat, count: nat, win: nat, step: nat): nat {
    if count == 0 then 0
    else Mult(l, count - 1, win, step) + (if InWindow(l, count - 1, win, step) then 1 else 0)
  }

  lemma WindowIndexRange(l: nat, v: nat, win: nat, step: nat)
    requires win > 0 && step > 0 && InWindow(l, v, win, step)
    ensures v <= l / step < v + CeilDiv(win, step)
  {
    CeilDivBounds(win, step);
    QuotientTimes(l, step);
    QuotientRange(l, v, l / step, CeilDiv(win, step), win, step);
  }

  lemma QuotientTimes(l: nat, step: nat)
    requires step > 0
    ensures (l / step) * step <= l < (l / step) * step + step
  {
    assert l == step * (l / step) + l % step;
    assert (l / step) * step == step * (l / step);
  }

  lemma QuotientRange(l: nat, v: nat, q: nat, c: nat, win: nat, step: nat)
    requires q * step <= l < q * step + step && v * step <= l < v * step + win && win <= c * step
    ensures v <= q < v + c
  {
    SumTimes(q, 1, step);
    SumTimes(v, c, step);
    if q + 1 <= v {
      MulMono(step, q + 1, v);
    }
    if v + c <= q {
      MulMono(step, v + c, q);
    }
  }

  lemma SumTimes(a: nat, b: nat, step: nat)
    ensures (a + b) * step == a * step + b * step
  {
  }

  lemma {:induction false} MultCount(l: nat, count: nat, win: nat, step: nat)
    requires win > 0 && step > 0
    ensures var q, c := l / step, CeilDiv(win, step);
            Mult(l, count, win, step) <= if count + c <= q + 1 then 0 else if count > q + 1 then c else count + c - (q + 1)
  {
    if count > 0 {
      MultCount(l, count - 1, win, step);
      if InWindow(l, count - 1, win, step) {
        WindowIndexRange(l, count - 1, win, step);
      }
    } else {
      CeilDivBounds(win, step);
    }
  }

  /** A line lies in at most `CeilDiv(win, step)` windows, so windows are disjoint when
      `step >= win`. */
  lemma MultBound(l: nat, count: nat, win: nat, step: nat)
    requires win > 0 && step > 0
    ensures Mult(l, count, win, step) <= CeilDiv(win, step)
    ensures step >= win ==> CeilDiv(win, step) == 1
  {
    MultCount(l, count, win, step);
    if step >= win { CeilDivIs(win, step, 1); }
  }

  lemma {:induction false} MultPositive(l: nat, count: nat, win: nat, step: nat, v: nat)
    requires v < count && InWindow(l, v, win, step)
    ensures Mult(l, count, win, step) >= 1
  {
    if v < count - 1 { MultPositive(l, count - 1, win, step, v); }
  }

  /** The chunk of every visited window that holds a non-blank line is emitted, with that line's
      range and text. */
  lemma {:induction false} NonBlankIsEmitted(lines: seq<string>, win: nat, step: nat, count: nat, v: nat, l: nat)
    requires StartInside(|lines|, step, count)
    requires v < count && l < |lines| && InWindow(l, v, win, step) && !Blank(lines[l])
    ensures Window(lines, v, win, step) in Emitted(lines, win, step, count)
  {
    EmittedMembers(lines, win, step, count, Window(lines, v, win, step));
    if v < count - 1 {
      NonBlankIsEmitted(lines, win, step, count - 1, v, l);
    } else {
      WindowIsNotBlank(lines, win, step, v, l);
    }
  }

  lemma WindowIsNotBlank(lines: seq<string>, win: nat, step: nat, v: nat, l: nat)
    requires Inside(|lines|, step, v) && l < |lines| && InWindow(l, v, win, step) && !Blank(lines[l])
    ensures !Blank(Window(lines, v, win, step).text)
  {
    SliceBlank(lines, Lo(v, step), Hi(|lines|, v, win, step));
    assert !BlankAt(lines, l);
  }

  /** No non-blank line outside the gaps is lost: some emitted chunk is its window. */
  lemma EveryLineIsInAChunk(lines: seq<string>, win: nat, step: nat, l: nat)
    requires win > 0 && step > 0 && l < |lines| && !Blank(lines[l]) && l % step < win
    ensures exists c :: c in WindowChunks(lines, win, step) && InChunk(c, l)
  {
    CoveredExactlyWhen(|lines|, l, win, step);
    var count := VisitCount(|lines|, win, step);
    var v :| 0 <= v < count && InWindow(l, v, win, step);
    VisitsStartInside(|lines|, win, step);
    NonBlankIsEmitted(lines, win, step, count, v, l);
    assert InChunk(Window(lines, v, win, step), l);
  }

  /** Every emitted chunk is a visited, non-blank window: its text is its lines joined. */
  lemma EmittedAreWindows(lines: seq<string>, win: nat, step: nat, count: nat, c: Chunk)
    requires StartInside(|lines|, step, count)
    requires win > 0 && c in Emitted(lines, win, step, count)
    ensures exists v :: 0 <= v < count && c == Window(lines, v, win, step)
    ensures 1 <= c.lineLo <= c.lineHi <= |lines| && c.text == Join(lines[c.lineLo - 1..c.lineHi]) && !Blank(c.text)
  {
    var v := EmittedVisit(lines, win, step, count, c);
    WindowIsSlice(lines, v, win, step);
  }

  lemma {:induction false} EmittedVisit(lines: seq<string>, win: nat, step: nat, count: nat, c: Chunk) returns (v: nat)
    requires StartInside(|lines|, step, count)
    requires c in Emitted(lines, win, step, count)
    ensures v < count && c == Window(lines, v, win, step) && !Blank(c.text)
  {
    EmittedMembers(lines, win, step, count, c);
    if c in Emitted(lines, win, step, count - 1) {
      v := EmittedVisit(lines, win, step, count - 1, c);
    } else {
      v := count - 1;
    }
  }

  lemma WindowIsSlice(lines: seq<string>, v: nat, win: nat, step: nat)
    requires win > 0 && Inside(|lines|, step, v)
    ensures var c := Window(lines, v, win, step);
            1 <= c.lineLo <= c.lineHi <= |lines| && c.text == Join(lines[c.lineLo - 1..c.lineHi])
  {
  }

  // ---------------------------------------------------------------- words

  /** The word count of every line. */
  function Counts(lines: seq<string>): seq<nat> {
    seq(|lines|, l requires 0 <= l < |lines| => WordCount(lines[l]))
  }

  function Sum(ws: seq<nat>, lo: nat, hi: nat): nat
    requires lo <= hi <= |ws|
    decreases hi
  {
    if lo == hi then 0 else Sum(ws, lo, hi - 1) + ws[hi - 1]
  }

  lemma {:induction false} SumIsLineWords(lines: seq<string>, lo: nat, hi: nat)
    requires lo <= hi <= |lines|
    ensures Sum(Counts(lines), lo, hi) == LineWords(lines, lo, hi)
    decreases hi
  {
    if lo < hi { SumIsLineWords(lines, lo, hi - 1); }
  }

  /** The weight of the first `count` windows, blank ones included. */
  function WindowSum(ws: seq<nat>, win: nat, step: nat, count: nat): nat
    requires StartInside(|ws|, step, count)
  {
    if count == 0 then 0
    else
      assert Inside(|ws|, step, count - 1);
      WindowSum(ws, win, step, count - 1)
      + Sum(ws, Lo(count - 1, step), Hi(|ws|, count - 1, win, step))
  }

  /** The weight of the first `n` lines, each counted as often as it lies in a window. */
  function Weighted(ws: seq<nat>, n: nat, count: nat, win: nat, step: nat): nat
    requires n <= |ws|
    decreases n
  {
    if n == 0 then 0
    else Weighted(ws, n - 1, count, win, step) + ws[n - 1] * Mult(n - 1, count, win, step)
  }

  lemma WindowSumNext(ws: seq<nat>, win: nat, step: nat, v: nat)
    requires StartInside(|ws|, step, v + 1) && Inside(|ws|, step, v)
    ensures WindowSum(ws, win, step, v + 1)
            == WindowSum(ws, win, step, v) + Sum(ws, Lo(v, step), Hi(|ws|, v, win, step))
  {
  }

  lemma EmitOne(before: seq<Chunk>, w: Chunk, after: seq<Chunk>)
    requires after == before + if Blank(w.text) then [] else [w]
    ensures TotalWords(after) == TotalWords(before) + WordCount(w.text)
  {
    if Blank(w.text) {
      BlankHasNoWords(w.text);
      assert after == before;
    } else {
      TotalWordsEnd(before, w);
    }
  }

  lemma WindowWords(lines: seq<string>, win: nat, step: nat, v: nat)
    requires Inside(|lines|, step, v)
    ensures WordCount(Window(lines, v, win, step).text)
            == Sum(Counts(lines), Lo(v, step), Hi(|lines|, v, win, step))
  {
    SliceWords(lines, Lo(v, step), Hi(|lines|, v, win, step));
    SumIsLineWords(lines, Lo(v, step), Hi(|lines|, v, win, step));
  }

  lemma LastWindow(lines: seq<string>, win: nat, step: nat, v: nat, cs: seq<Chunk>)
    returns (before: seq<Chunk>, w: Chunk)
    requires StartInside(|lines|, step, v + 1) && Inside(|lines|, step, v) && cs == Emitted(lines, win, step, v + 1)
    ensures before == Emitted(lines, win, step, v)
    ensures cs == before + if Blank(w.text) then [] else [w]
    ensures WordCount(w.text) == Sum(Counts(lines), Lo(v, step), Hi(|lines|, v, win, step))
  {
    before, w := Emitted(lines, win, step, v), Window(lines, v, win, step);
    WindowWords(lines, win, step, v);
  }

  /** Dropping blank windows drops no word. */
  lemma {:induction false} EmittedWords(lines: seq<string>, win: nat, step: nat, count: nat,
                                        cs: seq<Chunk>, ws: seq<nat>)
    requires StartInside(|lines|, step, count)
    requires cs == Emitted(lines, win, step, count) && ws == Counts(lines)
    ensures TotalWords(cs) == WindowSum(ws, win, step, count)
  {
    if count == 0 {
    } else {
      var v := count - 1;
      assert Inside(|lines|, step, v);
      var before, w := LastWindow(lines, win, step, v, cs);
      EmittedWords(lines, win, step, v, before, ws);
      EmitOne(before, w, cs);
      WindowSumNext(ws, win, step, v);
    }
  }

  lemma OneMore(w: nat, m: nat)
    ensures w * (m + 1) == w * m + w
  {
  }

  lemma SumNext(ws: seq<nat>, lo: nat, hi: nat, n: nat)
    requires 0 < n <= |ws| && lo <= hi
    ensures Sum(ws, Min(lo, n), Min(hi, n))
            == Sum(ws, Min(lo, n - 1), Min(hi, n - 1)) + if lo <= n - 1 < hi then ws[n - 1] else 0
  {
  }

  lemma {:induction false} AddWindow(ws: seq<nat>, n: nat, count: nat, win: nat, step: nat)
    requires n <= |ws|
    ensures var lo, hi := Lo(count, step), count * step + win;
            Weighted(ws, n, count + 1, win, step)
            == Weighted(ws, n, count, win, step) + Sum(ws, Min(lo, n), Min(hi, n))
    decreases n
  {
    if n == 0 {
    } else {
      AddWindow(ws, n - 1, count, win, step);
      var w, m := ws[n - 1], Mult(n - 1, count, win, step);
      OneMore(w, m);
      SumNext(ws, Lo(count, step), count * step + win, n);
    }
  }

  lemma {:induction false} WeightedNone(ws: seq<nat>, n: nat, win: nat, step: nat)
    requires n <= |ws|
    ensures Weighted(ws, n, 0, win, step) == 0
    decreases n
  {
    if n == 0 {
    } else {
      WeightedNone(ws, n - 1, win, step);
    }
  }

  /** Summing window by window is summing line by line. */
  lemma {:induction false} ExchangeSums(ws: seq<nat>, win: nat, step: nat, count: nat)
    requires StartInside(|ws|, step, count)
    ensures WindowSum(ws, win, step, count) == Weighted(ws, |ws|, count, win, step)
  {
    if count == 0 {
      WeightedNone(ws, |ws|, win, step);
    } else {
      ExchangeSums(ws, win, step, count - 1);
      assert Inside(|ws|, step, count - 1);
      AddWindow(ws, |ws|, count - 1, win, step);
    }
  }

  lemma Distribute(c: nat, s: nat, w: nat, m: nat)
    requires 1 <= m <= c
    ensures w <= w * m && c * s + w * m <= c * (s + w)
  {
    MulMono(w, 1, m);
    MulMono(w, m, c);
  }

  lemma {:induction false} WeightedBounds(ws: seq<nat>, n: nat, count: nat, win: nat, step: nat)
    requires win > 0 && step > 0 && n <= |ws|
    requires forall l :: 0 <= l < n ==> Mult(l, count, win, step) >= 1
    ensures Sum(ws, 0, n) <= Weighted(ws, n, count, win, step) <= CeilDiv(win, step) * Sum(ws, 0, n)
    decreases n
  {
    if n == 0 {
    } else {
      WeightedBounds(ws, n - 1, count, win, step);
      MultBound(n - 1, count, win, step);
      Distribute(CeilDiv(win, step), Sum(ws, 0, n - 1), ws[n - 1], Mult(n - 1, count, win, step));
    }
  }

  lemma EveryLineCounts(n: nat, l: nat, win: nat, step: nat)
    requires 0 < step <= win && l < n
    ensures Mult(l, VisitCount(n, win, step), win, step) >= 1
  {
    CoveredExactlyWhen(n, l, win, step);
    var v :| 0 <= v < VisitCount(n, win, step) && InWindow(l, v, win, step);
    MultPositive(l, VisitCount(n, win, step), win, step, v);
  }

  lemma ChunksWeigh(lines: seq<string>, win: nat, step: nat)
    requires 0 < step <= win
    ensures TotalWords(WindowChunks(lines, win, step))
            == Weighted(Counts(lines), |lines|, VisitCount(|lines|, win, step), win, step)
  {
    var count := VisitCount(|lines|, win, step);
    VisitsStartInside(|lines|, win, step);
    EmittedWords(lines, win, step, count, Emitted(lines, win, step, count), Counts(lines));
    ExchangeSums(Counts(lines), win, step, count);
  }

  /** The words of all emitted windows lie between the words of the text and `CeilDiv(win, step)`
      times that. */
  lemma WindowWordBounds(text: string, win: nat, step: nat)
    requires 0 < step <= win
    ensures WordCount(text) <= TotalWords(WindowChunks(Lines(text), win, step)) <= CeilDiv(win, step) * WordCount(text)
  {
    var lines := Lines(text);
    var n := |lines|;
    ChunksWeigh(lines, win, step);
    forall l | 0 <= l < n ensures Mult(l, VisitCount(n, win, step), win, step) >= 1 {
      EveryLineCounts(n, l, win, step);
    }
    WeightedBounds(Counts(lines), n, VisitCount(n, win, step), win, step);
    SumIsLineWords(lines, 0, n);
    LinesKeepWords(text);
  }

  // ---------------------------------------------------------------- dispatch

  /** A window or a step of zero acts as one. */
  function AtLeastOne(n: nat): (m: nat)
    ensures m >= 1 && (n >= 1 ==> m == n) && (n == 0 ==> m == 1)
  {
    if n < 1 then 1 else n
  }

  function ChunksOf(text: string, mode: ChunkMode): seq<Chunk> {
    match mode
    case Paragraph => Paragraphs(Lines(text), 0)
    case LineMode(win, step) => WindowChunks(Lines(text), AtLeastOne(win), AtLeastOne(step))
  }

  method ChunkText(text: string, mode: ChunkMode) returns (out: seq<Chunk>)
    ensures out == ChunksOf(text, mode)
  {
    match mode
    case Paragraph => out := ParagraphChunks(text);
    case LineMode(win, step) => out := LineWindows(text, AtLeastOne(win), AtLeastOne(step));
  }

  /** The text of a chunk is its lines and nothing else: split at the line feeds, it gives back the
      lines its numbers name, in order. */
  lemma ChunkHoldsItsLines(text: string, mode: ChunkMode, c: Chunk)
    requires c in ChunksOf(text, mode)
    ensures 1 <= c.lineLo <= c.lineHi <= |Lines(text)|
    ensures Split(c.text) == Lines(text)[c.lineLo - 1..c.lineHi]
  {
    match mode {
      case Paragraph => ParagraphIsItsLines(Lines(text), c);
      case LineMode(win, step) => WindowIsItsLines(Lines(text), AtLeastOne(win), AtLeastOne(step), c);
    }
    SliceSplits(text, c.lineLo - 1, c.lineHi);
  }

  predicate IsItsLines(lines: seq<string>, c: Chunk) {
    1 <= c.lineLo <= c.lineHi <= |lines| && c.text == Join(lines[c.lineLo - 1..c.lineHi])
  }

  lemma ParagraphIsItsLines(lines: seq<string>, c: Chunk)
    requires c in Paragraphs(lines, 0)
    ensures IsItsLines(lines, c)
  {
    ParagraphsAreMaximalRuns(lines, Paragraphs(lines, 0));
    var k :| 0 <= k < |Paragraphs(lines, 0)| && Paragraphs(lines, 0)[k] == c;
    assert MaximalRun(lines, Paragraphs(lines, 0)[k]);
  }

  lemma WindowIsItsLines(lines: seq<string>, win: nat, step: nat, c: Chunk)
    requires win > 0 && step > 0 && c in WindowChunks(lines, win, step)
    ensures IsItsLines(lines, c)
  {
    VisitsStartInside(|lines|, win, step);
    EmittedAreWindows(lines, win, step, VisitCount(|lines|, win, step), c);
  }

  lemma SliceSplits(text: string, lo: nat, hi: nat)
    requires lo < hi <= |Lines(text)|
    ensures Split(Join(Lines(text)[lo..hi])) == Lines(text)[lo..hi]
  {
    LinesAreOneLine("", text);
    assert Lines(text) == LinesFrom("", text);
    SplitOfJoin(Lines(text)[lo..hi]);
  }

  /** In the order of their first lines, none of them beyond `bound`, no two starting together. */
  predicate Ascending(cs: seq<Chunk>, bound: nat) {
    && (forall i :: 0 <= i < |cs| ==> cs[i].lineLo <= bound)
    && (forall i, j :: 0 <= i < j < |cs| ==> cs[i].lineLo < cs[j].lineLo)
  }

  lemma AscendingEnd(cs: seq<Chunk>, bound: nat, c: Chunk, bound': nat)
    requires Ascending(cs, bound) && bound < c.lineLo <= bound'
    ensures Ascending(cs + [c], bound') && Ascending(cs, bound')
  {
  }

  /** The windows come out in the order of the lines. */
  lemma {:induction false} WindowsAscend(lines: seq<string>, win: nat, step: nat, count: nat)
    requires step > 0 && StartInside(|lines|, step, count)
    ensures Ascending(Emitted(lines, win, step, count), count * step)
  {
    if count > 0 {
      var w := Window(lines, count - 1, win, step);
      WindowsAscend(lines, win, step, count - 1);
      assert (count - 1) * step + step == count * step;
      AscendingEnd(Emitted(lines, win, step, count - 1), (count - 1) * step, w, count * step);
      var before := Emitted(lines, win, step, count - 1);
      assert before + [] == before;
    }
  }

  /** Which files are prose, and how any other is cut: windows of forty lines, one every thirty. */
  lemma CodeWindows(text: string, ext: string)
    ensures ForExt(ext).Paragraph? <==> ext == "md" || ext == "mdx" || ext == "txt" || ext == "rst"
    ensures ForExt(ext).LineMode? ==>
              forall c :: c in ChunksOf(text, ForExt(ext)) ==>
                exists v: nat :: c.lineLo == 30 * v + 1
                                 && c.lineHi == if 30 * v + 40 < |Lines(text)| then 30 * v + 40 else |Lines(text)|
  {
    if ForExt(ext).LineMode? {
      forall c | c in ChunksOf(text, ForExt(ext))
        ensures exists v: nat :: c.lineLo == 30 * v + 1
                  && c.lineHi == if 30 * v + 40 < |Lines(text)| then 30 * v + 40 else |Lines(text)|
      {
        VisitsStartInside(|Lines(text)|, 40, 30);
        var v := EmittedVisit(Lines(text), 40, 30, VisitCount(|Lines(text)|, 40, 30), c);
        assert c.lineLo == 30 * v + 1;
      }
    }
  }

  /** What a file of any extension is charged: at least its words, at most twice as many. */
  lemma DefaultChunkWords(text: string, ext: string)
    ensures WordCount(text) <= TotalWords(ChunksOf(text, ForExt(ext))) <= 2 * WordCount(text)
    ensures ForExt(ext).Paragraph? ==> TotalWords(ChunksOf(text, ForExt(ext))) == WordCount(text)
  {
    if ForExt(ext).Paragraph? {
      ParagraphWords(Lines(text), 0);
      LinesKeepWords(text);
    } else {
      WindowWordBounds(text, 40, 30);
      assert CeilDiv(40, 30) == 2;
    }
  }
}
