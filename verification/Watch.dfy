/** Watch mode: re-ingesting files as they change, with a debounce per path and an id counter that
    only completed files advance. Notifications, their times and what the files hold when they are
    read are the input. */
module Watch {
  import opened Keyed
  import opened Chunking
  import opened Mock
  import opened Ingest
  import Text

  const DEBOUNCE_MS: nat := 800

  /** A path in a notification: `file` is `None` unless it is a regular file the filters accept.
      `now`, `tools`, `refused` and `flushOk` are the clock and the backends at that moment. */
  datatype Seen = Seen(path: string, file: Option<Source>, now: nat, tools: Tools, refused: set<nat>, flushOk: bool)

  datatype Notice = WatchError | OtherKind | CreatedOrModified(paths: seq<Seen>)

  /** Every path of every notification that is acted on, in order. */
  function Notices(events: seq<Notice>): seq<Seen> {
    if events == [] then []
    else
      var e := events[|events| - 1];
      Notices(events[..|events| - 1]) + if e.CreatedOrModified? then e.paths else []
  }

  // ---------------------------------------------------------------- debounce

  /** `Instant::duration_since` saturates at zero. */
  function Elapsed(now: nat, then_: nat): nat {
    if now < then_ then 0 else now - then_
  }

  predicate Admits(lastSeen: map<string, nat>, s: Seen) {
    s.file.Some? && !(s.path in lastSeen && Elapsed(s.now, lastSeen[s.path]) < DEBOUNCE_MS)
  }

  /** The debounce map after `seens`. */
  function LastSeen(seens: seq<Seen>): map<string, nat> {
    if seens == [] then map[]
    else
      var m, s := LastSeen(seens[..|seens| - 1]), seens[|seens| - 1];
      if Admits(m, s) then m[s.path := s.now] else m
  }

  /** The paths an ingest is attempted for. */
  function Admitted(seens: seq<Seen>): seq<Seen> {
    if seens == [] then []
    else
      var init, s := seens[..|seens| - 1], seens[|seens| - 1];
      Admitted(init) + if Admits(LastSeen(init), s) then [s] else []
  }

  lemma AdmitNext(seens: seq<Seen>, s: Seen)
    ensures LastSeen(seens + [s])
            == if Admits(LastSeen(seens), s) then LastSeen(seens)[s.path := s.now] else LastSeen(seens)
    ensures Admitted(seens + [s]) == Admitted(seens) + if Admits(LastSeen(seens), s) then [s] else []
  {
    assert (seens + [s])[..|seens|] == seens;
  }

  predicate Spaced(as_: seq<Seen>) {
    forall i, j :: 0 <= i < j < |as_| && as_[i].path == as_[j].path ==> as_[j].now >= as_[i].now + 800
  }

  /** `m` holds, for each attempted path and for no other, the time of one of its attempts, the
      latest. */
  ghost predicate HoldsLast(m: map<string, nat>, as_: seq<Seen>) {
    && (forall i :: 0 <= i < |as_| ==> as_[i].path in m && as_[i].now <= m[as_[i].path])
    && (forall p :: p in m ==> exists i :: 0 <= i < |as_| && as_[i].path == p && as_[i].now == m[p])
  }

  lemma HoldsNext(m: map<string, nat>, as_: seq<Seen>, s: Seen)
    requires HoldsLast(m, as_) && Admits(m, s)
    ensures HoldsLast(m[s.path := s.now], as_ + [s])
  {
    var all, m' := as_ + [s], m[s.path := s.now];
    assert forall i :: 0 <= i < |as_| ==> all[i] == as_[i];
    forall p | p in m' ensures exists i :: 0 <= i < |all| && all[i].path == p && all[i].now == m'[p] {
      if p == s.path {
        assert all[|as_|] == s;
      } else {
        var i :| 0 <= i < |as_| && as_[i].path == p && as_[i].now == m[p];
        assert all[i] == as_[i];
      }
    }
  }

  lemma SpacedNext(m: map<string, nat>, as_: seq<Seen>, s: Seen)
    requires HoldsLast(m, as_) && Admits(m, s) && Spaced(as_)
    ensures Spaced(as_ + [s])
  {
    assert forall i :: 0 <= i < |as_| ==> (as_ + [s])[i] == as_[i];
  }

  /** The debounce map holds the time of the last attempt on each path, and any two attempts on one
      path are at least the debounce apart, whatever the clock does. */
  lemma {:induction false} AttemptsAreSpaced(seens: seq<Seen>)
    ensures Spaced(Admitted(seens)) && HoldsLast(LastSeen(seens), Admitted(seens))
  {
    if seens == [] {
    } else {
      var init, s := seens[..|seens| - 1], seens[|seens| - 1];
      assert seens == init + [s];
      AttemptsAreSpaced(init);
      AdmitNext(init, s);
      if Admits(LastSeen(init), s) {
        HoldsNext(LastSeen(init), Admitted(init), s);
        SpacedNext(LastSeen(init), Admitted(init), s);
      } else {
        assert Admitted(init) + [] == Admitted(init);
      }
    }
  }

  /** A change is picked up exactly when it is a file and the debounce has passed since every earlier
      attempt on its path - failed attempts included. */
  lemma PickedUpExactlyWhen(seens: seq<Seen>, s: Seen)
    ensures Admitted(seens + [s]) == Admitted(seens) + [s]
            <==> s.file.Some? && forall a :: a in Admitted(seens) && a.path == s.path ==> s.now >= a.now + 800
  {
    AdmitNext(seens, s);
    AttemptsAreSpaced(seens);
    AdmitsExactlyWhen(LastSeen(seens), Admitted(seens), s);
    assert |Admitted(seens) + [s]| == |Admitted(seens)| + 1;
  }

  lemma AdmitsExactlyWhen(m: map<string, nat>, as_: seq<Seen>, s: Seen)
    requires HoldsLast(m, as_)
    ensures Admits(m, s)
            <==> s.file.Some? && forall a :: a in as_ && a.path == s.path ==> s.now >= a.now + DEBOUNCE_MS
  {
    if s.path in m {
      var i :| 0 <= i < |as_| && as_[i].path == s.path && as_[i].now == m[s.path];
      assert as_[i] in as_;
    }
    forall a | a in as_ && a.path == s.path ensures s.path in m && a.now <= m[s.path] {
      var i :| 0 <= i < |as_| && as_[i] == a;
    }
  }

  // ---------------------------------------------------------------- attempts

  /** One call of the file ingest: what it wrote from id `first` on, and whether it completed. */
  datatype Attempt = Attempt(seen: Seen, first: nat, bodies: seq<Stored>, words: nat, whole: bool)

  /** The attempt did what ingesting the file does, up to its first failure. */
  predicate Faithful(a: Attempt, opts: Options, dim: nat) {
    && a.seen.file.Some?
    && var f := a.seen.file.value;
       var p := Piece(f.rel, FileChunks(f));
       && FirstFailure(p.chunks, a.first, dim, a.seen.tools, a.seen.refused, |a.bodies|)
       && a.bodies == Bodies(p, opts, a.seen.tools)[..|a.bodies|]
       && a.words == WordsTo(p.chunks, |a.bodies|)
       && (a.whole <==> f.text.Some? && |a.bodies| == |p.chunks|)
  }

  predicate AllFaithful(hist: seq<Attempt>, opts: Options, dim: nat) {
    forall i {:trigger Faithful(hist[i], opts, dim)} :: 0 <= i < |hist| ==> Faithful(hist[i], opts, dim)
  }

  lemma AllFaithfulNext(hist: seq<Attempt>, a: Attempt, opts: Options, dim: nat)
    requires AllFaithful(hist, opts, dim) && Faithful(a, opts, dim)
    ensures AllFaithful(hist + [a], opts, dim)
  {
    forall i | 0 <= i < |hist + [a]| ensures Faithful((hist + [a])[i], opts, dim) {
      assert i < |hist| ==> (hist + [a])[i] == hist[i];
    }
  }

  function NextId(start: nat, hist: seq<Attempt>): nat {
    if hist == [] then start
    else
      var a := hist[|hist| - 1];
      NextId(start, hist[..|hist| - 1]) + if a.whole then |a.bodies| else 0
  }

  /** Every attempt starts at the id counter of its time. */
  predicate Chained(start: nat, hist: seq<Attempt>) {
    hist == []
    || (var init := hist[..|hist| - 1];
        Chained(start, init) && hist[|hist| - 1].first == NextId(start, init))
  }

  /** All writes; with `whole` false, only those of failed attempts. */
  function Writes(hist: seq<Attempt>, whole: bool): seq<MockRecord> {
    if hist == [] then []
    else
      var a := hist[|hist| - 1];
      Writes(hist[..|hist| - 1], whole) + if whole || !a.whole then Numbered(a.bodies, a.first) else []
  }

  function Written(hist: seq<Attempt>): seq<MockRecord> { Writes(hist, true) }

  function Leftovers(hist: seq<Attempt>): seq<MockRecord> { Writes(hist, false) }

  function SeenOf(hist: seq<Attempt>): seq<Seen> {
    seq(|hist|, i requires 0 <= i < |hist| => hist[i].seen)
  }

  /** What a completed attempt reports. */
  function ReportOf(a: Attempt): Stats { Stats(1, |a.bodies|, a.words, a.first + |a.bodies|) }

  /** The statistics passed to `on_batch`, one per completed attempt. */
  function Reports(hist: seq<Attempt>): seq<Stats> {
    if hist == [] then []
    else
      var a := hist[|hist| - 1];
      Reports(hist[..|hist| - 1])
      + if a.whole then [ReportOf(a)] else []
  }

  /** How much of the log is persisted: all of it after each completed attempt whose flush worked. */
  function Persisted(hist: seq<Attempt>, before: nat, logged: nat): nat {
    if hist == [] then before
    else
      var a := hist[|hist| - 1];
      if a.whole && a.seen.flushOk then logged + |Written(hist)| else Persisted(hist[..|hist| - 1], before, logged)
  }

  lemma HistoryNext(start: nat, hist: seq<Attempt>, a: Attempt, before: nat, logged: nat)
    ensures NextId(start, hist + [a]) == NextId(start, hist) + if a.whole then |a.bodies| else 0
    ensures Chained(start, hist) && a.first == NextId(start, hist) ==> Chained(start, hist + [a])
    ensures Written(hist + [a]) == Written(hist) + Numbered(a.bodies, a.first)
    ensures SeenOf(hist + [a]) == SeenOf(hist) + [a.seen]
    ensures Reports(hist + [a])
            == Reports(hist) + if a.whole then [ReportOf(a)] else []
    ensures Persisted(hist + [a], before, logged)
            == if a.whole && a.seen.flushOk then logged + |Written(hist + [a])| else Persisted(hist, before, logged)
  {
    assert (hist + [a])[..|hist|] == hist;
  }

  // ---------------------------------------------------------------- what `on_batch` is told

  /** What the documentation promises each call: the statistics of all files so far. */
  function Cumulative(rs: seq<Stats>): Stats {
    if rs == [] then Stats(0, 0, 0, 0)
    else
      var sum, r := Cumulative(rs[..|rs| - 1]), rs[|rs| - 1];
      Stats(sum.files + r.files, sum.chunks + r.chunks, sum.words + r.words, r.nextId)
  }

  predicate OfOneFile(rs: seq<Stats>) {
    forall i :: 0 <= i < |rs| ==> rs[i].files == 1
  }

  lemma {:induction false} CumulativeFiles(rs: seq<Stats>)
    requires OfOneFile(rs)
    ensures Cumulative(rs).files == |rs|
  {
    if rs == [] {
    } else {
      CumulativeFiles(rs[..|rs| - 1]);
    }
  }

  lemma {:induction false} ReportsAreOfOneFile(hist: seq<Attempt>)
    ensures OfOneFile(Reports(hist))
  {
    if hist == [] {
    } else {
      ReportsAreOfOneFile(hist[..|hist| - 1]);
    }
  }

  /** The statistics passed on are cumulative in the first call and in no other. */
  lemma ReportIsCumulativeExactlyWhen(hist: seq<Attempt>, i: nat)
    requires i < |Reports(hist)|
    ensures Reports(hist)[i] == Cumulative(Reports(hist)[..i + 1]) <==> i == 0
  {
    var rs := Reports(hist);
    ReportsAreOfOneFile(hist);
    CumulativeFiles(rs[..i + 1]);
    if i == 0 {
      assert rs[..1] == [rs[0]] && [rs[0]][..0] == [];
    }
  }

  lemma {:induction false} WrittenGrows(hist: seq<Attempt>, n: nat)
    requires n <= |hist|
    ensures |Written(hist[..n])| <= |Written(hist)|
    ensures n < |hist| && hist[n].bodies != [] ==> |Written(hist[..n])| < |Written(hist)|
  {
    if n == |hist| {
      assert hist[..n] == hist;
    } else {
      var init := hist[..|hist| - 1];
      WrittenGrows(init, n);
      assert init[..n] == hist[..n];
    }
  }

  lemma {:induction false} PersistedBound(hist: seq<Attempt>, before: nat, logged: nat)
    requires before <= logged
    ensures Persisted(hist, before, logged) <= logged + |Written(hist)|
  {
    if hist == [] {
    } else {
      PersistedBound(hist[..|hist| - 1], before, logged);
    }
  }

  predicate FlushedAt(hist: seq<Attempt>, j: nat)
    requires j < |hist|
  {
    hist[j].whole && hist[j].seen.flushOk
  }

  /** What an attempt wrote is persisted exactly when it, or a later one, completed and its flush
      worked - whether or not `on_batch` was told of it. */
  lemma {:induction false} PersistedExactlyWhen(hist: seq<Attempt>, before: nat, logged: nat, i: nat)
    requires i < |hist| && hist[i].bodies != [] && before <= logged
    ensures Persisted(hist, before, logged) >= logged + |Written(hist[..i + 1])|
            <==> exists j :: i <= j < |hist| && FlushedAt(hist, j)
  {
    var init := hist[..|hist| - 1];
    if FlushedAt(hist, |hist| - 1) {
      WrittenGrows(hist, i + 1);
    } else if i == |init| {
      PersistedBound(init, before, logged);
      WrittenGrows(hist, i);
      assert hist[..i + 1] == hist;
    } else {
      PersistedExactlyWhen(init, before, logged, i);
      assert init[..i + 1] == hist[..i + 1];
      assert forall j :: 0 <= j < |init| ==> FlushedAt(init, j) == FlushedAt(hist, j);
    }
  }

  // ---------------------------------------------------------------- what the ids hold

  predicate Within(a: Attempt, key: nat) { a.first <= key < a.first + |a.bodies| }

  lemma NumberedLookup(bs: seq<Stored>, first: nat, key: nat)
    ensures Lookup(Numbered(bs, first), key) == if first <= key < first + |bs| then Some(bs[key - first]) else None
  {
    NumberedKeys(bs, first);
    if first <= key < first + |bs| {
      LookupAt(Numbered(bs, first), key - first);
    }
  }

  lemma WriteLookup(rows: seq<MockRecord>, log: seq<MockRecord>, bs: seq<Stored>, first: nat, key: nat)
    ensures Lookup(UpsertAll(rows, log + Numbered(bs, first)), key)
            == if first <= key < first + |bs| then Some(bs[key - first]) else Lookup(UpsertAll(rows, log), key)
  {
    var rs, store := Numbered(bs, first), UpsertAll(rows, log);
    UpsertAllAppend(rows, log, rs);
    NumberedLookup(bs, first, key);
    NumberedKeys(bs, first);
    UpsertAllLookup(store, rs, key);
  }

  lemma LastWrite(rows: seq<MockRecord>, hist: seq<Attempt>, a: Attempt, key: nat)
    ensures Lookup(UpsertAll(rows, Written(hist + [a])), key)
            == if Within(a, key) then Some(a.bodies[key - a.first])
               else Lookup(UpsertAll(rows, Written(hist)), key)
  {
    WrittenNext(hist, a);
    WriteAfter(rows, Written(hist), Written(hist + [a]), a, key);
  }

  lemma WriteAfter(rows: seq<MockRecord>, log: seq<MockRecord>, all: seq<MockRecord>, a: Attempt, key: nat)
    requires all == log + Numbered(a.bodies, a.first)
    ensures Lookup(UpsertAll(rows, all), key)
            == if Within(a, key) then Some(a.bodies[key - a.first]) else Lookup(UpsertAll(rows, log), key)
  {
    WriteLookup(rows, log, a.bodies, a.first, key);
  }

  lemma WrittenNext(hist: seq<Attempt>, a: Attempt)
    ensures Written(hist + [a]) == Written(hist) + Numbered(a.bodies, a.first)
  {
    assert (hist + [a])[..|hist|] == hist;
  }

  lemma {:induction false} NextIdGrows(start: nat, hist: seq<Attempt>)
    ensures NextId(start, hist) >= start
  {
    if hist == [] {
    } else {
      NextIdGrows(start, hist[..|hist| - 1]);
    }
  }

  /** Completed work is never overwritten: after any number of later attempts, failed part-way or
      not, a completed attempt's ids still hold its records. */
  lemma {:induction false} CommittedStays(rows: seq<MockRecord>, start: nat, hist: seq<Attempt>, i: nat, key: nat)
    requires Chained(start, hist) && i < |hist| && hist[i].whole && Within(hist[i], key)
    ensures start <= key < NextId(start, hist)
    ensures Lookup(UpsertAll(rows, Written(hist)), key) == Some(hist[i].bodies[key - hist[i].first])
  {
    var init, a := hist[..|hist| - 1], hist[|hist| - 1];
    assert hist == init + [a];
    LastWrite(rows, init, a, key);
    if i < |init| {
      CommittedStays(rows, start, init, i, key);
    } else {
      NextIdGrows(start, init);
    }
  }

  /** Below the counter every id belongs to a completed attempt, and to one only. */
  lemma {:induction false} BelowCounterIsCommitted(start: nat, hist: seq<Attempt>, key: nat) returns (i: nat)
    requires Chained(start, hist) && start <= key < NextId(start, hist)
    ensures i < |hist| && hist[i].whole && Within(hist[i], key)
    ensures forall j :: 0 <= j < |hist| && hist[j].whole && Within(hist[j], key) ==> j == i
  {
    var init, a := hist[..|hist| - 1], hist[|hist| - 1];
    if key < NextId(start, init) {
      i := BelowCounterIsCommitted(start, init, key);
      assert forall j :: 0 <= j < |init| ==> init[j] == hist[j];
    } else {
      i := |init|;
      forall j | 0 <= j < |init| && hist[j].whole && Within(hist[j], key) ensures false {
        assert init[j] == hist[j];
        CommittedStays([], start, init, j, key);
      }
    }
  }

  /** At or above the counter the store holds only what failed attempts left there; below the start
      it is untouched. */
  lemma {:induction false} AboveCounterIsLeftover(rows: seq<MockRecord>, start: nat, hist: seq<Attempt>, key: nat)
    requires Chained(start, hist)
    ensures key >= NextId(start, hist) ==>
              Lookup(UpsertAll(rows, Written(hist)), key) == Lookup(UpsertAll(rows, Leftovers(hist)), key)
    ensures key < start ==> Lookup(UpsertAll(rows, Written(hist)), key) == Lookup(rows, key)
  {
    if hist == [] {
    } else {
      var init, a := hist[..|hist| - 1], hist[|hist| - 1];
      AboveCounterIsLeftover(rows, start, init, key);
      NextIdGrows(start, init);
      WriteLookup(rows, Written(init), a.bodies, a.first, key);
      if !a.whole {
        WriteLookup(rows, Leftovers(init), a.bodies, a.first, key);
      } else {
        assert Leftovers(hist) == Leftovers(init);
      }
    }
  }

  // ---------------------------------------------------------------- the loop

  lemma Assoc<T>(a: seq<T>, b: seq<T>, c: seq<T>)
    ensures (a + b) + c == a + (b + c)
  {
  }

  lemma TakeNext<T>(before: seq<T>, s: seq<T>, m: nat)
    requires m < |s|
    ensures before + s[..m + 1] == (before + s[..m]) + [s[m]]
  {
  }

  /** What the loop has done so far is exactly what the attempts so far say. */
  predicate Tracks(log: seq<MockRecord>, log0: seq<MockRecord>, flushed: nat, flushed0: nat, reports: seq<Stats>,
                   hist: seq<Attempt>, nextId: nat, opts: Options, dim: nat) {
    && AllFaithful(hist, opts, dim)
    && Chained(opts.startId, hist)
    && log == log0 + Written(hist)
    && reports == Reports(hist)
    && flushed == Persisted(hist, flushed0, |log0|)
    && nextId == NextId(opts.startId, hist)
  }

  lemma TracksNext(log: seq<MockRecord>, log0: seq<MockRecord>, flushed: nat, flushed0: nat, reports: seq<Stats>,
                   hist: seq<Attempt>, nextId: nat, opts: Options, dim: nat, a: Attempt, log': seq<MockRecord>)
    requires Tracks(log, log0, flushed, flushed0, reports, hist, nextId, opts, dim)
    requires Faithful(a, opts, dim) && a.first == nextId && log' == log + Numbered(a.bodies, a.first)
    ensures Tracks(log', log0, if a.whole && a.seen.flushOk then |log'| else flushed, flushed0,
                   if a.whole then reports + [ReportOf(a)] else reports,
                   hist + [a], if a.whole then nextId + |a.bodies| else nextId, opts, dim)
  {
    HistoryNext(opts.startId, hist, a, flushed0, |log0|);
    Assoc(log0, Written(hist), Numbered(a.bodies, a.first));
    AllFaithfulNext(hist, a, opts, dim);
  }

  lemma SeenNext(hist: seq<Attempt>, a: Attempt)
    ensures SeenOf(hist + [a]) == SeenOf(hist) + [a.seen]
  {
  }

  lemma AttemptIsFaithful(s: Seen, p: Piece, first: nat, k: nat, ok: bool, opts: Options, dim: nat)
    requires s.file.Some? && p == Piece(s.file.value.rel, FileChunks(s.file.value))
    requires FirstFailure(p.chunks, first, dim, s.tools, s.refused, k)
    requires ok <==> s.file.value.text.Some? && k == |p.chunks|
    ensures Faithful(Attempt(s, first, Bodies(p, opts, s.tools)[..k], WordsTo(p.chunks, k), ok), opts, dim)
  {
  }

  /** Ingest one changed file at the counter. A failure leaves the counter where it was; success
      flushes, ignoring a failed flush, advances the counter and reports. */
  method IngestChange(w: Writer, s: Seen, opts: Options, nextId: nat, reports: seq<Stats>, ghost hist: seq<Attempt>,
                      ghost log0: seq<MockRecord>, ghost flushed0: nat)
    returns (nextId': nat, reports': seq<Stats>, ghost hist': seq<Attempt>)
    requires s.file.Some? && Tracks(w.log, log0, w.flushed, flushed0, reports, hist, nextId, opts, w.dim)
    modifies w
    ensures Tracks(w.log, log0, w.flushed, flushed0, reports', hist', nextId', opts, w.dim)
    ensures |hist'| == |hist| + 1 && hist' == hist + [hist'[|hist|]] && hist'[|hist|].seen == s
    ensures var a := hist'[|hist|];
            && a.first == nextId && nextId' == (if a.whole then nextId + |a.bodies| else nextId)
            && reports' == (if a.whole then reports + [ReportOf(a)] else reports)
            && w.log == old(w.log) + Numbered(a.bodies, a.first)
    ensures SeenOf(hist') == SeenOf(hist) + [s]
  {
    nextId', reports' := nextId, reports;
    var stats := Stats(0, 0, 0, nextId);
    ghost var p := Piece(s.file.value.rel, FileChunks(s.file.value));
    ghost var log, flushed := w.log, w.flushed;
    var ok;
    ghost var k;
    ok, stats, k := IngestFile(w, s.file.value, p, opts, s.tools, s.refused, stats);
    AttemptIsFaithful(s, p, nextId, k, ok, opts, w.dim);
    ghost var a := Attempt(s, nextId, Bodies(p, opts, s.tools)[..k], WordsTo(p.chunks, k), ok);
    TracksNext(log, log0, flushed, flushed0, reports, hist, nextId, opts, w.dim, a, w.log);
    hist' := hist + [a];
    SeenNext(hist, a);
    if !ok {
      return;
    }
    stats := Stats(1, stats.chunks, stats.words, stats.nextId);
    assert stats == ReportOf(a);
    var _ := w.Flush(s.flushOk);
    nextId' := stats.nextId;
    reports' := reports + [stats];
  }

  /** The debounce map and the attempts made are what the changes seen so far say. */
  ghost predicate Debounced(lastSeen: map<string, nat>, hist: seq<Attempt>, done: seq<Seen>) {
    lastSeen == LastSeen(done) && SeenOf(hist) == Admitted(done)
  }

  /** One path of one notification: skipped, or attempted at the counter. */
  method WatchPath(w: Writer, s: Seen, opts: Options, lastSeen: map<string, nat>, nextId: nat, reports: seq<Stats>,
                   ghost hist: seq<Attempt>, ghost done: seq<Seen>, ghost log0: seq<MockRecord>, ghost flushed0: nat)
    returns (lastSeen': map<string, nat>, nextId': nat, reports': seq<Stats>, ghost hist': seq<Attempt>)
    requires Debounced(lastSeen, hist, done)
    requires Tracks(w.log, log0, w.flushed, flushed0, reports, hist, nextId, opts, w.dim)
    modifies w
    ensures Debounced(lastSeen', hist', done + [s])
    ensures Tracks(w.log, log0, w.flushed, flushed0, reports', hist', nextId', opts, w.dim)
  {
    lastSeen', nextId', reports', hist' := lastSeen, nextId, reports, hist;
    AdmitNext(done, s);
    if s.file.None? {
      return;
    }
    if s.path in lastSeen && Elapsed(s.now, lastSeen[s.path]) < DEBOUNCE_MS {
      return;
    }
    lastSeen' := lastSeen[s.path := s.now];
    nextId', reports', hist' := IngestChange(w, s, opts, nextId, reports, hist, log0, flushed0);
  }

  /** The paths of one notification, in order. */
  method WatchPaths(w: Writer, paths: seq<Seen>, opts: Options, lastSeen: map<string, nat>, nextId: nat,
                    reports: seq<Stats>, ghost hist: seq<Attempt>, ghost done: seq<Seen>, ghost log0: seq<MockRecord>,
                    ghost flushed0: nat)
    returns (lastSeen': map<string, nat>, nextId': nat, reports': seq<Stats>, ghost hist': seq<Attempt>)
    requires Debounced(lastSeen, hist, done)
    requires Tracks(w.log, log0, w.flushed, flushed0, reports, hist, nextId, opts, w.dim)
    modifies w
    ensures Debounced(lastSeen', hist', done + paths)
    ensures Tracks(w.log, log0, w.flushed, flushed0, reports', hist', nextId', opts, w.dim)
  {
    lastSeen', nextId', reports', hist' := lastSeen, nextId, reports, hist;
    ghost var seen := done;
    assert done + paths[..0] == done;
    for m := 0 to |paths|
      invariant seen == done + paths[..m] && Debounced(lastSeen', hist', seen)
      invariant Tracks(w.log, log0, w.flushed, flushed0, reports', hist', nextId', opts, w.dim)
    {
      TakeNext(done, paths, m);
      lastSeen', nextId', reports', hist' :=
        WatchPath(w, paths[m], opts, lastSeen', nextId', reports', hist', seen, log0, flushed0);
      seen := seen + [paths[m]];
    }
    assert paths[..|paths|] == paths;
  }

  lemma NoticesNext(events: seq<Notice>, n: nat)
    requires n < |events|
    ensures Notices(events[..n + 1])
            == Notices(events[..n]) + if events[n].CreatedOrModified? then events[n].paths else []
  {
    assert events[..n + 1][..n] == events[..n];
  }

  lemma NothingTracked(log: seq<MockRecord>, flushed: nat, opts: Options, dim: nat)
    ensures Tracks(log, log, flushed, flushed, [], [], opts.startId, opts, dim) && Debounced(map[], [], [])
  {
    assert log + [] == log;
  }

  /** Watch until the notifications end. */
  method WatchTree(w: Writer, events: seq<Notice>, opts: Options)
    returns (reports: seq<Stats>, ghost hist: seq<Attempt>)
    modifies w
    ensures SeenOf(hist) == Admitted(Notices(events))
    ensures AllFaithful(hist, opts, w.dim)
    ensures Chained(opts.startId, hist)
    ensures w.log == old(w.log) + Written(hist)
    ensures reports == Reports(hist)
    ensures w.flushed == Persisted(hist, old(w.flushed), |old(w.log)|)
    ensures Marked(w.log[|old(w.log)|..], opts)
  {
    var lastSeen: map<string, nat> := map[];
    var nextId := opts.startId;
    reports, hist := [], [];
    NothingTracked(w.log, w.flushed, opts, w.dim);
    ghost var done := [];
    for n := 0 to |events|
      invariant done == Notices(events[..n]) && Debounced(lastSeen, hist, done)
      invariant Tracks(w.log, old(w.log), w.flushed, old(w.flushed), reports, hist, nextId, opts, w.dim)
    {
      NoticesNext(events, n);
      if events[n].WatchError? || events[n].OtherKind? {
        continue;
      }
      var paths := events[n].paths;
      lastSeen, nextId, reports, hist :=
        WatchPaths(w, paths, opts, lastSeen, nextId, reports, hist, done, old(w.log), old(w.flushed));
      done := done + paths;
    }
    assert events[..|events|] == events;
    WrittenIsMarked(hist, opts, w.dim);
    assert w.log[|old(w.log)|..] == Written(hist);
  }

  lemma {:induction false} WrittenIsMarked(hist: seq<Attempt>, opts: Options, dim: nat)
    requires AllFaithful(hist, opts, dim)
    ensures Marked(Written(hist), opts)
  {
    if hist == [] {
    } else {
      var init, a := hist[..|hist| - 1], hist[|hist| - 1];
      assert Faithful(a, opts, dim);
      forall i | 0 <= i < |init| ensures Faithful(init[i], opts, dim) {
        assert Faithful(hist[i], opts, dim);
      }
      WrittenIsMarked(init, opts, dim);
      AttemptIsMarked(a, opts, dim);
      MarkedAppend(Written(init), Numbered(a.bodies, a.first), opts);
    }
  }

  lemma AttemptIsMarked(a: Attempt, opts: Options, dim: nat)
    requires Faithful(a, opts, dim)
    ensures Marked(Numbered(a.bodies, a.first), opts)
  {
    var p := Piece(a.seen.file.value.rel, FileChunks(a.seen.file.value));
    PieceIsMarked(p, opts, a.seen.tools);
    NumberedIsMarked(a.bodies, a.first, opts);
  }

  /** Notifications are acted on one after the other, path by path; errors and other kinds are passed
      over. */
  lemma {:induction false} NoticesAppend(a: seq<Notice>, b: seq<Notice>)
    ensures Notices(a + b) == Notices(a) + Notices(b)
  {
    if b == [] {
      assert a + b == a;
    } else {
      var init, e := b[..|b| - 1], b[|b| - 1];
      assert (a + b)[..|a + b| - 1] == a + init;
      NoticesAppend(a, init);
      Assoc(Notices(a), Notices(init), if e.CreatedOrModified? then e.paths else []);
    }
  }

  lemma NoticesOfOne(paths: seq<Seen>)
    ensures Notices([CreatedOrModified(paths)]) == paths && Notices([WatchError]) == Notices([OtherKind]) == []
  {
    assert [CreatedOrModified(paths)][..0] == [] && [WatchError][..0] == [] && [OtherKind][..0] == [];
  }

  /** The retry the loop counts on can be lost: a file that is unreadable when first seen and whole
      a millisecond later is not picked up, and a run over those two changes stores nothing. */
  lemma RetryIsLost(tools: Tools, ext: string, text: string, hist: seq<Attempt>, opts: Options, dim: nat)
    requires var s0 := Seen("a", Some(Source("a", ext, None)), 0, tools, {}, true);
             var s1 := Seen("a", Some(Source("a", ext, Some(text))), 1, tools, {}, true);
             SeenOf(hist) == Admitted([s0, s1]) && AllFaithful(hist, opts, dim)
    ensures Written(hist) == []
  {
    var s0 := Seen("a", Some(Source("a", ext, None)), 0, tools, {}, true);
    var s1 := Seen("a", Some(Source("a", ext, Some(text))), 1, tools, {}, true);
    AdmitNext([], s0);
    AdmitNext([s0], s1);
    assert [] + [s0] == [s0] && [s0] + [s1] == [s0, s1];
    assert Admitted([s0, s1]) == [s0];
    assert |hist| == |SeenOf(hist)| == 1 && SeenOf(hist)[0] == hist[0].seen == s0;
    assert Faithful(hist[0], opts, dim) && Numbered(hist[0].bodies, hist[0].first) == [];
    assert Writes(hist[..0], true) == [];
  }

  lemma OneWordFile(rel: string)
    ensures FileChunks(Source(rel, "txt", Some("x"))) == [Chunk("x", 1, 1)]
    ensures WordsTo([Chunk("x", 1, 1)], 1) == 1
  {
    assert Text.Lines("x") == ["x"] by {
      assert "x"[1..] == "" && "" + ["x"[0]] == "x";
      assert Text.LinesFrom("x", "") == ["x"];
    }
    assert !BlankAt(["x"], 0);
    assert RunEnd(["x"], 0) == 1;
    assert ["x"][0..1] == ["x"] && Slice(["x"], 0, 1) == Chunk("x", 1, 1);
    assert Paragraphs(["x"], 1) == [];
    assert Text.Words("x") == ["x"] by {
      assert "x"[..0] == "";
    }
  }

  /** Ingesting the one-word file, when its word embeds, completes with one record. */
  lemma OneWordAttempt(a: Attempt, rel: string, opts: Options, dim: nat)
    requires Faithful(a, opts, dim) && a.seen.file == Some(Source(rel, "txt", Some("x"))) && a.seen.refused == {}
    requires "x" in a.seen.tools.embed && |a.seen.tools.embed["x"]| == dim
    ensures a.whole && |a.bodies| == 1 && ReportOf(a) == Stats(1, 1, 1, a.first + 1)
  {
    OneWordFile(rel);
    assert Succeeds(Chunk("x", 1, 1), a.first, dim, a.seen.tools, {});
  }

  /** A file of that one word, with no flush that works. */
  function OneWord(name: string, tools: Tools): Seen {
    Seen(name, Some(Source(name, "txt", Some("x"))), 0, tools, {}, false)
  }

  /** Two such files created: both calls of `on_batch` are made, the second with the statistics of
      its own file, and nothing is persisted. */
  lemma ReportsOfTwoFiles(tools: Tools, hist: seq<Attempt>, opts: Options, dim: nat, before: nat, logged: nat)
    requires "x" in tools.embed && |tools.embed["x"]| == dim
    requires SeenOf(hist) == Admitted([OneWord("a", tools), OneWord("b", tools)])
    requires AllFaithful(hist, opts, dim) && Chained(opts.startId, hist)
    ensures Reports(hist) == [Stats(1, 1, 1, opts.startId + 1), Stats(1, 1, 1, opts.startId + 2)]
    ensures Reports(hist)[1] != Cumulative(Reports(hist))
    ensures |Written(hist)| == 2 && Persisted(hist, before, logged) == before
  {
    BothAdmitted(OneWord("a", tools), OneWord("b", tools));
    var a, b := TwoOneWords(hist, tools, opts, dim);
    TwoReports(hist, a, b, opts.startId, before, logged);
  }

  lemma TwoReports(hist: seq<Attempt>, a: Attempt, b: Attempt, start: nat, before: nat, logged: nat)
    requires hist == [] + [a] + [b] && Chained(start, hist)
    requires a.whole && b.whole && !a.seen.flushOk && !b.seen.flushOk && |a.bodies| == |b.bodies| == 1
    requires ReportOf(a) == Stats(1, 1, 1, a.first + 1) && ReportOf(b) == Stats(1, 1, 1, b.first + 1)
    ensures Reports(hist) == [Stats(1, 1, 1, start + 1), Stats(1, 1, 1, start + 2)]
    ensures Reports(hist)[1] != Cumulative(Reports(hist))
    ensures |Written(hist)| == 2 && Persisted(hist, before, logged) == before
  {
    TwoAttempts(start, a, b, before, logged);
    NotCumulative(hist);
  }

  lemma TwoOneWords(hist: seq<Attempt>, tools: Tools, opts: Options, dim: nat) returns (a: Attempt, b: Attempt)
    requires "x" in tools.embed && |tools.embed["x"]| == dim
    requires SeenOf(hist) == [OneWord("a", tools), OneWord("b", tools)] && AllFaithful(hist, opts, dim)
    ensures hist == [] + [a] + [b] && a.whole && b.whole && !a.seen.flushOk && !b.seen.flushOk
    ensures |a.bodies| == |b.bodies| == 1
    ensures ReportOf(a) == Stats(1, 1, 1, a.first + 1) && ReportOf(b) == Stats(1, 1, 1, b.first + 1)
  {
    a, b := TwoSeen(hist, OneWord("a", tools), OneWord("b", tools), opts, dim);
    OneWordAttempt(a, "a", opts, dim);
    OneWordAttempt(b, "b", opts, dim);
  }

  lemma TwoSeen(hist: seq<Attempt>, s0: Seen, s1: Seen, opts: Options, dim: nat) returns (a: Attempt, b: Attempt)
    requires SeenOf(hist) == [s0, s1] && AllFaithful(hist, opts, dim)
    ensures hist == [] + [a] + [b] && a.seen == s0 && b.seen == s1 && Faithful(a, opts, dim) && Faithful(b, opts, dim)
  {
    assert |hist| == |SeenOf(hist)| == 2 && SeenOf(hist)[0] == hist[0].seen && SeenOf(hist)[1] == hist[1].seen;
    a, b := hist[0], hist[1];
  }

  /** Two changed files on different paths are both picked up, at whatever times. */
  lemma BothAdmitted(s0: Seen, s1: Seen)
    requires s0.file.Some? && s1.file.Some? && s0.path != s1.path
    ensures Admitted([s0, s1]) == [s0, s1]
  {
    AdmitNext([], s0);
    AdmitNext([] + [s0], s1);
    assert [] + [s0] + [s1] == [s0, s1];
  }

  lemma NotCumulative(hist: seq<Attempt>)
    requires |Reports(hist)| == 2
    ensures Reports(hist)[1] != Cumulative(Reports(hist))
  {
    ReportIsCumulativeExactlyWhen(hist, 1);
    assert Reports(hist)[..2] == Reports(hist);
  }

  lemma TwoAttempts(start: nat, a: Attempt, b: Attempt, before: nat, logged: nat)
    requires a.whole && b.whole && !a.seen.flushOk && !b.seen.flushOk
    ensures var hist := [] + [a] + [b];
            && (Chained(start, hist) ==> a.first == start && b.first == start + |a.bodies|)
            && Reports(hist) == [ReportOf(a), ReportOf(b)]
            && |Written(hist)| == |a.bodies| + |b.bodies| && Persisted(hist, before, logged) == before
  {
    HistoryNext(start, [], a, before, logged);
    HistoryNext(start, [] + [a], b, before, logged);
    assert ([] + [a] + [b])[..1] == [] + [a] && ([] + [a])[..0] == [];
  }
}
