/** Ingesting a tree of files: id allocation, statistics, partial failures, idempotence. Directory
    walking, file reads, the embedding backend and the writer's own failures are parameters. */
module Ingest {
  import opened Keyed
  import opened TenantState
  import opened Chunking
  import Windows
  import Text
  import opened Mock

  /** A collected file; `text` is `None` when it cannot be read. */
  datatype Source = Source(rel: string, ext: string, text: Option<string>)

  datatype Options = Options(shareable: bool, tags: seq<string>, startId: nat)

  datatype Stats = Stats(files: nat, chunks: nat, words: nat, nextId: nat)

  /** What the pipeline calls but does not define: the embedding backend (a text it cannot embed
      is absent), and the standard library's decimal rendering. */
  datatype Tools = Tools(embed: map<string, Vec>, decimal: nat -> string)

  // ---------------------------------------------------------------- records

  /** The provenance tag of a chunk. */
  function SourceTag(rel: string, c: Chunk, tools: Tools): string {
    "src:" + rel + ":" + tools.decimal(c.lineLo) + "-" + tools.decimal(c.lineHi)
  }

  /** What a chunk is stored as, whatever its id. */
  function BodyFor(c: Chunk, rel: string, opts: Options, tools: Tools): Stored {
    Stored(if c.text in tools.embed then tools.embed[c.text] else [],
           Meta(opts.shareable, opts.tags + [SourceTag(rel, c, tools)], Text.Utf8(c.text)))
  }

  function FileChunks(f: Source): seq<Chunk> {
    if f.text.Some? then Windows.ChunksOf(f.text.value, ForExt(f.ext)) else []
  }

  /** A file once chunked. */
  datatype Piece = Piece(rel: string, chunks: seq<Chunk>)

  function Pieces(fs: seq<Source>): (ps: seq<Piece>)
    ensures |ps| == |fs|
    ensures forall i :: 0 <= i < |fs| ==> ps[i] == Piece(fs[i].rel, FileChunks(fs[i]))
  {
    seq(|fs|, i requires 0 <= i < |fs| => Piece(fs[i].rel, FileChunks(fs[i])))
  }

  function Bodies(p: Piece, opts: Options, tools: Tools): (bs: seq<Stored>)
    ensures |bs| == |p.chunks|
  {
    seq(|p.chunks|, i requires 0 <= i < |p.chunks| => BodyFor(p.chunks[i], p.rel, opts, tools))
  }

  /** Everything a run stores, file by file and chunk by chunk. */
  function TreeBodies(ps: seq<Piece>, opts: Options, tools: Tools): seq<Stored> {
    if ps == [] then [] else TreeBodies(ps[..|ps| - 1], opts, tools) + Bodies(ps[|ps| - 1], opts, tools)
  }

  function TreeWords(ps: seq<Piece>): nat {
    if ps == [] then 0 else TreeWords(ps[..|ps| - 1]) + TotalWords(ps[|ps| - 1].chunks)
  }

  /** A record is what the source says of a chunk: the run's `shareable`, the run's tags and one that
      names file and lines, the UTF-8 text as payload, the backend's vector. */
  predicate Describes(r: MockRecord, id: nat, rel: string, c: Chunk, opts: Options, tools: Tools) {
    var m := r.body.meta;
    && r.key == id && m.shareable == opts.shareable
    && |m.tags| == |opts.tags| + 1 && m.tags[..|opts.tags|] == opts.tags
    && m.tags[|opts.tags|] == "src:" + rel + ":" + tools.decimal(c.lineLo) + "-" + tools.decimal(c.lineHi)
    && m.payload == Text.Utf8(c.text)
    && (c.text in tools.embed ==> r.body.embedding == tools.embed[c.text])
  }

  lemma BodyDescribes(c: Chunk, id: nat, rel: string, opts: Options, tools: Tools)
    ensures Describes(Row(id, BodyFor(c, rel, opts, tools)), id, rel, c, opts, tools)
  {
  }

  /** With the longer part after it, `c` would be inside that part. */
  lemma Inside(a: string, x: string, b: string, y: string, c: char)
    requires a + [c] + x == b + [c] + y && |x| < |y|
    ensures c in y
  {
    var s, t := a + [c] + x, b + [c] + y;
    assert t[|b| + 1..] == y && s[|a|] == c;
    assert y[|a| - |b| - 1] == t[|a|];
  }

  /** The records are those of the first chunks of a file, under consecutive ids, with vectors of the
      writer's dimension. */
  predicate DescribesChunks(rs: seq<MockRecord>, p: Piece, first: nat, opts: Options, tools: Tools, dim: nat) {
    && |rs| <= |p.chunks|
    && (forall j :: 0 <= j < |rs| ==> Describes(rs[j], first + j, p.rel, p.chunks[j], opts, tools))
    && (forall j :: 0 <= j < |rs| ==> |rs[j].body.embedding| == dim)
  }

  lemma BodiesDescribe(p: Piece, k: nat, first: nat, opts: Options, tools: Tools, dim: nat, refused: set<nat>,
                       log: seq<MockRecord>, log': seq<MockRecord>)
    requires ChunksIn(p.chunks, k, first, dim, tools, refused)
    requires log' == log + Numbered(Bodies(p, opts, tools)[..k], first)
    ensures DescribesChunks(log'[|log|..], p, first, opts, tools, dim)
  {
    assert log'[|log|..] == Numbered(Bodies(p, opts, tools)[..k], first);
    forall j | 0 <= j < k
      ensures Describes(log'[|log|..][j], first + j, p.rel, p.chunks[j], opts, tools)
      ensures |log'[|log|..][j].body.embedding| == dim
    {
      BodyDescribes(p.chunks[j], first + j, p.rel, opts, tools);
      assert Succeeds(p.chunks[j], first + j, dim, tools, refused);
    }
  }

  /** The last occurrence of a character splits a text in one way. */
  lemma LastOf(a: string, x: string, b: string, y: string, c: char)
    requires a + [c] + x == b + [c] + y && c !in x && c !in y
    ensures a == b && x == y
  {
    if |x| < |y| {
      Inside(a, x, b, y, c);
    } else if |y| < |x| {
      Inside(b, y, a, x, c);
    } else {
      var s, t := a + [c] + x, b + [c] + y;
      assert s[..|a|] == a && t[..|b|] == b && s[|a| + 1..] == x && t[|b| + 1..] == y;
    }
  }

  predicate Digits(s: string) {
    forall i :: 0 <= i < |s| ==> '0' <= s[i] <= '9'
  }

  /** The rendering of a number is digits, and tells the number. */
  ghost predicate Renders(decimal: nat -> string) {
    && (forall n :: Digits(decimal(n)))
    && (forall m, n :: decimal(m) == decimal(n) ==> m == n)
  }

  /** The tag tells where a chunk came from, whatever is in the file name. */
  lemma TagTellsTheSource(rel: string, c: Chunk, rel': string, c': Chunk, tools: Tools)
    requires Renders(tools.decimal) && SourceTag(rel, c, tools) == SourceTag(rel', c', tools)
    ensures rel == rel' && c.lineLo == c'.lineLo && c.lineHi == c'.lineHi
  {
    var lo, hi, lo', hi' := tools.decimal(c.lineLo), tools.decimal(c.lineHi), tools.decimal(c'.lineLo), tools.decimal(c'.lineHi);
    assert Digits(lo) && Digits(hi) && Digits(lo') && Digits(hi');
    LastOf("src:" + rel + ":" + lo, hi, "src:" + rel' + ":" + lo', hi', '-');
    LastOf("src:" + rel, lo, "src:" + rel', lo', ':');
    assert ("src:" + rel)[4..] == rel && ("src:" + rel')[4..] == rel';
  }

  /** The first line comes first. */
  lemma TagOfLines(text: string, tools: Tools)
    requires tools.decimal(3) == "3" && tools.decimal(17) == "17"
    ensures SourceTag("notes/a.md", Chunk(text, 3, 17), tools) == "src:notes/a.md:3-17"
  {
  }

  /** Every record is marked with the run's `shareable` and carries the run's tags and exactly one
      more. */
  predicate Marked(rs: seq<MockRecord>, opts: Options) {
    forall i :: 0 <= i < |rs| ==>
      && rs[i].body.meta.shareable == opts.shareable
      && |rs[i].body.meta.tags| == |opts.tags| + 1 && rs[i].body.meta.tags[..|opts.tags|] == opts.tags
  }

  predicate BodiesMarked(bs: seq<Stored>, opts: Options) {
    forall i :: 0 <= i < |bs| ==>
      bs[i].meta.shareable == opts.shareable
      && |bs[i].meta.tags| == |opts.tags| + 1 && bs[i].meta.tags[..|opts.tags|] == opts.tags
  }

  lemma PieceIsMarked(p: Piece, opts: Options, tools: Tools)
    ensures BodiesMarked(Bodies(p, opts, tools), opts)
  {
  }

  lemma {:induction false} TreeIsMarked(ps: seq<Piece>, opts: Options, tools: Tools)
    ensures BodiesMarked(TreeBodies(ps, opts, tools), opts)
  {
    if ps == [] {
    } else {
      TreeIsMarked(ps[..|ps| - 1], opts, tools);
      PieceIsMarked(ps[|ps| - 1], opts, tools);
    }
  }

  lemma NumberedIsMarked(bs: seq<Stored>, first: nat, opts: Options)
    requires BodiesMarked(bs, opts)
    ensures Marked(Numbered(bs, first), opts)
  {
  }

  lemma MarkedAppend(a: seq<MockRecord>, b: seq<MockRecord>, opts: Options)
    requires Marked(a, opts) && Marked(b, opts)
    ensures Marked(a + b, opts)
  {
  }

  /** How many chunks the files before file `i` have. */
  function ChunksBefore(ps: seq<Piece>, i: nat): nat
    requires i <= |ps|
  {
    if i == 0 then 0 else ChunksBefore(ps, i - 1) + |ps[i - 1].chunks|
  }

  lemma BodyAt(ps: seq<Piece>, i: nat, c: nat, opts: Options, tools: Tools)
    requires i < |ps| && c < |ps[i].chunks|
    ensures var at, bs := ChunksBefore(ps, i) + c, TreeBodies(ps, opts, tools);
            at < |bs| && bs[at] == BodyFor(ps[i].chunks[c], ps[i].rel, opts, tools)
  {
    BodiesBefore(ps, i, opts, tools);
    FileNext(ps, i, opts, tools);
    TreePrefix(ps, i + 1, opts, tools);
    PickFrom(TreeBodies(ps, opts, tools), TreeBodies(ps[..i + 1], opts, tools), TreeBodies(ps[..i], opts, tools),
             Bodies(ps[i], opts, tools), c);
  }

  lemma PickFrom<T>(all: seq<T>, part: seq<T>, before: seq<T>, mine: seq<T>, c: nat)
    requires part <= all && part == before + mine && c < |mine|
    ensures |before| + c < |all| && all[|before| + c] == mine[c]
  {
    assert part[|before| + c] == mine[c];
  }

  lemma {:induction false} BodiesBefore(ps: seq<Piece>, n: nat, opts: Options, tools: Tools)
    requires n <= |ps|
    ensures |TreeBodies(ps[..n], opts, tools)| == ChunksBefore(ps, n)
  {
    if n > 0 {
      assert ps[..n][..n - 1] == ps[..n - 1];
      BodiesBefore(ps, n - 1, opts, tools);
    }
  }

  /** A run stores as many records as there are chunks. */
  lemma OneRecordPerChunk(fs: seq<Source>, opts: Options, tools: Tools)
    ensures |TreeRecords(fs, opts, tools)| == ChunksBefore(Pieces(fs), |fs|)
  {
    StoredCount(Pieces(fs), opts, tools);
  }

  /** What a run stores, record by record: chunk `c` of file `i`, under the start id plus the number of
      chunks before it. */
  lemma ChunkIsStored(fs: seq<Source>, i: nat, c: nat, opts: Options, tools: Tools)
    requires i < |fs| && c < |FileChunks(fs[i])|
    ensures var rs, at := TreeRecords(fs, opts, tools), ChunksBefore(Pieces(fs), i) + c;
            && at < |rs|
            && Describes(rs[at], opts.startId + at, fs[i].rel, FileChunks(fs[i])[c], opts, tools)
  {
    var at := StoredAt(Pieces(fs), i, c, opts, tools);
    RecordDescribes(TreeRecords(fs, opts, tools), TreeBodies(Pieces(fs), opts, tools), opts.startId, at,
                    FileChunks(fs[i])[c], fs[i].rel, opts, tools);
  }

  lemma StoredCount(ps: seq<Piece>, opts: Options, tools: Tools)
    ensures |TreeBodies(ps, opts, tools)| == ChunksBefore(ps, |ps|)
  {
    BodiesBefore(ps, |ps|, opts, tools);
    assert ps[..|ps|] == ps;
  }

  lemma StoredAt(ps: seq<Piece>, i: nat, c: nat, opts: Options, tools: Tools) returns (at: nat)
    requires i < |ps| && c < |ps[i].chunks|
    ensures at == ChunksBefore(ps, i) + c && at < |TreeBodies(ps, opts, tools)|
    ensures TreeBodies(ps, opts, tools)[at] == BodyFor(ps[i].chunks[c], ps[i].rel, opts, tools)
  {
    BodyAt(ps, i, c, opts, tools);
    at := ChunksBefore(ps, i) + c;
  }

  lemma RecordDescribes(rs: seq<MockRecord>, bs: seq<Stored>, first: nat, at: nat, c: Chunk, rel: string, opts: Options,
                        tools: Tools)
    requires rs == Numbered(bs, first) && at < |bs| && bs[at] == BodyFor(c, rel, opts, tools)
    ensures |rs| == |bs| && Describes(rs[at], first + at, rel, c, opts, tools)
  {
    BodyDescribes(c, first + at, rel, opts, tools);
  }

  /** Consecutive ids from `first` on. */
  function Numbered(bs: seq<Stored>, first: nat): (rs: seq<MockRecord>)
    ensures |rs| == |bs|
  {
    seq(|bs|, i requires 0 <= i < |bs| => Row(first + i, bs[i]))
  }

  /** The records of a whole run: the j-th chunk of the tree has id `first + j`. */
  function TreeRecords(fs: seq<Source>, opts: Options, tools: Tools): seq<MockRecord> {
    Numbered(TreeBodies(Pieces(fs), opts, tools), opts.startId)
  }

  /** A chunk goes in when it embeds to the writer's dimension and the write succeeds. */
  predicate Succeeds(c: Chunk, id: nat, dim: nat, tools: Tools, refused: set<nat>) {
    c.text in tools.embed && |tools.embed[c.text]| == dim && id !in refused
  }

  /** The first `n` chunks all go in. */
  predicate ChunksIn(cs: seq<Chunk>, n: nat, first: nat, dim: nat, tools: Tools, refused: set<nat>) {
    n <= |cs| && forall j :: 0 <= j < n ==> Succeeds(cs[j], first + j, dim, tools, refused)
  }

  /** Chunk `k` is the first that does not go in; there is none when `k` is the number of chunks. */
  predicate FirstFailure(cs: seq<Chunk>, first: nat, dim: nat, tools: Tools, refused: set<nat>, k: nat)
  {
    && ChunksIn(cs, k, first, dim, tools, refused)
    && (k < |cs| ==> !Succeeds(cs[k], first + k, dim, tools, refused))
  }

  // ---------------------------------------------------------------- many upserts

  function UpsertAll(rows: seq<MockRecord>, new_: seq<MockRecord>): seq<MockRecord> {
    if new_ == [] then rows else Upsert(UpsertAll(rows, new_[..|new_| - 1]), new_[|new_| - 1])
  }

  lemma {:induction false} UpsertAllAppend(rows: seq<MockRecord>, a: seq<MockRecord>, b: seq<MockRecord>)
    ensures UpsertAll(rows, a + b) == UpsertAll(UpsertAll(rows, a), b)
  {
    if b == [] {
      assert a + b == a;
    } else {
      assert (a + b)[..|a + b| - 1] == a + b[..|b| - 1];
      UpsertAllAppend(rows, a, b[..|b| - 1]);
    }
  }

  /** The last write to a key wins; other keys are untouched. */
  lemma {:induction false} UpsertAllLookup(rows: seq<MockRecord>, new_: seq<MockRecord>, key: nat)
    ensures Unique(rows) ==> Unique(UpsertAll(rows, new_))
    ensures Unique(new_) ==>
              Lookup(UpsertAll(rows, new_), key) == if Has(new_, key) then Lookup(new_, key) else Lookup(rows, key)
    ensures !Has(new_, key) ==> Lookup(UpsertAll(rows, new_), key) == Lookup(rows, key)
  {
    if new_ == [] {
    } else {
      var init, r := new_[..|new_| - 1], new_[|new_| - 1];
      assert new_ == init + [r];
      UpsertAllLookup(rows, init, key);
      UpsertIsUpdate(UpsertAll(rows, init), r, key);
      HasAppend(init, [r], key);
      assert Has([r], key) <==> r.key == key by { HasCons([r], key); }
      if Unique(new_) {
        assert forall i :: 0 <= i < |init| ==> init[i] == new_[i];
        assert Unique(init);
        if r.key == key {
          LookupAt(new_, |new_| - 1);
        } else if Has(init, key) {
          var p := Position(init, key);
          LookupAt(init, p);
          LookupAt(new_, p);
        }
      }
    }
  }

  /** Writing what is already there changes nothing. */
  lemma UpsertSame(rows: seq<MockRecord>, r: MockRecord)
    requires Lookup(rows, r.key) == Some(r.body)
    ensures Upsert(rows, r) == rows
  {
    assert rows[Position(rows, r.key)] == r;
  }

  lemma {:induction false} UpsertAllSame(rows: seq<MockRecord>, new_: seq<MockRecord>)
    requires forall i :: 0 <= i < |new_| ==> Lookup(rows, new_[i].key) == Some(new_[i].body)
    ensures UpsertAll(rows, new_) == rows
  {
    if new_ == [] {
    } else {
      UpsertAllSame(rows, new_[..|new_| - 1]);
      UpsertSame(rows, new_[|new_| - 1]);
    }
  }

  /** Repeating a run with the same ids and the same records leaves the store, order included, as
      one run left it. */
  lemma RepeatIsIdempotent(rows: seq<MockRecord>, new_: seq<MockRecord>)
    requires Unique(new_)
    ensures UpsertAll(UpsertAll(rows, new_), new_) == UpsertAll(rows, new_)
  {
    forall i | 0 <= i < |new_| ensures Lookup(UpsertAll(rows, new_), new_[i].key) == Some(new_[i].body) {
      UpsertAllLookup(rows, new_, new_[i].key);
      LookupAt(new_, i);
      assert Has(new_, new_[i].key);
    }
    UpsertAllSame(UpsertAll(rows, new_), new_);
  }

  // ---------------------------------------------------------------- ids

  lemma NumberedKeys(bs: seq<Stored>, first: nat)
    ensures Unique(Numbered(bs, first))
    ensures forall key :: Has(Numbered(bs, first), key) <==> first <= key < first + |bs|
  {
    forall key | first <= key < first + |bs| ensures Has(Numbered(bs, first), key) {
      assert Numbered(bs, first)[key - first].key == key;
    }
  }

  lemma LogGrows(before: seq<MockRecord>, a: seq<Stored>, b: seq<Stored>, first: nat, next: nat,
                 mid: seq<MockRecord>, after: seq<MockRecord>)
    requires mid == before + Numbered(a, first) && next == first + |a|
    requires after == mid + Numbered(b, next)
    ensures after == before + Numbered(a + b, first)
  {
    assert Numbered(a + b, first) == Numbered(a, first) + Numbered(b, next);
  }

  lemma LogGrowsByOne(before: seq<MockRecord>, bs: seq<Stored>, i: nat, first: nat,
                      mid: seq<MockRecord>, after: seq<MockRecord>)
    requires i < |bs| && mid == before + Numbered(bs[..i], first)
    requires after == mid + [Row(first + i, bs[i])]
    ensures after == before + Numbered(bs[..i + 1], first)
  {
    assert Numbered(bs[..i + 1], first) == Numbered(bs[..i], first) + [Row(first + i, bs[i])];
  }

  lemma NumberedPrefix(bs: seq<Stored>, n: nat, first: nat)
    requires n <= |bs|
    ensures Numbered(bs[..n], first) == Numbered(bs, first)[..n]
  {
  }

  /** A second identical run is a no-op on the store. */
  lemma IngestTwiceIsOnce(rows: seq<MockRecord>, fs: seq<Source>, opts: Options, tools: Tools)
    ensures var rs := TreeRecords(fs, opts, tools);
            UpsertAll(UpsertAll(rows, rs), rs) == UpsertAll(rows, rs)
  {
    NumberedKeys(TreeBodies(Pieces(fs), opts, tools), opts.startId);
    RepeatIsIdempotent(rows, TreeRecords(fs, opts, tools));
  }

  lemma PrefixThenAll(rows: seq<MockRecord>, rs: seq<MockRecord>, n: nat)
    requires Unique(rs) && n <= |rs|
    ensures UpsertAll(UpsertAll(rows, rs[..n]), rs) == UpsertAll(rows, rs)
  {
    var done := UpsertAll(rows, rs[..n]);
    assert rs == rs[..n] + rs[n..];
    UpsertAllAppend(done, rs[..n], rs[n..]);
    UpsertAllAppend(rows, rs[..n], rs[n..]);
    RepeatIsIdempotent(rows, rs[..n]);
  }

  /** A run that failed after any number of records, repeated in full, leaves what one undisturbed
      run leaves, order included. */
  lemma ResumedRunIsOneRun(rows: seq<MockRecord>, fs: seq<Source>, opts: Options, tools: Tools, inserted: nat)
    requires inserted <= |TreeRecords(fs, opts, tools)|
    ensures var rs := TreeRecords(fs, opts, tools);
            UpsertAll(UpsertAll(rows, rs[..inserted]), rs) == UpsertAll(rows, rs)
  {
    NumberedKeys(TreeBodies(Pieces(fs), opts, tools), opts.startId);
    PrefixThenAll(rows, TreeRecords(fs, opts, tools), inserted);
  }

  lemma LaterIdsAreDisjoint(rows: seq<MockRecord>, a: seq<Stored>, first: nat, b: seq<Stored>, first': nat, key: nat,
                            rs: seq<MockRecord>, rs': seq<MockRecord>)
    requires first <= key < first + |a| <= first' && rs == Numbered(a, first) && rs' == Numbered(b, first')
    ensures !Has(rs', key) && Lookup(UpsertAll(UpsertAll(rows, rs), rs'), key) == Some(rs[key - first].body)
  {
    NumberedKeys(b, first');
    NumberedWins(rows, a, first, key);
    UpsertAllLookup(UpsertAll(rows, rs), rs', key);
  }

  lemma NumberedWins(rows: seq<MockRecord>, a: seq<Stored>, first: nat, key: nat)
    requires first <= key < first + |a|
    ensures Lookup(UpsertAll(rows, Numbered(a, first)), key) == Some(a[key - first])
  {
    NumberedKeys(a, first);
    UpsertAllLookup(rows, Numbered(a, first), key);
    LookupAt(Numbered(a, first), key - first);
  }

  /** A later run that starts at or past the first run's next id touches none of its records. */
  lemma ChainedRunsAreDisjoint(rows: seq<MockRecord>, fs: seq<Source>, opts: Options, tools: Tools,
                               gs: seq<Source>, opts': Options, tools': Tools, key: nat)
    requires opts.startId <= key < opts.startId + |TreeRecords(fs, opts, tools)| <= opts'.startId
    ensures var rs, rs' := TreeRecords(fs, opts, tools), TreeRecords(gs, opts', tools');
            && !Has(rs', key)
            && Lookup(UpsertAll(UpsertAll(rows, rs), rs'), key) == Some(rs[key - opts.startId].body)
  {
    LaterIdsAreDisjoint(rows, TreeBodies(Pieces(fs), opts, tools), opts.startId,
                        TreeBodies(Pieces(gs), opts', tools'), opts'.startId, key,
                        TreeRecords(fs, opts, tools), TreeRecords(gs, opts', tools'));
  }

  /** The word statistic: at least the words of the files, at most twice as many. */
  function SourceWords(fs: seq<Source>): nat {
    if fs == [] then 0
    else SourceWords(fs[..|fs| - 1])
         + (if fs[|fs| - 1].text.Some? then Text.WordCount(fs[|fs| - 1].text.value) else 0)
  }

  lemma {:induction false} TreeWordBounds(fs: seq<Source>)
    ensures SourceWords(fs) <= TreeWords(Pieces(fs)) <= 2 * SourceWords(fs)
  {
    if fs == [] {
    } else {
      var f, init := fs[|fs| - 1], fs[..|fs| - 1];
      TreeWordBounds(init);
      assert Pieces(fs)[..|fs| - 1] == Pieces(init);
      if f.text.Some? {
        Windows.DefaultChunkWords(f.text.value, f.ext);
      }
    }
  }

  // ---------------------------------------------------------------- the pipeline

  /** Any `TenantWrite`, as the record of what was asked of it: the successful inserts in order, and
      how many of them the last flush persisted. */
  class Writer {
    const dim: nat
    var log: seq<MockRecord>
    var flushed: nat

    constructor (dim: nat)
      ensures this.dim == dim && log == [] && flushed == 0
    {
      this.dim, log, flushed := dim, [], 0;
    }

    method Insert(r: MockRecord, writeOk: bool) returns (ok: bool)
      modifies this`log
      ensures ok == (|r.body.embedding| == dim && writeOk)
      ensures log == if ok then old(log) + [r] else old(log)
    {
      ok := |r.body.embedding| == dim && writeOk;
      if ok {
        log := log + [r];
      }
    }

    method Flush(writeOk: bool) returns (ok: bool)
      modifies this`flushed
      ensures ok == writeOk && flushed == if ok then |log| else old(flushed)
    {
      ok := writeOk;
      if ok {
        flushed := |log|;
      }
    }
  }

  /** Words of the first `n` chunks. */
  function WordsTo(cs: seq<Chunk>, n: nat): nat
    requires n <= |cs|
  {
    if n == 0 then 0 else WordsTo(cs, n - 1) + Text.WordCount(cs[n - 1].text)
  }

  lemma {:induction false} WordsToIsTotal(cs: seq<Chunk>, n: nat)
    requires n <= |cs|
    ensures WordsTo(cs, n) == TotalWords(cs[..n])
  {
    if n == 0 {
    } else {
      WordsToIsTotal(cs, n - 1);
      TotalWordsNext(cs, n);
    }
  }

  lemma TotalWordsNext(cs: seq<Chunk>, n: nat)
    requires 0 < n <= |cs|
    ensures TotalWords(cs[..n]) == TotalWords(cs[..n - 1]) + Text.WordCount(cs[n - 1].text)
  {
    assert cs[..n] == cs[..n - 1] + [cs[n - 1]];
    TotalWordsEnd(cs[..n - 1], cs[n - 1]);
  }

  /** The statistics after the first `n` chunks of a file. */
  function Advance(before: Stats, cs: seq<Chunk>, n: nat): Stats
    requires n <= |cs|
  {
    Stats(before.files, before.chunks + n, before.words + WordsTo(cs, n), before.nextId + n)
  }

  /** Embed one chunk and insert it under `id`. */
  method InsertChunk(w: Writer, c: Chunk, rel: string, opts: Options, tools: Tools, refused: set<nat>, id: nat)
    returns (ok: bool)
    modifies w`log
    ensures ok <==> Succeeds(c, id, w.dim, tools, refused)
    ensures w.log == if ok then old(w.log) + [Row(id, BodyFor(c, rel, opts, tools))] else old(w.log)
    ensures ok ==> Describes(w.log[|old(w.log)|], id, rel, c, opts, tools) && |w.log[|old(w.log)|].body.embedding| == w.dim
  {
    if c.text !in tools.embed {
      return false;
    }
    var tags := opts.tags + [SourceTag(rel, c, tools)];
    var body := Stored(tools.embed[c.text], Meta(opts.shareable, tags, Text.Utf8(c.text)));
    ok := w.Insert(Row(id, body), id !in refused);
  }

  /** The first `n` chunks of a file are in, and are what the statistics count. */
  predicate Partway(p: Piece, n: nat, stats: Stats, before: Stats, log: seq<MockRecord>, log0: seq<MockRecord>,
                    opts: Options, tools: Tools, dim: nat, refused: set<nat>) {
    && ChunksIn(p.chunks, n, before.nextId, dim, tools, refused)
    && stats == Advance(before, p.chunks, n)
    && log == log0 + Numbered(Bodies(p, opts, tools)[..n], before.nextId)
  }

  lemma ChunkWentIn(p: Piece, n: nat, stats: Stats, before: Stats, log: seq<MockRecord>, log0: seq<MockRecord>,
                    opts: Options, tools: Tools, dim: nat, refused: set<nat>, log': seq<MockRecord>)
    requires Partway(p, n, stats, before, log, log0, opts, tools, dim, refused) && n < |p.chunks|
    requires Succeeds(p.chunks[n], stats.nextId, dim, tools, refused)
    requires log' == log + [Row(stats.nextId, BodyFor(p.chunks[n], p.rel, opts, tools))]
    ensures Partway(p, n + 1, Stats(stats.files, stats.chunks + 1, stats.words + Text.WordCount(p.chunks[n].text),
                                    stats.nextId + 1), before, log', log0, opts, tools, dim, refused)
  {
    var bs := Bodies(p, opts, tools);
    assert bs[n] == BodyFor(p.chunks[n], p.rel, opts, tools);
    LogGrowsByOne(log0, bs, n, before.nextId, log, log');
    OneMoreIn(p.chunks, n, before.nextId, dim, tools, refused);
  }

  lemma OneMoreIn(cs: seq<Chunk>, n: nat, first: nat, dim: nat, tools: Tools, refused: set<nat>)
    requires ChunksIn(cs, n, first, dim, tools, refused) && n < |cs|
    requires Succeeds(cs[n], first + n, dim, tools, refused)
    ensures ChunksIn(cs, n + 1, first, dim, tools, refused)
  {
  }

  /** One turn of the loop over the chunks. */
  method InsertNext(w: Writer, p: Piece, n: nat, opts: Options, tools: Tools, refused: set<nat>, stats: Stats,
                    ghost before: Stats, ghost log0: seq<MockRecord>)
    returns (ok: bool, stats': Stats)
    requires n < |p.chunks| && Partway(p, n, stats, before, w.log, log0, opts, tools, w.dim, refused)
    modifies w`log
    ensures ok <==> Succeeds(p.chunks[n], stats.nextId, w.dim, tools, refused)
    ensures Partway(p, if ok then n + 1 else n, stats', before, w.log, log0, opts, tools, w.dim, refused)
  {
    var c := p.chunks[n];
    ghost var mid := w.log;
    stats' := stats;
    ok := InsertChunk(w, c, p.rel, opts, tools, refused, stats.nextId);
    if ok {
      ChunkWentIn(p, n, stats, before, mid, log0, opts, tools, w.dim, refused, w.log);
      stats' := Stats(stats.files, stats.chunks + 1, stats.words + Text.WordCount(c.text), stats.nextId + 1);
    }
  }

  /** The loop over the chunks of a file. */
  method InsertUntilFailure(w: Writer, p: Piece, opts: Options, tools: Tools, refused: set<nat>, before: Stats)
    returns (ok: bool, stats: Stats, ghost k: nat)
    modifies w`log
    ensures FirstFailure(p.chunks, before.nextId, w.dim, tools, refused, k) && (ok <==> k == |p.chunks|)
    ensures w.log == old(w.log) + Numbered(Bodies(p, opts, tools)[..k], before.nextId)
    ensures stats == Advance(before, p.chunks, k)
  {
    stats, k := before, 0;
    NothingIn(p, before, w.log, opts, tools, w.dim, refused);
    for i := 0 to |p.chunks|
      invariant k == i
      invariant Partway(p, i, stats, before, w.log, old(w.log), opts, tools, w.dim, refused)
    {
      ok, stats := InsertNext(w, p, i, opts, tools, refused, stats, before, old(w.log));
      if !ok {
        return;
      }
      k := k + 1;
    }
    ok := true;
  }

  /** Embed and insert the chunks of a file in order, up to the first failure. */
  method InsertChunks(w: Writer, p: Piece, opts: Options, tools: Tools, refused: set<nat>, before: Stats)
    returns (ok: bool, stats: Stats, ghost k: nat)
    modifies w`log
    ensures FirstFailure(p.chunks, before.nextId, w.dim, tools, refused, k) && (ok <==> k == |p.chunks|)
    ensures w.log == old(w.log) + Numbered(Bodies(p, opts, tools)[..k], before.nextId)
    ensures stats == Advance(before, p.chunks, k)
    ensures DescribesChunks(w.log[|old(w.log)|..], p, before.nextId, opts, tools, w.dim)
  {
    ok, stats, k := InsertUntilFailure(w, p, opts, tools, refused, before);
    BodiesDescribe(p, k, before.nextId, opts, tools, w.dim, refused, old(w.log), w.log);
  }

  lemma NothingIn(p: Piece, before: Stats, log: seq<MockRecord>, opts: Options, tools: Tools, dim: nat, refused: set<nat>)
    ensures Partway(p, 0, before, before, log, log, opts, tools, dim, refused)
  {
    assert Numbered(Bodies(p, opts, tools)[..0], before.nextId) == [];
  }

  /** Ingest one file; on failure the chunks before the failing one are in the store. */
  method IngestFile(w: Writer, f: Source, ghost p: Piece, opts: Options, tools: Tools, refused: set<nat>,
                    before: Stats)
    returns (ok: bool, stats: Stats, ghost k: nat)
    requires p == Piece(f.rel, FileChunks(f))
    modifies w`log
    ensures FirstFailure(p.chunks, before.nextId, w.dim, tools, refused, k)
    ensures ok <==> f.text.Some? && k == |p.chunks|
    ensures w.log == old(w.log) + Numbered(Bodies(p, opts, tools)[..k], before.nextId)
    ensures stats == Advance(before, p.chunks, k)
    ensures DescribesChunks(w.log[|old(w.log)|..], p, before.nextId, opts, tools, w.dim)
  {
    if f.text.None? {
      NothingIn(p, before, w.log, opts, tools, w.dim, refused);
      return false, before, 0;
    }
    var chunks := Windows.ChunkText(f.text.value, ForExt(f.ext));
    ok, stats, k := InsertChunks(w, Piece(f.rel, chunks), opts, tools, refused, before);
  }

  /** The id of the first chunk of file `i`. */
  function FirstId(ps: seq<Piece>, i: nat, opts: Options, tools: Tools): nat
    requires i <= |ps|
  {
    opts.startId + |TreeBodies(ps[..i], opts, tools)|
  }

  /** File `i` can be read and none of its chunks fails. */
  predicate FileIn(fs: seq<Source>, ps: seq<Piece>, i: nat, opts: Options, tools: Tools, dim: nat, refused: set<nat>)
    requires i < |fs| == |ps|
  {
    && fs[i].text.Some?
    && FirstFailure(ps[i].chunks, FirstId(ps, i, opts, tools), dim, tools, refused, |ps[i].chunks|)
  }

  predicate FilesIn(fs: seq<Source>, ps: seq<Piece>, n: nat, opts: Options, tools: Tools, dim: nat, refused: set<nat>)
    requires n <= |fs| == |ps|
  {
    forall i :: 0 <= i < n ==> FileIn(fs, ps, i, opts, tools, dim, refused)
  }

  /** `bs` is what the files before `i` hold and what file `i` holds before its first failing chunk. */
  predicate BrokenOff(ps: seq<Piece>, i: nat, k: nat, bs: seq<Stored>, opts: Options, tools: Tools, dim: nat,
                      refused: set<nat>)
    requires i < |ps|
  {
    && FirstFailure(ps[i].chunks, FirstId(ps, i, opts, tools), dim, tools, refused, k)
    && bs == TreeBodies(ps[..i], opts, tools) + Bodies(ps[i], opts, tools)[..k]
  }

  lemma FileWentIn(fs: seq<Source>, ps: seq<Piece>, i: nat, bs: seq<Stored>, first: nat, opts: Options, tools: Tools,
                   dim: nat, refused: set<nat>)
    requires i < |fs| == |ps| && fs[i].text.Some? && FilesIn(fs, ps, i, opts, tools, dim, refused)
    requires bs == TreeBodies(ps[..i], opts, tools) && first == opts.startId + |bs|
    requires FirstFailure(ps[i].chunks, first, dim, tools, refused, |ps[i].chunks|)
    ensures FilesIn(fs, ps, i + 1, opts, tools, dim, refused)
    ensures TreeBodies(ps[..i + 1], opts, tools) == bs + Bodies(ps[i], opts, tools)[..|ps[i].chunks|]
    ensures TreeWords(ps[..i + 1]) == TreeWords(ps[..i]) + WordsTo(ps[i].chunks, |ps[i].chunks|)
  {
    FilesInNext(fs, ps, i, bs, first, opts, tools, dim, refused);
    WholeFileNext(ps, i, opts, tools);
  }

  lemma FilesInNext(fs: seq<Source>, ps: seq<Piece>, i: nat, bs: seq<Stored>, first: nat, opts: Options, tools: Tools,
                    dim: nat, refused: set<nat>)
    requires i < |fs| == |ps| && fs[i].text.Some? && FilesIn(fs, ps, i, opts, tools, dim, refused)
    requires bs == TreeBodies(ps[..i], opts, tools) && first == opts.startId + |bs|
    requires FirstFailure(ps[i].chunks, first, dim, tools, refused, |ps[i].chunks|)
    ensures FilesIn(fs, ps, i + 1, opts, tools, dim, refused)
  {
  }

  lemma WholeFileNext(ps: seq<Piece>, i: nat, opts: Options, tools: Tools)
    requires i < |ps|
    ensures TreeBodies(ps[..i + 1], opts, tools)
            == TreeBodies(ps[..i], opts, tools) + Bodies(ps[i], opts, tools)[..|ps[i].chunks|]
    ensures TreeWords(ps[..i + 1]) == TreeWords(ps[..i]) + WordsTo(ps[i].chunks, |ps[i].chunks|)
  {
    var all := Bodies(ps[i], opts, tools);
    assert ps[i].chunks[..|ps[i].chunks|] == ps[i].chunks && all[..|all|] == all;
    FileNext(ps, i, opts, tools);
    WordsToIsTotal(ps[i].chunks, |ps[i].chunks|);
  }

  lemma FileBroke(fs: seq<Source>, ps: seq<Piece>, i: nat, k: nat, bs: seq<Stored>, first: nat, cut: seq<Stored>,
                  opts: Options, tools: Tools, dim: nat, refused: set<nat>)
    requires i < |fs| == |ps| && bs == TreeBodies(ps[..i], opts, tools) && first == opts.startId + |bs|
    requires FirstFailure(ps[i].chunks, first, dim, tools, refused, k)
    requires cut == bs + Bodies(ps[i], opts, tools)[..k] && (fs[i].text.None? || k < |ps[i].chunks|)
    ensures !FileIn(fs, ps, i, opts, tools, dim, refused) && BrokenOff(ps, i, k, cut, opts, tools, dim, refused)
  {
  }

  /** The statistics once the first `n` files are in. */
  function StatsAt(ps: seq<Piece>, n: nat, opts: Options, tools: Tools): Stats
    requires n <= |ps|
  {
    var count := |TreeBodies(ps[..n], opts, tools)|;
    Stats(n, count, TreeWords(ps[..n]), opts.startId + count)
  }

  /** What `progress` is called with: the cumulative statistics after each of the first `n` files. */
  predicate Progress(calls: seq<Stats>, ps: seq<Piece>, n: nat, opts: Options, tools: Tools)
    requires n <= |ps|
  {
    |calls| == n && forall i :: 0 <= i < n ==> calls[i] == StatsAt(ps, i + 1, opts, tools)
  }

  lemma ProgressNext(calls: seq<Stats>, ps: seq<Piece>, n: nat, stats: Stats, opts: Options, tools: Tools)
    requires n < |ps| && Progress(calls, ps, n, opts, tools) && stats == StatsAt(ps, n + 1, opts, tools)
    ensures Progress(calls + [stats], ps, n + 1, opts, tools)
  {
  }

  /** The files before `i` are all in, and are what the statistics count. */
  predicate Reached(fs: seq<Source>, ps: seq<Piece>, i: nat, bs: seq<Stored>, stats: Stats, opts: Options, tools: Tools,
                    dim: nat, refused: set<nat>)
    requires i <= |fs| == |ps|
  {
    && bs == TreeBodies(ps[..i], opts, tools)
    && FilesIn(fs, ps, i, opts, tools, dim, refused)
    && stats == StatsAt(ps, i, opts, tools)
  }

  /** One turn of the loop over the files. */
  method IngestNext(w: Writer, fs: seq<Source>, ghost ps: seq<Piece>, i: nat, opts: Options, tools: Tools,
                    refused: set<nat>, before: Stats, ghost bs: seq<Stored>, ghost log0: seq<MockRecord>)
    returns (ok: bool, stats: Stats, ghost bs': seq<Stored>, ghost k: nat)
    requires i < |fs| && ps == Pieces(fs) && Reached(fs, ps, i, bs, before, opts, tools, w.dim, refused)
    requires w.log == log0 + Numbered(bs, opts.startId)
    modifies w`log
    ensures w.log == log0 + Numbered(bs', opts.startId)
    ensures ok ==> Reached(fs, ps, i + 1, bs', stats, opts, tools, w.dim, refused)
    ensures !ok ==> !FileIn(fs, ps, i, opts, tools, w.dim, refused)
                    && BrokenOff(ps, i, k, bs', opts, tools, w.dim, refused)
  {
    ghost var mid := w.log;
    ok, stats, k := IngestFile(w, fs[i], ps[i], opts, tools, refused, before);
    bs' := bs + Bodies(ps[i], opts, tools)[..k];
    FileTurn(fs, ps, i, k, bs, before, ok, stats, opts, tools, w.dim, refused, log0, mid, w.log);
    if !ok {
      return;
    }
    stats := Stats(stats.files + 1, stats.chunks, stats.words, stats.nextId);
  }

  /** What one file does to what has been reached. */
  lemma FileTurn(fs: seq<Source>, ps: seq<Piece>, i: nat, k: nat, bs: seq<Stored>, before: Stats, ok: bool, after: Stats,
                 opts: Options, tools: Tools, dim: nat, refused: set<nat>,
                 log0: seq<MockRecord>, mid: seq<MockRecord>, log: seq<MockRecord>)
    requires i < |fs| && ps == Pieces(fs) && Reached(fs, ps, i, bs, before, opts, tools, dim, refused)
    requires FirstFailure(ps[i].chunks, before.nextId, dim, tools, refused, k)
    requires ok <==> fs[i].text.Some? && k == |ps[i].chunks|
    requires after == Advance(before, ps[i].chunks, k)
    requires mid == log0 + Numbered(bs, opts.startId)
    requires log == mid + Numbered(Bodies(ps[i], opts, tools)[..k], before.nextId)
    ensures var bs' := bs + Bodies(ps[i], opts, tools)[..k];
            && log == log0 + Numbered(bs', opts.startId)
            && (ok ==> Reached(fs, ps, i + 1, bs', Stats(after.files + 1, after.chunks, after.words, after.nextId),
                               opts, tools, dim, refused))
            && (!ok ==> !FileIn(fs, ps, i, opts, tools, dim, refused)
                        && BrokenOff(ps, i, k, bs', opts, tools, dim, refused))
  {
    var mine, next := Bodies(ps[i], opts, tools)[..k], before.nextId;
    LogGrows(log0, bs, mine, opts.startId, next, mid, log);
    if ok {
      FileWentIn(fs, ps, i, bs, next, opts, tools, dim, refused);
    } else {
      FileBroke(fs, ps, i, k, bs, next, bs + mine, opts, tools, dim, refused);
    }
  }

  /** Ingest the files in order, up to the first failure: `bs` is what went in, file `at` and its
      chunk `k` where it stopped. */
  method IngestFiles(w: Writer, fs: seq<Source>, opts: Options, tools: Tools, refused: set<nat>)
    returns (ok: bool, stats: Stats, progress: seq<Stats>, ghost bs: seq<Stored>, ghost at: nat, ghost k: nat)
    modifies w`log
    ensures w.log == old(w.log) + Numbered(bs, opts.startId)
    ensures at <= |fs| && (ok <==> at == |fs|) && FilesIn(fs, Pieces(fs), at, opts, tools, w.dim, refused)
    ensures ok ==> bs == TreeBodies(Pieces(fs), opts, tools)
    ensures !ok ==> !FileIn(fs, Pieces(fs), at, opts, tools, w.dim, refused)
    ensures !ok ==> BrokenOff(Pieces(fs), at, k, bs, opts, tools, w.dim, refused)
    ensures ok ==> stats == Stats(|fs|, |bs|, TreeWords(Pieces(fs)), opts.startId + |bs|)
    ensures Progress(progress, Pieces(fs), at, opts, tools)
  {
    progress, bs, k := [], [], 0;
    stats := Stats(0, 0, 0, opts.startId);
    ghost var ps := Pieces(fs);
    for i := 0 to |fs|
      invariant Progress(progress, ps, i, opts, tools)
      invariant Reached(fs, ps, i, bs, stats, opts, tools, w.dim, refused)
      invariant w.log == old(w.log) + Numbered(bs, opts.startId)
    {
      at := i;
      ok, stats, bs, k := IngestNext(w, fs, ps, i, opts, tools, refused, stats, bs, old(w.log));
      if !ok {
        return;
      }
      ProgressNext(progress, ps, i, stats, opts, tools);
      progress := progress + [stats];
    }
    ok, at := true, |fs|;
    assert ps[..|fs|] == ps;
  }

  /** Ingest the collected files. It succeeds exactly when the dimensions agree, every file can be
      read, every chunk goes in and the flush does; then every chunk of every file is in, once,
      under consecutive ids, and persisted. A failure leaves exactly the records before the failing
      chunk, unpersisted; where only the flush fails, these are all of them. */
  method IngestTree(w: Writer, fs: seq<Source>, opts: Options, embedDim: nat, tools: Tools,
                    refused: set<nat>, flushOk: bool)
    returns (result: Option<Stats>, progress: seq<Stats>, ghost inserted: nat, ghost at: nat, ghost k: nat)
    modifies w
    ensures result.Some? <==> embedDim == w.dim && flushOk
                              && FilesIn(fs, Pieces(fs), |fs|, opts, tools, w.dim, refused)
    ensures inserted <= |TreeRecords(fs, opts, tools)|
    ensures w.log == old(w.log) + TreeRecords(fs, opts, tools)[..inserted]
    ensures result.Some? ==>
              var rs := TreeRecords(fs, opts, tools);
              && inserted == |rs|
              && result.value == Stats(|fs|, |rs|, TreeWords(Pieces(fs)), opts.startId + |rs|)
              && w.flushed == |w.log|
    ensures result.None? ==> w.flushed == old(w.flushed)
    ensures embedDim != w.dim ==> inserted == 0
    ensures embedDim == w.dim && !FilesIn(fs, Pieces(fs), |fs|, opts, tools, w.dim, refused) ==>
              && at < |fs| && FilesIn(fs, Pieces(fs), at, opts, tools, w.dim, refused)
              && !FileIn(fs, Pieces(fs), at, opts, tools, w.dim, refused)
              && BrokenOff(Pieces(fs), at, k, TreeBodies(Pieces(fs), opts, tools)[..inserted], opts, tools, w.dim, refused)
    ensures at <= |fs| && Progress(progress, Pieces(fs), at, opts, tools)
    ensures embedDim == w.dim && FilesIn(fs, Pieces(fs), |fs|, opts, tools, w.dim, refused) ==>
              inserted == |TreeRecords(fs, opts, tools)| && at == |fs|
    ensures result.Some? ==> at == |fs|
    ensures Marked(w.log[|old(w.log)|..], opts)
  {
    TreeIsMarked(Pieces(fs), opts, tools);
    NumberedIsMarked(TreeBodies(Pieces(fs), opts, tools), opts.startId, opts);
    if embedDim != w.dim {
      return None, [], 0, 0, 0;
    }
    var ok, stats;
    ghost var bs;
    ok, stats, progress, bs, at, k := IngestFiles(w, fs, opts, tools, refused);
    inserted := |bs|;
    ghost var all := TreeBodies(Pieces(fs), opts, tools);
    if !ok {
      CutInFile(Pieces(fs), at, k, opts, tools, TreeBodies(Pieces(fs)[..at], opts, tools), all, bs);
      NumberedPrefix(all, inserted, opts.startId);
      return None, progress, inserted, at, k;
    }
    assert all[..|all|] == all;
    NumberedPrefix(all, inserted, opts.startId);
    var flushed := w.Flush(flushOk);
    if !flushed {
      return None, progress, inserted, at, k;
    }
    result := Some(stats);
  }

  lemma FileNext(ps: seq<Piece>, i: nat, opts: Options, tools: Tools)
    requires i < |ps|
    ensures TreeBodies(ps[..i + 1], opts, tools) == TreeBodies(ps[..i], opts, tools) + Bodies(ps[i], opts, tools)
    ensures TreeWords(ps[..i + 1]) == TreeWords(ps[..i]) + TotalWords(ps[i].chunks)
  {
    assert ps[..i + 1][..i] == ps[..i];
  }

  /** The files before `i` and the first `k` chunks of file `i` are a prefix of the run. */
  lemma CutInFile(ps: seq<Piece>, i: nat, k: nat, opts: Options, tools: Tools,
                  before: seq<Stored>, all: seq<Stored>, cut: seq<Stored>)
    requires i < |ps| && k <= |ps[i].chunks|
    requires before == TreeBodies(ps[..i], opts, tools) && all == TreeBodies(ps, opts, tools)
    requires cut == before + Bodies(ps[i], opts, tools)[..k]
    ensures |cut| <= |all| && cut == all[..|cut|]
  {
    FileNext(ps, i, opts, tools);
    TreePrefix(ps, i + 1, opts, tools);
    Cut(all, TreeBodies(ps[..i + 1], opts, tools), before, Bodies(ps[i], opts, tools), k);
  }

  lemma Cut<T>(all: seq<T>, upTo: seq<T>, before: seq<T>, whole: seq<T>, k: nat)
    requires |upTo| <= |all| && upTo == all[..|upTo|] && upTo == before + whole && k <= |whole|
    ensures before + whole[..k] == all[..|before| + k]
  {
  }

  lemma {:induction false} TreePrefix(ps: seq<Piece>, n: nat, opts: Options, tools: Tools)
    requires n <= |ps|
    ensures var part, all := TreeBodies(ps[..n], opts, tools), TreeBodies(ps, opts, tools);
            |part| <= |all| && part == all[..|part|]
    decreases |ps|
  {
    if n == |ps| {
      assert ps[..n] == ps;
    } else {
      var init := ps[..|ps| - 1];
      TreePrefix(init, n, opts, tools);
      assert init[..n] == ps[..n];
    }
  }
}
