/** From ingest to search with the stub embedding: a chunk that shares a word with the query is
    found, ahead of everything that shares none. */
module Overlap {
  import opened Keyed
  import opened TenantState
  import opened Query
  import opened TopK
  import opened Cosine
  import opened Embed
  import opened Mock
  import opened Ingest
  import Text

  // ---------------------------------------------------------------- scores of embedded texts

  ghost predicate Roots(sqrt: real -> real) {
    forall x :: x >= 0.0 ==> IsRoot(sqrt(x), x)
  }

  /** What `Embed.Passage` answers, in a dimension that fits 32 bits. */
  function Stub(text: string, n: nat, lower: Lower, sqrt: real -> real): (v: Vec)
    requires 0 < n < 0x1_0000_0000
    ensures |v| == n
  {
    var counts := Buckets(Text.Words(text), n, lower);
    Norm(counts, sqrt(SumSq(counts)))
  }

  /** `score` is what `Cosine.Cosine` computes. */
  ghost predicate CosineScore(score: (Vec, Vec) -> real, sqrt: real -> real) {
    forall a: Vec, b: Vec :: |a| == |b| ==> score(a, b) == Score(a, b, sqrt(SumSq(a)), sqrt(SumSq(b)))
  }

  predicate ShareWord(a: string, c: string, lower: Lower) {
    exists i, j :: 0 <= i < |Text.Words(a)| && 0 <= j < |Text.Words(c)|
                   && lower(Text.Words(a)[i]) == lower(Text.Words(c)[j])
  }

  /** No bucket holds words of both. */
  predicate DisjointBuckets(a: string, c: string, n: nat, lower: Lower)
    requires n > 0
  {
    forall b :: 0 <= b < n ==> InBucket(Text.Words(a), b, n, lower) == 0 || InBucket(Text.Words(c), b, n, lower) == 0
  }

  lemma SharedScores(a: string, c: string, n: nat, lower: Lower, sqrt: real -> real, score: (Vec, Vec) -> real)
    requires 0 < n < 0x1_0000_0000 && Roots(sqrt) && CosineScore(score, sqrt) && ShareWord(a, c, lower)
    ensures score(Stub(a, n, lower, sqrt), Stub(c, n, lower, sqrt)) > 0.0
  {
    var ws, vs := Text.Words(a), Text.Words(c);
    var i, j :| 0 <= i < |ws| && 0 <= j < |vs| && lower(ws[i]) == lower(vs[j]);
    var p, q := SumSq(Buckets(ws, n, lower)), SumSq(Buckets(vs, n, lower));
    SumSqNonNegative(Buckets(ws, n, lower));
    SumSqNonNegative(Buckets(vs, n, lower));
    SharedWordScoresPositive(ws, vs, n, lower, sqrt(p), sqrt(q), i, j);
    PositiveScores(Stub(a, n, lower, sqrt), Stub(c, n, lower, sqrt), sqrt, score);
  }

  lemma PositiveScores(u: Vec, v: Vec, sqrt: real -> real, score: (Vec, Vec) -> real)
    requires Roots(sqrt) && CosineScore(score, sqrt) && |u| == |v| && Dot(u, v) > 0.0
    ensures score(u, v) > 0.0
  {
    SumSqNonNegative(u);
    SumSqNonNegative(v);
    ScoreIsBounded(u, v, sqrt(SumSq(u)), sqrt(SumSq(v)));
  }

  lemma {:induction false} DotOfDisjoint(v: seq<real>, u: seq<real>)
    requires |v| == |u| && forall i :: 0 <= i < |v| ==> v[i] == 0.0 || u[i] == 0.0
    ensures Dot(v, u) == 0.0
  {
    if v == [] {
    } else {
      DotOfDisjoint(v[..|v| - 1], u[..|u| - 1]);
    }
  }

  lemma DisjointScores(a: string, c: string, n: nat, lower: Lower, sqrt: real -> real, score: (Vec, Vec) -> real)
    requires 0 < n < 0x1_0000_0000 && CosineScore(score, sqrt) && DisjointBuckets(a, c, n, lower)
    ensures score(Stub(a, n, lower, sqrt), Stub(c, n, lower, sqrt)) == 0.0
  {
    var u, v := Buckets(Text.Words(a), n, lower), Buckets(Text.Words(c), n, lower);
    DisjointCounts(a, c, n, lower);
    DotAfterNorm(u, v, sqrt(SumSq(u)), sqrt(SumSq(v)));
    ZeroScores(Stub(a, n, lower, sqrt), Stub(c, n, lower, sqrt), sqrt, score);
  }

  lemma DisjointCounts(a: string, c: string, n: nat, lower: Lower)
    requires n > 0 && DisjointBuckets(a, c, n, lower)
    ensures forall i :: 0 <= i < n ==>
              Buckets(Text.Words(a), n, lower)[i] == 0.0 || Buckets(Text.Words(c), n, lower)[i] == 0.0
  {
    forall i | 0 <= i < n
      ensures Buckets(Text.Words(a), n, lower)[i] == 0.0 || Buckets(Text.Words(c), n, lower)[i] == 0.0
    {
      assert InBucket(Text.Words(a), i, n, lower) == 0 || InBucket(Text.Words(c), i, n, lower) == 0;
    }
  }

  lemma NormKeepsZero(v: seq<real>, root: real, i: nat)
    requires i < |v| && v[i] == 0.0
    ensures Norm(v, root)[i] == 0.0
  {
    if root > 0.0 {
      ZeroQuotient(v[i], root);
    }
  }

  lemma ZeroQuotient(x: real, y: real)
    requires x == 0.0 && y != 0.0
    ensures x / y == 0.0
  {
  }

  lemma DotAfterNorm(v: seq<real>, u: seq<real>, r: real, s: real)
    requires |v| == |u| && forall i :: 0 <= i < |v| ==> v[i] == 0.0 || u[i] == 0.0
    ensures Dot(Norm(v, r), Norm(u, s)) == 0.0
  {
    forall i | 0 <= i < |v| ensures Norm(v, r)[i] == 0.0 || Norm(u, s)[i] == 0.0 {
      if v[i] == 0.0 {
        NormKeepsZero(v, r, i);
      } else {
        NormKeepsZero(u, s, i);
      }
    }
    DotOfDisjoint(Norm(v, r), Norm(u, s));
  }

  lemma ZeroScores(u: Vec, v: Vec, sqrt: real -> real, score: (Vec, Vec) -> real)
    requires CosineScore(score, sqrt) && |u| == |v| && Dot(u, v) == 0.0
    ensures score(u, v) == 0.0
  {
    var m := sqrt(SumSq(u)) * sqrt(SumSq(v));
    if m != 0.0 {
      ZeroQuotient(Dot(u, v), m);
    }
  }

  // ---------------------------------------------------------------- the ranking

  lemma FirstIsBest(r: seq<Hit>, hits: seq<Hit>, k: nat, h: Hit)
    requires IsTopK(r, hits, k) && k >= 1 && h in hits
    ensures r != [] && r[0].similarity >= h.similarity
  {
    if h in r {
      var i :| 0 <= i < |r| && r[i] == h;
    } else {
      var j :| 0 <= j < |hits| && hits[j] == h;
    }
  }

  lemma LowerComesLater(r: seq<Hit>, hits: seq<Hit>, k: nat, h: Hit, p: nat) returns (i: nat)
    requires IsTopK(r, hits, k) && h in hits && p < |r| && r[p].similarity < h.similarity
    ensures i < p && r[i] == h
  {
    var j :| 0 <= j < |hits| && hits[j] == h;
    assert h !in r ==> Before(hits, r[p], hits[j]);
    i :| 0 <= i < |r| && r[i] == h;
  }

  /** Record by record, the embeddings of these texts. */
  ghost predicate Embeds(records: seq<MockRecord>, texts: seq<string>, n: nat, lower: Lower, sqrt: real -> real)
    requires 0 < n < 0x1_0000_0000
  {
    && |records| == |texts|
    && forall i :: 0 <= i < |records| ==> records[i].body.embedding == Stub(texts[i], n, lower, sqrt)
  }

  predicate Accepted(r: MockRecord, accept: Filter) { accept(r.key, r.body.meta.shareable, r.body.meta.tags) }

  /** The exact search of the reference tenant, at any limit of at least one: with an accepted record
      that shares a word with the query, the first hit scores positive, and no record that shares no
      bucket with the query is listed unless that record is listed before it. */
  lemma SharedWordIsFound(records: seq<MockRecord>, texts: seq<string>, query: string, accept: Filter, k: nat,
                          r: seq<Hit>, m: nat, n: nat, lower: Lower, sqrt: real -> real, score: (Vec, Vec) -> real)
    requires 0 < n < 0x1_0000_0000 && Roots(sqrt) && CosineScore(score, sqrt)
    requires Unique(records) && Embeds(records, texts, n, lower, sqrt) && k >= 1
    requires IsTopK(r, Hits(records, Stub(query, n, lower, sqrt), accept, score), k)
    requires m < |records| && Accepted(records[m], accept) && ShareWord(query, texts[m], lower)
    ensures r != [] && r[0].similarity > 0.0
    ensures forall p, d :: 0 <= p < |r| && 0 <= d < |records| && r[p].id == records[d].key
                           && DisjointBuckets(query, texts[d], n, lower)
              ==> exists i :: 0 <= i < p && r[i].id == records[m].key
  {
    var q := Stub(query, n, lower, sqrt);
    var hits := Hits(records, q, accept, score);
    var h := HitAt(records, q, accept, score, m);
    SharedScores(query, texts[m], n, lower, sqrt, score);
    FirstIsBest(r, hits, k, h);
    forall p, d | 0 <= p < |r| && 0 <= d < |records| && r[p].id == records[d].key
                  && DisjointBuckets(query, texts[d], n, lower)
      ensures exists i :: 0 <= i < p && r[i].id == records[m].key
    {
      DisjointScores(query, texts[d], n, lower, sqrt, score);
      ScoreAt(records, q, accept, score, r[p], d);
      var i := LowerComesLater(r, hits, k, h, p);
    }
  }

  lemma HitAt(records: seq<MockRecord>, q: Vec, accept: Filter, score: (Vec, Vec) -> real, m: nat) returns (h: Hit)
    requires m < |records| && Accepted(records[m], accept)
    ensures h in Hits(records, q, accept, score)
    ensures h.id == records[m].key && h.similarity == score(q, records[m].body.embedding)
  {
    HitsAreAcceptedRecords(records, q, accept, score);
    h := Hit(records[m].key, score(q, records[m].body.embedding), records[m].body.meta.payload,
             Some(records[m].body.embedding));
    assert HitOf(h, records[m], q, accept, score);
  }

  lemma ScoreAt(records: seq<MockRecord>, q: Vec, accept: Filter, score: (Vec, Vec) -> real, h: Hit, d: nat)
    requires Unique(records) && d < |records| && h in Hits(records, q, accept, score) && h.id == records[d].key
    ensures h.similarity == score(q, records[d].body.embedding)
  {
    HitsAreAcceptedRecords(records, q, accept, score);
    var i :| 0 <= i < |records| && HitOf(h, records[i], q, accept, score);
    LookupAt(records, i);
    LookupAt(records, d);
  }

  // ---------------------------------------------------------------- after an ingest

  function Texts(p: Piece): seq<string> {
    seq(|p.chunks|, i requires 0 <= i < |p.chunks| => p.chunks[i].text)
  }

  /** The text of every chunk of a run, in the order of the ids. */
  function TreeTexts(ps: seq<Piece>): seq<string> {
    if ps == [] then [] else TreeTexts(ps[..|ps| - 1]) + Texts(ps[|ps| - 1])
  }

  /** The backend is the stub embedding. */
  ghost predicate StubTools(tools: Tools, n: nat, lower: Lower, sqrt: real -> real)
    requires 0 < n < 0x1_0000_0000
  {
    forall t :: t in tools.embed ==> tools.embed[t] == Stub(t, n, lower, sqrt)
  }

  predicate AllEmbed(p: Piece, tools: Tools) {
    forall i :: 0 <= i < |p.chunks| ==> p.chunks[i].text in tools.embed
  }

  predicate HoldsText(s: Stored, text: string, tools: Tools) {
    text in tools.embed && s.embedding == tools.embed[text] && s.meta.payload == Text.Utf8(text)
  }

  lemma {:induction false} TreeHoldsTexts(ps: seq<Piece>, opts: Options, tools: Tools)
    requires forall i :: 0 <= i < |ps| ==> AllEmbed(ps[i], tools)
    ensures |TreeBodies(ps, opts, tools)| == |TreeTexts(ps)|
    ensures forall i :: 0 <= i < |TreeTexts(ps)| ==> HoldsText(TreeBodies(ps, opts, tools)[i], TreeTexts(ps)[i], tools)
  {
    if ps == [] {
    } else {
      TreeHoldsTexts(ps[..|ps| - 1], opts, tools);
      PieceHoldsTexts(ps[|ps| - 1], opts, tools);
    }
  }

  lemma PieceHoldsTexts(p: Piece, opts: Options, tools: Tools)
    requires AllEmbed(p, tools)
    ensures |Bodies(p, opts, tools)| == |Texts(p)|
    ensures forall i :: 0 <= i < |Texts(p)| ==> HoldsText(Bodies(p, opts, tools)[i], Texts(p)[i], tools)
  {
  }

  lemma {:induction false} IntoEmpty(rs: seq<MockRecord>)
    requires Unique(rs)
    ensures UpsertAll([], rs) == rs
  {
    if rs == [] {
    } else {
      IntoEmpty(rs[..|rs| - 1]);
    }
  }

  /** What a whole ingest puts into an empty store. */
  lemma IngestEmbeds(fs: seq<Source>, opts: Options, tools: Tools, refused: set<nat>, n: nat, lower: Lower,
                     sqrt: real -> real)
    requires 0 < n < 0x1_0000_0000 && StubTools(tools, n, lower, sqrt)
    requires FilesIn(fs, Pieces(fs), |fs|, opts, tools, n, refused)
    ensures var store := UpsertAll([], TreeRecords(fs, opts, tools));
            && Unique(store) && Embeds(store, TreeTexts(Pieces(fs)), n, lower, sqrt)
            && forall d :: 0 <= d < |store| ==> store[d].key == opts.startId + d
  {
    var ps := Pieces(fs);
    forall i | 0 <= i < |ps| ensures AllEmbed(ps[i], tools) {
      assert FileIn(fs, ps, i, opts, tools, n, refused);
    }
    TreeHoldsTexts(ps, opts, tools);
    NumberedEmbeds(TreeBodies(ps, opts, tools), opts.startId, TreeTexts(ps), tools, n, lower, sqrt);
  }

  lemma NumberedEmbeds(bodies: seq<Stored>, first: nat, texts: seq<string>, tools: Tools, n: nat, lower: Lower,
                       sqrt: real -> real)
    requires 0 < n < 0x1_0000_0000 && StubTools(tools, n, lower, sqrt)
    requires |bodies| == |texts| && forall i :: 0 <= i < |texts| ==> HoldsText(bodies[i], texts[i], tools)
    ensures var store := UpsertAll([], Numbered(bodies, first));
            && Unique(store) && Embeds(store, texts, n, lower, sqrt)
            && forall d :: 0 <= d < |store| ==> store[d].key == first + d
  {
    NumberedKeys(bodies, first);
    IntoEmpty(Numbered(bodies, first));
    forall i | 0 <= i < |texts| ensures bodies[i].embedding == Stub(texts[i], n, lower, sqrt) {
      assert HoldsText(bodies[i], texts[i], tools);
    }
  }

  /** A tree ingested whole into an empty store and searched for a text that shares a word with one of
      its chunks, in whatever case: the answer starts with a positive score, and a chunk that shares
      no bucket with the query comes only after that chunk. */
  lemma IngestedTextIsFound(fs: seq<Source>, opts: Options, tools: Tools, refused: set<nat>, query: string,
                            accept: Filter, k: nat, r: seq<Hit>, m: nat, n: nat, lower: Lower,
                            sqrt: real -> real, score: (Vec, Vec) -> real)
    requires 0 < n < 0x1_0000_0000 && Roots(sqrt) && CosineScore(score, sqrt) && StubTools(tools, n, lower, sqrt)
    requires FilesIn(fs, Pieces(fs), |fs|, opts, tools, n, refused) && k >= 1
    requires var store := UpsertAll([], TreeRecords(fs, opts, tools));
             && IsTopK(r, Hits(store, Stub(query, n, lower, sqrt), accept, score), k)
             && m < |store| == |TreeTexts(Pieces(fs))| && Accepted(store[m], accept)
             && ShareWord(query, TreeTexts(Pieces(fs))[m], lower)
    ensures r != [] && r[0].similarity > 0.0
    ensures forall p, d :: 0 <= p < |r| && 0 <= d < |TreeTexts(Pieces(fs))| && r[p].id == opts.startId + d
                           && DisjointBuckets(query, TreeTexts(Pieces(fs))[d], n, lower)
              ==> exists i :: 0 <= i < p && r[i].id == opts.startId + m
  {
    IngestEmbeds(fs, opts, tools, refused, n, lower, sqrt);
    SharedWordIsFound(UpsertAll([], TreeRecords(fs, opts, tools)), TreeTexts(Pieces(fs)), query, accept, k, r, m,
                      n, lower, sqrt, score);
  }
}
