/** The adapter is a drop-in for the reference tenant: the sidecar joined with the index is the
    reference record vector, over whole runs and for filtered search. */
module DropIn {
  import opened Keyed
  import opened Events
  import opened TenantState
  import opened Query
  import opened TopK
  import opened Mock

  function VectorOf(index: Index, id: nat): Vec {
    if id in index.vectors then index.vectors[id] else []
  }

  /** Each sidecar entry with its vector; orphaned vectors do not show. */
  function Joined(records: seq<Entry>, index: Index): seq<MockRecord> {
    seq(|records|, i requires 0 <= i < |records| =>
      Row(records[i].key, Stored(VectorOf(index, records[i].key), records[i].body)))
  }

  function Records(c: Core): seq<MockRecord> { Joined(c.sidecar.records, c.index) }

  // ---------------------------------------------------------------- single operations

  lemma JoinedPosition(records: seq<Entry>, index: Index, id: nat)
    ensures Position(Joined(records, index), id) == Position(records, id)
    ensures Has(Joined(records, index), id) <==> Has(records, id)
  {
    var j := Joined(records, index);
    var p, q := Position(j, id), Position(records, id);
    assert forall i :: 0 <= i < |records| ==> j[i].key == records[i].key;
  }

  lemma JoinedUnique(records: seq<Entry>, index: Index)
    requires Unique(records)
    ensures Unique(Joined(records, index))
  {
  }

  lemma PutIsUpsert(c: Core, id: nat, v: Vec, m: Meta)
    requires Unique(c.sidecar.records)
    ensures Records(Put(c, id, v, m)) == Upsert(Records(c), Row(id, Stored(v, m)))
  {
    var records := c.sidecar.records;
    JoinedPosition(records, c.index, id);
    var p := Position(records, id);
    var after := Records(Put(c, id, v, m));
    forall i | 0 <= i < |records| && i != p ensures records[i].key != id {
    }
  }

  lemma {:induction false} JoinedRemove(records: seq<Entry>, index: Index, id: nat)
    ensures Joined(Remove(records, id), index) == Remove(Joined(records, index), id)
  {
    if records == [] {
    } else {
      JoinedRemove(records[1..], index, id);
      var j := Joined(records, index);
      assert j[1..] == Joined(records[1..], index);
      assert j[0].key == records[0].key;
    }
  }

  // ---------------------------------------------------------------- whole runs

  /** Inserts the adapter accepts, and deletes. */
  predicate Plain(op: Op, dim: nat) {
    match op
    case Ins(row) => |row.body.embedding| == dim
    case Del(_) => true
    case SetQuota(_) => false
  }

  function TenantApply(c: Core, op: Op): Core {
    match op
    case Ins(row) => Put(c, row.key, row.body.embedding, row.body.meta)
    case Del(id) => Drop(c, id)
    case SetQuota(_) => c
  }

  function TenantEmits(c: Core, op: Op): seq<Event> {
    match op
    case Ins(row) => [RecordInserted(row.key, row.body.meta.shareable)]
    case Del(id) => if Has(c.sidecar.records, id) then [RecordDeleted(id)] else []
    case SetQuota(_) => []
  }

  function TenantRun(c: Core, ops: seq<Op>): Core
    decreases |ops|
  {
    if ops == [] then c else TenantRun(TenantApply(c, ops[0]), ops[1..])
  }

  function TenantLog(c: Core, ops: seq<Op>): seq<Event>
    decreases |ops|
  {
    if ops == [] then [] else TenantEmits(c, ops[0]) + TenantLog(TenantApply(c, ops[0]), ops[1..])
  }

  /** The delete results of a run, in order. */
  function TenantDeletes(c: Core, ops: seq<Op>): seq<bool>
    decreases |ops|
  {
    if ops == [] then []
    else (if ops[0].Del? then [Has(c.sidecar.records, ops[0].id)] else [])
         + TenantDeletes(TenantApply(c, ops[0]), ops[1..])
  }

  function MockDeletes(s: MockState, ops: seq<Op>): seq<bool>
    decreases |ops|
  {
    if ops == [] then []
    else (if ops[0].Del? then [Has(s.records, ops[0].id)] else [])
         + MockDeletes(Apply(s, ops[0]), ops[1..])
  }

  lemma StepDropsIn(c: Core, op: Op)
    requires WellFormed(c) && Plain(op, c.index.dim)
    ensures var s := MockState(Records(c), UNLIMITED);
            && WellFormed(TenantApply(c, op)) && TenantApply(c, op).index.dim == c.index.dim
            && Apply(s, op) == MockState(Records(TenantApply(c, op)), UNLIMITED)
            && Emits(s, op) == TenantEmits(c, op)
            && (op.Del? ==> (Has(s.records, op.id) <==> Has(c.sidecar.records, op.id)))
  {
    match op
    case Ins(row) =>
      WritesKeepPairing(c, row.key, row.body.embedding, row.body.meta);
      PutIsUpsert(c, row.key, row.body.embedding, row.body.meta);
    case Del(id) =>
      DropKeepsPairing(c, id);
      JoinedRemove(c.sidecar.records, c.index, id);
      JoinedPosition(c.sidecar.records, c.index, id);
  }

  /** For every run of successful inserts and deletes, started from matching states, the adapter
      and the unlimited reference tenant end with the same records in the same order, broadcast
      the same events and answer every delete alike. */
  lemma {:induction false} RunDropsIn(c: Core, ops: seq<Op>)
    requires WellFormed(c) && forall i :: 0 <= i < |ops| ==> Plain(ops[i], c.index.dim)
    ensures var s := MockState(Records(c), UNLIMITED);
            && WellFormed(TenantRun(c, ops))
            && Records(TenantRun(c, ops)) == RunOps(s, ops).records
            && TenantLog(c, ops) == Log(s, ops)
            && TenantDeletes(c, ops) == MockDeletes(s, ops)
    decreases |ops|
  {
    if ops == [] {
    } else {
      StepDropsIn(c, ops[0]);
      RunDropsIn(TenantApply(c, ops[0]), ops[1..]);
    }
  }

  /** `iter_vectors` of both, after any such run: the same pairs in the same order. */
  lemma {:induction false} SameVectors(records: seq<Entry>, index: Index, readable: nat -> bool)
    requires Paired(records, index) && forall id :: readable(id)
    ensures var j := Joined(records, index);
            Vectors(records, index, readable)
            == seq(|j|, i requires 0 <= i < |j| => (j[i].key, j[i].body.embedding))
  {
    VectorsComplete(records, index, readable);
  }

  /** Started empty, deletes leave orphans in the index, and they never show. */
  lemma FreshRunDropsIn(id: TenantId, dim: nat, ops: seq<Op>, readable: nat -> bool)
    requires forall i :: 0 <= i < |ops| ==> Plain(ops[i], dim)
    requires forall k :: readable(k)
    ensures var c := TenantRun(Core(EmptySidecar(id, dim), Index(dim, map[])), ops);
            var s := RunOps(MockState([], UNLIMITED), ops);
            && |c.sidecar.records| == |s.records|
            && Vectors(c.sidecar.records, c.index, readable)
               == seq(|s.records|, i requires 0 <= i < |s.records| => (s.records[i].key, s.records[i].body.embedding))
            && TenantLog(Core(EmptySidecar(id, dim), Index(dim, map[])), ops) == Log(MockState([], UNLIMITED), ops)
  {
    var c0 := Core(EmptySidecar(id, dim), Index(dim, map[]));
    assert Records(c0) == [];
    RunDropsIn(c0, ops);
    var c := TenantRun(c0, ops);
    SameVectors(c.sidecar.records, c.index, readable);
  }

  // ---------------------------------------------------------------- filtered search

  /** The ranking an exact index gives: every stored vector once, by descending score. In which
      order it lists equal scores is its own affair: an index knows ids and vectors, not records. */
  predicate ExactRanking(ranking: seq<Scored>, c: Core, query: Vec, score: (Vec, Vec) -> real) {
    && IsRanking(ranking, c.index)
    && (forall i :: 0 <= i < |ranking| ==> ranking[i].similarity == score(query, c.index.vectors[ranking[i].id]))
    && ScoresDescend(ranking)
  }

  predicate ScoresDescend(cs: seq<Scored>) {
    forall i, j :: 0 <= i < j < |cs| ==> cs[i].similarity >= cs[j].similarity
  }

  /** Among equal scores, the first `k` of `ks` come in record order. */
  predicate TiesInRecordOrder(ks: seq<Scored>, rows: seq<Entry>, k: nat) {
    forall i, j :: 0 <= i < j < |ks| && i < k && ks[i].similarity == ks[j].similarity ==>
      Position(rows, ks[i].id) < Position(rows, ks[j].id)
  }

  /** Accepted records keep their order among the hits. */
  lemma {:induction false} HitsInRecordOrder(records: seq<MockRecord>, query: Vec, accept: Filter,
                                             score: (Vec, Vec) -> real, a: nat, b: nat)
    requires Unique(records) && a < b < |records|
    requires accept(records[a].key, records[a].body.meta.shareable, records[a].body.meta.tags)
    requires accept(records[b].key, records[b].body.meta.shareable, records[b].body.meta.tags)
    ensures var hs := Hits(records, query, accept, score);
            Pos(hs, records[a].key) < Pos(hs, records[b].key)
  {
    var hs := Hits(records, query, accept, score);
    var tail := Hits(records[1..], query, accept, score);
    if a == 0 {
      assert hs[0].id == records[0].key && records[b].key != records[0].key;
      PosCons(hs[0], tail, records[0].key);
      PosCons(hs[0], tail, records[b].key);
    } else {
      HitsInRecordOrder(records[1..], query, accept, score, a - 1, b - 1);
      if accept(records[0].key, records[0].body.meta.shareable, records[0].body.meta.tags) {
        assert hs == [hs[0]] + tail && hs[0].id == records[0].key;
        assert records[a].key != records[0].key && records[b].key != records[0].key;
        PosCons(hs[0], tail, records[a].key);
        PosCons(hs[0], tail, records[b].key);
      } else {
        assert hs == tail;
      }
    }
  }

  /** The eligible part of the ranking, as hits. */
  function Ranked(ranking: seq<Scored>, c: Core, accept: Filter, readable: nat -> bool): seq<Hit> {
    ToHits(Kept(ranking, c.sidecar.records, accept), c.sidecar.records, c.index, readable)
  }

  function MockHits(c: Core, query: Vec, accept: Filter, score: (Vec, Vec) -> real): seq<Hit> {
    Hits(Records(c), query, accept, score)
  }

  lemma HitAt(c: Core, query: Vec, accept: Filter, score: (Vec, Vec) -> real, id: nat)
    requires WellFormed(c) && Eligible(c.sidecar.records, accept, id)
    ensures var p := Position(c.sidecar.records, id);
            p < |Records(c)| && id in c.index.vectors
            && HitOf(Hit(id, score(query, c.index.vectors[id]), c.sidecar.records[p].body.payload,
                         Some(c.index.vectors[id])), Records(c)[p], query, accept, score)
  {
  }

  /** A ranked hit is the reference hit of a live accepted record. */
  lemma RankedHitIsReference(ranking: seq<Scored>, c: Core, query: Vec, accept: Filter, score: (Vec, Vec) -> real,
                             readable: nat -> bool, i: nat)
    requires WellFormed(c) && ExactRanking(ranking, c, query, score) && forall id :: readable(id)
    requires i < |Ranked(ranking, c, accept, readable)|
    ensures Ranked(ranking, c, accept, readable)[i] in MockHits(c, query, accept, score)
  {
    var kept := Kept(ranking, c.sidecar.records, accept);
    KeptIsFilter(ranking, c.sidecar.records, accept);
    assert kept[i] in kept;
    HitAt(c, query, accept, score, kept[i].id);
    HitsAreAcceptedRecords(Records(c), query, accept, score);
  }

  /** Every reference hit is ranked. */
  lemma ReferenceHitIsRanked(ranking: seq<Scored>, c: Core, query: Vec, accept: Filter, score: (Vec, Vec) -> real,
                             readable: nat -> bool, h: Hit)
    requires WellFormed(c) && ExactRanking(ranking, c, query, score) && forall id :: readable(id)
    requires h in MockHits(c, query, accept, score)
    ensures h in Ranked(ranking, c, accept, readable)
  {
    var j := ReferenceHitRecord(c, query, accept, score, h);
    var kept := Kept(ranking, c.sidecar.records, accept);
    var i :| 0 <= i < |ranking| && ranking[i].id == h.id;
    KeptIsFilter(ranking, c.sidecar.records, accept);
    assert ranking[i] in kept;
    var k :| 0 <= k < |kept| && kept[k] == ranking[i];
    RankedAt(ranking, c, accept, readable, k);
    assert Ranked(ranking, c, accept, readable)[k] == h;
  }

  /** The record a reference hit comes from. */
  lemma ReferenceHitRecord(c: Core, query: Vec, accept: Filter, score: (Vec, Vec) -> real, h: Hit) returns (j: nat)
    requires WellFormed(c) && h in MockHits(c, query, accept, score)
    ensures h.id in c.index.vectors && Eligible(c.sidecar.records, accept, h.id)
    ensures j < |c.sidecar.records| && Lookup(c.sidecar.records, h.id) == Some(c.sidecar.records[j].body)
    ensures h == Hit(h.id, score(query, c.index.vectors[h.id]), c.sidecar.records[j].body.payload,
                     Some(c.index.vectors[h.id]))
  {
    HitsAreAcceptedRecords(Records(c), query, accept, score);
    j :| 0 <= j < |Records(c)| && HitOf(h, Records(c)[j], query, accept, score);
    LookupAt(c.sidecar.records, j);
  }

  lemma RankedAt(ranking: seq<Scored>, c: Core, accept: Filter, readable: nat -> bool, k: nat)
    requires k < |Kept(ranking, c.sidecar.records, accept)|
    ensures |Ranked(ranking, c, accept, readable)| == |Kept(ranking, c.sidecar.records, accept)|
    ensures Ranked(ranking, c, accept, readable)[k]
            == ToHit(Kept(ranking, c.sidecar.records, accept)[k], c.sidecar.records, c.index, readable)
  {
  }

  /** Ranked hits and reference hits are the same hits, each once. */
  lemma RankedIsRearrangement(ranking: seq<Scored>, c: Core, query: Vec, accept: Filter,
                              score: (Vec, Vec) -> real, readable: nat -> bool)
    requires WellFormed(c) && ExactRanking(ranking, c, query, score) && forall id :: readable(id)
    ensures forall h :: h in Ranked(ranking, c, accept, readable) <==> h in MockHits(c, query, accept, score)
    ensures |Ranked(ranking, c, accept, readable)| == |MockHits(c, query, accept, score)|
  {
    var ranked, hits := Ranked(ranking, c, accept, readable), MockHits(c, query, accept, score);
    forall h ensures h in ranked <==> h in hits {
      if h in ranked {
        var i :| 0 <= i < |ranked| && ranked[i] == h;
        RankedHitIsReference(ranking, c, query, accept, score, readable, i);
      }
      if h in hits {
        ReferenceHitIsRanked(ranking, c, query, accept, score, readable, h);
      }
    }
    KeptIsFilter(ranking, c.sidecar.records, accept);
    JoinedUnique(c.sidecar.records, c.index);
    HitsAreAcceptedRecords(Records(c), query, accept, score);
    SameLength(ranked, hits);
  }

  lemma {:induction false} KeptDescends(ranking: seq<Scored>, rows: seq<Entry>, accept: Filter)
    requires ScoresDescend(ranking)
    ensures ScoresDescend(Kept(ranking, rows, accept))
  {
    if ranking == [] {
    } else {
      var tail := ranking[1..];
      assert forall i :: 0 <= i < |tail| ==> tail[i] == ranking[i + 1];
      KeptDescends(tail, rows, accept);
      var rest := Kept(tail, rows, accept);
      forall j | 0 <= j < |rest| ensures ranking[0].similarity >= rest[j].similarity {
        var i := KeptFrom(tail, rows, accept, j);
      }
      ConsDescends(ranking[0], rest);
    }
  }

  lemma ConsDescends(c: Scored, rest: seq<Scored>)
    requires ScoresDescend(rest) && forall j :: 0 <= j < |rest| ==> c.similarity >= rest[j].similarity
    ensures ScoresDescend([c] + rest) && ScoresDescend([] + rest)
  {
    assert [] + rest == rest;
    forall i, j | 0 <= i < j < |[c] + rest| ensures ([c] + rest)[i].similarity >= ([c] + rest)[j].similarity {
      assert i > 0 ==> rest[i - 1].similarity >= rest[j - 1].similarity;
    }
  }

  lemma RankedDescends(ranking: seq<Scored>, c: Core, query: Vec, accept: Filter, score: (Vec, Vec) -> real,
                       readable: nat -> bool)
    requires WellFormed(c) && ExactRanking(ranking, c, query, score)
    ensures Descends(Ranked(ranking, c, accept, readable)) && DistinctIds(Ranked(ranking, c, accept, readable))
  {
    KeptDescends(ranking, c.sidecar.records, accept);
    KeptIsFilter(ranking, c.sidecar.records, accept);
  }

  /** Among ranked hits of equal score, ranking before means standing before in the records. */
  lemma BeforeIsRecordOrder(ranking: seq<Scored>, c: Core, query: Vec, accept: Filter, score: (Vec, Vec) -> real,
                            readable: nat -> bool, i: nat, j: nat)
    requires WellFormed(c) && ExactRanking(ranking, c, query, score) && forall id :: readable(id)
    requires i < j < |Ranked(ranking, c, accept, readable)|
    ensures var rows, ks := c.sidecar.records, Kept(ranking, c.sidecar.records, accept);
            var ranked := Ranked(ranking, c, accept, readable);
            Before(MockHits(c, query, accept, score), ranked[i], ranked[j])
            <==> (ks[i].similarity == ks[j].similarity ==> Position(rows, ks[i].id) < Position(rows, ks[j].id))
  {
    var rows := c.sidecar.records;
    var ks := Kept(ranking, rows, accept);
    KeptDescends(ranking, rows, accept);
    KeptIsFilter(ranking, rows, accept);
    JoinedUnique(rows, c.index);
    assert ks[i] in ks && ks[j] in ks;
    var a, b := Position(rows, ks[i].id), Position(rows, ks[j].id);
    if a < b {
      HitsInRecordOrder(Records(c), query, accept, score, a, b);
    } else {
      HitsInRecordOrder(Records(c), query, accept, score, b, a);
    }
  }

  lemma SortedIsRecordOrder(ranking: seq<Scored>, c: Core, query: Vec, accept: Filter, score: (Vec, Vec) -> real,
                            readable: nat -> bool, k: nat)
    requires WellFormed(c) && ExactRanking(ranking, c, query, score) && forall id :: readable(id)
    ensures SortedTo(Ranked(ranking, c, accept, readable), MockHits(c, query, accept, score), k)
            <==> TiesInRecordOrder(Kept(ranking, c.sidecar.records, accept), c.sidecar.records, k)
  {
    var ranked, hits := Ranked(ranking, c, accept, readable), MockHits(c, query, accept, score);
    var rows, ks := c.sidecar.records, Kept(ranking, c.sidecar.records, accept);
    forall i, j | 0 <= i < j < |ranked|
      ensures Before(hits, ranked[i], ranked[j])
              <==> (ks[i].similarity == ks[j].similarity ==> Position(rows, ks[i].id) < Position(rows, ks[j].id))
    {
      BeforeIsRecordOrder(ranking, c, query, accept, score, readable, i, j);
    }
  }

  // ---------------------------------------------------------------- exact hits, reference hits

  function ExactHits(ranking: seq<Scored>, c: Core, topK: nat, accept: Filter, readable: nat -> bool): seq<Hit> {
    ToHits(Exact(ranking, c.sidecar.records, accept, topK), c.sidecar.records, c.index, readable)
  }

  /** What the adapter returns over this ranking. */
  function AdapterHits(ranking: seq<Scored>, c: Core, topK: nat, accept: Filter, readable: nat -> bool): seq<Hit> {
    ToHits(Oversampled(ranking, c.sidecar.records, accept, topK), c.sidecar.records, c.index, readable)
  }

  /** What the reference tenant returns: the stable sort of its accepted records, cut. */
  function ReferenceHits(c: Core, query: Vec, topK: nat, accept: Filter, score: (Vec, Vec) -> real): seq<Hit> {
    Take(SortDesc(MockHits(c, query, accept, score)), topK)
  }

  lemma ExactIsTake(ranking: seq<Scored>, c: Core, topK: nat, accept: Filter, readable: nat -> bool)
    ensures ExactHits(ranking, c, topK, accept, readable) == Take(Ranked(ranking, c, accept, readable), topK)
  {
  }

  /** However equal scores are ordered, the exact answer has at every limit the scores of the
      reference answer, place by place. */
  lemma ExactScoresAreReference(ranking: seq<Scored>, c: Core, query: Vec, topK: nat, accept: Filter,
                                score: (Vec, Vec) -> real, readable: nat -> bool)
    requires WellFormed(c) && ExactRanking(ranking, c, query, score) && forall id :: readable(id)
    ensures Similarities(ExactHits(ranking, c, topK, accept, readable))
            == Similarities(ReferenceHits(c, query, topK, accept, score))
  {
    var ranked, hits := Ranked(ranking, c, accept, readable), MockHits(c, query, accept, score);
    RankedIsRearrangement(ranking, c, query, accept, score, readable);
    RankedDescends(ranking, c, query, accept, score, readable);
    MockHitsDistinct(c, query, accept, score);
    SortMembers(hits);
    SortSorted(hits);
    SortDistinct(hits);
    SameSimilarities(ranked, SortDesc(hits));
    ExactIsTake(ranking, c, topK, accept, readable);
    TakeSimilarities(ranked, SortDesc(hits), topK);
  }

  lemma TakeSimilarities(a: seq<Hit>, b: seq<Hit>, k: nat)
    requires Similarities(a) == Similarities(b)
    ensures Similarities(Take(a, k)) == Similarities(Take(b, k))
  {
    assert |a| == |Similarities(a)| == |b|;
    forall i | 0 <= i < |Take(a, k)| ensures Take(a, k)[i].similarity == Take(b, k)[i].similarity {
      assert Similarities(a)[i] == Similarities(b)[i];
    }
  }

  lemma MockHitsDistinct(c: Core, query: Vec, accept: Filter, score: (Vec, Vec) -> real)
    requires WellFormed(c)
    ensures DistinctIds(MockHits(c, query, accept, score))
  {
    JoinedUnique(c.sidecar.records, c.index);
    HitsAreAcceptedRecords(Records(c), query, accept, score);
  }

  /** The exact answer is the reference answer, hit by hit, if and only if the index lists equal
      scores in record order as far as the limit reaches. */
  lemma ExactIsReferenceExactlyWhen(ranking: seq<Scored>, c: Core, query: Vec, topK: nat, accept: Filter,
                                    score: (Vec, Vec) -> real, readable: nat -> bool)
    requires WellFormed(c) && ExactRanking(ranking, c, query, score) && forall id :: readable(id)
    ensures ExactHits(ranking, c, topK, accept, readable) == ReferenceHits(c, query, topK, accept, score)
            <==> TiesInRecordOrder(Kept(ranking, c.sidecar.records, accept), c.sidecar.records, topK)
  {
    var hits := MockHits(c, query, accept, score);
    RankedIsRearrangement(ranking, c, query, accept, score, readable);
    RankedDescends(ranking, c, query, accept, score, readable);
    MockHitsDistinct(c, query, accept, score);
    ExactIsTake(ranking, c, topK, accept, readable);
    TakeIsTopKExactlyWhen(Ranked(ranking, c, accept, readable), hits, topK);
    SortedIsRecordOrder(ranking, c, query, accept, score, readable, topK);
    SortTakeIsTopK(hits, topK, ExactHits(ranking, c, topK, accept, readable));
  }

  /** Enough: no two live accepted records have the same score. */
  lemma DistinctScoresSuffice(ranking: seq<Scored>, c: Core, query: Vec, topK: nat, accept: Filter,
                              score: (Vec, Vec) -> real, readable: nat -> bool)
    requires WellFormed(c) && ExactRanking(ranking, c, query, score) && forall id :: readable(id)
    requires forall a, b :: a != b && Eligible(c.sidecar.records, accept, a) && Eligible(c.sidecar.records, accept, b) ==>
               a in c.index.vectors && b in c.index.vectors
               && score(query, c.index.vectors[a]) != score(query, c.index.vectors[b])
    ensures ExactHits(ranking, c, topK, accept, readable) == ReferenceHits(c, query, topK, accept, score)
  {
    var ks := Kept(ranking, c.sidecar.records, accept);
    KeptIsFilter(ranking, c.sidecar.records, accept);
    forall i, j | 0 <= i < j < |ks| ensures ks[i].similarity != ks[j].similarity {
      assert ks[i] in ks && ks[j] in ks;
      assert ks[i].id != ks[j].id;
    }
    ExactIsReferenceExactlyWhen(ranking, c, query, topK, accept, score, readable);
  }

  predicate RecordOrdered(a: Scored, b: Scored, rows: seq<Entry>) {
    a.similarity == b.similarity && Has(rows, a.id) && Has(rows, b.id) ==> Position(rows, a.id) < Position(rows, b.id)
  }

  /** The index happens to list equal scores among live records in record order. */
  predicate RecordOrderRanking(ranking: seq<Scored>, rows: seq<Entry>) {
    forall i, j :: 0 <= i < j < |ranking| ==> RecordOrdered(ranking[i], ranking[j], rows)
  }

  lemma {:induction false} KeptInRecordOrder(ranking: seq<Scored>, rows: seq<Entry>, accept: Filter)
    requires RecordOrderRanking(ranking, rows)
    ensures RecordOrderRanking(Kept(ranking, rows, accept), rows)
  {
    if ranking == [] {
    } else {
      var tail := ranking[1..];
      assert forall i :: 0 <= i < |tail| ==> tail[i] == ranking[i + 1];
      KeptInRecordOrder(tail, rows, accept);
      var rest := Kept(tail, rows, accept);
      forall j | 0 <= j < |rest| ensures RecordOrdered(ranking[0], rest[j], rows) {
        var i := KeptFrom(tail, rows, accept, j);
        assert RecordOrdered(ranking[0], ranking[i + 1], rows);
      }
      ConsInRecordOrder(ranking[0], rest, rows);
    }
  }

  lemma ConsInRecordOrder(c: Scored, rest: seq<Scored>, rows: seq<Entry>)
    requires RecordOrderRanking(rest, rows) && forall j :: 0 <= j < |rest| ==> RecordOrdered(c, rest[j], rows)
    ensures RecordOrderRanking([c] + rest, rows) && RecordOrderRanking([] + rest, rows)
  {
    assert [] + rest == rest;
    forall i, j | 0 <= i < j < |[c] + rest| ensures RecordOrdered(([c] + rest)[i], ([c] + rest)[j], rows) {
      assert i > 0 ==> RecordOrdered(rest[i - 1], rest[j - 1], rows);
    }
  }

  /** Over an index that does, the exact answer is the reference answer, ties included. */
  lemma ExactIsReference(ranking: seq<Scored>, c: Core, query: Vec, topK: nat, accept: Filter,
                         score: (Vec, Vec) -> real, readable: nat -> bool)
    requires WellFormed(c) && ExactRanking(ranking, c, query, score) && forall id :: readable(id)
    requires RecordOrderRanking(ranking, c.sidecar.records)
    ensures ExactHits(ranking, c, topK, accept, readable) == ReferenceHits(c, query, topK, accept, score)
  {
    var rows, ks := c.sidecar.records, Kept(ranking, c.sidecar.records, accept);
    KeptInRecordOrder(ranking, rows, accept);
    KeptIsFilter(ranking, rows, accept);
    forall i, j | 0 <= i < j < |ks| && ks[i].similarity == ks[j].similarity
      ensures Position(rows, ks[i].id) < Position(rows, ks[j].id)
    {
      assert ks[i] in ks && ks[j] in ks && RecordOrdered(ks[i], ks[j], rows);
    }
    ExactIsReferenceExactlyWhen(ranking, c, query, topK, accept, score, readable);
  }

  // ---------------------------------------------------------------- the adapter, the reference

  /** The oversample holds `topK` eligible candidates, or nothing eligible is ranked beyond it. */
  predicate ReachesFarEnough(ranking: seq<Scored>, rows: seq<Entry>, accept: Filter, topK: nat) {
    var n := if topK < 16 then 64 else 4 * topK;
    || |Kept(Take(ranking, n), rows, accept)| >= topK
    || forall i :: n <= i < |ranking| ==> !Eligible(rows, accept, ranking[i].id)
  }

  lemma AdapterIsExactWhenAsLong(ranking: seq<Scored>, c: Core, topK: nat, accept: Filter, readable: nat -> bool)
    requires topK >= 1
    ensures var adapter, exact := AdapterHits(ranking, c, topK, accept, readable), ExactHits(ranking, c, topK, accept, readable);
            && (adapter == exact <==> |adapter| == |exact|)
            && (adapter == exact <==> ReachesFarEnough(ranking, c.sidecar.records, accept, topK))
  {
    var rows := c.sidecar.records;
    OversampledIsPrefix(ranking, rows, accept, topK);
    OversampledExactlyWhen(ranking, rows, accept, topK);
    var over, exact := Oversampled(ranking, rows, accept, topK), Exact(ranking, rows, accept, topK);
    assert |over| == |exact| ==> over == exact;
    assert |AdapterHits(ranking, c, topK, accept, readable)| == |over|;
  }

  /** The adapter's search finds the scores the reference tenant finds, place by place, if and only
      if the oversample reaches far enough; ties cannot disturb it. */
  lemma SearchScoresDropInExactlyWhen(ranking: seq<Scored>, c: Core, query: Vec, topK: nat, accept: Filter,
                                      score: (Vec, Vec) -> real, readable: nat -> bool)
    requires WellFormed(c) && ExactRanking(ranking, c, query, score) && (forall id :: readable(id)) && topK >= 1
    ensures Similarities(AdapterHits(ranking, c, topK, accept, readable))
            == Similarities(ReferenceHits(c, query, topK, accept, score))
            <==> ReachesFarEnough(ranking, c.sidecar.records, accept, topK)
  {
    var adapter, exact := AdapterHits(ranking, c, topK, accept, readable), ExactHits(ranking, c, topK, accept, readable);
    ExactScoresAreReference(ranking, c, query, topK, accept, score, readable);
    AdapterIsExactWhenAsLong(ranking, c, topK, accept, readable);
    assert |Similarities(adapter)| == |adapter| && |Similarities(exact)| == |exact|;
  }

  /** The adapter's search gives the reference answer, hit by hit, if and only if the oversample
      reaches far enough and the index lists equal scores in record order as far as the limit
      reaches. */
  lemma SearchDropsInExactlyWhen(ranking: seq<Scored>, c: Core, query: Vec, topK: nat, accept: Filter,
                                 score: (Vec, Vec) -> real, readable: nat -> bool)
    requires WellFormed(c) && ExactRanking(ranking, c, query, score) && (forall id :: readable(id)) && topK >= 1
    ensures AdapterHits(ranking, c, topK, accept, readable) == ReferenceHits(c, query, topK, accept, score)
            <==> ReachesFarEnough(ranking, c.sidecar.records, accept, topK)
                 && TiesInRecordOrder(Kept(ranking, c.sidecar.records, accept), c.sidecar.records, topK)
  {
    SearchScoresDropInExactlyWhen(ranking, c, query, topK, accept, score, readable);
    AdapterIsExactWhenAsLong(ranking, c, topK, accept, readable);
    ExactIsReferenceExactlyWhen(ranking, c, query, topK, accept, score, readable);
  }
}
