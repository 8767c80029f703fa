/** Runs of inserts and deletes after which the adapter's search and the reference tenant's differ:
    the conditions of the drop-in theorems do fail. */
module SearchRuns {
  import opened Keyed
  import opened TenantState
  import opened Query
  import opened TopK
  import opened Mock
  import opened DropIn

  function Fresh(id: TenantId, dim: nat): Core {
    Core(EmptySidecar(id, dim), Index(dim, map[]))
  }

  function Put1(key: nat, v: Vec, m: Meta): Op { Ins(Row(key, Stored(v, m))) }

  lemma {:induction false} RunAppend(c: Core, a: seq<Op>, b: seq<Op>)
    ensures TenantRun(c, a + b) == TenantRun(TenantRun(c, a), b)
    decreases |a|
  {
    if a == [] {
      assert a + b == b;
    } else {
      assert (a + b)[1..] == a[1..] + b;
      RunAppend(TenantApply(c, a[0]), a[1..], b);
    }
  }

  lemma RunOne(c: Core, op: Op)
    ensures TenantRun(c, [op]) == TenantApply(c, op)
  {
    assert [op][1..] == [];
  }

  // ---------------------------------------------------------------- orphans crowd a record out

  /** Insert and delete the ids below `n`, each leaving its vector behind. */
  function Churn(n: nat, near: Vec, m: Meta): seq<Op> {
    if n == 0 then [] else Churn(n - 1, near, m) + [Put1(n - 1, near, m), Del(n - 1)]
  }

  /** Then insert `k` records that stay. */
  function Fill(n: nat, k: nat, near: Vec, far: Vec, m: Meta): seq<Op> {
    if k == 0 then Churn(n, near, m) else Fill(n, k - 1, near, far, m) + [Put1(n + k - 1, far, m)]
  }

  function LiveRows(n: nat, k: nat, m: Meta): seq<Entry> {
    seq(k, i requires 0 <= i < k => Row(n + i, m))
  }

  function Below(n: nat): (ids: set<nat>)
    ensures forall i: nat :: i in ids <==> i < n
  {
    if n == 0 then {} else Below(n - 1) + {n - 1}
  }

  function VectorsOf(n: nat, k: nat, near: Vec, far: Vec): (vs: map<nat, Vec>)
    ensures forall i: nat :: i in vs <==> i < n + k
    ensures forall i: nat :: i in vs ==> vs[i] == VectorAt(i, n, near, far)
  {
    var ids := Below(n + k);
    var vs := map i | i in ids :: VectorAt(i, n, near, far);
    assert vs.Keys == ids;
    vs
  }

  function VectorAt(i: nat, n: nat, near: Vec, far: Vec): Vec { if i < n then near else far }

  lemma {:induction false} AfterChurn(id: TenantId, dim: nat, n: nat, near: Vec, far: Vec, m: Meta)
    ensures TenantRun(Fresh(id, dim), Churn(n, near, m))
            == Core(EmptySidecar(id, dim), Index(dim, VectorsOf(n, 0, near, far)))
  {
    if n == 0 {
      assert VectorsOf(0, 0, near, far) == map[];
    } else {
      AfterChurn(id, dim, n - 1, near, far, m);
      var c := TenantRun(Fresh(id, dim), Churn(n - 1, near, m));
      var put, del := Put1(n - 1, near, m), Del(n - 1);
      assert Churn(n, near, m) == Churn(n - 1, near, m) + [put] + [del];
      RunEnd(Fresh(id, dim), Churn(n - 1, near, m), put);
      RunEnd(Fresh(id, dim), Churn(n - 1, near, m) + [put], del);
      assert VectorsOf(n - 1, 0, near, far)[n - 1 := near] == VectorsOf(n, 0, near, far);
      OneRowGone(n - 1, m);
    }
  }

  lemma OneRowGone(key: nat, m: Meta)
    ensures Upsert<nat, Meta>([], Row(key, m)) == [Row(key, m)]
    ensures Remove<nat, Meta>([Row(key, m)], key) == []
  {
    assert [Row(key, m)][1..] == [];
  }

  lemma {:induction false} AfterFill(id: TenantId, dim: nat, n: nat, k: nat, near: Vec, far: Vec, m: Meta)
    ensures TenantRun(Fresh(id, dim), Fill(n, k, near, far, m))
            == Core(Sidecar(id, dim, LiveRows(n, k, m)), Index(dim, VectorsOf(n, k, near, far)))
  {
    if k == 0 {
      AfterChurn(id, dim, n, near, far, m);
    } else {
      AfterFill(id, dim, n, k - 1, near, far, m);
      RunEnd(Fresh(id, dim), Fill(n, k - 1, near, far, m), Put1(n + k - 1, far, m));
      OneMoreRow(id, dim, n, k, near, far, m);
    }
  }

  lemma RunEnd(c: Core, ops: seq<Op>, op: Op)
    ensures TenantRun(c, ops + [op]) == TenantApply(TenantRun(c, ops), op)
  {
    RunAppend(c, ops, [op]);
    RunOne(TenantRun(c, ops), op);
  }

  lemma OneMoreRow(id: TenantId, dim: nat, n: nat, k: nat, near: Vec, far: Vec, m: Meta)
    requires k > 0
    ensures TenantApply(Core(Sidecar(id, dim, LiveRows(n, k - 1, m)), Index(dim, VectorsOf(n, k - 1, near, far))),
                        Put1(n + k - 1, far, m))
            == Core(Sidecar(id, dim, LiveRows(n, k, m)), Index(dim, VectorsOf(n, k, near, far)))
  {
    assert VectorsOf(n, k - 1, near, far)[n + k - 1 := far] == VectorsOf(n, k, near, far);
    RowAppended(n, k, m);
  }

  lemma RowAppended(n: nat, k: nat, m: Meta)
    requires k > 0
    ensures Upsert(LiveRows(n, k - 1, m), Row(n + k - 1, m)) == LiveRows(n, k, m)
  {
    assert !Has(LiveRows(n, k - 1, m), n + k - 1);
  }

  /** The whole index in id order, the orphans first. */
  function Listing(n: nat, k: nat, high: real, low: real): seq<Scored> {
    seq(n + k, i requires 0 <= i < n + k => Scored(i, if i < n then high else low))
  }

  lemma ListingIsExact(id: TenantId, dim: nat, n: nat, k: nat, near: Vec, far: Vec, m: Meta, query: Vec,
                       score: (Vec, Vec) -> real)
    requires |near| == |far| == dim && score(query, near) >= score(query, far)
    ensures var c := Core(Sidecar(id, dim, LiveRows(n, k, m)), Index(dim, VectorsOf(n, k, near, far)));
            && WellFormed(c)
            && ExactRanking(Listing(n, k, score(query, near), score(query, far)), c, query, score)
            && RecordOrderRanking(Listing(n, k, score(query, near), score(query, far)), c.sidecar.records)
  {
    ListingIsRanking(dim, n, k, near, far, score(query, near), score(query, far));
    ListingInRecordOrder(n, k, score(query, near), score(query, far), m);
  }

  lemma ListingIsRanking(dim: nat, n: nat, k: nat, near: Vec, far: Vec, high: real, low: real)
    ensures IsRanking(Listing(n, k, high, low), Index(dim, VectorsOf(n, k, near, far)))
  {
    var ranking := Listing(n, k, high, low);
    forall key: nat | key in VectorsOf(n, k, near, far) ensures exists i :: 0 <= i < |ranking| && ranking[i].id == key {
      assert ranking[key].id == key;
    }
  }

  lemma ListingInRecordOrder(n: nat, k: nat, high: real, low: real, m: Meta)
    ensures RecordOrderRanking(Listing(n, k, high, low), LiveRows(n, k, m))
  {
    var ranking, rows := Listing(n, k, high, low), LiveRows(n, k, m);
    forall i, j | 0 <= i < j < |ranking| ensures RecordOrdered(ranking[i], ranking[j], rows) {
      if Has(rows, ranking[i].id) && Has(rows, ranking[j].id) {
        var a, b := Position(rows, ranking[i].id), Position(rows, ranking[j].id);
        assert rows[a].key == i && rows[b].key == j;
      }
    }
  }

  lemma ListingSplits(n: nat, k: nat, high: real, low: real, m: Meta, accept: Filter)
    requires forall i: nat :: accept(i, m.shareable, m.tags)
    ensures var all, rows := Listing(n, k, high, low), LiveRows(n, k, m);
            && (forall i :: 0 <= i < n ==> !Eligible(rows, accept, all[i].id))
            && (forall i :: n <= i < n + k ==> Eligible(rows, accept, all[i].id))
  {
    var all, rows := Listing(n, k, high, low), LiveRows(n, k, m);
    forall i | n <= i < n + k ensures Eligible(rows, accept, all[i].id) {
      assert rows[i - n].key == i && Has(rows, i);
    }
    forall i | 0 <= i < n ensures !Eligible(rows, accept, all[i].id) {
      assert !Has(rows, i);
    }
  }

  /** At every limit, a run that inserts and deletes one record more than the slack allows, all of
      them nearer to the query than the `topK` records it then keeps, makes the adapter miss the
      last of those: it returns one hit fewer than the reference tenant after the same run. */
  lemma OrphansHideALiveRecord(id: TenantId, dim: nat, near: Vec, far: Vec, m: Meta, query: Vec,
                               score: (Vec, Vec) -> real, accept: Filter, topK: nat, readable: nat -> bool)
    requires topK >= 1 && |near| == |far| == dim && score(query, near) > score(query, far)
    requires (forall i: nat :: accept(i, m.shareable, m.tags)) && forall i :: readable(i)
    ensures var n := (if topK < 16 then 64 else 4 * topK) - topK + 1;
            var c := TenantRun(Fresh(id, dim), Fill(n, topK, near, far, m));
            var ranking := Listing(n, topK, score(query, near), score(query, far));
            && WellFormed(c) && ExactRanking(ranking, c, query, score)
            && |ReferenceHits(c, query, topK, accept, score)| == topK
            && AdapterHits(ranking, c, topK, accept, readable)
               == ReferenceHits(c, query, topK, accept, score)[..topK - 1]
  {
    var n := (if topK < 16 then 64 else 4 * topK) - topK + 1;
    FilledRunMissesTheLast(id, dim, near, far, m, query, score, accept, topK, n, readable);
  }

  lemma FilledRunMissesTheLast(id: TenantId, dim: nat, near: Vec, far: Vec, m: Meta, query: Vec,
                               score: (Vec, Vec) -> real, accept: Filter, topK: nat, n: nat, readable: nat -> bool)
    requires topK >= 1 && |near| == |far| == dim && score(query, near) > score(query, far)
    requires (forall i: nat :: accept(i, m.shareable, m.tags)) && forall i :: readable(i)
    requires n == Oversample(topK) - topK + 1
    ensures var c := TenantRun(Fresh(id, dim), Fill(n, topK, near, far, m));
            var ranking := Listing(n, topK, score(query, near), score(query, far));
            && WellFormed(c) && ExactRanking(ranking, c, query, score)
            && |ReferenceHits(c, query, topK, accept, score)| == topK
            && AdapterHits(ranking, c, topK, accept, readable)
               == ReferenceHits(c, query, topK, accept, score)[..topK - 1]
  {
    var high, low := score(query, near), score(query, far);
    AfterFill(id, dim, n, topK, near, far, m);
    var c := TenantRun(Fresh(id, dim), Fill(n, topK, near, far, m));
    ListingIsExact(id, dim, n, topK, near, far, m, query, score);
    ListingSplits(n, topK, high, low, m, accept);
    MissesTheLast(c, Listing(n, topK, high, low), n, query, score, accept, topK, readable);
  }

  lemma MissesTheLast(c: Core, ranking: seq<Scored>, n: nat, query: Vec, score: (Vec, Vec) -> real, accept: Filter,
                      topK: nat, readable: nat -> bool)
    requires topK >= 1 && n == Oversample(topK) - topK + 1 && |ranking| == n + topK && forall i :: readable(i)
    requires WellFormed(c) && ExactRanking(ranking, c, query, score) && RecordOrderRanking(ranking, c.sidecar.records)
    requires forall i :: 0 <= i < n ==> !Eligible(c.sidecar.records, accept, ranking[i].id)
    requires forall i :: n <= i < n + topK ==> Eligible(c.sidecar.records, accept, ranking[i].id)
    ensures |ReferenceHits(c, query, topK, accept, score)| == topK
    ensures AdapterHits(ranking, c, topK, accept, readable)
            == ReferenceHits(c, query, topK, accept, score)[..topK - 1]
  {
    ExactIsReference(ranking, c, query, topK, accept, score, readable);
    var bad, good := ranking[..n], ranking[n..];
    assert ranking == bad + good;
    SlackIsTight(bad, good, c.sidecar.records, accept, topK);
    HitsPrefix(good, c, topK - 1, readable);
  }

  lemma HitsPrefix(cs: seq<Scored>, c: Core, n: nat, readable: nat -> bool)
    requires n <= |cs|
    ensures |ToHits(cs, c.sidecar.records, c.index, readable)| == |cs|
    ensures ToHits(cs[..n], c.sidecar.records, c.index, readable)
            == ToHits(cs, c.sidecar.records, c.index, readable)[..n]
  {
  }

  // ---------------------------------------------------------------- ties

  /** Deleting and re-inserting a record moves it to the end of the records but not of the index. */
  function Moved(v: Vec, m: Meta): seq<Op> { [Put1(0, v, m)] + [Put1(1, v, m)] + [Del(0)] + [Put1(0, v, m)] }

  lemma AfterMoved(id: TenantId, dim: nat, v: Vec, m: Meta)
    ensures TenantRun(Fresh(id, dim), Moved(v, m))
            == Core(Sidecar(id, dim, [Row(1, m), Row(0, m)]), Index(dim, map[0 := v, 1 := v]))
  {
    var c := Fresh(id, dim);
    var ops := [Put1(0, v, m)] + [Put1(1, v, m)] + [Del(0)];
    RunAppend(c, ops, [Put1(0, v, m)]);
    RunAppend(c, [Put1(0, v, m)] + [Put1(1, v, m)], [Del(0)]);
    RunAppend(c, [Put1(0, v, m)], [Put1(1, v, m)]);
    RunOne(c, Put1(0, v, m));
    var c1 := Core(Sidecar(id, dim, [Row(0, m)]), Index(dim, map[0 := v]));
    assert TenantApply(c, Put1(0, v, m)) == c1;
    RunOne(c1, Put1(1, v, m));
    var c2 := Core(Sidecar(id, dim, [Row(0, m), Row(1, m)]), Index(dim, map[0 := v, 1 := v]));
    assert TenantApply(c1, Put1(1, v, m)) == c2 by {
      assert [Row(0, m)] + [Row(1, m)] == [Row(0, m), Row(1, m)];
      assert Position([Row(0, m)], 1) == 1;
    }
    RunOne(c2, Del(0));
    var c3 := Core(Sidecar(id, dim, [Row(1, m)]), Index(dim, map[0 := v, 1 := v]));
    assert TenantApply(c2, Del(0)) == c3 by {
      assert [Row(0, m), Row(1, m)][1..] == [Row(1, m)] && [Row(1, m)][1..] == [];
      assert Remove([Row(1, m)], 0) == [Row(1, m)];
    }
    RunOne(c3, Put1(0, v, m));
    assert [Row(1, m)] + [Row(0, m)] == [Row(1, m), Row(0, m)];
    assert map[0 := v, 1 := v][0 := v] == map[0 := v, 1 := v];
  }

  /** An index that lists equal scores by id then answers the moved record first, where the
      reference tenant answers the other: the scores agree, the hits do not. */
  lemma TiesCanDiffer(id: TenantId, v: Vec, m: Meta, query: Vec, score: (Vec, Vec) -> real, accept: Filter,
                      readable: nat -> bool)
    requires (forall i: nat :: accept(i, m.shareable, m.tags)) && forall i :: readable(i)
    ensures var c := TenantRun(Fresh(id, |v|), Moved(v, m));
            var ranking := [Scored(0, score(query, v)), Scored(1, score(query, v))];
            && WellFormed(c) && ExactRanking(ranking, c, query, score)
            && ReachesFarEnough(ranking, c.sidecar.records, accept, 1)
            && AdapterHits(ranking, c, 1, accept, readable) != ReferenceHits(c, query, 1, accept, score)
            && Similarities(AdapterHits(ranking, c, 1, accept, readable))
               == Similarities(ReferenceHits(c, query, 1, accept, score))
  {
    AfterMoved(id, |v|, v, m);
    var rows := [Row(1, m), Row(0, m)];
    var c := Core(Sidecar(id, |v|, rows), Index(|v|, map[0 := v, 1 := v]));
    var ranking := [Scored(0, score(query, v)), Scored(1, score(query, v))];
    MovedTies(c, ranking, m, query, score, accept);
    TieIsVisible(c, ranking, query, score, accept, readable);
  }

  lemma MovedTies(c: Core, ranking: seq<Scored>, m: Meta, query: Vec, score: (Vec, Vec) -> real, accept: Filter)
    requires c.sidecar.records == [Row(1, m), Row(0, m)] && c.index.vectors.Keys == {0, 1}
    requires c.index.vectors[0] == c.index.vectors[1] && c.sidecar.dim == c.index.dim == |c.index.vectors[0]|
    requires ranking == [Scored(0, score(query, c.index.vectors[0])), Scored(1, score(query, c.index.vectors[0]))]
    requires accept(0, m.shareable, m.tags) && accept(1, m.shareable, m.tags)
    ensures WellFormed(c) && ExactRanking(ranking, c, query, score)
    ensures !TiesInRecordOrder(Kept(ranking, c.sidecar.records, accept), c.sidecar.records, 1)
  {
    var rows := c.sidecar.records;
    assert ranking[0].id == 0 && ranking[1].id == 1;
    assert rows[0].key == 1 && rows[1].key == 0;
    assert Position(rows, 1) == 0 && Position(rows, 0) == 1;
    assert Eligible(rows, accept, 0) && Eligible(rows, accept, 1);
    KeptAll(ranking, rows, accept);
  }

  lemma TieIsVisible(c: Core, ranking: seq<Scored>, query: Vec, score: (Vec, Vec) -> real, accept: Filter,
                     readable: nat -> bool)
    requires WellFormed(c) && ExactRanking(ranking, c, query, score) && |ranking| <= 64 && forall i :: readable(i)
    requires !TiesInRecordOrder(Kept(ranking, c.sidecar.records, accept), c.sidecar.records, 1)
    ensures ReachesFarEnough(ranking, c.sidecar.records, accept, 1)
    ensures AdapterHits(ranking, c, 1, accept, readable) != ReferenceHits(c, query, 1, accept, score)
    ensures Similarities(AdapterHits(ranking, c, 1, accept, readable))
            == Similarities(ReferenceHits(c, query, 1, accept, score))
  {
    SearchDropsInExactlyWhen(ranking, c, query, 1, accept, score, readable);
    SearchScoresDropInExactlyWhen(ranking, c, query, 1, accept, score, readable);
  }
}
