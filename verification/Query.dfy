/** Oversample-and-filter search: what the adapter's filtered query answers, and when that is the
    exact answer. */
module Query {
  import opened Keyed
  import opened Numbers
  import opened TenantState

  datatype Scored = Scored(id: nat, similarity: real)

  datatype Hit = Hit(id: nat, similarity: real, payload: seq<Byte>, embedding: Option<Vec>)

  /** The caller's filter sees a record's id, its shareable flag and its tags. */
  type Filter = (nat, bool, seq<string>) -> bool

  function Take<T>(s: seq<T>, n: nat): seq<T> { s[..Min(|s|, n)] }

  /** How many candidates the adapter asks the index for. */
  function Oversample(topK: nat): (n: nat)
    ensures n == if topK < 16 then 64 else 4 * topK
  {
    Max(topK * 4, 64)
  }

  /** A candidate with a live record that the filter accepts. */
  predicate Eligible(rows: seq<Entry>, accept: Filter, id: nat) {
    match Lookup(rows, id)
    case None => false
    case Some(m) => accept(id, m.shareable, m.tags)
  }

  function Kept(raw: seq<Scored>, rows: seq<Entry>, accept: Filter): seq<Scored> {
    if raw == [] then []
    else (if Eligible(rows, accept, raw[0].id) then [raw[0]] else []) + Kept(raw[1..], rows, accept)
  }

  function ToHit(c: Scored, rows: seq<Entry>, index: Index, readable: nat -> bool): Hit {
    Hit(c.id, c.similarity,
        match Lookup(rows, c.id) case None => [] case Some(m) => m.payload,
        if readable(c.id) && c.id in index.vectors then Some(index.vectors[c.id]) else None)
  }

  function ToHits(cs: seq<Scored>, rows: seq<Entry>, index: Index, readable: nat -> bool): seq<Hit> {
    seq(|cs|, i requires 0 <= i < |cs| => ToHit(cs[i], rows, index, readable))
  }

  /** A search answer: at most `n` distinct ids, all of them in the index. */
  predicate ValidSearch(raw: seq<Scored>, index: Index, n: nat) {
    && |raw| <= n
    && (forall i, j :: 0 <= i < j < |raw| ==> raw[i].id != raw[j].id)
    && (forall i :: 0 <= i < |raw| ==> raw[i].id in index.vectors)
  }

  lemma {:induction false} KeptAppend(a: seq<Scored>, b: seq<Scored>, rows: seq<Entry>, accept: Filter)
    ensures Kept(a + b, rows, accept) == Kept(a, rows, accept) + Kept(b, rows, accept)
  {
    if a == [] {
      assert a + b == b;
    } else {
      var head := if Eligible(rows, accept, a[0].id) then [a[0]] else [];
      assert (a + b)[1..] == a[1..] + b && (a + b)[0] == a[0];
      KeptAppend(a[1..], b, rows, accept);
      assert Kept(a + b, rows, accept) == head + (Kept(a[1..], rows, accept) + Kept(b, rows, accept));
      assert Kept(a, rows, accept) == head + Kept(a[1..], rows, accept);
    }
  }

  /** Membership, order and distinctness of what is kept. */
  lemma {:induction false} KeptIsFilter(raw: seq<Scored>, rows: seq<Entry>, accept: Filter)
    ensures |Kept(raw, rows, accept)| <= |raw|
    ensures forall c :: c in Kept(raw, rows, accept) <==> c in raw && Eligible(rows, accept, c.id)
    ensures (forall i, j :: 0 <= i < j < |raw| ==> raw[i].id != raw[j].id) ==>
              (var ks := Kept(raw, rows, accept); forall i, j :: 0 <= i < j < |ks| ==> ks[i].id != ks[j].id)
  {
    if raw == [] {
    } else {
      KeptIsFilter(raw[1..], rows, accept);
      assert raw == [raw[0]] + raw[1..];
      if forall i, j :: 0 <= i < j < |raw| ==> raw[i].id != raw[j].id {
        var rest := Kept(raw[1..], rows, accept);
        forall j | 0 <= j < |rest| ensures rest[j].id != raw[0].id {
          assert rest[j] in raw[1..];
        }
      }
    }
  }

  /** Where a kept candidate stood. */
  lemma KeptFrom(raw: seq<Scored>, rows: seq<Entry>, accept: Filter, j: nat) returns (i: nat)
    requires j < |Kept(raw, rows, accept)|
    ensures i < |raw| && raw[i] == Kept(raw, rows, accept)[j] && Eligible(rows, accept, raw[i].id)
  {
    KeptIsFilter(raw, rows, accept);
    assert Kept(raw, rows, accept)[j] in Kept(raw, rows, accept);
    i :| 0 <= i < |raw| && raw[i] == Kept(raw, rows, accept)[j];
  }

  lemma KeptNext(cs: seq<Scored>, i: nat, rows: seq<Entry>, accept: Filter)
    requires i < |cs|
    ensures Kept(cs[..i + 1], rows, accept)
            == Kept(cs[..i], rows, accept) + if Eligible(rows, accept, cs[i].id) then [cs[i]] else []
  {
    assert cs[..i + 1] == cs[..i] + [cs[i]];
    KeptAppend(cs[..i], [cs[i]], rows, accept);
  }

  lemma ToHitsEnd(cs: seq<Scored>, c: Scored, rows: seq<Entry>, index: Index, readable: nat -> bool)
    ensures ToHits(cs + [c], rows, index, readable) == ToHits(cs, rows, index, readable) + [ToHit(c, rows, index, readable)]
  {
  }

  // ---------------------------------------------------------------- the answer

  /** What the adapter answers from the candidates `raw`. The limit is tested after the push, so a
      limit of zero acts like a limit of one. */
  function Answer(raw: seq<Scored>, rows: seq<Entry>, accept: Filter, topK: nat): seq<Scored> {
    Take(Kept(raw, rows, accept), Max(topK, 1))
  }

  /** Whatever the index answers: the hits are distinct live accepted candidates in candidate
      order, no more than asked for, and fewer only when the candidates ran out. */
  lemma AnswerSound(raw: seq<Scored>, rows: seq<Entry>, index: Index, accept: Filter, topK: nat, n: nat)
    requires ValidSearch(raw, index, n)
    ensures var a := Answer(raw, rows, accept, topK);
            && a <= Kept(raw, rows, accept)
            && (forall c :: c in a ==> c in raw && Has(rows, c.id) && Eligible(rows, accept, c.id))
            && (forall i, j :: 0 <= i < j < |a| ==> a[i].id != a[j].id)
            && |a| <= Max(topK, 1)
            && (|a| < topK ==> forall c :: c in raw && Eligible(rows, accept, c.id) ==> c in a)
  {
    KeptIsFilter(raw, rows, accept);
  }

  /** The filter is asked about the record itself: one that wants shareable records is answered with
      shareable ones only, one that wants a tag with records that carry it, one that wants an id with
      that id. */
  lemma FilterSeesTheRecord(raw: seq<Scored>, rows: seq<Entry>, topK: nat, tag: string, own: nat, c: Scored)
    ensures c in Answer(raw, rows, (_: nat, shareable: bool, _: seq<string>) => shareable, topK) ==>
              Lookup(rows, c.id).Some? && Lookup(rows, c.id).value.shareable
    ensures c in Answer(raw, rows, (_: nat, _: bool, tags: seq<string>) => tag in tags, topK) ==>
              Lookup(rows, c.id).Some? && tag in Lookup(rows, c.id).value.tags
    ensures c in Answer(raw, rows, (id: nat, _: bool, _: seq<string>) => id == own, topK) ==> c.id == own
  {
    KeptIsFilter(raw, rows, (_: nat, shareable: bool, _: seq<string>) => shareable);
    KeptIsFilter(raw, rows, (_: nat, _: bool, tags: seq<string>) => tag in tags);
    KeptIsFilter(raw, rows, (id: nat, _: bool, _: seq<string>) => id == own);
  }

  /** A limit of zero still returns one hit exactly when some candidate is eligible. */
  lemma ZeroLimitReturnsOne(raw: seq<Scored>, rows: seq<Entry>, accept: Filter)
    ensures |Answer(raw, rows, accept, 0)| == 1
            <==> exists i :: 0 <= i < |raw| && Eligible(rows, accept, raw[i].id)
    ensures |Answer(raw, rows, accept, 0)| <= 1
  {
    KeptIsFilter(raw, rows, accept);
    if i :| 0 <= i < |raw| && Eligible(rows, accept, raw[i].id) {
      assert raw[i] in Kept(raw, rows, accept);
    }
    if |Kept(raw, rows, accept)| > 0 {
      assert Kept(raw, rows, accept)[0] in raw;
    }
  }

  // ---------------------------------------------------------------- against an exact index

  /** An exact search answers the first `n` of one fixed ranking of the whole index. */
  predicate IsRanking(ranking: seq<Scored>, index: Index) {
    && ValidSearch(ranking, index, |ranking|)
    && (forall id :: id in index.vectors ==> exists i :: 0 <= i < |ranking| && ranking[i].id == id)
  }

  function Oversampled(ranking: seq<Scored>, rows: seq<Entry>, accept: Filter, topK: nat): seq<Scored> {
    Answer(Take(ranking, Oversample(topK)), rows, accept, topK)
  }

  function Exact(ranking: seq<Scored>, rows: seq<Entry>, accept: Filter, topK: nat): seq<Scored> {
    Take(Kept(ranking, rows, accept), topK)
  }

  lemma SplitRanking(ranking: seq<Scored>, rows: seq<Entry>, accept: Filter, n: nat)
    ensures Kept(ranking, rows, accept)
            == Kept(Take(ranking, n), rows, accept) + Kept(ranking[Min(|ranking|, n)..], rows, accept)
  {
    assert ranking == Take(ranking, n) + ranking[Min(|ranking|, n)..];
    KeptAppend(Take(ranking, n), ranking[Min(|ranking|, n)..], rows, accept);
  }

  /** Never a wrong hit and never a wrong order: the answer is a prefix of the exact top k. */
  lemma OversampledIsPrefix(ranking: seq<Scored>, rows: seq<Entry>, accept: Filter, topK: nat)
    requires topK >= 1
    ensures Oversampled(ranking, rows, accept, topK) <= Exact(ranking, rows, accept, topK)
  {
    SplitRanking(ranking, rows, accept, Oversample(topK));
  }

  /** The answer is the exact top k if and only if the oversample holds k eligible candidates, or
      no eligible record is ranked beyond it. */
  lemma OversampledExactlyWhen(ranking: seq<Scored>, rows: seq<Entry>, accept: Filter, topK: nat)
    requires topK >= 1
    ensures Oversampled(ranking, rows, accept, topK) == Exact(ranking, rows, accept, topK)
            <==> var n := if topK < 16 then 64 else 4 * topK;
                 || |Kept(Take(ranking, n), rows, accept)| >= topK
                 || forall i :: n <= i < |ranking| ==> !Eligible(rows, accept, ranking[i].id)
  {
    var o := Oversample(topK);
    SplitRanking(ranking, rows, accept, o);
    NothingFar(ranking, rows, accept, o);
    var near, far := Kept(Take(ranking, o), rows, accept), Kept(ranking[Min(|ranking|, o)..], rows, accept);
    assert near + [] == near;
  }

  lemma NothingFar(ranking: seq<Scored>, rows: seq<Entry>, accept: Filter, o: nat)
    ensures Kept(ranking[Min(|ranking|, o)..], rows, accept) == []
            <==> forall i :: o <= i < |ranking| ==> !Eligible(rows, accept, ranking[i].id)
  {
    var tail := ranking[Min(|ranking|, o)..];
    NothingKept(tail, rows, accept);
    assert forall i :: o <= i < |ranking| ==> ranking[i] == tail[i - o];
    assert forall j :: 0 <= j < |tail| ==> tail[j] == ranking[o + j];
  }

  lemma NothingKept(raw: seq<Scored>, rows: seq<Entry>, accept: Filter)
    ensures Kept(raw, rows, accept) == [] <==> forall i :: 0 <= i < |raw| ==> !Eligible(rows, accept, raw[i].id)
  {
    var kept := Kept(raw, rows, accept);
    KeptIsFilter(raw, rows, accept);
    if kept == [] {
      assert forall i :: 0 <= i < |raw| ==> raw[i] in raw;
    } else {
      var i := KeptFrom(raw, rows, accept, 0);
    }
  }

  /** Enough: the orphaned and rejected entries of the whole index number at most the slack of
      the oversample, which is 64 less the limit, and from limit sixteen on three times the limit. */
  lemma FewRejectionsSuffice(ranking: seq<Scored>, rows: seq<Entry>, accept: Filter, topK: nat)
    requires topK >= 1
    requires |ranking| - |Kept(ranking, rows, accept)| <= (if topK < 16 then 64 else 4 * topK) - topK
    ensures Oversampled(ranking, rows, accept, topK) == Exact(ranking, rows, accept, topK)
  {
    var o := Oversample(topK);
    SplitRanking(ranking, rows, accept, o);
    KeptIsFilter(ranking[Min(|ranking|, o)..], rows, accept);
    OversampledExactlyWhen(ranking, rows, accept, topK);
  }

  /** Enough: at least a quarter of a full oversample is live and accepted. */
  lemma QuarterSelectivitySuffices(ranking: seq<Scored>, rows: seq<Entry>, accept: Filter, topK: nat)
    requires topK >= 1
    requires var n := if topK < 16 then 64 else 4 * topK;
             4 * |Kept(Take(ranking, n), rows, accept)| >= n
    ensures Oversampled(ranking, rows, accept, topK) == Exact(ranking, rows, accept, topK)
  {
    OversampledExactlyWhen(ranking, rows, accept, topK);
  }

  /** The slack cannot be improved: one more rejection, placed first, hides an eligible record. */
  lemma SlackIsTight(bad: seq<Scored>, good: seq<Scored>, rows: seq<Entry>, accept: Filter, topK: nat)
    requires topK >= 1 && |good| == topK
    requires |bad| == (if topK < 16 then 64 else 4 * topK) - topK + 1
    requires forall i :: 0 <= i < |bad| ==> !Eligible(rows, accept, bad[i].id)
    requires forall i :: 0 <= i < |good| ==> Eligible(rows, accept, good[i].id)
    ensures Oversampled(bad + good, rows, accept, topK) == good[..topK - 1]
    ensures Exact(bad + good, rows, accept, topK) == good
  {
    var o := Oversample(topK);
    KeptAppend(bad, good, rows, accept);
    KeptAppend(bad, good[..topK - 1], rows, accept);
    assert Take(bad + good, o) == bad + good[..topK - 1];
    KeptNone(bad, rows, accept);
    KeptAll(good, rows, accept);
    KeptAll(good[..topK - 1], rows, accept);
  }

  /** A quarter of the whole index is not enough: an oversample of ineligible entries ranked first
      hides any number of eligible ones, and the answer is empty. */
  lemma IndexSelectivityIsNotEnough(bad: seq<Scored>, good: seq<Scored>, rows: seq<Entry>, accept: Filter, topK: nat)
    requires |bad| == if topK < 16 then 64 else 4 * topK
    requires forall i :: 0 <= i < |bad| ==> !Eligible(rows, accept, bad[i].id)
    requires forall i :: 0 <= i < |good| ==> Eligible(rows, accept, good[i].id)
    ensures Oversampled(bad + good, rows, accept, topK) == []
    ensures Exact(bad + good, rows, accept, topK) == Take(good, topK)
  {
    assert Take(bad + good, Oversample(topK)) == bad;
    KeptNone(bad, rows, accept);
    KeptAfterNone(bad, good, rows, accept);
  }

  lemma KeptAfterNone(bad: seq<Scored>, good: seq<Scored>, rows: seq<Entry>, accept: Filter)
    requires Kept(bad, rows, accept) == [] && forall i :: 0 <= i < |good| ==> Eligible(rows, accept, good[i].id)
    ensures Kept(bad + good, rows, accept) == good
  {
    KeptAppend(bad, good, rows, accept);
    KeptAll(good, rows, accept);
  }

  lemma {:induction false} KeptNone(raw: seq<Scored>, rows: seq<Entry>, accept: Filter)
    requires forall i :: 0 <= i < |raw| ==> !Eligible(rows, accept, raw[i].id)
    ensures Kept(raw, rows, accept) == []
  {
    if raw == [] {
    } else {
      KeptNone(raw[1..], rows, accept);
    }
  }

  lemma {:induction false} KeptAll(raw: seq<Scored>, rows: seq<Entry>, accept: Filter)
    requires forall i :: 0 <= i < |raw| ==> Eligible(rows, accept, raw[i].id)
    ensures Kept(raw, rows, accept) == raw
  {
    if raw == [] {
    } else {
      KeptAll(raw[1..], rows, accept);
    }
  }
}
