/** The exact top k: a stable descending sort cut to length, and what makes its answer the only
    possible one. */
module TopK {
  import opened Keyed
  import opened Numbers
  import opened Query

  predicate DistinctIds(hits: seq<Hit>) {
    forall i, j :: 0 <= i < j < |hits| ==> hits[i].id != hits[j].id
  }

  /** Where the hit with this id stands in `hits`. */
  function Pos(hits: seq<Hit>, id: nat): (p: nat)
    ensures p <= |hits|
    ensures p < |hits| ==> hits[p].id == id
    ensures forall i :: 0 <= i < p ==> hits[i].id != id
  {
    if hits == [] || hits[0].id == id then 0 else 1 + Pos(hits[1..], id)
  }

  lemma {:induction false} PosCons(h: Hit, tail: seq<Hit>, id: nat)
    ensures Pos([h] + tail, id) == if h.id == id then 0 else 1 + Pos(tail, id)
  {
    assert ([h] + tail)[1..] == tail;
  }

  /** `a` ranks before `b`: more similar, or equally similar and earlier in `hits`. */
  predicate Before(hits: seq<Hit>, a: Hit, b: Hit) {
    a.similarity > b.similarity || (a.similarity == b.similarity && Pos(hits, a.id) < Pos(hits, b.id))
  }

  // ---------------------------------------------------------------- stable sort

  /** Place `h` in front of the first hit that is not more similar. */
  function InsertDesc(h: Hit, sorted: seq<Hit>): seq<Hit> {
    if sorted == [] || sorted[0].similarity <= h.similarity then [h] + sorted
    else [sorted[0]] + InsertDesc(h, sorted[1..])
  }

  /** The stable sort by descending similarity. */
  function SortDesc(hits: seq<Hit>): seq<Hit> {
    if hits == [] then [] else InsertDesc(hits[0], SortDesc(hits[1..]))
  }

  // ---------------------------------------------------------------- specification

  /** `r` is the top `k` of `hits`: as many as there are, drawn from `hits` without repetition, in
      ranking order, and nothing left out ranks before anything returned. */
  predicate IsTopK(r: seq<Hit>, hits: seq<Hit>, k: nat) {
    && |r| == Min(k, |hits|)
    && (forall i :: 0 <= i < |r| ==> r[i] in hits)
    && (forall i, j :: 0 <= i < j < |r| ==> Before(hits, r[i], r[j]))
    && (forall i, j :: 0 <= i < |r| && 0 <= j < |hits| && hits[j] !in r ==> Before(hits, r[i], hits[j]))
  }

  lemma RanksEarlier(r: seq<Hit>, r': seq<Hit>, hits: seq<Hit>, k: nat, i: nat)
    requires IsTopK(r, hits, k) && IsTopK(r', hits, k)
    requires i < |r|
    requires forall j :: 0 <= j < i ==> r[j] == r'[j]
    ensures r[i] != r'[i] ==> Before(hits, r[i], r'[i])
  {
    var x := r'[i];
    if x in r {
      var j :| 0 <= j < |r| && r[j] == x;
      assert !Before(hits, x, x);
    } else {
      var j :| 0 <= j < |hits| && hits[j] == x;
    }
  }

  predicate Agree(r: seq<Hit>, r': seq<Hit>, n: nat) {
    n <= |r| && n <= |r'| && forall j :: 0 <= j < n ==> r[j] == r'[j]
  }

  lemma SameRank(r: seq<Hit>, r': seq<Hit>, hits: seq<Hit>, k: nat, i: nat)
    requires IsTopK(r, hits, k) && IsTopK(r', hits, k)
    requires i < |r| && Agree(r, r', i)
    ensures Agree(r, r', i + 1)
  {
    RanksEarlier(r, r', hits, k, i);
    RanksEarlier(r', r, hits, k, i);
  }

  lemma {:induction false} TopKPrefix(r: seq<Hit>, r': seq<Hit>, hits: seq<Hit>, k: nat, n: nat)
    requires IsTopK(r, hits, k) && IsTopK(r', hits, k) && n <= |r|
    ensures Agree(r, r', n)
  {
    if n == 0 {
    } else {
      TopKPrefix(r, r', hits, k, n - 1);
      SameRank(r, r', hits, k, n - 1);
    }
  }

  /** At most one sequence is the top `k`. */
  lemma TopKUnique(r: seq<Hit>, r': seq<Hit>, hits: seq<Hit>, k: nat)
    requires IsTopK(r, hits, k) && IsTopK(r', hits, k)
    ensures r == r'
  {
    TopKPrefix(r, r', hits, k, |r|);
  }

  // ---------------------------------------------------------------- the sort meets it

  predicate Sorted(s: seq<Hit>, hits: seq<Hit>) {
    forall i, j :: 0 <= i < j < |s| ==> Before(hits, s[i], s[j])
  }

  lemma {:induction false} InsertMembers(h: Hit, s: seq<Hit>)
    ensures |InsertDesc(h, s)| == |s| + 1
    ensures forall x :: x in InsertDesc(h, s) <==> x == h || x in s
  {
    if s != [] && s[0].similarity > h.similarity {
      InsertMembers(h, s[1..]);
      assert s == [s[0]] + s[1..];
    }
  }

  lemma {:induction false} SortMembers(hits: seq<Hit>)
    ensures |SortDesc(hits)| == |hits|
    ensures forall x :: x in SortDesc(hits) <==> x in hits
  {
    if hits == [] {
    } else {
      SortMembers(hits[1..]);
      InsertMembers(hits[0], SortDesc(hits[1..]));
      assert hits == [hits[0]] + hits[1..];
    }
  }

  /** Inserting a hit that precedes all others in `hits` keeps the ranking. */
  lemma {:induction false} InsertSorted(h: Hit, s: seq<Hit>, hits: seq<Hit>)
    requires Sorted(s, hits)
    requires forall x :: x in s ==> Pos(hits, h.id) < Pos(hits, x.id)
    ensures Sorted(InsertDesc(h, s), hits)
  {
    if s != [] && s[0].similarity > h.similarity {
      InsertSorted(h, s[1..], hits);
      InsertMembers(h, s[1..]);
      var rest := InsertDesc(h, s[1..]);
      forall j | 0 <= j < |rest| ensures Before(hits, s[0], rest[j]) {
        assert rest[j] in rest;
        if rest[j] != h {
          var i :| 0 <= i < |s[1..]| && s[1..][i] == rest[j];
          assert Before(hits, s[0], s[i + 1]);
        }
      }
    } else if s != [] {
      forall j | 0 <= j < |s| ensures Before(hits, h, s[j]) {
        assert s[j] in s;
        if j > 0 { assert Before(hits, s[0], s[j]); }
      }
    }
  }

  /** Positions shift by one when a hit with another id is put in front, so rankings carry over. */
  lemma BeforeShift(hits: seq<Hit>, a: Hit, b: Hit)
    requires hits != [] && a.id != hits[0].id && b.id != hits[0].id && Before(hits[1..], a, b)
    ensures Before(hits, a, b)
  {
  }

  lemma {:induction false} SortSorted(hits: seq<Hit>)
    requires DistinctIds(hits)
    ensures Sorted(SortDesc(hits), hits)
  {
    if hits == [] {
    } else {
      var tail := hits[1..];
      SortSorted(tail);
      SortMembers(tail);
      var s := SortDesc(tail);
      forall x | x in s ensures x.id != hits[0].id {
        var i :| 0 <= i < |tail| && tail[i] == x;
        assert hits[i + 1] == x;
      }
      forall i, j | 0 <= i < j < |s| ensures Before(hits, s[i], s[j]) {
        assert s[i] in s && s[j] in s;
        BeforeShift(hits, s[i], s[j]);
      }
      InsertSorted(hits[0], s, hits);
    }
  }

  ghost predicate SameHits(s: seq<Hit>, hits: seq<Hit>) {
    |s| == |hits| && forall x :: x in s <==> x in hits
  }

  /** The first `k` of `s` each rank before everything after them. */
  predicate SortedTo(s: seq<Hit>, hits: seq<Hit>, k: nat) {
    forall i, j :: 0 <= i < j < |s| && i < k ==> Before(hits, s[i], s[j])
  }

  /** Cutting a rearrangement of `hits` to `k` gives the top `k` exactly when its first `k` are
      ranked. */
  lemma TakeIsTopKExactlyWhen(s: seq<Hit>, hits: seq<Hit>, k: nat)
    requires SameHits(s, hits) && DistinctIds(s)
    ensures IsTopK(Take(s, k), hits, k) <==> SortedTo(s, hits, k)
  {
    var t := Take(s, k);
    assert forall m :: 0 <= m < |t| ==> s[m] == t[m] && s[m] in t;
    if SortedTo(s, hits, k) {
      forall i, j | 0 <= i < |t| && 0 <= j < |hits| && hits[j] !in t ensures Before(hits, t[i], hits[j]) {
        assert hits[j] in s;
        var m :| 0 <= m < |s| && s[m] == hits[j];
      }
      forall i | 0 <= i < |t| ensures t[i] in hits {
        assert s[i] in s;
      }
    }
    if IsTopK(t, hits, k) {
      forall i, j | 0 <= i < j < |s| && i < k ensures Before(hits, s[i], s[j]) {
        if j >= |t| {
          assert s[j] in s && s[j] !in t;
          var m :| 0 <= m < |hits| && hits[m] == s[j];
          assert Before(hits, t[i], hits[m]);
        }
      }
    }
  }

  /** Sorting and cutting to `k` yields the top `k`, and nothing else is the top `k`. */
  lemma SortTakeIsTopK(hits: seq<Hit>, k: nat, r: seq<Hit>)
    requires DistinctIds(hits)
    ensures r == Take(SortDesc(hits), k) <==> IsTopK(r, hits, k)
  {
    SortMembers(hits);
    SortSorted(hits);
    SortDistinct(hits);
    TakeIsTopKExactlyWhen(SortDesc(hits), hits, k);
    if IsTopK(r, hits, k) {
      TopKUnique(r, Take(SortDesc(hits), k), hits, k);
    }
  }

  lemma SortDistinct(hits: seq<Hit>)
    requires DistinctIds(hits)
    ensures DistinctIds(SortDesc(hits))
  {
    SortMembers(hits);
    SortSorted(hits);
    var s := SortDesc(hits);
    forall i, j | 0 <= i < j < |s| ensures s[i].id != s[j].id {
      assert s[i] in s && s[j] in s;
      assert Before(hits, s[i], s[j]) && !Before(hits, s[i], s[i]);
    }
  }

  // ---------------------------------------------------------------- whatever the order of ties

  predicate Descends(s: seq<Hit>) {
    forall i, j :: 0 <= i < j < |s| ==> s[i].similarity >= s[j].similarity
  }

  function Similarities(s: seq<Hit>): seq<real> {
    seq(|s|, i requires 0 <= i < |s| => s[i].similarity)
  }

  lemma {:induction false} DistinctLength(a: seq<Hit>, s: set<Hit>)
    requires DistinctIds(a) && (forall x :: x in s <==> x in a)
    ensures |s| == |a|
  {
    if a == [] {
      assert s == {};
    } else {
      var tail := a[1..];
      assert a == [a[0]] + tail;
      assert a[0] !in tail;
      DistinctLength(tail, s - {a[0]});
    }
  }

  lemma SameLength(a: seq<Hit>, b: seq<Hit>)
    requires DistinctIds(a) && DistinctIds(b) && forall x :: x in a <==> x in b
    ensures |a| == |b|
  {
    var s := set x | x in a;
    DistinctLength(a, s);
    DistinctLength(b, s);
  }

  /** Distinct hits all taken from `b` are no more than `b` has. */
  lemma NoMoreThan(a: seq<Hit>, b: seq<Hit>)
    requires DistinctIds(a) && DistinctIds(b) && forall x :: x in a ==> x in b
    ensures |a| <= |b|
  {
    var s, t := set x | x in a, set x | x in b;
    DistinctLength(a, s);
    DistinctLength(b, t);
    SubsetLength(s, t);
  }

  lemma SubsetLength(s: set<Hit>, t: set<Hit>)
    requires s <= t
    ensures |s| <= |t|
  {
    assert t == s + (t - s);
  }

  lemma NotAbove(r: seq<Hit>, h: seq<Hit>, i: nat)
    requires Descends(r) && Descends(h) && DistinctIds(r) && DistinctIds(h) && SameHits(r, h) && i < |r|
    ensures r[i].similarity <= h[i].similarity
  {
    if r[i].similarity > h[i].similarity {
      forall x | x in r[..i + 1] ensures x in h[..i] {
        var m :| 0 <= m < i + 1 && r[m] == x;
        assert r[m] in r;
        var n :| 0 <= n < |h| && h[n] == x;
        assert h[..i][n] == x;
      }
      NoMoreThan(r[..i + 1], h[..i]);
    }
  }

  /** Two descending arrangements of the same hits have the same similarities, place by place. */
  lemma SameSimilarities(r: seq<Hit>, h: seq<Hit>)
    requires Descends(r) && Descends(h) && DistinctIds(r) && DistinctIds(h) && SameHits(r, h)
    ensures Similarities(r) == Similarities(h)
  {
    forall i | 0 <= i < |r| ensures r[i].similarity == h[i].similarity {
      NotAbove(r, h, i);
      NotAbove(h, r, i);
    }
  }
}
