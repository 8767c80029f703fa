/** The bag-of-words stub embedding: FNV-1a bucketing, counting, normalising. */
module Embed {
  import opened Text
  import opened Cosine

  const FNV_OFFSET: nat := 0xcbf29ce484222325
  const FNV_PRIME: nat := 0x100000001b3
  const TWO_TO_64: nat := 0x1_0000_0000_0000_0000

  /** Exclusive or of two numbers. */
  function Xor(a: nat, b: nat): nat
    decreases a + b
  {
    if a == 0 && b == 0 then 0 else (if a % 2 == b % 2 then 0 else 1) + 2 * Xor(a / 2, b / 2)
  }

  /** Bit `k` of a number. */
  predicate Bit(n: nat, k: nat) {
    if k == 0 then n % 2 == 1 else Bit(n / 2, k - 1)
  }

  /** A bit of the exclusive or is set exactly when it is set in one of the two. */
  lemma {:induction false} XorBits(a: nat, b: nat, k: nat)
    ensures Bit(Xor(a, b), k) <==> Bit(a, k) != Bit(b, k)
    decreases k
  {
    if k > 0 {
      XorBits(a / 2, b / 2, k - 1);
    }
  }

  lemma {:induction false} XorZero(a: nat)
    ensures Xor(a, 0) == a
  {
    if a > 0 {
      XorZero(a / 2);
    }
  }

  function Pow2(k: nat): nat { if k == 0 then 1 else 2 * Pow2(k - 1) }

  /** The exclusive or with a number of `k` bits leaves the higher bits alone. */
  lemma {:induction false} XorLow(q: nat, r: nat, b: nat, k: nat)
    requires r < Pow2(k) && b < Pow2(k)
    ensures Xor(q * Pow2(k) + r, b) == q * Pow2(k) + Xor(r, b)
    decreases k
  {
    if k == 0 {
      XorZero(q);
    } else {
      var p := q * Pow2(k - 1);
      assert q * Pow2(k) == 2 * p by { Doubled(q, Pow2(k - 1)); }
      XorLow(q, r / 2, b / 2, k - 1);
      assert (2 * p + r) / 2 == p + r / 2 && (2 * p + r) % 2 == r % 2;
    }
  }

  lemma Doubled(q: nat, m: nat)
    ensures q * (2 * m) == 2 * (q * m)
  {
  }

  function XorByte(h: nat, b: Byte): nat { Xor(h, b as nat) }

  /** FNV-1a over the rest of the bytes, with wrapping multiplication. */
  function Fnv(h: nat, bytes: seq<Byte>): nat
    decreases |bytes|
  {
    if bytes == [] then h else Fnv(XorByte(h, bytes[0]) * FNV_PRIME % TWO_TO_64, bytes[1..])
  }

  /** Unicode lower-casing is the standard library's and stays a parameter. */
  type Lower = string -> string

  function Bucket(word: string, n: nat, lower: Lower): (b: nat)
    requires n > 0
    ensures b < n
  {
    Fnv(FNV_OFFSET, Utf8(lower(word))) % n
  }

  /** How many of the words fall into bucket `b`. */
  function InBucket(ws: seq<string>, b: nat, n: nat, lower: Lower): nat
    requires n > 0
  {
    if ws == [] then 0
    else InBucket(ws[..|ws| - 1], b, n, lower) + (if Bucket(ws[|ws| - 1], n, lower) == b then 1 else 0)
  }

  /** The bucket counts, before normalisation. */
  function Buckets(ws: seq<string>, n: nat, lower: Lower): seq<real>
    requires n > 0
  {
    seq(n, b requires 0 <= b < n => InBucket(ws, b, n, lower) as real)
  }

  function Norm(v: seq<real>, root: real): seq<real> {
    if root > 0.0 then seq(|v|, i requires 0 <= i < |v| => v[i] / root) else v
  }

  /** The hash of one word, byte by byte. */
  method HashWord(word: string, lower: Lower) returns (h: nat)
    ensures h == Fnv(FNV_OFFSET, Utf8(lower(word)))
  {
    var bytes := Utf8(lower(word));
    h := FNV_OFFSET;
    for j := 0 to |bytes|
      invariant Fnv(h, bytes[j..]) == Fnv(FNV_OFFSET, bytes)
    {
      assert bytes[j..][1..] == bytes[j + 1..];
      h := XorByte(h, bytes[j]) * FNV_PRIME % TWO_TO_64;
    }
  }

  lemma FnvNext(h: nat, b: Byte, rest: seq<Byte>)
    ensures Fnv(h, [b] + rest) == Fnv(XorByte(h, b) * FNV_PRIME % TWO_TO_64, rest)
  {
    assert ([b] + rest)[1..] == rest;
  }

  lemma XorLastByte(q: nat, r: nat, b: Byte)
    requires r < 256
    ensures XorByte(256 * q + r, b) == 256 * q + Xor(r, b as nat)
  {
    assert Pow2(8) == 256;
    XorLow(q, r, b as nat, 8);
  }

  lemma XorStep(a: nat, x: nat, b: nat, y: nat)
    requires x < 2 && y < 2
    ensures Xor(2 * a + x, 2 * b + y) == (if x == y then 0 else 1) + 2 * Xor(a, b)
  {
    assert (2 * a + x) / 2 == a && (2 * b + y) / 2 == b;
    assert (2 * a + x) % 2 == x && (2 * b + y) % 2 == y;
  }

  lemma XorOfA(r: nat, b: nat)
    requires r == 0x25 && b == 0x61
    ensures Xor(r, b) == 0x44
  {
    XorStep(18, 1, 48, 1);
    XorStep(9, 0, 24, 0);
    XorStep(4, 1, 12, 0);
    XorStep(2, 0, 6, 0);
    XorStep(1, 0, 3, 0);
    XorStep(0, 1, 1, 1);
    XorStep(0, 0, 0, 1);
  }

  lemma ProductOfA(h: nat)
    requires h == 0xcbf29ce484222344
    ensures h * FNV_PRIME % TWO_TO_64 == 0xaf63dc4c8601ec8c
  {
  }

  lemma FnvOfByteA(h: nat, b: Byte)
    requires h == 0xcbf29ce484222325 && b == 0x61
    ensures Fnv(h, [b]) == 0xaf63dc4c8601ec8c
  {
    XorLastByte(0xcbf29ce4842223, 0x25, b);
    XorOfA(0x25, b as nat);
    ProductOfA(XorByte(h, b));
    FnvNext(h, b, []);
    assert [b] + [] == [b];
  }

  /** The published value of 64-bit FNV-1a for "a", and the offset basis for the empty text. */
  lemma FnvOfA()
    ensures Fnv(FNV_OFFSET, Utf8("a")) == 0xaf63dc4c8601ec8c && Fnv(FNV_OFFSET, Utf8("")) == 0xcbf29ce484222325
  {
    assert Utf8("a") == [0x61] by {
      assert "a"[1..] == "" && Utf8Char('a') == [0x61];
    }
    FnvOfByteA(FNV_OFFSET, 0x61);
  }

  /** The bytes are taken in order, the exclusive or before the product. */
  lemma {:induction false} FnvEnd(h: nat, bytes: seq<Byte>, b: Byte)
    ensures Fnv(h, bytes + [b]) == XorByte(Fnv(h, bytes), b) * 0x100000001b3 % 0x1_0000_0000_0000_0000
    decreases |bytes|
  {
    if bytes == [] {
      assert [] + [b] == [b];
      FnvNext(h, b, []);
    } else {
      var init := [bytes[0]] + (bytes[1..] + [b]);
      assert bytes + [b] == init && bytes == [bytes[0]] + bytes[1..];
      FnvNext(h, bytes[0], bytes[1..] + [b]);
      FnvNext(h, bytes[0], bytes[1..]);
      FnvEnd(XorByte(h, bytes[0]) * FNV_PRIME % TWO_TO_64, bytes[1..], b);
    }
  }

  /** The bucket is the remainder of the hash of the lower-cased word. */
  lemma BucketOfA(word: string, n: nat, lower: Lower)
    requires n > 0 && lower(word) == "a"
    ensures Bucket(word, n, lower) == 0xaf63dc4c8601ec8c % n
  {
    FnvOfA();
  }

  lemma CountNext(words: seq<string>, i: nat, b: nat, n: nat, lower: Lower)
    requires n > 0 && i < |words|
    ensures InBucket(words[..i + 1], b, n, lower)
            == InBucket(words[..i], b, n, lower) + if Bucket(words[i], n, lower) == b then 1 else 0
  {
    assert words[..i + 1][..i] == words[..i];
  }

  /** One count per word, in the word's bucket. */
  method CountWords(words: seq<string>, v: array<real>, lower: Lower)
    requires v.Length > 0 && forall b :: 0 <= b < v.Length ==> v[b] == 0.0
    modifies v
    ensures v[..] == Buckets(words, v.Length, lower)
  {
    var n := v.Length;
    for i := 0 to |words|
      invariant forall b :: 0 <= b < n ==> v[b] == InBucket(words[..i], b, n, lower) as real
    {
      forall b: nat | b < n
        ensures InBucket(words[..i + 1], b, n, lower)
                == InBucket(words[..i], b, n, lower) + if Bucket(words[i], n, lower) == b then 1 else 0
      {
        CountNext(words, i, b, n, lower);
      }
      var h := HashWord(words[i], lower);
      assert h % n == Bucket(words[i], n, lower);
      v[h % n] := v[h % n] + 1.0;
    }
    assert words[..|words|] == words;
  }

  /** Divide by the norm when there is one. */
  method Normalise(v: array<real>, norm: real)
    modifies v
    ensures v[..] == Norm(old(v[..]), norm)
  {
    if norm > 0.0 {
      for i := 0 to v.Length
        invariant forall k :: 0 <= k < i ==> v[k] == old(v[k]) / norm
        invariant forall k :: i <= k < v.Length ==> v[k] == old(v[k])
      {
        v[i] := v[i] / norm;
      }
    }
  }

  method Passage(text: string, n: nat, lower: Lower, sqrt: real -> real) returns (out: seq<real>)
    requires n > 0
    ensures var counts := Buckets(Words(text), n, lower);
            out == Norm(counts, sqrt(SumSq(counts)))
  {
    var v := new real[n](_ => 0.0);
    CountWords(Words(text), v, lower);
    Normalise(v, sqrt(SumSq(v[..])));
    out := v[..];
  }

  // ---------------------------------------------------------------- what the counts mean

  function Total(v: seq<real>): real {
    if v == [] then 0.0 else Total(v[..|v| - 1]) + v[|v| - 1]
  }

  lemma {:induction false} TotalBump(v: seq<real>, v': seq<real>, b: nat)
    requires |v| == |v'| && b < |v| && v'[b] == v[b] + 1.0
    requires forall i :: 0 <= i < |v| && i != b ==> v'[i] == v[i]
    ensures Total(v') == Total(v) + 1.0
  {
    var n := |v| - 1;
    if b == n {
      assert v'[..n] == v[..n];
    } else {
      TotalBump(v[..n], v'[..n], b);
    }
  }

  lemma {:induction false} TotalZero(v: seq<real>)
    requires forall i :: 0 <= i < |v| ==> v[i] == 0.0
    ensures Total(v) == 0.0
  {
    if v == [] {
    } else {
      TotalZero(v[..|v| - 1]);
    }
  }

  /** The counts add up to the number of words. */
  lemma {:induction false} CountsAreWords(ws: seq<string>, n: nat, lower: Lower)
    requires n > 0
    ensures Total(Buckets(ws, n, lower)) == |ws| as real
  {
    if ws == [] {
      TotalZero(Buckets(ws, n, lower));
    } else {
      var init, b := ws[..|ws| - 1], Bucket(ws[|ws| - 1], n, lower);
      CountsAreWords(init, n, lower);
      TotalBump(Buckets(init, n, lower), Buckets(ws, n, lower), b);
    }
  }

  lemma {:induction false} InBucketAppend(a: seq<string>, c: seq<string>, b: nat, n: nat, lower: Lower)
    requires n > 0
    ensures InBucket(a + c, b, n, lower) == InBucket(a, b, n, lower) + InBucket(c, b, n, lower)
  {
    if c == [] {
      assert a + c == a;
    } else {
      assert (a + c)[..|a + c| - 1] == a + c[..|c| - 1];
      InBucketAppend(a, c[..|c| - 1], b, n, lower);
    }
  }

  /** Texts joined by whitespace add their counts. */
  lemma CountsAdd(a: string, c: char, b: string, n: nat, lower: Lower)
    requires n > 0 && IsSpace(c)
    ensures var ab := Buckets(Words(a + [c] + b), n, lower);
            forall i :: 0 <= i < n ==> ab[i] == Buckets(Words(a), n, lower)[i] + Buckets(Words(b), n, lower)[i]
  {
    WordsSplit(a, c, b);
    forall i | 0 <= i < n
      ensures InBucket(Words(a) + Words(b), i, n, lower) == InBucket(Words(a), i, n, lower) + InBucket(Words(b), i, n, lower)
    {
      InBucketAppend(Words(a), Words(b), i, n, lower);
    }
  }

  lemma TakeOut(c: seq<string>, w: string) returns (k: nat)
    requires w in c
    ensures k < |c| && c[k] == w
    ensures multiset(c) == multiset(c[..k] + c[k + 1..]) + multiset{w}
  {
    k :| 0 <= k < |c| && c[k] == w;
    assert c == c[..k] + [w] + c[k + 1..];
  }

  lemma WithoutWord(c: seq<string>, k: nat, b: nat, n: nat, lower: Lower)
    requires n > 0 && k < |c|
    ensures InBucket(c, b, n, lower)
            == InBucket(c[..k] + c[k + 1..], b, n, lower) + if Bucket(c[k], n, lower) == b then 1 else 0
  {
    assert c == c[..k + 1] + c[k + 1..];
    InBucketAppend(c[..k + 1], c[k + 1..], b, n, lower);
    InBucketAppend(c[..k], c[k + 1..], b, n, lower);
    CountNext(c, k, b, n, lower);
  }

  /** Word order is forgotten: only the multiset of words counts. */
  lemma {:induction false} OrderIsForgotten(a: seq<string>, c: seq<string>, b: nat, n: nat, lower: Lower)
    requires n > 0 && multiset(a) == multiset(c)
    ensures InBucket(a, b, n, lower) == InBucket(c, b, n, lower)
    decreases |a|
  {
    if a == [] {
      assert |multiset(c)| == 0;
      assert c == [];
    } else {
      var w, init := a[|a| - 1], a[..|a| - 1];
      assert a == init + [w] && w in multiset(c);
      var k := TakeOut(c, w);
      assert multiset(a) == multiset(init) + multiset{w};
      SameBag(multiset(init), multiset(c[..k] + c[k + 1..]), multiset{w});
      OrderIsForgotten(init, c[..k] + c[k + 1..], b, n, lower);
      WithoutWord(c, k, b, n, lower);
    }
  }

  lemma SameBag(x: multiset<string>, y: multiset<string>, w: multiset<string>)
    requires x + w == y + w
    ensures x == y
  {
    assert x == (x + w) - w && y == (y + w) - w;
  }

  // ---------------------------------------------------------------- overlap

  /** How many words of `ws` are `key` in lower case. */
  function Occurrences(ws: seq<string>, key: string, lower: Lower): nat {
    if ws == [] then 0
    else Occurrences(ws[..|ws| - 1], key, lower) + (if lower(ws[|ws| - 1]) == key then 1 else 0)
  }

  /** Pairs of a word of `a` and a word of `c` that are the same up to case. */
  function SharedPairs(a: seq<string>, c: seq<string>, lower: Lower): nat {
    if a == [] then 0 else SharedPairs(a[..|a| - 1], c, lower) + Occurrences(c, lower(a[|a| - 1]), lower)
  }

  predicate Distinct(keys: seq<string>) {
    forall i, j :: 0 <= i < j < |keys| ==> keys[i] != keys[j]
  }

  /** The sum over the words `keys` of their counts in both texts, multiplied. */
  function CountProducts(keys: seq<string>, a: seq<string>, c: seq<string>, lower: Lower): nat {
    if keys == [] then 0
    else
      var key := keys[|keys| - 1];
      CountProducts(keys[..|keys| - 1], a, c, lower) + Occurrences(a, key, lower) * Occurrences(c, key, lower)
  }

  lemma OccurrencesEnd(a: seq<string>, word: string, key: string, lower: Lower)
    ensures Occurrences(a + [word], key, lower) == Occurrences(a, key, lower) + if lower(word) == key then 1 else 0
  {
    assert (a + [word])[..|a|] == a;
  }

  lemma OneMoreTimes(x: nat, y: nat)
    ensures (x + 1) * y == x * y + y
  {
  }

  lemma {:induction false} ProductsEnd(keys: seq<string>, a: seq<string>, word: string, c: seq<string>, lower: Lower)
    requires Distinct(keys)
    ensures CountProducts(keys, a + [word], c, lower)
            == CountProducts(keys, a, c, lower) + if lower(word) in keys then Occurrences(c, lower(word), lower) else 0
  {
    if keys == [] {
    } else {
      var init, key := keys[..|keys| - 1], keys[|keys| - 1];
      assert keys == init + [key] && key !in init;
      ProductsEnd(init, a, word, c, lower);
      OccurrencesEnd(a, word, key, lower);
      OneMoreTimes(Occurrences(a, key, lower), Occurrences(c, key, lower));
    }
  }

  /** The shared pairs are that sum, over any list of distinct words that has those of `a`. */
  lemma {:induction false} SharedPairsAreProducts(keys: seq<string>, a: seq<string>, c: seq<string>, lower: Lower)
    requires Distinct(keys) && forall i :: 0 <= i < |a| ==> lower(a[i]) in keys
    ensures SharedPairs(a, c, lower) == CountProducts(keys, a, c, lower)
    decreases |a|
  {
    if a == [] {
      NoProducts(keys, c, lower);
    } else {
      var init, word := a[..|a| - 1], a[|a| - 1];
      assert a == init + [word];
      SharedPairsAreProducts(keys, init, c, lower);
      ProductsEnd(keys, init, word, c, lower);
    }
  }

  lemma {:induction false} NoProducts(keys: seq<string>, c: seq<string>, lower: Lower)
    ensures CountProducts(keys, [], c, lower) == 0
  {
    if keys == [] {
    } else {
      NoProducts(keys[..|keys| - 1], c, lower);
    }
  }

  /** Pairs that fall into the same bucket. */
  function BucketPairs(a: seq<string>, c: seq<string>, n: nat, lower: Lower): nat
    requires n > 0
  {
    if a == [] then 0
    else BucketPairs(a[..|a| - 1], c, n, lower) + InBucket(c, Bucket(a[|a| - 1], n, lower), n, lower)
  }

  lemma {:induction false} DotBump(v: seq<real>, v': seq<real>, u: seq<real>, b: nat)
    requires |v| == |v'| == |u| && b < |v| && v'[b] == v[b] + 1.0
    requires forall i :: 0 <= i < |v| && i != b ==> v'[i] == v[i]
    ensures Dot(v', u) == Dot(v, u) + u[b]
  {
    var n := |v| - 1;
    if b == n {
      assert v'[..n] == v[..n];
      assert (v[n] + 1.0) * u[n] == v[n] * u[n] + u[n];
    } else {
      DotBump(v[..n], v'[..n], u[..n], b);
    }
  }

  lemma {:induction false} DotZero(v: seq<real>, u: seq<real>)
    requires |v| == |u| && forall i :: 0 <= i < |v| ==> v[i] == 0.0
    ensures Dot(v, u) == 0.0
  {
    if v == [] {
    } else {
      DotZero(v[..|v| - 1], u[..|u| - 1]);
    }
  }

  /** The inner product of two count vectors is the number of pairs sharing a bucket. */
  lemma {:induction false} DotIsBucketPairs(a: seq<string>, c: seq<string>, n: nat, lower: Lower)
    requires n > 0
    ensures Dot(Buckets(a, n, lower), Buckets(c, n, lower)) == BucketPairs(a, c, n, lower) as real
  {
    if a == [] {
      DotZero(Buckets(a, n, lower), Buckets(c, n, lower));
    } else {
      var init, b := a[..|a| - 1], Bucket(a[|a| - 1], n, lower);
      DotIsBucketPairs(init, c, n, lower);
      DotBump(Buckets(init, n, lower), Buckets(a, n, lower), Buckets(c, n, lower), b);
    }
  }

  /** Some word of `c` is in the bucket of `word` without being that word. */
  predicate Collides(c: seq<string>, word: string, n: nat, lower: Lower)
    requires n > 0
  {
    c != [] &&
    (Collides(c[..|c| - 1], word, n, lower)
     || (lower(c[|c| - 1]) != lower(word) && Bucket(c[|c| - 1], n, lower) == Bucket(word, n, lower)))
  }

  lemma {:induction false} BucketHoldsWord(c: seq<string>, word: string, n: nat, lower: Lower)
    requires n > 0
    ensures Occurrences(c, lower(word), lower) <= InBucket(c, Bucket(word, n, lower), n, lower)
    ensures Occurrences(c, lower(word), lower) == InBucket(c, Bucket(word, n, lower), n, lower)
            <==> !Collides(c, word, n, lower)
  {
    if c == [] {
    } else {
      BucketHoldsWord(c[..|c| - 1], word, n, lower);
    }
  }

  predicate NoCollision(a: seq<string>, c: seq<string>, n: nat, lower: Lower)
    requires n > 0
  {
    forall i :: 0 <= i < |a| ==> !Collides(c, a[i], n, lower)
  }

  lemma CollisionsNext(a: seq<string>, c: seq<string>, n: nat, lower: Lower)
    requires n > 0 && a != []
    ensures NoCollision(a, c, n, lower)
            <==> NoCollision(a[..|a| - 1], c, n, lower) && !Collides(c, a[|a| - 1], n, lower)
  {
    assert forall i :: 0 <= i < |a| - 1 ==> a[..|a| - 1][i] == a[i];
  }

  /** The inner product of the counts is at least the sum over words of the two texts' counts
      multiplied, and is exactly that if and only if no word of one text collides with a different
      word of the other. */
  lemma OverlapBound(keys: seq<string>, a: seq<string>, c: seq<string>, n: nat, lower: Lower)
    requires n > 0 && Distinct(keys) && forall i :: 0 <= i < |a| ==> lower(a[i]) in keys
    ensures var dot := Dot(Buckets(a, n, lower), Buckets(c, n, lower));
            && dot >= CountProducts(keys, a, c, lower) as real
            && (dot == CountProducts(keys, a, c, lower) as real <==> NoCollision(a, c, n, lower))
  {
    SharedPairsAreProducts(keys, a, c, lower);
    PairsBound(a, c, n, lower);
    DotIsBucketPairs(a, c, n, lower);
  }

  lemma {:induction false} PairsBound(a: seq<string>, c: seq<string>, n: nat, lower: Lower)
    requires n > 0
    ensures SharedPairs(a, c, lower) <= BucketPairs(a, c, n, lower)
    ensures SharedPairs(a, c, lower) == BucketPairs(a, c, n, lower)
            <==> NoCollision(a, c, n, lower)
  {
    if a == [] {
    } else {
      var init := a[..|a| - 1];
      PairsBound(init, c, n, lower);
      BucketHoldsWord(c, a[|a| - 1], n, lower);
      CollisionsNext(a, c, n, lower);
    }
  }

  lemma {:induction false} SharedIsPositive(a: seq<string>, c: seq<string>, lower: Lower, i: nat, j: nat)
    requires i < |a| && j < |c| && lower(a[i]) == lower(c[j])
    ensures SharedPairs(a, c, lower) > 0
  {
    if i == |a| - 1 {
      OccursOnce(c, lower(a[i]), lower, j);
    } else {
      SharedIsPositive(a[..|a| - 1], c, lower, i, j);
    }
  }

  lemma {:induction false} OccursOnce(c: seq<string>, key: string, lower: Lower, j: nat)
    requires j < |c| && lower(c[j]) == key
    ensures Occurrences(c, key, lower) > 0
  {
    if j < |c| - 1 { OccursOnce(c[..|c| - 1], key, lower, j); }
  }

  // ---------------------------------------------------------------- after normalisation

  lemma {:induction false} DotScale(a: seq<real>, c: seq<real>, r: real)
    requires |a| == |c| && r > 0.0
    ensures Dot(Norm(a, r), c) * r == Dot(a, c)
  {
    if a == [] {
    } else {
      var n := |a| - 1;
      DotScale(a[..n], c[..n], r);
      assert Norm(a, r)[..n] == Norm(a[..n], r);
      ScaleOne(Dot(Norm(a[..n], r), c[..n]), a[n], c[n], r);
    }
  }

  lemma ScaleOne(d: real, x: real, y: real, r: real)
    requires r > 0.0
    ensures (d + (x / r) * y) * r == d * r + x * y
  {
    var p := x / r;
    assert p * r == x;
    assert (d + p * y) * r == d * r + (p * r) * y;
  }

  lemma {:induction false} DotCommutes(a: seq<real>, c: seq<real>)
    requires |a| == |c|
    ensures Dot(a, c) == Dot(c, a)
  {
    if a == [] {
    } else {
      DotCommutes(a[..|a| - 1], c[..|c| - 1]);
    }
  }

  /** Normalising both vectors divides the inner product by both norms, one after the other. */
  lemma DotScaleBoth(a: seq<real>, c: seq<real>, r: real, s: real)
    returns (d: real, half: real, whole: real)
    requires |a| == |c| && r > 0.0 && s > 0.0
    ensures d == Dot(Norm(a, r), Norm(c, s)) && whole == Dot(a, c)
    ensures d * r == half && half * s == whole
  {
    d, half, whole := Dot(Norm(a, r), Norm(c, s)), Dot(a, Norm(c, s)), Dot(a, c);
    DotScale(a, Norm(c, s), r);
    DotCommutes(a, Norm(c, s));
    DotScale(c, a, s);
    DotCommutes(a, c);
  }

  /** A text with words embeds to a unit vector, and two texts that share a word, in whatever case,
      get embeddings with a positive cosine. */
  lemma SharedWordScoresPositive(a: seq<string>, c: seq<string>, n: nat, lower: Lower,
                                 ra: real, rc: real, i: nat, j: nat)
    requires n > 0 && i < |a| && j < |c| && lower(a[i]) == lower(c[j])
    requires IsRoot(ra, SumSq(Buckets(a, n, lower))) && IsRoot(rc, SumSq(Buckets(c, n, lower)))
    ensures var u, v := Norm(Buckets(a, n, lower), ra), Norm(Buckets(c, n, lower), rc);
            && SumSq(u) == 1.0 && SumSq(v) == 1.0
            && Dot(u, v) > 0.0
  {
    UnitNorm(a, n, lower, ra, i);
    UnitNorm(c, n, lower, rc, j);
    SharedIsPositive(a, c, lower, i, j);
    PairsBound(a, c, n, lower);
    DotIsBucketPairs(a, c, n, lower);
    PositiveAfterNorm(Buckets(a, n, lower), Buckets(c, n, lower), ra, rc);
  }

  lemma PositiveAfterNorm(v: seq<real>, u: seq<real>, r: real, s: real)
    requires |v| == |u| && r > 0.0 && s > 0.0 && Dot(v, u) > 0.0
    ensures Dot(Norm(v, r), Norm(u, s)) > 0.0
  {
    var d, half, whole := DotScaleBoth(v, u, r, s);
    PositiveScaled(d, half, whole, r, s);
  }

  lemma PositiveScaled(d: real, half: real, whole: real, r: real, s: real)
    requires r > 0.0 && s > 0.0 && whole > 0.0 && d * r == half && half * s == whole
    ensures d > 0.0
  {
    PositiveFactor(half, s);
    PositiveFactor(d, r);
  }

  lemma PositiveFactor(d: real, m: real)
    requires m > 0.0 && d * m > 0.0
    ensures d > 0.0
  {
    if d <= 0.0 {
      TimesPositive(-d, m);
      assert Times(-d, m) == -(d * m);
    }
  }

  lemma UnitNorm(a: seq<string>, n: nat, lower: Lower, r: real, i: nat)
    requires n > 0 && i < |a| && IsRoot(r, SumSq(Buckets(a, n, lower)))
    ensures r > 0.0 && SumSq(Norm(Buckets(a, n, lower), r)) == 1.0
  {
    SharedIsPositive(a, a, lower, i, i);
    PairsBound(a, a, n, lower);
    DotIsBucketPairs(a, a, n, lower);
    UnitAfterNorm(Buckets(a, n, lower), r);
  }

  lemma UnitAfterNorm(v: seq<real>, r: real)
    requires SumSq(v) > 0.0 && IsRoot(r, SumSq(v))
    ensures r > 0.0 && SumSq(Norm(v, r)) == 1.0
  {
    assert r != 0.0;
    var d, half, whole := DotScaleBoth(v, v, r, r);
    CancelFactor(half, r, r);
    CancelFactor(SumSq(Norm(v, r)), 1.0, r);
  }

  lemma CancelFactor(x: real, y: real, m: real)
    requires m > 0.0 && x * m == y * m
    ensures x == y
  {
    assert Times(x - y, m) == 0.0 by { assert (x - y) * m == x * m - y * m; }
    TimesPositive(x - y, m);
    TimesPositive(y - x, m);
    assert Times(y - x, m) == -Times(x - y, m);
  }
}
