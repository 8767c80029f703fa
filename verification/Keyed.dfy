/** Insertion-ordered rows addressed by key: the shape of the metadata sidecar, of the
    reference tenant's record vector, and of a directory listing. */
module Keyed {

  datatype Option<+T> = None | Some(value: T)

  datatype Row<+K, +T> = Row(key: K, body: T)

  predicate Has<K(==), T>(rows: seq<Row<K, T>>, key: K) {
    exists i :: 0 <= i < |rows| && rows[i].key == key
  }

  predicate Unique<K(==), T>(rows: seq<Row<K, T>>) {
    forall i, j :: 0 <= i < j < |rows| ==> rows[i].key != rows[j].key
  }

  /** Index of the first row with `key`, or the length of `rows` when there is none. */
  function Position<K(==), T>(rows: seq<Row<K, T>>, key: K): (p: nat)
    ensures p <= |rows|
    ensures p < |rows| ==> rows[p].key == key
    ensures forall i :: 0 <= i < p ==> rows[i].key != key
    ensures p < |rows| <==> Has(rows, key)
  {
    if rows == [] then 0
    else if rows[0].key == key then 0
    else
      assert forall i :: 0 <= i < |rows[1..]| ==> rows[1..][i] == rows[i + 1];
      assert forall i :: 0 < i < |rows| ==> rows[i] == rows[1..][i - 1];
      1 + Position(rows[1..], key)
  }

  function Lookup<K(==), T>(rows: seq<Row<K, T>>, key: K): Option<T> {
    var p := Position(rows, key);
    if p < |rows| then Some(rows[p].body) else None
  }

  /** Overwrite in place when the key is present, append otherwise. */
  function Upsert<K(==), T>(rows: seq<Row<K, T>>, row: Row<K, T>): seq<Row<K, T>> {
    var p := Position(rows, row.key);
    if p < |rows| then rows[p := row] else rows + [row]
  }

  /** Keep every row whose key differs from `key`. */
  function Remove<K(==), T>(rows: seq<Row<K, T>>, key: K): (kept: seq<Row<K, T>>)
    ensures |kept| <= |rows|
    ensures |kept| == |rows| <==> !Has(rows, key)
    ensures !Has(rows, key) ==> kept == rows
  {
    if rows == [] then []
    else
      assert rows == [rows[0]] + rows[1..];
      assert Has(rows, key) <==> rows[0].key == key || Has(rows[1..], key) by { HasCons(rows, key); }
      if rows[0].key == key then Remove(rows[1..], key)
      else [rows[0]] + Remove(rows[1..], key)
  }

  lemma HasCons<K, T>(rows: seq<Row<K, T>>, key: K)
    requires rows != []
    ensures Has(rows, key) <==> rows[0].key == key || Has(rows[1..], key)
  {
    if Has(rows[1..], key) {
      var i :| 0 <= i < |rows[1..]| && rows[1..][i].key == key;
      assert rows[i + 1].key == key;
    }
    if Has(rows, key) && rows[0].key != key {
      var i :| 0 <= i < |rows| && rows[i].key == key;
      assert rows[1..][i - 1].key == key;
    }
  }

  lemma HasAppend<K, T>(a: seq<Row<K, T>>, b: seq<Row<K, T>>, key: K)
    ensures Has(a + b, key) <==> Has(a, key) || Has(b, key)
  {
    if Has(a, key) {
      var i :| 0 <= i < |a| && a[i].key == key;
      assert (a + b)[i].key == key;
    }
    if Has(b, key) {
      var i :| 0 <= i < |b| && b[i].key == key;
      assert (a + b)[|a| + i].key == key;
    }
  }

  lemma UniqueCons<K, T>(rows: seq<Row<K, T>>)
    requires rows != []
    ensures Unique(rows) <==> !Has(rows[1..], rows[0].key) && Unique(rows[1..])
  {
    assert forall i :: 0 < i < |rows| ==> rows[i] == rows[1..][i - 1];
    if !Has(rows[1..], rows[0].key) && Unique(rows[1..]) {
      forall i, j | 0 <= i < j < |rows| ensures rows[i].key != rows[j].key {
        assert rows[j] == rows[1..][j - 1];
      }
    }
  }

  lemma {:induction false} PositionCons<K, T>(rows: seq<Row<K, T>>, row: Row<K, T>, key: K)
    ensures Position([row] + rows, key) == if row.key == key then 0 else 1 + Position(rows, key)
  {
    assert ([row] + rows)[1..] == rows;
  }

  lemma LookupCons<K, T>(rows: seq<Row<K, T>>, row: Row<K, T>, key: K)
    ensures Lookup([row] + rows, key) == if row.key == key then Some(row.body) else Lookup(rows, key)
  {
    PositionCons(rows, row, key);
  }

  /** A unique-keyed list is a map: looking a row's key up gives that row. */
  lemma LookupAt<K, T>(rows: seq<Row<K, T>>, i: nat)
    requires Unique(rows) && i < |rows|
    ensures Lookup(rows, rows[i].key) == Some(rows[i].body)
  {
    var p := Position(rows, rows[i].key);
    assert p < |rows| ==> rows[p].key == rows[i].key;
    assert Has(rows, rows[i].key);
  }

  /** `Upsert` is a map update on keys and lookups and keeps keys unique. */
  lemma UpsertIsUpdate<K, T>(rows: seq<Row<K, T>>, row: Row<K, T>, key: K)
    ensures Has(Upsert(rows, row), key) <==> key == row.key || Has(rows, key)
    ensures Lookup(Upsert(rows, row), key) == if key == row.key then Some(row.body) else Lookup(rows, key)
    ensures Unique(rows) ==> Unique(Upsert(rows, row))
  {
    var p := Position(rows, row.key);
    var up := Upsert(rows, row);
    if p < |rows| {
      assert up[p].key == row.key;
    } else {
      HasAppend(rows, [row], key);
      assert [row][0].key == row.key;
    }
    var q, q' := Position(up, key), Position(rows, key);
    if key == row.key {
      assert up[p].key == key;
      assert forall i :: 0 <= i < p ==> up[i].key != key;
    } else {
      assert forall i :: 0 <= i < |rows| ==> (up[i].key == key <==> rows[i].key == key);
      assert Has(rows, key) ==> q == q';
    }
  }

  lemma {:induction false} RemoveLookup<K, T>(rows: seq<Row<K, T>>, key: K, k: K)
    ensures Lookup(Remove(rows, key), k) == if k == key then None else Lookup(rows, k)
  {
    if rows == [] {
    } else {
      var rest := rows[1..];
      RemoveLookup(rest, key, k);
      assert rows == [rows[0]] + rest;
      LookupCons(rest, rows[0], k);
      LookupCons(Remove(rest, key), rows[0], k);
    }
  }

  lemma {:induction false} RemoveUnique<K, T>(rows: seq<Row<K, T>>, key: K)
    requires Unique(rows)
    ensures Unique(Remove(rows, key))
  {
    if rows == [] {
    } else {
      UniqueCons(rows);
      RemoveUnique(rows[1..], key);
      var kept := [rows[0]] + Remove(rows[1..], key);
      RemoveLookup(rows[1..], key, rows[0].key);
      assert kept[1..] == Remove(rows[1..], key);
      UniqueCons(kept);
    }
  }

  /** `Remove` deletes exactly the given key and leaves keys unique. */
  lemma RemoveIsDelete<K, T>(rows: seq<Row<K, T>>, key: K, k: K)
    ensures Has(Remove(rows, key), k) <==> k != key && Has(rows, k)
    ensures Lookup(Remove(rows, key), k) == if k == key then None else Lookup(rows, k)
    ensures Unique(rows) ==> Unique(Remove(rows, key))
  {
    RemoveLookup(rows, key, k);
    if Unique(rows) {
      RemoveUnique(rows, key);
    }
  }

  /** The rows `Remove` keeps stay in order: it works on any part of the list by itself. */
  lemma {:induction false} RemoveAppend<K, T>(a: seq<Row<K, T>>, b: seq<Row<K, T>>, key: K)
    ensures Remove(a + b, key) == Remove(a, key) + Remove(b, key)
  {
    if a == [] {
      assert a + b == b;
    } else {
      assert (a + b)[1..] == a[1..] + b && (a + b)[0] == a[0];
      RemoveAppend(a[1..], b, key);
      assert a[0].key != key ==>
          [a[0]] + (Remove(a[1..], key) + Remove(b, key)) == ([a[0]] + Remove(a[1..], key)) + Remove(b, key);
    }
  }

  /** What `Remove` does to the order, with at most one row under the key: the rows before it and
      after it close up. */
  lemma RemoveClosesUp<K, T>(before: seq<Row<K, T>>, row: Row<K, T>, after: seq<Row<K, T>>)
    requires Unique(before + [row] + after)
    ensures Remove(before + [row] + after, row.key) == before + after
  {
    var all := before + [row] + after;
    assert all[|before|] == row;
    assert forall i :: 0 <= i < |before| ==> all[i] == before[i];
    assert forall i :: 0 <= i < |after| ==> all[|before| + 1 + i] == after[i];
    RemoveAppend(before + [row], after, row.key);
    RemoveAppend(before, [row], row.key);
    assert [row][1..] == [];
  }

  /** What `Upsert` does to the order: the row takes the place of the one with its key, or the end. */
  lemma UpsertPlaces<K, T>(before: seq<Row<K, T>>, row: Row<K, T>, new_: Row<K, T>, after: seq<Row<K, T>>)
    requires new_.key == row.key && !Has(before, row.key)
    ensures Upsert(before + [row] + after, new_) == before + [new_] + after
    ensures Upsert(before, new_) == before + [new_]
  {
    var all := before + [row] + after;
    assert all[|before|] == row;
    assert forall i :: 0 <= i < |before| ==> all[i] == before[i];
    assert Position(all, row.key) == |before|;
  }

  lemma {:induction false} RemoveMembers<K, T>(rows: seq<Row<K, T>>, key: K)
    ensures forall r :: r in Remove(rows, key) <==> r in rows && r.key != key
  {
    if rows == [] {
    } else {
      RemoveMembers(rows[1..], key);
      assert rows == [rows[0]] + rows[1..];
    }
  }
}
