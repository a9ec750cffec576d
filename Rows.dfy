/**
 * Ordered string-keyed PHP arrays: the rows the adapter sends to and receives
 * from the search engine, and the attribute lists of documents.
 *
 * A row is a sequence of (key, value) entries in insertion order. PHP arrays
 * have unique keys; `UniqueKeys` states that, and the lemmas that need it ask
 * for it. `Lookup` reads `$row[k]`, `Put` performs `$row[k] = v`.
 */
module Rows {
  import opened Wrappers

  /** The reserved key that carries a document's identifier. */
  const IdKey: string := "id"

  /** A value in a row. The adapter never inspects values except that an
      identifier travels as a string; every other value is an opaque payload. */
  datatype Value<X> = Text(text: string) | Opaque(payload: X)

  type Entry<X> = (string, Value<X>)

  type Row<X> = seq<Entry<X>>

  predicate HasKey<X>(r: Row<X>, k: string)
  {
    exists i :: 0 <= i < |r| && r[i].0 == k
  }

  predicate UniqueKeys<X>(r: Row<X>)
  {
    forall i, j :: 0 <= i < j < |r| ==> r[i].0 != r[j].0
  }

  /** `$row[k]`: the value stored under `k`, or None when `k` is not a key.
      When a sequence repeats a key, the later entry wins, as it does when
      PHP assigns the entries one after the other. */
  function Lookup<X>(r: Row<X>, k: string): (v: Option<Value<X>>)
    ensures v.Some? <==> HasKey(r, k)
    ensures v.Some? ==> (k, v.value) in r
  {
    if r == [] then None
    else if r[|r| - 1].0 == k then Some(r[|r| - 1].1)
    else
      var v := Lookup(r[..|r| - 1], k);
      assert HasKey(r, k) ==> HasKey(r[..|r| - 1], k) by {
        if HasKey(r, k) {
          var i :| 0 <= i < |r| && r[i].0 == k;
          assert r[..|r| - 1][i].0 == k;
        }
      }
      v
  }

  /** The entries of `r` whose key is not `k`, in the order of `r`. */
  function WithoutKey<X>(r: Row<X>, k: string): (r': Row<X>)
    ensures !HasKey(r', k)
    ensures |r'| <= |r|
    ensures forall i :: 0 <= i < |r'| ==> r'[i] in r && r'[i].0 != k
    ensures forall i :: 0 <= i < |r| && r[i].0 != k ==> r[i] in r'
  {
    if r == [] then []
    else
      var front := r[..|r| - 1];
      assert r == front + [r[|r| - 1]];
      WithoutKey(front, k) + (if r[|r| - 1].0 == k then [] else [r[|r| - 1]])
  }

  /** Every entry of `r` with key `k` given the value `v`, in place. */
  function Replace<X>(r: Row<X>, k: string, v: Value<X>): Row<X>
  {
    seq(|r|, i requires 0 <= i < |r| => if r[i].0 == k then (k, v) else r[i])
  }

  /** `$row[k] = v`, and `array_merge($row, [k => v])` for a string key `k`:
      an existing key keeps its position and takes the new value, a new key
      is added at the end. */
  function Put<X>(r: Row<X>, k: string, v: Value<X>): (r': Row<X>)
    ensures |r'| == if HasKey(r, k) then |r| else |r| + 1
    ensures forall i :: 0 <= i < |r| ==> r'[i].0 == r[i].0
    ensures !HasKey(r, k) ==> r'[|r|] == (k, v)
    ensures UniqueKeys(r) ==> UniqueKeys(r')
  {
    if HasKey(r, k) then Replace(r, k, v) else r + [(k, v)]
  }

  lemma LookupAppend<X>(r: Row<X>, e: Entry<X>, j: string)
    ensures Lookup(r + [e], j) == if j == e.0 then Some(e.1) else Lookup(r, j)
  {
    assert (r + [e])[..|r|] == r;
  }

  /** Filtering a concatenation filters each part and keeps them in order. */
  lemma {:induction false} WithoutKeyConcat<X>(a: Row<X>, b: Row<X>, k: string)
    ensures WithoutKey(a + b, k) == WithoutKey(a, k) + WithoutKey(b, k)
  {
    if b == [] {
      assert a + b == a;
    } else {
      var front := b[..|b| - 1];
      assert (a + b)[..|a + b| - 1] == a + front;
      WithoutKeyConcat(a, front, k);
    }
  }

  /** A row without the key is left as it is. */
  lemma {:induction false} WithoutKeyAbsent<X>(r: Row<X>, k: string)
    requires !HasKey(r, k)
    ensures WithoutKey(r, k) == r
  {
    if r != [] {
      var front := r[..|r| - 1];
      assert !HasKey(front, k) by {
        forall i | 0 <= i < |front| ensures front[i].0 != k {
          assert front[i] == r[i];
        }
      }
      WithoutKeyAbsent(front, k);
      assert r[|r| - 1].0 != k;
    }
  }

  lemma WithoutKeyLookupAll<X>(r: Row<X>, k: string)
    ensures forall j :: j != k ==> Lookup(WithoutKey(r, k), j) == Lookup(r, j)
  {
    forall j | j != k {
      WithoutKeyLookup(r, k, j);
    }
  }

  /** Removing `k` leaves the value of every other key unchanged. */
  lemma {:induction false} WithoutKeyLookup<X>(r: Row<X>, k: string, j: string)
    requires j != k
    ensures Lookup(WithoutKey(r, k), j) == Lookup(r, j)
  {
    if r != [] {
      var front := r[..|r| - 1];
      var last := r[|r| - 1];
      WithoutKeyLookup(front, k, j);
      if last.0 != k {
        LookupAppend(WithoutKey(front, k), last, j);
      } else {
        assert WithoutKey(r, k) == WithoutKey(front, k);
      }
    }
  }

  /** Removing a key keeps the remaining keys unique. */
  lemma {:induction false} WithoutKeyUnique<X>(r: Row<X>, k: string)
    requires UniqueKeys(r)
    ensures UniqueKeys(WithoutKey(r, k))
  {
    if r != [] {
      var front := r[..|r| - 1];
      var last := r[|r| - 1];
      WithoutKeyUnique(front, k);
      if last.0 != k {
        var w := WithoutKey(front, k);
        forall i | 0 <= i < |w| ensures w[i].0 != last.0 {
          var m :| 0 <= m < |front| && front[m] == w[i];
          assert r[m] == front[m];
        }
      }
    }
  }

  lemma {:induction false} ReplaceLookup<X>(r: Row<X>, k: string, v: Value<X>, j: string)
    ensures Lookup(Replace(r, k, v), j) == if j == k && HasKey(r, k) then Some(v) else Lookup(r, j)
  {
    if r != [] {
      var front := r[..|r| - 1];
      var last := r[|r| - 1];
      assert Replace(r, k, v) == Replace(front, k, v) + [Replace(r, k, v)[|r| - 1]];
      ReplaceLookup(front, k, v, j);
      LookupAppend(Replace(front, k, v), Replace(r, k, v)[|r| - 1], j);
    }
  }

  lemma {:induction false} ReplaceWithoutKey<X>(r: Row<X>, k: string, v: Value<X>)
    ensures WithoutKey(Replace(r, k, v), k) == WithoutKey(r, k)
  {
    if r != [] {
      var front := r[..|r| - 1];
      assert Replace(r, k, v)[..|r| - 1] == Replace(front, k, v);
      ReplaceWithoutKey(front, k, v);
    }
  }

  /** After `$row[k] = v`, the row holds `v` under `k` and nothing else changed. */
  lemma PutLookup<X>(r: Row<X>, k: string, v: Value<X>, j: string)
    ensures Lookup(Put(r, k, v), j) == if j == k then Some(v) else Lookup(r, j)
  {
    if HasKey(r, k) {
      ReplaceLookup(r, k, v, j);
    } else {
      LookupAppend(r, (k, v), j);
    }
  }

  /** The keys after `$row[k] = v` are the old keys and `k`. */
  lemma PutHasKey<X>(r: Row<X>, k: string, v: Value<X>, j: string)
    ensures HasKey(Put(r, k, v), j) <==> HasKey(r, j) || j == k
  {
    PutLookup(r, k, v, j);
  }

  /** Assigning `k` and then removing `k` is the same as removing `k`. */
  lemma PutWithoutKey<X>(r: Row<X>, k: string, v: Value<X>)
    ensures WithoutKey(Put(r, k, v), k) == WithoutKey(r, k)
  {
    if HasKey(r, k) {
      ReplaceWithoutKey(r, k, v);
    } else {
      assert (r + [(k, v)])[..|r|] == r;
    }
  }
}
