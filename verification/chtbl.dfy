/** The chained hash table of the toolchain: an array of buckets, each a linked
    list, with the element count kept alongside. The callbacks are the hash of a
    key and a key extractor: two elements compare equal (the C `compar` returns 0)
    exactly when their keys are equal. */
module Chtbl {
  import opened Wrappers
  import LinkedList

  /** `chtbl_insert`'s answer for an element whose key is already stored. */
  const ELMT_EXISTS: int := 1

  datatype Table<!T, !K(==)> = Table(
    table: seq<seq<T>>,   // bucket i holds its list's data from head to tail
    size: int,
    h: K -> nat,
    key: T -> K,
    hasDestroy: bool)

  /** Sum of the bucket lengths. */
  function Total<T>(buckets: seq<seq<T>>): nat {
    if |buckets| == 0 then 0 else |buckets[0]| + Total(buckets[1..])
  }

  /** The bucket a key hashes to. */
  function BucketOf<T, K(==)>(t: Table<T, K>, k: K): (b: nat)
    requires |t.table| > 0
    ensures b < |t.table|
  {
    t.h(k) % |t.table|
  }

  /** The table invariant: the count is the number of stored elements, every element
      sits in the bucket its key hashes to, and no two elements share a key. */
  ghost predicate Valid<T, K>(t: Table<T, K>) {
    && |t.table| > 0
    && t.size == Total(t.table)
    && (forall b, i :: 0 <= b < |t.table| && 0 <= i < |t.table[b]| ==>
          BucketOf(t, t.key(t.table[b][i])) == b)
    && (forall b, i, j :: 0 <= b < |t.table| && 0 <= i < j < |t.table[b]| ==>
          t.key(t.table[b][i]) != t.key(t.table[b][j]))
  }

  /** Some stored element has key `k`. */
  ghost predicate HasKey<T, K>(t: Table<T, K>, k: K) {
    exists b, i :: 0 <= b < |t.table| && 0 <= i < |t.table[b]| && t.key(t.table[b][i]) == k
  }

  /** `chtbl_init`: `buckets` empty lists and a zero count. Allocation failure is
      not modelled. */
  function Init<T, K(==)>(buckets: nat, h: K -> nat, key: T -> K, hasDestroy: bool): (t: Table<T, K>)
    requires buckets > 0
    ensures |t.table| == buckets && t.size == 0
    ensures forall b :: 0 <= b < buckets ==> t.table[b] == []
    ensures Valid(t)
  {
    var t := Table(seq(buckets, _ => []), 0, h, key, hasDestroy);
    assert Total(t.table) == 0 by { AllEmptyTotal(t.table); }
    t
  }

  lemma {:induction false} AllEmptyTotal<T>(s: seq<seq<T>>)
    requires forall b :: 0 <= b < |s| ==> s[b] == []
    ensures Total(s) == 0
  {
    if |s| > 0 {
      AllEmptyTotal(s[1..]);
    }
  }

  /** Replacing one bucket changes the total by the difference in its length. */
  lemma {:induction false} TotalUpdate<T>(s: seq<seq<T>>, b: nat, x: seq<T>)
    requires b < |s|
    ensures Total(s[b := x]) + |s[b]| == Total(s) + |x|
  {
    if b > 0 {
      assert s[b := x][1..] == s[1..][b - 1 := x];
      TotalUpdate(s[1..], b - 1, x);
    } else {
      assert s[b := x][1..] == s[1..];
    }
  }

  /** Position of the first element of `bucket`, from `i` on, whose key is `k`. */
  function FindKey<T, K(==)>(bucket: seq<T>, i: nat, k: K, key: T -> K): (r: Option<nat>)
    requires i <= |bucket|
    ensures r.Some? ==> i <= r.value < |bucket| && key(bucket[r.value]) == k
    ensures r.Some? ==> forall j :: i <= j < r.value ==> key(bucket[j]) != k
    ensures r.None? ==> forall j :: i <= j < |bucket| ==> key(bucket[j]) != k
    decreases |bucket| - i
  {
    if i == |bucket| then None
    else if key(bucket[i]) == k then Some(i)
    else FindKey(bucket, i + 1, k, key)
  }

  /** `chtbl_lookup`: the element with key `k` in the bucket `k` hashes to. Only
      that bucket is searched. */
  function Lookup<T, K(==)>(t: Table<T, K>, k: K): (r: Option<T>)
    requires |t.table| > 0
    ensures r.Some? ==> t.key(r.value) == k && r.value in t.table[BucketOf(t, k)]
    ensures r.None? ==>
      forall i :: 0 <= i < |t.table[BucketOf(t, k)]| ==> t.key(t.table[BucketOf(t, k)][i]) != k
  {
    var bucket := t.table[BucketOf(t, k)];
    match FindKey(bucket, 0, k, t.key)
    case Some(i) => Some(bucket[i])
    case None => None
  }

  /** In a valid table searching one bucket is enough: lookup finds a key iff the
      table holds it anywhere. */
  lemma LookupComplete<T, K>(t: Table<T, K>, k: K)
    requires Valid(t)
    ensures Lookup(t, k).Some? <==> HasKey(t, k)
  {
    if HasKey(t, k) {
      var b, i :| 0 <= b < |t.table| && 0 <= i < |t.table[b]| && t.key(t.table[b][i]) == k;
      assert BucketOf(t, t.key(t.table[b][i])) == b;
    }
    if Lookup(t, k).Some? {
      var bucket := t.table[BucketOf(t, k)];
      var i := FindKey(bucket, 0, k, t.key).value;
      assert t.key(t.table[BucketOf(t, k)][i]) == k;
    }
  }

  /** `chtbl_insert`: an element whose key is already present is refused with
      `ELMT_EXISTS` and the table is unchanged; otherwise it goes at the head of
      its bucket, the count grows by one and the status is 0. */
  function Insert<T, K(==)>(t: Table<T, K>, d: T): (r: (int, Table<T, K>))
    requires |t.table| > 0
    ensures Lookup(t, t.key(d)).Some? ==> r.0 == ELMT_EXISTS && r.1 == t
    ensures Lookup(t, t.key(d)).None? ==>
      var b := BucketOf(t, t.key(d));
      && r.0 == 0
      && r.1 == t.(table := t.table[b := [d] + t.table[b]], size := t.size + 1)
  {
    if Lookup(t, t.key(d)).Some? then (ELMT_EXISTS, t)
    else
      var b := BucketOf(t, t.key(d));
      (0, t.(table := t.table[b := [d] + t.table[b]], size := t.size + 1))
  }

  lemma InsertKeepsValid<T, K>(t: Table<T, K>, d: T)
    requires Valid(t)
    ensures Valid(Insert(t, d).1)
  {
    if Lookup(t, t.key(d)).None? {
      var b := BucketOf(t, t.key(d));
      TotalUpdate(t.table, b, [d] + t.table[b]);
      var r := Insert(t, d).1;
      forall c, i, j | 0 <= c < |r.table| && 0 <= i < j < |r.table[c]|
        ensures r.key(r.table[c][i]) != r.key(r.table[c][j])
      {
        if c == b && i == 0 {
          assert r.table[c][j] == t.table[b][j - 1];
        }
      }
    }
  }

  /** An inserted element is found again by its key; a refused one leaves the
      earlier element with that key in place. */
  lemma InsertThenLookup<T, K>(t: Table<T, K>, d: T)
    requires Valid(t)
    ensures Insert(t, d).0 == 0 ==> Lookup(Insert(t, d).1, t.key(d)) == Some(d)
    ensures Insert(t, d).0 == ELMT_EXISTS ==> Lookup(Insert(t, d).1, t.key(d)) == Lookup(t, t.key(d))
    ensures Lookup(Insert(t, d).1, t.key(d)).Some?
  {
  }

  /** In a valid table the element lookup returns is the one stored element with
      that key. */
  lemma LookupUnique<T, K>(t: Table<T, K>, k: K, x: T)
    requires Valid(t)
    requires x in t.table[BucketOf(t, k)] && t.key(x) == k
    ensures Lookup(t, k) == Some(x)
  {
    var bucket := t.table[BucketOf(t, k)];
    var j :| 0 <= j < |bucket| && bucket[j] == x;
    var i := FindKey(bucket, 0, k, t.key).value;
    assert i == j;
  }

  /** Inserting an element leaves the lookup of every other key as it was. */
  lemma InsertKeepsOthers<T, K>(t: Table<T, K>, d: T, k: K)
    requires Valid(t)
    requires t.key(d) != k
    ensures Lookup(Insert(t, d).1, k) == Lookup(t, k)
  {
    var r := Insert(t, d).1;
    InsertKeepsValid(t, d);
    var b := BucketOf(t, k);
    assert BucketOf(r, k) == b;
    match Lookup(t, k)
    case Some(x) =>
      assert x in r.table[b];
      LookupUnique(r, k, x);
    case None =>
      if Lookup(r, k).Some? {
        var y := Lookup(r, k).value;
        assert y in t.table[b];
        LookupUnique(t, k, y);
      }
  }

  /** Lookup after an insertion: an element stored earlier under the key wins;
      otherwise the inserted element is found under its own key and nowhere else. */
  lemma LookupAfterInsert<T, K>(t: Table<T, K>, d: T, k: K)
    requires Valid(t)
    ensures Lookup(Insert(t, d).1, k) ==
      if Lookup(t, k).Some? then Lookup(t, k)
      else if t.key(d) == k then Some(d) else None
  {
    if t.key(d) == k {
      InsertThenLookup(t, d);
    } else {
      InsertKeepsOthers(t, d, k);
    }
  }

  /** `chtbl_remove`: deletes the first element with key `k` from its bucket and
      returns it, decrementing the count; when there is none, returns nothing and
      the table is unchanged. */
  function Remove<T, K(==)>(t: Table<T, K>, k: K): (r: (Option<T>, Table<T, K>))
    requires |t.table| > 0
    ensures Lookup(t, k).None? ==> r.0.None? && r.1 == t
    ensures Lookup(t, k).Some? ==>
      var b := BucketOf(t, k);
      var i := FindKey(t.table[b], 0, k, t.key).value;
      && r.0 == Some(t.table[b][i])
      && r.1 == t.(table := t.table[b := t.table[b][..i] + t.table[b][i + 1..]], size := t.size - 1)
  {
    var b := BucketOf(t, k);
    match FindKey(t.table[b], 0, k, t.key)
    case None => (None, t)
    case Some(i) =>
      var bucket := t.table[b];
      (Some(bucket[i]), t.(table := t.table[b := bucket[..i] + bucket[i + 1..]], size := t.size - 1))
  }

  lemma RemoveKeepsValid<T, K>(t: Table<T, K>, k: K)
    requires Valid(t)
    ensures Valid(Remove(t, k).1)
  {
    var b := BucketOf(t, k);
    match FindKey(t.table[b], 0, k, t.key)
    case None =>
    case Some(i) =>
      var bucket := t.table[b];
      var nb := bucket[..i] + bucket[i + 1..];
      TotalUpdate(t.table, b, nb);
      var r := Remove(t, k).1;
      assert r.table == t.table[b := nb];
      forall j | 0 <= j < |nb| ensures nb[j] == bucket[if j < i then j else j + 1] {
      }
      forall c, x | 0 <= c < |r.table| && 0 <= x < |r.table[c]|
        ensures BucketOf(r, r.key(r.table[c][x])) == c
      {
        if c == b {
          assert r.table[c][x] == bucket[if x < i then x else x + 1];
        }
      }
      forall c, x, y | 0 <= c < |r.table| && 0 <= x < y < |r.table[c]|
        ensures r.key(r.table[c][x]) != r.key(r.table[c][y])
      {
        if c == b {
          assert r.table[c][x] == bucket[if x < i then x else x + 1];
          assert r.table[c][y] == bucket[if y < i then y else y + 1];
        }
      }
  }

  /** After a removal the key is gone from the whole table. */
  lemma RemoveThenLookup<T, K>(t: Table<T, K>, k: K)
    requires Valid(t)
    ensures Lookup(Remove(t, k).1, k).None?
    ensures !HasKey(Remove(t, k).1, k)
  {
    var b := BucketOf(t, k);
    match FindKey(t.table[b], 0, k, t.key)
    case None =>
      LookupComplete(t, k);
    case Some(i) =>
      var bucket := t.table[b];
      var nb := bucket[..i] + bucket[i + 1..];
      var r := Remove(t, k).1;
      assert forall j :: 0 <= j < |nb| ==> nb[j] == bucket[if j < i then j else j + 1];
      RemoveKeepsValid(t, k);
      LookupComplete(r, k);
  }

  /** The stored elements bucket by bucket, each bucket from head to tail. */
  function Flatten<T>(buckets: seq<seq<T>>): (s: seq<T>)
    ensures |s| == Total(buckets)
  {
    if |buckets| == 0 then [] else buckets[0] + Flatten(buckets[1..])
  }

  lemma {:induction false} FlattenSnoc<T>(buckets: seq<seq<T>>, i: nat)
    requires i < |buckets|
    ensures Flatten(buckets[..i + 1]) == Flatten(buckets[..i]) + buckets[i]
    decreases i
  {
    if i == 0 {
      assert buckets[..1][1..] == [];
    } else {
      assert buckets[..i + 1][1..] == buckets[1..][..i];
      assert buckets[..i][1..] == buckets[1..][..i - 1];
      FlattenSnoc(buckets[1..], i - 1);
    }
  }

  /** `chtbl_destroy`: destroys every bucket's list in order, so the destroy
      callback, when there is one, gets every stored element bucket by bucket;
      then the table is freed and the structure zeroed: no buckets, no elements,
      no destroy callback. */
  method Destroy<T, K(==)>(t: Table<T, K>) returns (r: Table<T, K>, destroyed: seq<T>)
    ensures r.table == [] && r.size == 0 && !r.hasDestroy
    ensures destroyed == if t.hasDestroy then Flatten(t.table) else []
    ensures t.hasDestroy ==> |destroyed| == Total(t.table)
  {
    destroyed := [];
    var i := 0;
    while i < |t.table|
      invariant 0 <= i <= |t.table|
      invariant destroyed == if t.hasDestroy then Flatten(t.table[..i]) else []
    {
      var emptied, gone := LinkedList.Destroy(LinkedList.List(t.table[i], None, t.hasDestroy));
      FlattenSnoc(t.table, i);
      destroyed := destroyed + gone;
      i := i + 1;
    }
    assert t.table[..|t.table|] == t.table;
    r := t.(table := [], size := 0, hasDestroy := false);
  }
}
