/**
 * Count tables: the `Record<string, number>` objects that the statistics page
 * fills with `conteo[k] = (conteo[k] || 0) + 1`, kept as association lists
 * in key-insertion order (the order `Object.keys` enumerates non-integer keys).
 */
module Tally {
  import opened Seqs

  datatype Entry<K> = Entry(key: K, count: nat)

  function Keys<K>(t: seq<Entry<K>>): (ks: seq<K>)
    ensures |ks| == |t|
    ensures forall i :: 0 <= i < |t| ==> ks[i] == t[i].key
  {
    if t == [] then [] else [t[0].key] + Keys(t[1..])
  }

  /** `Object.values` of the table. */
  function Counts<K>(t: seq<Entry<K>>): (cs: seq<nat>)
    ensures |cs| == |t|
    ensures forall i :: 0 <= i < |t| ==> cs[i] == t[i].count
  {
    if t == [] then [] else [t[0].count] + Counts(t[1..])
  }

  /** `conteo[k] || 0`. */
  function Lookup<K(==)>(t: seq<Entry<K>>, k: K): nat
  {
    if t == [] then 0 else if t[0].key == k then t[0].count else Lookup(t[1..], k)
  }

  /** `conteo[k] = (conteo[k] || 0) + 1`. */
  function Bump<K(==)>(t: seq<Entry<K>>, k: K): seq<Entry<K>>
  {
    if t == [] then [Entry(k, 1)]
    else if t[0].key == k then [Entry(k, t[0].count + 1)] + t[1..]
    else [t[0]] + Bump(t[1..], k)
  }

  /** The table after bumping every element of `xs` in turn. */
  function TallyOf<K(==)>(xs: seq<K>): seq<Entry<K>>
  {
    if xs == [] then [] else Bump(TallyOf(xs[..|xs| - 1]), xs[|xs| - 1])
  }

  lemma {:induction false} LookupBump<K>(t: seq<Entry<K>>, k: K, j: K)
    ensures Lookup(Bump(t, k), j) == Lookup(t, j) + (if j == k then 1 else 0)
  {
    if t != [] && t[0].key != k {
      LookupBump(t[1..], k, j);
      assert Bump(t, k)[1..] == Bump(t[1..], k);
    }
  }

  lemma {:induction false} KeysBump<K>(t: seq<Entry<K>>, k: K)
    ensures Keys(Bump(t, k)) == if k in Keys(t) then Keys(t) else Keys(t) + [k]
  {
    if t != [] {
      assert Keys(t) == [t[0].key] + Keys(t[1..]);
      if t[0].key != k {
        KeysBump(t[1..], k);
        assert Bump(t, k) == [t[0]] + Bump(t[1..], k);
        assert Keys(Bump(t, k)) == [t[0].key] + Keys(Bump(t[1..], k));
        assert k in Keys(t) <==> k in Keys(t[1..]);
      }
    }
  }

  lemma {:induction false} SumBump<K>(t: seq<Entry<K>>, k: K)
    ensures Sum(Counts(Bump(t, k))) == Sum(Counts(t)) + 1
  {
    if t != [] && t[0].key != k {
      SumBump(t[1..], k);
      assert Counts(Bump(t, k)) == [t[0].count] + Counts(Bump(t[1..], k));
    }
  }

  lemma {:induction false} PositiveBump<K>(t: seq<Entry<K>>, k: K)
    requires forall i :: 0 <= i < |t| ==> t[i].count > 0
    ensures forall i :: 0 <= i < |Bump(t, k)| ==> Bump(t, k)[i].count > 0
  {
    if t != [] && t[0].key != k {
      PositiveBump(t[1..], k);
      assert Bump(t, k) == [t[0]] + Bump(t[1..], k);
    }
  }

  /** The keys are the distinct elements in order of first appearance. */
  lemma {:induction false} TallyKeys<K>(xs: seq<K>)
    ensures Keys(TallyOf(xs)) == Dedup(xs)
  {
    if xs != [] {
      TallyKeys(xs[..|xs| - 1]);
      KeysBump(TallyOf(xs[..|xs| - 1]), xs[|xs| - 1]);
    }
  }

  /** Each key's count is its number of occurrences. */
  lemma {:induction false} TallyLookup<K>(xs: seq<K>, k: K)
    ensures Lookup(TallyOf(xs), k) == Count(xs, k)
  {
    if xs != [] {
      var p := xs[..|xs| - 1];
      TallyLookup(p, k);
      LookupBump(TallyOf(p), xs[|xs| - 1], k);
      assert xs == p + [xs[|xs| - 1]];
      CountAppend(p, [xs[|xs| - 1]], k);
    }
  }

  /** The counts add up to the number of elements counted. */
  lemma {:induction false} TallySum<K>(xs: seq<K>)
    ensures Sum(Counts(TallyOf(xs))) == |xs|
  {
    if xs != [] {
      TallySum(xs[..|xs| - 1]);
      SumBump(TallyOf(xs[..|xs| - 1]), xs[|xs| - 1]);
    }
  }

  lemma {:induction false} TallyPositive<K>(xs: seq<K>)
    ensures forall i :: 0 <= i < |TallyOf(xs)| ==> TallyOf(xs)[i].count > 0
  {
    if xs != [] {
      TallyPositive(xs[..|xs| - 1]);
      PositiveBump(TallyOf(xs[..|xs| - 1]), xs[|xs| - 1]);
    }
  }

  lemma {:induction false} LookupDistinct<K>(t: seq<Entry<K>>, i: nat)
    requires i < |t|
    requires NoDuplicates(Keys(t))
    ensures Lookup(t, t[i].key) == t[i].count
  {
    if i > 0 {
      assert Keys(t)[0] != Keys(t)[i];
      assert NoDuplicates(Keys(t[1..])) by {
        forall a, b | 0 <= a < b < |t| - 1 ensures Keys(t[1..])[a] != Keys(t[1..])[b] {
          assert Keys(t)[a + 1] != Keys(t)[b + 1];
        }
      }
      LookupDistinct(t[1..], i - 1);
    }
  }

  /** Looking up every key of a table without repeated keys gives back its counts. */
  lemma LookupKeys<K>(t: seq<Entry<K>>, f: K -> nat)
    requires NoDuplicates(Keys(t))
    requires forall k :: f(k) == Lookup(t, k)
    ensures Map(Keys(t), f) == Counts(t)
  {
    forall i | 0 <= i < |t| ensures Map(Keys(t), f)[i] == Counts(t)[i] {
      LookupDistinct(t, i);
    }
  }

  /** Every entry of a tally holds the number of occurrences of its key, at least one. */
  lemma TallyEntries<K>(xs: seq<K>)
    ensures forall i :: 0 <= i < |TallyOf(xs)| ==>
      TallyOf(xs)[i].count == Count(xs, TallyOf(xs)[i].key) >= 1
  {
    var t := TallyOf(xs);
    TallyKeys(xs);
    TallyPositive(xs);
    forall i | 0 <= i < |t| ensures t[i].count == Count(xs, t[i].key) {
      LookupDistinct(t, i);
      TallyLookup(xs, t[i].key);
    }
  }

}
