/** The list and dictionary helpers of morelib/util.py: `lcut`, `djoin` and
    `dsort`. A dictionary is a `map`; where its iteration order matters
    (`dsort`) it is the sequence of its `(key, value)` items. */
module UtilLists {
  import opened PyBuiltins

  // ---------------------------------------------------------------------
  // lcut
  // ---------------------------------------------------------------------

  /** `lcut(l, n)`: `(l[:n], l[n:])`, with Python's slice-bound rules for a
      negative or out-of-range `n`. */
  function LCut<T>(l: seq<T>, n: int): (r: (seq<T>, seq<T>))
    ensures r.0 + r.1 == l
    ensures |r.0| == SliceBound(n, |l|)
  {
    var k := SliceBound(n, |l|);
    assert l[..k] + l[k..] == l;
    (l[..k], l[k..])
  }

  // ---------------------------------------------------------------------
  // djoin
  // ---------------------------------------------------------------------

  /** The entries of `d` whose keys lie in `ks`. */
  function Restrict<K, V>(d: map<K, V>, ks: set<K>): map<K, V>
  {
    map k | k in ks && k in d :: d[k]
  }

  /** One dictionary folded into the accumulated result: a new key keeps its
      value, a repeated key gets `oper(old, new)`. */
  function Merge<K, V>(acc: map<K, V>, d: map<K, V>, oper: (V, V) -> V): map<K, V>
  {
    map k | k in acc.Keys + d.Keys ::
      if k in acc && k in d then oper(acc[k], d[k])
      else if k in acc then acc[k]
      else d[k]
  }

  /** The dictionaries merged from left to right. */
  function JoinAll<K, V>(ds: seq<map<K, V>>, oper: (V, V) -> V): map<K, V>
  {
    if ds == [] then map[] else Merge(JoinAll(ds[..|ds| - 1], oper), ds[|ds| - 1], oper)
  }

  /** Every key of every input. */
  function UnionKeys<K, V>(ds: seq<map<K, V>>): set<K>
  {
    if ds == [] then {} else UnionKeys(ds[..|ds| - 1]) + ds[|ds| - 1].Keys
  }

  /** The values that key `k` has in the inputs, in input order. */
  function Occurrences<K, V>(ds: seq<map<K, V>>, k: K): seq<V>
  {
    if ds == [] then []
    else Occurrences(ds[..|ds| - 1], k) + (if k in ds[|ds| - 1] then [ds[|ds| - 1][k]] else [])
  }

  /** `oper(...oper(oper(v0, v1), v2)..., vn)`. */
  function FoldLeft<V>(oper: (V, V) -> V, vs: seq<V>): V
    requires vs != []
  {
    if |vs| == 1 then vs[0] else oper(FoldLeft(oper, vs[..|vs| - 1]), vs[|vs| - 1])
  }

  /** `djoin(x, y, *more, key=oper)`: every key of every input is in the
      result, and the value of a key is the left-to-right fold, by `oper`,
      of the values it has in the inputs (`oper` is `+` when no `key` is
      given). */
  method DJoin<K, V>(x: map<K, V>, y: map<K, V>, more: seq<map<K, V>>, oper: (V, V) -> V)
    returns (r: map<K, V>)
    ensures r == JoinAll([x, y] + more, oper)
  {
    var each := [x, y] + more;
    r := map[];
    var i := 0;
    while i < |each|
      invariant 0 <= i <= |each|
      invariant r == JoinAll(each[..i], oper)
    {
      r := MergeInto(r, each[i], oper);
      assert each[..i + 1][..i] == each[..i];
      i := i + 1;
    }
    assert each[..|each|] == each;
  }

  /** The inner loop of `djoin`: every key of `d` folded into `acc`. */
  method MergeInto<K, V>(acc: map<K, V>, d: map<K, V>, oper: (V, V) -> V) returns (r: map<K, V>)
    ensures r == Merge(acc, d, oper)
  {
    r := acc;
    var todo := d.Keys;
    while todo != {}
      invariant todo <= d.Keys
      invariant r == Merge(acc, Restrict(d, d.Keys - todo), oper)
      decreases todo
    {
      var k :| k in todo;
      MergeStep(acc, d, d.Keys - todo, k, oper);
      if k !in r {
        r := r[k := d[k]];
      } else {
        r := r[k := oper(r[k], d[k])];
      }
      assert d.Keys - (todo - {k}) == (d.Keys - todo) + {k};
      todo := todo - {k};
    }
    assert Restrict(d, d.Keys) == d;
  }

  /** Adding one more key of `d` to the merge updates exactly that key. */
  lemma MergeStep<K, V>(acc: map<K, V>, d: map<K, V>, done: set<K>, k: K, oper: (V, V) -> V)
    requires done <= d.Keys && k in d && k !in done
    ensures var m := Merge(acc, Restrict(d, done), oper);
            (k in m <==> k in acc) &&
            Merge(acc, Restrict(d, done + {k}), oper)
              == (if k in acc then m[k := oper(m[k], d[k])] else m[k := d[k]])
  {
  }

  /** What `djoin` promises, key by key: the result's keys are the union of
      the inputs' keys, and each value is the fold of that key's values. */
  lemma {:induction false} JoinAllFolds<K, V>(ds: seq<map<K, V>>, oper: (V, V) -> V)
    ensures JoinAll(ds, oper).Keys == UnionKeys(ds)
    ensures forall k :: k in JoinAll(ds, oper) ==>
      Occurrences(ds, k) != [] && JoinAll(ds, oper)[k] == FoldLeft(oper, Occurrences(ds, k))
  {
    if ds != [] {
      var init := ds[..|ds| - 1];
      var d := ds[|ds| - 1];
      JoinAllFolds(init, oper);
      forall k | k in JoinAll(ds, oper)
        ensures Occurrences(ds, k) != [] && JoinAll(ds, oper)[k] == FoldLeft(oper, Occurrences(ds, k))
      {
        var occ := Occurrences(init, k);
        if k in d && k in JoinAll(init, oper) {
          assert Occurrences(ds, k) == occ + [d[k]];
          assert (occ + [d[k]])[..|occ|] == occ;
          assert JoinAll(ds, oper)[k] == oper(JoinAll(init, oper)[k], d[k]);
        } else if k in d {
          assert k !in UnionKeys(init);
          OccurrencesOutside(init, k);
          assert Occurrences(ds, k) == [d[k]];
        } else {
          assert Occurrences(ds, k) == occ + [];
          assert occ + [] == occ;
          assert JoinAll(ds, oper)[k] == JoinAll(init, oper)[k];
        }
      }
    }
  }

  /** A key that no input has has no occurrences. */
  lemma {:induction false} OccurrencesOutside<K, V>(ds: seq<map<K, V>>, k: K)
    requires k !in UnionKeys(ds)
    ensures Occurrences(ds, k) == []
  {
    if ds != [] {
      OccurrencesOutside(ds[..|ds| - 1], k);
    }
  }

  /** A key found in only one input keeps that input's value. */
  lemma SingleSourceKept<K, V>(ds: seq<map<K, V>>, oper: (V, V) -> V, k: K, v: V)
    requires Occurrences(ds, k) == [v]
    ensures k in JoinAll(ds, oper) && JoinAll(ds, oper)[k] == v
  {
    JoinAllFolds(ds, oper);
    OccurrencesInUnion(ds, k);
  }

  /** A key with an occurrence is in some input. */
  lemma {:induction false} OccurrencesInUnion<K, V>(ds: seq<map<K, V>>, k: K)
    requires Occurrences(ds, k) != []
    ensures k in UnionKeys(ds)
  {
    if k !in UnionKeys(ds) {
      OccurrencesOutside(ds, k);
    }
  }

  // ---------------------------------------------------------------------
  // dsort
  // ---------------------------------------------------------------------

  /** `dsort(d, key, reverse)`: the dictionary's items, stably sorted by
      `key` (an `OrderedDict` keeps that order). The result holds the same
      items, in key order, and items with equal keys keep their order. */
  function DSort<K, V>(items: seq<(K, V)>, key: ((K, V)) -> real, reverse: bool): (r: seq<(K, V)>)
    ensures multiset(r) == multiset(items)
    ensures SortedBy(r, key, reverse)
    ensures forall v :: WithKey(r, key, v) == WithKey(items, key, v)
  {
    StableSortSorts(items, key, reverse);
    forall v ensures WithKey(StableSort(items, key, reverse), key, v) == WithKey(items, key, v) {
      StableSortStable(items, key, reverse, v);
    }
    StableSort(items, key, reverse)
  }
}
