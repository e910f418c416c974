/** The classification helpers of morelib/util.py: `ranked` (sort, then
    group runs of equal neighbours), `multisorted` (sort by a list of keys,
    breaking ties with the next key) and `distributed` (bucket items by the
    result of a function). Sort keys are real-valued key functions; the
    identity key of the source is one the caller passes. */
module UtilClassify {
  import opened Wrappers
  import opened PyBuiltins

  // ---------------------------------------------------------------------
  // Groups of a list
  // ---------------------------------------------------------------------

  /** The groups put back together, in order. */
  function Flatten<T>(gs: seq<seq<T>>): seq<T>
  {
    if gs == [] then [] else Flatten(gs[..|gs| - 1]) + gs[|gs| - 1]
  }

  lemma {:induction false} FlattenAppend<T>(a: seq<seq<T>>, b: seq<seq<T>>)
    ensures Flatten(a + b) == Flatten(a) + Flatten(b)
    decreases |b|
  {
    if b == [] {
      assert a + b == a;
    } else {
      assert (a + b)[..|a + b| - 1] == a + b[..|b| - 1];
      FlattenAppend(a, b[..|b| - 1]);
    }
  }

  /** One more group adds its elements at the end. */
  lemma FlattenSnoc<T>(front: seq<seq<T>>, last: seq<T>)
    ensures Flatten(front + [last]) == Flatten(front) + last
  {
    assert (front + [last])[..|front|] == front;
  }

  /** An element of the flattened groups lies in one of the groups. */
  lemma {:induction false} InFlatten<T>(gs: seq<seq<T>>, x: T)
    requires x in multiset(Flatten(gs))
    ensures exists i :: 0 <= i < |gs| && x in gs[i]
  {
    var init := gs[..|gs| - 1];
    if x in multiset(Flatten(init)) {
      InFlatten(init, x);
      var i :| 0 <= i < |init| && x in init[i];
      assert x in gs[i];
    } else {
      assert x in multiset(gs[|gs| - 1]);
    }
  }

  // ---------------------------------------------------------------------
  // ranked
  // ---------------------------------------------------------------------

  /** The runs of neighbours of `sl` whose `compare` values are equal, built
      from the left as `ranked` builds them: the next element joins the last
      run when it compares equal to the element before it, and opens a new
      run otherwise. */
  function Runs<T, C(==)>(sl: seq<T>, compare: T -> C): (r: seq<seq<T>>)
    requires sl != []
    ensures r != [] && forall i :: 0 <= i < |r| ==> r[i] != []
    ensures r[|r| - 1][|r[|r| - 1]| - 1] == sl[|sl| - 1]
    decreases |sl|
  {
    if |sl| == 1 then [[sl[0]]]
    else Extend(Runs(sl[..|sl| - 1], compare), sl[|sl| - 1], compare)
  }

  /** One step of `ranked`'s loop: `x` joins the last run when it compares
      equal to the element before it, and opens a new run otherwise. */
  function Extend<T, C(==)>(rest: seq<seq<T>>, x: T, compare: T -> C): (r: seq<seq<T>>)
    requires rest != [] && forall i :: 0 <= i < |rest| ==> rest[i] != []
    ensures r != [] && forall i :: 0 <= i < |r| ==> r[i] != []
    ensures r[|r| - 1][|r[|r| - 1]| - 1] == x
  {
    var last := rest[|rest| - 1];
    if compare(x) == compare(last[|last| - 1]) then rest[..|rest| - 1] + [last + [x]]
    else rest + [[x]]
  }

  /** Whether the next element joins the last run or opens a new one, the
      runs put back together grow by that element. */
  lemma ExtendFlatten<T>(rest: seq<seq<T>>, x: T, joins: bool)
    requires rest != []
    ensures Flatten(if joins then rest[..|rest| - 1] + [rest[|rest| - 1] + [x]] else rest + [[x]])
         == Flatten(rest) + [x]
  {
    var front := rest[..|rest| - 1];
    var last := rest[|rest| - 1];
    assert rest == front + [last];
    FlattenSnoc(front, last);
    if joins {
      FlattenSnoc(front, last + [x]);
    } else {
      FlattenSnoc(rest, [x]);
    }
  }

  /** Put back together, the runs give the sorted list. */
  lemma {:induction false} RunsFlatten<T, C>(sl: seq<T>, compare: T -> C)
    requires sl != []
    ensures Flatten(Runs(sl, compare)) == sl
    decreases |sl|
  {
    if |sl| == 1 {
      FlattenSnoc([], [sl[0]]);
      assert [] + [[sl[0]]] == Runs(sl, compare);
    } else {
      RunsFlatten(sl[..|sl| - 1], compare);
      RunsFlattenStep(sl, compare);
    }
  }

  /** The step of `RunsFlatten`: if the runs of all but the last element
      put back together give those elements, the runs of the whole list
      give the whole list. */
  lemma RunsFlattenStep<T, C>(sl: seq<T>, compare: T -> C)
    requires |sl| > 1 && Flatten(Runs(sl[..|sl| - 1], compare)) == sl[..|sl| - 1]
    ensures Flatten(Runs(sl, compare)) == sl
  {
    var init := sl[..|sl| - 1];
    var rest := Runs(init, compare);
    var last := rest[|rest| - 1];
    var x := sl[|sl| - 1];
    FrontLast(sl);
    ExtendFlatten(rest, x, compare(x) == compare(last[|last| - 1]));
  }

  /** Neighbours inside a run of `r` compare equal. */
  ghost predicate EqualWithin<T, C>(r: seq<seq<T>>, compare: T -> C)
  {
    forall i, j :: 0 <= i < |r| && 0 <= j < |r[i]| - 1 ==> compare(r[i][j]) == compare(r[i][j + 1])
  }

  /** The last element of a run of `r` compares unequal to the first
      element of the next run. */
  ghost predicate UnequalAcross<T, C>(r: seq<seq<T>>, compare: T -> C)
    requires forall i :: 0 <= i < |r| ==> r[i] != []
  {
    forall i :: 0 <= i < |r| - 1 ==> compare(r[i][|r[i]| - 1]) != compare(r[i + 1][0])
  }

  /** Neighbours inside a run compare equal. */
  lemma {:induction false} RunsInside<T, C>(sl: seq<T>, compare: T -> C)
    requires sl != []
    ensures EqualWithin(Runs(sl, compare), compare)
    decreases |sl|
  {
    if |sl| > 1 {
      var init := sl[..|sl| - 1];
      RunsInside(init, compare);
      ExtendRunsInside(Runs(init, compare), sl[|sl| - 1], compare);
    }
  }

  /** One more element, joining the last run or opening a new one, keeps
      neighbours inside a run equal. */
  lemma ExtendRunsInside<T, C>(rest: seq<seq<T>>, x: T, compare: T -> C)
    requires rest != [] && forall i :: 0 <= i < |rest| ==> rest[i] != []
    requires EqualWithin(rest, compare)
    ensures EqualWithin(Extend(rest, x, compare), compare)
  {
    var last := rest[|rest| - 1];
    if compare(x) == compare(last[|last| - 1]) {
      var r := rest[..|rest| - 1] + [last + [x]];
      forall i, j | 0 <= i < |r| && 0 <= j < |r[i]| - 1
        ensures compare(r[i][j]) == compare(r[i][j + 1])
      {
        if i < |r| - 1 {
          assert r[i] == rest[i];
        } else if j < |last| - 1 {
          assert r[i][j] == last[j] && r[i][j + 1] == last[j + 1];
        } else {
          assert r[i][j] == last[|last| - 1] && r[i][j + 1] == x;
        }
      }
    } else {
      var r := rest + [[x]];
      forall i, j | 0 <= i < |r| && 0 <= j < |r[i]| - 1
        ensures compare(r[i][j]) == compare(r[i][j + 1])
      {
        assert r[i] == rest[i];
      }
    }
  }

  /** The last element of a run compares unequal to the first element of
      the next run. */
  lemma {:induction false} RunsBoundaries<T, C>(sl: seq<T>, compare: T -> C)
    requires sl != []
    ensures UnequalAcross(Runs(sl, compare), compare)
    decreases |sl|
  {
    if |sl| > 1 {
      var init := sl[..|sl| - 1];
      RunsBoundaries(init, compare);
      ExtendRunsBoundaries(Runs(init, compare), sl[|sl| - 1], compare);
    }
  }

  /** One more element keeps the runs unequal across their boundaries: it
      joins the last run exactly when it compares equal to that run's last
      element. */
  lemma ExtendRunsBoundaries<T, C>(rest: seq<seq<T>>, x: T, compare: T -> C)
    requires rest != [] && forall i :: 0 <= i < |rest| ==> rest[i] != []
    requires UnequalAcross(rest, compare)
    ensures UnequalAcross(Extend(rest, x, compare), compare)
  {
    var last := rest[|rest| - 1];
    if compare(x) == compare(last[|last| - 1]) {
      var r := rest[..|rest| - 1] + [last + [x]];
      forall i | 0 <= i < |r| - 1
        ensures compare(r[i][|r[i]| - 1]) != compare(r[i + 1][0])
      {
        assert r[i] == rest[i];
        if i + 1 < |r| - 1 {
          assert r[i + 1] == rest[i + 1];
        } else {
          assert r[i + 1][0] == last[0];
        }
      }
    } else {
      var r := rest + [[x]];
      forall i | 0 <= i < |r| - 1
        ensures compare(r[i][|r[i]| - 1]) != compare(r[i + 1][0])
      {
        assert r[i] == rest[i];
        if i + 1 < |r| - 1 {
          assert r[i + 1] == rest[i + 1];
        } else {
          assert r[i] == last && r[i + 1][0] == x;
        }
      }
    }
  }

  /** `ranked(l, key, reverse, cmpkey)`: `l` sorted by `key` (stably), then
      cut into the runs of neighbours that `compare` (the `cmpkey`, or `key`
      itself when none is given) finds equal. An empty list raises
      IndexError at `sl[0]`. */
  method Ranked<T, C(==)>(l: seq<T>, key: T -> real, compare: T -> C, reverse: bool)
    returns (r: Result<seq<seq<T>>, PyError>)
    ensures r.Failure? <==> l == []
    ensures r.Failure? ==> r.error == IndexError
    ensures r.Success? ==> r.value == Runs(StableSort(l, key, reverse), compare)
  {
    var sl := StableSort(l, key, reverse);
    if l == [] {
      return Failure(IndexError);
    }
    assert sl != [];
    var rl: seq<seq<T>> := [];
    var chain := [sl[0]];
    var prev := sl[0];
    var i := 1;
    assert sl[..1] == [sl[0]];
    while i < |sl|
      invariant 1 <= i <= |sl|
      invariant chain != [] && prev == chain[|chain| - 1]
      invariant rl + [chain] == Runs(sl[..i], compare)
    {
      var item := sl[i];
      assert sl[..i + 1][..i] == sl[..i];
      assert sl[..i + 1][i] == item;
      if compare(item) == compare(prev) {
        chain := chain + [item];
      } else {
        rl := rl + [chain];
        chain := [item];
      }
      prev := item;
      i := i + 1;
    }
    rl := rl + [chain];
    assert sl[..|sl|] == sl;
    r := Success(rl);
  }

  /** Under the default comparison (`cmpkey` absent, so runs compare by the
      sort key), the runs of a sorted list are its classes of equal keys:
      every element of a run has the run's key, and the runs' keys come in
      strictly increasing sort order. */
  lemma {:induction false} RunsOfSorted<T>(sl: seq<T>, key: T -> real, reverse: bool)
    requires sl != [] && SortedBy(sl, key, reverse)
    ensures KeyedGroups(Runs(sl, key), key, reverse)
    decreases |sl|
  {
    if |sl| > 1 {
      var init := sl[..|sl| - 1];
      var x := sl[|sl| - 1];
      assert SortedBy(init, key, reverse);
      var rest := Runs(init, key);
      RunsOfSorted(init, key, reverse);
      var last := rest[|rest| - 1];
      var prev := last[|last| - 1];
      assert prev == sl[|sl| - 2];
      assert !Before(x, prev, key, reverse);
      ExtendKeyed(rest, x, key, reverse, key(x) == key(prev));
    }
  }

  /** An element that sorts no earlier than the last one keeps the groups
      keyed, whether it joins the last group (same key) or opens a new one
      (a later key). */
  lemma ExtendKeyed<T>(rest: seq<seq<T>>, x: T, key: T -> real, reverse: bool, joins: bool)
    requires rest != [] && KeyedGroups(rest, key, reverse)
    requires var last := rest[|rest| - 1];
             !Before(x, last[|last| - 1], key, reverse) && (joins <==> key(x) == key(last[|last| - 1]))
    ensures KeyedGroups(if joins then rest[..|rest| - 1] + [rest[|rest| - 1] + [x]] else rest + [[x]],
                        key, reverse)
  {
    var last := rest[|rest| - 1];
    var prev := last[|last| - 1];
    assert key(prev) == key(last[0]);
    if joins {
      var r := rest[..|rest| - 1] + [last + [x]];
      forall i, j | 0 <= i < |r| && 0 <= j < |r[i]| ensures key(r[i][j]) == key(r[i][0]) {
        if i < |r| - 1 {
          assert r[i] == rest[i];
        } else if j < |last| {
          assert r[i][j] == last[j];
        }
      }
      forall i, j | 0 <= i < j < |r| ensures Before(r[i][0], r[j][0], key, reverse) {
        assert r[i] == rest[i];
        if j < |r| - 1 {
          assert r[j] == rest[j];
        } else {
          assert r[j][0] == last[0];
        }
      }
    } else {
      var r := rest + [[x]];
      assert Before(prev, x, key, reverse);
      forall i, j | 0 <= i < |r| && 0 <= j < |r[i]| ensures key(r[i][j]) == key(r[i][0]) {
        if i < |r| - 1 {
          assert r[i] == rest[i];
        }
      }
      forall i, j | 0 <= i < j < |r| ensures Before(r[i][0], r[j][0], key, reverse) {
        assert r[i] == rest[i];
        if j < |r| - 1 {
          assert r[j] == rest[j];
        } else if i < |rest| - 1 {
          assert Before(rest[i][0], last[0], key, reverse);
        }
      }
    }
  }

  /** The groups of `gs` are non-empty, each has one key, and they come in
      strictly increasing key order. */
  ghost predicate KeyedGroups<T>(gs: seq<seq<T>>, key: T -> real, reverse: bool)
  {
    (forall i :: 0 <= i < |gs| ==> gs[i] != []) &&
    (forall i, j :: 0 <= i < |gs| && 0 <= j < |gs[i]| ==> key(gs[i][j]) == key(gs[i][0])) &&
    (forall i, j :: 0 <= i < j < |gs| ==> Before(gs[i][0], gs[j][0], key, reverse))
  }

  // ---------------------------------------------------------------------
  // multisorted
  // ---------------------------------------------------------------------

  /** `a` sorts strictly before `b` under the keys taken in turn: the first
      key on which they differ decides. */
  predicate LexBefore<T>(a: T, b: T, keys: seq<T -> real>, reverse: bool)
    decreases |keys|
  {
    keys != [] &&
    (Before(a, b, keys[0], reverse) ||
     (keys[0](a) == keys[0](b) && LexBefore(a, b, keys[1..], reverse)))
  }

  /** No element sorts strictly before an element to its left, under the
      keys taken in turn. */
  predicate LexSorted<T>(s: seq<T>, keys: seq<T -> real>, reverse: bool)
  {
    forall i, j :: 0 <= i < j < |s| ==> !LexBefore(s[j], s[i], keys, reverse)
  }

  /** What `multisorted(l, keys, reverse)` returns: `l` ranked by the first
      key, and every tied group of two or more re-sorted by the remaining
      keys when there are any, left as it is otherwise. */
  function MultiSort<T>(l: seq<T>, keys: seq<T -> real>, reverse: bool): seq<T>
    requires keys != []
    decreases |keys|, 1
  {
    if l == [] then []
    else SortGroups(Runs(StableSort(l, keys[0], reverse), keys[0]), keys[1..], reverse)
  }

  /** The loop of `multisorted` over the ranked groups. */
  function SortGroups<T>(gs: seq<seq<T>>, more: seq<T -> real>, reverse: bool): seq<T>
    decreases |more| + 1, 0, |gs|
  {
    if gs == [] then []
    else
      var g := gs[|gs| - 1];
      SortGroups(gs[..|gs| - 1], more, reverse) +
      (if |g| > 1 && more != [] then MultiSort(g, more, reverse) else g)
  }

  /** `multisorted(l, keys, reverse)`: the key list is `keys` (a single key
      is a list of one). An empty key list raises IndexError at `key[0]`,
      and an empty `l` raises IndexError inside `ranked`. */
  method MultiSorted<T>(l: seq<T>, keys: seq<T -> real>, reverse: bool)
    returns (r: Result<seq<T>, PyError>)
    ensures r.Failure? <==> keys == [] || l == []
    ensures r.Failure? ==> r.error == IndexError
    ensures r.Success? ==> keys != [] && r.value == MultiSort(l, keys, reverse)
    decreases |keys|, 1
  {
    if keys == [] {
      return Failure(IndexError);
    }
    var current := keys[0];
    var chance := Ranked(l, current, current, reverse);
    if chance.Failure? {
      return Failure(chance.error);
    }
    var ms := SortEach(chance.value, keys[1..], reverse);
    r := Success(ms);
  }

  /** The loop of `multisorted` over the ranked groups: a group of two or
      more is re-sorted by the remaining keys, if any. */
  method SortEach<T>(groups: seq<seq<T>>, more: seq<T -> real>, reverse: bool) returns (ms: seq<T>)
    ensures ms == SortGroups(groups, more, reverse)
    decreases |more| + 1, 0
  {
    ms := [];
    var i := 0;
    while i < |groups|
      invariant 0 <= i <= |groups|
      invariant ms == SortGroups(groups[..i], more, reverse)
    {
      var equals := groups[i];
      assert groups[..i + 1] == groups[..i] + [equals];
      if |equals| > 1 && |more| >= 1 {
        var again := MultiSorted(equals, more, reverse);
        ms := ms + again.value;
      } else {
        ms := ms + equals;
      }
      i := i + 1;
    }
    assert groups[..|groups|] == groups;
  }

  /** `multisorted` returns a permutation of its input. */
  lemma {:induction false} MultiSortPermutes<T>(l: seq<T>, keys: seq<T -> real>, reverse: bool)
    requires keys != []
    ensures multiset(MultiSort(l, keys, reverse)) == multiset(l)
    decreases |keys|, 1
  {
    if l != [] {
      var sl := StableSort(l, keys[0], reverse);
      StableSortSorts(l, keys[0], reverse);
      RunsFlatten(sl, keys[0]);
      SortGroupsPermutes(Runs(sl, keys[0]), keys[1..], reverse);
    }
  }

  lemma {:induction false} SortGroupsPermutes<T>(gs: seq<seq<T>>, more: seq<T -> real>, reverse: bool)
    ensures multiset(SortGroups(gs, more, reverse)) == multiset(Flatten(gs))
    decreases |more| + 1, 0, |gs|
  {
    if gs != [] {
      var g := gs[|gs| - 1];
      SortGroupsPermutes(gs[..|gs| - 1], more, reverse);
      if |g| > 1 && more != [] {
        MultiSortPermutes(g, more, reverse);
      }
    }
  }

  /** `multisorted` sorts by the first key and, among elements tied on it,
      by the remaining keys in turn. */
  lemma {:induction false} MultiSortSorted<T>(l: seq<T>, keys: seq<T -> real>, reverse: bool)
    requires keys != []
    ensures LexSorted(MultiSort(l, keys, reverse), keys, reverse)
    decreases |keys|, 1
  {
    if l != [] {
      var sl := StableSort(l, keys[0], reverse);
      StableSortSorts(l, keys[0], reverse);
      RunsOfSorted(sl, keys[0], reverse);
      SortGroupsSorted(Runs(sl, keys[0]), keys, reverse);
    }
  }

  lemma {:induction false} SortGroupsSorted<T>(gs: seq<seq<T>>, keys: seq<T -> real>, reverse: bool)
    requires keys != [] && KeyedGroups(gs, keys[0], reverse)
    ensures LexSorted(SortGroups(gs, keys[1..], reverse), keys, reverse)
    decreases |keys|, 0, |gs|
  {
    if gs != [] {
      var more := keys[1..];
      var init := gs[..|gs| - 1];
      var g := gs[|gs| - 1];
      KeyedGroupsPrefix(gs, keys[0], reverse);
      SortGroupsSorted(init, keys, reverse);
      var front := SortGroups(init, more, reverse);
      var back := if |g| > 1 && more != [] then MultiSort(g, more, reverse) else g;
      if |g| > 1 && more != [] {
        MultiSortPermutes(g, more, reverse);
        MultiSortSorted(g, more, reverse);
      }
      assert LexSorted(back, more, reverse);
      assert multiset(back) == multiset(g);
      forall j | 0 <= j < |back| ensures keys[0](back[j]) == keys[0](g[0]) {
        assert back[j] in multiset(g);
        var k :| 0 <= k < |g| && g[k] == back[j];
      }
      TiedLexSorted(back, keys, reverse);
      SortGroupsPermutes(init, more, reverse);
      forall i | 0 <= i < |front| ensures Before(front[i], g[0], keys[0], reverse) {
        assert front[i] in multiset(Flatten(init));
        InFlatten(init, front[i]);
        var m :| 0 <= m < |init| && front[i] in init[m];
        var k :| 0 <= k < |init[m]| && init[m][k] == front[i];
        assert init[m] == gs[m];
      }
      ConcatLexSorted(front, back, g[0], keys, reverse);
    }
  }

  lemma KeyedGroupsPrefix<T>(gs: seq<seq<T>>, key: T -> real, reverse: bool)
    requires gs != [] && KeyedGroups(gs, key, reverse)
    ensures KeyedGroups(gs[..|gs| - 1], key, reverse)
  {
    var init := gs[..|gs| - 1];
    assert forall i :: 0 <= i < |init| ==> init[i] == gs[i];
  }

  /** A list whose elements tie on the first key, sorted by the remaining
      keys, is sorted by all of them. */
  lemma TiedLexSorted<T>(s: seq<T>, keys: seq<T -> real>, reverse: bool)
    requires keys != [] && s != []
    requires forall j :: 0 <= j < |s| ==> keys[0](s[j]) == keys[0](s[0])
    requires LexSorted(s, keys[1..], reverse)
    ensures LexSorted(s, keys, reverse)
  {
    forall i, j | 0 <= i < j < |s| ensures !LexBefore(s[j], s[i], keys, reverse) {
      assert !LexBefore(s[j], s[i], keys[1..], reverse);
    }
  }

  /** Two sorted lists, each element of the first strictly before a pivot
      whose first key every element of the second shares: their
      concatenation is sorted. */
  lemma ConcatLexSorted<T>(front: seq<T>, back: seq<T>, pivot: T, keys: seq<T -> real>, reverse: bool)
    requires keys != []
    requires LexSorted(front, keys, reverse) && LexSorted(back, keys, reverse)
    requires forall i :: 0 <= i < |front| ==> Before(front[i], pivot, keys[0], reverse)
    requires forall j :: 0 <= j < |back| ==> keys[0](back[j]) == keys[0](pivot)
    ensures LexSorted(front + back, keys, reverse)
  {
    var r := front + back;
    forall i, j | 0 <= i < j < |r| ensures !LexBefore(r[j], r[i], keys, reverse) {
      if j < |front| {
        assert r[i] == front[i] && r[j] == front[j];
      } else if i >= |front| {
        assert r[i] == back[i - |front|] && r[j] == back[j - |front|];
      } else {
        assert r[i] == front[i] && r[j] == back[j - |front|];
      }
    }
  }

  /** With a single key there is nothing to break ties with: `multisorted`
      returns exactly what `sorted` returns, tied elements in input order. */
  lemma MultiSortOneKey<T>(l: seq<T>, key: T -> real, reverse: bool)
    ensures MultiSort(l, [key], reverse) == StableSort(l, key, reverse)
  {
    if l != [] {
      var sl := StableSort(l, key, reverse);
      StableSortSorts(l, key, reverse);
      assert [key][1..] == [];
      SortGroupsNoKeys(Runs(sl, key), reverse);
      RunsFlatten(sl, key);
    }
  }

  lemma {:induction false} SortGroupsNoKeys<T>(gs: seq<seq<T>>, reverse: bool)
    ensures SortGroups(gs, [], reverse) == Flatten(gs)
    decreases |gs|
  {
    if gs != [] {
      SortGroupsNoKeys(gs[..|gs| - 1], reverse);
    }
  }

  // ---------------------------------------------------------------------
  // distributed
  // ---------------------------------------------------------------------

  /** What calling the bucketing function on one item gives: a value, or
      an exception of type `exc`. */
  datatype KeyResult<K, X> = Returned(k: K) | Raised(exc: X)

  /** Every label that some item of `l` gets. */
  function Labels<T, B>(l: seq<T>, tagOf: T -> B): set<B>
  {
    if l == [] then {} else Labels(l[..|l| - 1], tagOf) + {tagOf(l[|l| - 1])}
  }

  /** The items whose label is `b`, in input order. */
  function Bucket<T, B(==)>(l: seq<T>, tagOf: T -> B, b: B): seq<T>
  {
    if l == [] then []
    else Bucket(l[..|l| - 1], tagOf, b) + (if tagOf(l[|l| - 1]) == b then [l[|l| - 1]] else [])
  }

  /** Every label that some item gets, with its bucket. */
  function Buckets<T, B(==)>(l: seq<T>, tagOf: T -> B): map<B, seq<T>>
  {
    map b | b in Labels(l, tagOf) :: Bucket(l, tagOf, b)
  }

  /** Position of the first item whose bucketing function raises. */
  function FirstRaising<T, K, X>(l: seq<T>, key: T -> KeyResult<K, X>): (i: nat)
    requires exists j :: 0 <= j < |l| && key(l[j]).Raised?
    ensures i < |l| && key(l[i]).Raised?
    ensures forall j :: 0 <= j < i ==> key(l[j]).Returned?
  {
    if key(l[0]).Raised? then 0
    else
      assert exists j :: 0 <= j < |l[1..]| && key(l[1..][j]).Raised? by {
        var j :| 0 <= j < |l| && key(l[j]).Raised?;
        assert l[1..][j - 1] == l[j];
      }
      1 + FirstRaising(l[1..], key)
  }

  /** `distributed(l, key, no_errors)`: the items bucketed by `key(item)`.
      When `key` raises, the exception propagates (the first raising item's
      exception), unless `no_errors` is set, in which case the item goes to
      the bucket of that exception's type. */
  method Distributed<T, K(==), X(==)>(l: seq<T>, key: T -> KeyResult<K, X>, noErrors: bool)
    returns (r: Result<map<KeyResult<K, X>, seq<T>>, X>)
    ensures r.Failure? <==> !noErrors && exists i :: 0 <= i < |l| && key(l[i]).Raised?
    ensures r.Failure? ==> r.error == key(l[FirstRaising(l, key)]).exc
    ensures r.Success? ==> r.value == Buckets(l, key)
  {
    var dret: map<KeyResult<K, X>, seq<T>> := map[];
    var i := 0;
    while i < |l|
      invariant 0 <= i <= |l|
      invariant !noErrors ==> forall j :: 0 <= j < i ==> key(l[j]).Returned?
      invariant dret == Buckets(l[..i], key)
    {
      var item := l[i];
      var ans := key(item);
      if ans.Raised? && !noErrors {
        assert FirstRaising(l, key) == i;
        return Failure(ans.exc);
      }
      BucketsSnoc(l[..i], item, key);
      assert l[..i + 1] == l[..i] + [item];
      if ans !in dret {
        dret := dret[ans := []];
      }
      dret := dret[ans := dret[ans] + [item]];
      i := i + 1;
    }
    assert l[..|l|] == l;
    r := Success(dret);
  }

  /** One more item lengthens exactly the bucket of its label. */
  lemma BucketsSnoc<T, B>(l: seq<T>, x: T, tagOf: T -> B)
    ensures var m := Buckets(l, tagOf);
            Buckets(l + [x], tagOf)
              == m[tagOf(x) := (if tagOf(x) in m then m[tagOf(x)] else []) + [x]]
  {
    var m := Buckets(l, tagOf);
    var m' := Buckets(l + [x], tagOf);
    assert (l + [x])[..|l|] == l;
    assert Labels(l + [x], tagOf) == Labels(l, tagOf) + {tagOf(x)};
    if tagOf(x) !in m {
      BucketEmpty(l, tagOf, tagOf(x));
    }
    var want := m[tagOf(x) := (if tagOf(x) in m then m[tagOf(x)] else []) + [x]];
    assert m'.Keys == want.Keys;
    forall b | b in m' ensures m'[b] == want[b] {
      assert m'[b] == Bucket(l, tagOf, b) + (if tagOf(x) == b then [x] else []);
      if b != tagOf(x) {
        assert Bucket(l, tagOf, b) + [] == Bucket(l, tagOf, b);
      }
    }
  }

  /** A label that no item gets has an empty bucket. */
  lemma {:induction false} BucketEmpty<T, B>(l: seq<T>, tagOf: T -> B, b: B)
    requires b !in Labels(l, tagOf)
    ensures Bucket(l, tagOf, b) == []
  {
    if l != [] {
      BucketEmpty(l[..|l| - 1], tagOf, b);
    }
  }

  /** Every item is in the bucket of its own label, and only items with that
      label are in a bucket: the buckets partition the list. */
  lemma BucketsPartition<T, B>(l: seq<T>, tagOf: T -> B)
    ensures forall i :: 0 <= i < |l| ==>
      tagOf(l[i]) in Buckets(l, tagOf) && l[i] in Buckets(l, tagOf)[tagOf(l[i])]
    ensures forall b, x :: b in Buckets(l, tagOf) && x in Buckets(l, tagOf)[b] ==> tagOf(x) == b
  {
    forall i | 0 <= i < |l|
      ensures tagOf(l[i]) in Labels(l, tagOf) && l[i] in Bucket(l, tagOf, tagOf(l[i]))
    {
      BucketHas(l, tagOf, i);
    }
    forall b, x | b in Buckets(l, tagOf) && x in Buckets(l, tagOf)[b] ensures tagOf(x) == b {
      BucketOnly(l, tagOf, b, x);
    }
  }

  lemma {:induction false} BucketHas<T, B>(l: seq<T>, tagOf: T -> B, i: nat)
    requires i < |l|
    ensures tagOf(l[i]) in Labels(l, tagOf) && l[i] in Bucket(l, tagOf, tagOf(l[i]))
  {
    if i < |l| - 1 {
      BucketHas(l[..|l| - 1], tagOf, i);
    }
  }

  lemma {:induction false} BucketOnly<T, B>(l: seq<T>, tagOf: T -> B, b: B, x: T)
    requires x in Bucket(l, tagOf, b)
    ensures tagOf(x) == b
  {
    if l != [] && x in Bucket(l[..|l| - 1], tagOf, b) {
      BucketOnly(l[..|l| - 1], tagOf, b, x);
    }
  }

  /** The total number of items held by the buckets of a map. */
  ghost function SumSizes<B, T>(m: map<B, seq<T>>): nat
    decreases |m.Keys|
  {
    if m.Keys == {} then 0
    else
      var b :| b in m.Keys;
      |m[b]| + SumSizes(m - {b})
  }

  /** `SumSizes` does not depend on which key it takes first. */
  lemma {:induction false} SumSizesRemove<B, T>(m: map<B, seq<T>>, b: B)
    requires b in m
    ensures SumSizes(m) == |m[b]| + SumSizes(m - {b})
    decreases |m.Keys|
  {
    var c :| c in m.Keys && SumSizes(m) == |m[c]| + SumSizes(m - {c});
    if c != b {
      var mc := m - {c};
      var mb := m - {b};
      assert mc.Keys == m.Keys - {c};
      assert mb.Keys == m.Keys - {b};
      SumSizesRemove(mc, b);
      SumSizesRemove(mb, c);
      assert mc - {b} == mb - {c};
    }
  }

  lemma SumSizesUpdate<B, T>(m: map<B, seq<T>>, b: B, s: seq<T>)
    ensures SumSizes(m[b := s]) == SumSizes(m) - (if b in m then |m[b]| else 0) + |s|
  {
    var m' := m[b := s];
    SumSizesRemove(m', b);
    assert m' - {b} == m - {b};
    if b in m {
      SumSizesRemove(m, b);
    } else {
      assert m - {b} == m;
    }
  }

  /** The bucket sizes add up to the number of items. */
  lemma {:induction false} BucketSizesSum<T, B>(l: seq<T>, tagOf: T -> B)
    ensures SumSizes(Buckets(l, tagOf)) == |l|
    decreases |l|
  {
    if l == [] {
      assert Buckets(l, tagOf).Keys == {};
    } else {
      var init := l[..|l| - 1];
      var x := l[|l| - 1];
      BucketSizesSum(init, tagOf);
      BucketsSnoc(init, x, tagOf);
      assert init + [x] == l;
      var m := Buckets(init, tagOf);
      SumSizesUpdate(m, tagOf(x), (if tagOf(x) in m then m[tagOf(x)] else []) + [x]);
    }
  }
}
