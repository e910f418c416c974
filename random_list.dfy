/** `RandomList` of morelib/random.py: a list of `[element, weight]` pairs
    with list-style operations, a weighted draw, and the rescaling of the
    weights in place (`uniform`, `normalize`, `age`). Each pair is an object
    whose weight is changed in place, so that the shallow backup kept for
    `reset_aging` shares its pairs with the live list, as in the library.
    The random module's results are parameters: `random.shuffle` is CPython's
    Fisher-Yates pass with the `randbelow` results given by a function, and
    `random.uniform(0.0, total)` is a given function of the total. */
module RandomLists {
  import opened Wrappers
  import opened PyBuiltins

  /** `DEFAULT_AGING_COEF`. */
  const DefaultAgingCoef: real := 2.0

  /** An `[element, weight]` list. The element is never reassigned; the
      weight is changed in place. */
  class Pair<T> {
    const elem: T
    var weight: real

    constructor (elem: T, weight: real)
      ensures this.elem == elem && this.weight == weight
    {
      this.elem := elem;
      this.weight := weight;
    }
  }

  predicate Distinct<X(==)>(s: seq<X>)
  {
    forall i, j :: 0 <= i < j < |s| ==> s[i] != s[j]
  }

  lemma DistinctSnoc<X>(s: seq<X>, x: X)
    requires Distinct(s) && x !in s
    ensures Distinct(s + [x])
  {
  }

  /** The list with position `i` taken out. */
  function Without<X>(s: seq<X>, i: nat): (r: seq<X>)
    requires i < |s|
    ensures |r| == |s| - 1
    ensures forall k :: 0 <= k < i ==> r[k] == s[k]
    ensures forall k :: i <= k < |r| ==> r[k] == s[k + 1]
  {
    s[..i] + s[i + 1..]
  }

  lemma DistinctWithout<X>(s: seq<X>, i: nat)
    requires i < |s| && Distinct(s)
    ensures Distinct(Without(s, i))
  {
    var r := Without(s, i);
    forall a, b | 0 <= a < b < |r| ensures r[a] != r[b] {
      var a' := if a < i then a else a + 1;
      var b' := if b < i then b else b + 1;
      assert r[a] == s[a'] && r[b] == s[b'];
    }
  }

  // ---------------------------------------------------------------------
  // The pairs as values
  // ---------------------------------------------------------------------

  /** The pairs read as (element, weight) values, in list order. */
  function SnapshotOf<T>(ps: seq<Pair<T>>): (r: seq<(T, real)>)
    reads ps
    ensures |r| == |ps|
    ensures forall i :: 0 <= i < |ps| ==> r[i] == (ps[i].elem, ps[i].weight)
  {
    if ps == [] then []
    else SnapshotOf(ps[..|ps| - 1]) + [(ps[|ps| - 1].elem, ps[|ps| - 1].weight)]
  }

  lemma SnapshotOfSnoc<T>(ps: seq<Pair<T>>, p: Pair<T>)
    ensures SnapshotOf(ps + [p]) == SnapshotOf(ps) + [(p.elem, p.weight)]
  {
    assert (ps + [p])[..|ps|] == ps;
  }

  function WeightsOf<T>(s: seq<(T, real)>): (r: seq<real>)
    ensures |r| == |s| && forall i :: 0 <= i < |s| ==> r[i] == s[i].1
  {
    seq(|s|, i requires 0 <= i < |s| => s[i].1)
  }

  function ElemsOf<T>(s: seq<(T, real)>): (r: seq<T>)
    ensures |r| == |s| && forall i :: 0 <= i < |s| ==> r[i] == s[i].0
  {
    seq(|s|, i requires 0 <= i < |s| => s[i].0)
  }

  lemma WeightsOfPrefix<T>(s: seq<(T, real)>, i: nat)
    requires i < |s|
    ensures WeightsOf(s[..i + 1]) == WeightsOf(s[..i]) + [s[i].1]
  {
  }

  // ---------------------------------------------------------------------
  // index, count
  // ---------------------------------------------------------------------

  /** `list.index(x)`: the first position holding `x`, none when absent. */
  function FirstIndex<T(==)>(s: seq<T>, x: T): (r: Option<nat>)
    ensures r.None? <==> x !in s
    ensures r.Some? ==> r.value < |s| && s[r.value] == x
    ensures r.Some? ==> forall i :: 0 <= i < r.value ==> s[i] != x
  {
    if s == [] then None
    else if s[0] == x then Some(0)
    else
      match FirstIndex(s[1..], x)
      case None => None
      case Some(i) => Some(i + 1)
  }

  /** `list.count(x)`: the left-to-right tally of matches. */
  function CountIn<T(==)>(s: seq<T>, x: T): nat
  {
    if s == [] then 0
    else CountIn(s[..|s| - 1], x) + (if s[|s| - 1] == x then 1 else 0)
  }

  /** The tally is the multiplicity of `x`. */
  lemma {:induction false} CountInMultiset<T>(s: seq<T>, x: T)
    ensures CountIn(s, x) == multiset(s)[x]
  {
    if s != [] {
      CountInMultiset(s[..|s| - 1], x);
      assert s == s[..|s| - 1] + [s[|s| - 1]];
    }
  }

  /** `count(x)` is positive exactly when `index(x)` finds `x`. */
  lemma CountFindsIndex<T>(s: seq<T>, x: T)
    ensures CountIn(s, x) > 0 <==> FirstIndex(s, x).Some?
  {
    CountInMultiset(s, x);
  }

  /** Taking out position `i` lowers the count of its element by one and
      leaves every other count alone. */
  lemma WithoutCounts<T>(s: seq<T>, i: nat, y: T)
    requires i < |s|
    ensures CountIn(Without(s, i), y) == CountIn(s, y) - (if s[i] == y then 1 else 0)
  {
    assert Without(s, i) == s[..i] + s[i + 1..];
    CountInSplice(s, i, y);
  }

  /** Taking out the element at `i` lowers its tally by one. */
  lemma CountInSplice<T>(s: seq<T>, i: nat, y: T)
    requires i < |s|
    ensures CountIn(s, y) == CountIn(s[..i] + s[i + 1..], y) + (if s[i] == y then 1 else 0)
  {
    var a, b := s[..i + 1], s[i + 1..];
    assert a[..|a| - 1] == s[..i];
    assert s == a + b;
    CountInAppend(a, b, y);
    CountInAppend(s[..i], b, y);
  }

  lemma {:induction false} CountInAppend<T>(a: seq<T>, b: seq<T>, y: T)
    ensures CountIn(a + b, y) == CountIn(a, y) + CountIn(b, y)
    decreases |b|
  {
    if b == [] {
      assert a + b == a;
    } else {
      assert (a + b)[..|a + b| - 1] == a + b[..|b| - 1];
      CountInAppend(a, b[..|b| - 1], y);
    }
  }

  // ---------------------------------------------------------------------
  // Construction and append
  // ---------------------------------------------------------------------

  /** An element of the single-list form: a tuple `(x, w)`, or a bare
      element. */
  datatype Entry<T> = Weighted(x: T, w: real) | Bare(x: T)

  /** The positional arguments of `RandomList(...)`: none (or more than
      two, which add nothing either), one list, or elements and weights. */
  datatype Source<T> =
    | NoLists
    | OneList(entries: seq<Entry<T>>)
    | TwoLists(elems: seq<T>, weights: seq<real>)

  /** The pairs the constructor builds. In the two-list form element `i`
      gets weight `i`, or 0.0 past the end of the weights; in the one-list
      form a tuple carries its weight, else `key(x)` is used when there is a
      key, else every element gets `1/len`. */
  function InitialPairs<T>(src: Source<T>, key: Option<T -> real>): (r: seq<(T, real)>)
  {
    match src
    case NoLists => []
    case OneList(es) =>
      seq(|es|, i requires 0 <= i < |es| =>
        match es[i]
        case Weighted(x, w) => (x, w)
        case Bare(x) => (x, if key.Some? then key.value(x) else 1.0 / (|es| as real)))
    case TwoLists(xs, ws) =>
      seq(|xs|, i requires 0 <= i < |xs| => (xs[i], if i < |ws| then ws[i] else 0.0))
  }

  /** The weights the two-list form keeps for later appends: those past the
      last element. */
  function InitialStored<T>(src: Source<T>): (r: seq<real>)
  {
    match src
    case TwoLists(xs, ws) => if |xs| < |ws| then ws[|xs|..] else []
    case _ => []
  }

  /** The weight `append(x, weight)` gives: the explicit weight, else the
      next stored weight, else `key(x)`, else 0.0. */
  function AppendWeight<T>(weight: Option<real>, stored: seq<real>, key: Option<T -> real>, x: T): real
  {
    if weight.Some? then weight.value
    else if stored != [] then stored[0]
    else if key.Some? then key.value(x)
    else 0.0
  }

  /** The stored weights after `append`: one is used up when no weight is
      given, even when it is then refused for being negative. */
  function StoredAfter(weight: Option<real>, stored: seq<real>): seq<real>
  {
    if weight.None? && stored != [] then stored[1..] else stored
  }

  /** The weights that a run of appends without a weight gives. */
  function DefaultWeights<T>(stored: seq<real>, key: Option<T -> real>, xs: seq<T>): seq<real>
  {
    if xs == [] then []
    else [AppendWeight(None, stored, key, xs[0])] + DefaultWeights(StoredAfter(None, stored), key, xs[1..])
  }

  /** Appends without a weight use the stored weights in order, and then
      fall back to the key, or to 0.0. */
  lemma {:induction false} DefaultWeightsInOrder<T>(stored: seq<real>, key: Option<T -> real>, xs: seq<T>)
    ensures |DefaultWeights(stored, key, xs)| == |xs|
    ensures forall i :: 0 <= i < |xs| ==>
      DefaultWeights(stored, key, xs)[i] ==
        if i < |stored| then stored[i] else if key.Some? then key.value(xs[i]) else 0.0
  {
    if xs != [] {
      DefaultWeightsInOrder(StoredAfter(None, stored), key, xs[1..]);
    }
  }

  /** The surplus of the two-list form goes, in order, to the next appends
      made without a weight. */
  lemma SurplusWeightsUsed<T>(xs: seq<T>, ws: seq<real>, key: Option<T -> real>, ys: seq<T>, i: nat)
    requires |xs| + i < |ws| && i < |ys|
    ensures |DefaultWeights(InitialStored(TwoLists(xs, ws)), key, ys)| == |ys|
    ensures DefaultWeights(InitialStored(TwoLists(xs, ws)), key, ys)[i] == ws[|xs| + i]
  {
    DefaultWeightsInOrder(InitialStored(TwoLists(xs, ws)), key, ys);
  }

  // ---------------------------------------------------------------------
  // uniform, normalize, age on values
  // ---------------------------------------------------------------------

  /** `uniform()`: every weight becomes `1/len`. */
  function Uniformed<T>(s: seq<(T, real)>): (r: seq<(T, real)>)
  {
    seq(|s|, i requires 0 <= i < |s| => (s[i].0, 1.0 / (|s| as real)))
  }

  /** `normalize()`: every weight divided by the sum of the weights. With a
      zero sum the first division raises ZeroDivisionError; an empty list
      divides nothing. */
  function Normalized<T>(s: seq<(T, real)>): (r: Result<seq<(T, real)>, PyError>)
  {
    var total := Sum(WeightsOf(s));
    if s != [] && total == 0.0 then Failure(ZeroDivisionError)
    else Success(seq(|s|, i requires 0 <= i < |s| => (s[i].0, s[i].1 / total)))
  }

  /** The first step of `age()`: the weight of every element not in `last`
      multiplied by the aging coefficient. */
  function Aged<T(==)>(s: seq<(T, real)>, last: seq<T>, coef: real): (r: seq<(T, real)>)
  {
    seq(|s|, i requires 0 <= i < |s| => (s[i].0, if s[i].0 in last then s[i].1 else s[i].1 * coef))
  }

  lemma {:induction false} SumConstant(s: seq<real>, c: real)
    requires forall i :: 0 <= i < |s| ==> s[i] == c
    ensures Sum(s) == (|s| as real) * c
  {
    if s != [] {
      SumConstant(s[..|s| - 1], c);
    }
  }

  /** After `uniform()` the weights of a non-empty list sum to 1. */
  lemma UniformSumsToOne<T>(s: seq<(T, real)>)
    requires s != []
    ensures Sum(WeightsOf(Uniformed(s))) == 1.0
  {
    var n := |s| as real;
    SumConstant(WeightsOf(Uniformed(s)), 1.0 / n);
    assert n * (1.0 / n) == 1.0;
  }

  /** `normalize()` keeps every element where it was. */
  lemma NormalizedKeepsElems<T>(s: seq<(T, real)>)
    requires Normalized(s).Success?
    ensures ElemsOf(Normalized(s).value) == ElemsOf(s)
  {
  }

  /** After a `normalize()` that succeeds the weights of a non-empty list
      sum to 1. */
  lemma NormalizedSumsToOne<T>(s: seq<(T, real)>)
    requires s != [] && Normalized(s).Success?
    ensures Sum(WeightsOf(Normalized(s).value)) == 1.0
  {
    var total := Sum(WeightsOf(s));
    SumDivided(WeightsOf(s), WeightsOf(Normalized(s).value), total);
  }

  /** With weights that are not negative, `normalize()` of a non-empty list
      raises exactly when every weight is zero. */
  lemma NormalizedFails<T>(s: seq<(T, real)>)
    requires s != []
    requires forall i :: 0 <= i < |s| ==> s[i].1 >= 0.0
    ensures Normalized(s).Failure? <==> forall i :: 0 <= i < |s| ==> s[i].1 == 0.0
  {
    var ws := WeightsOf(s);
    if Normalized(s).Failure? {
      forall i | 0 <= i < |s| ensures s[i].1 == 0.0 {
        SumZeroAllZero(ws, i);
      }
    } else if forall i :: 0 <= i < |s| ==> s[i].1 == 0.0 {
      SumConstant(ws, 0.0);
    }
  }

  /** `age()` raises the odds of every element not chosen last against every
      element chosen last by the aging coefficient. */
  lemma AgeRaisesOdds<T>(s: seq<(T, real)>, last: seq<T>, coef: real, i: nat, j: nat)
    requires i < |s| && j < |s|
    requires s[i].0 !in last && s[j].0 in last
    requires Normalized(Aged(s, last, coef)).Success?
    ensures var r := Normalized(Aged(s, last, coef)).value;
      r[i].1 * s[j].1 == coef * s[i].1 * r[j].1
  {
    var a := Aged(s, last, coef);
    var t := Sum(WeightsOf(a));
    var r := Normalized(a).value;
    assert r[i].1 == (s[i].1 * coef) / t;
    assert r[j].1 == s[j].1 / t;
    calc {
      r[i].1 * s[j].1;
      (s[i].1 * coef) / t * s[j].1;
      coef * s[i].1 * (s[j].1 / t);
    }
  }

  // ---------------------------------------------------------------------
  // choice on values
  // ---------------------------------------------------------------------

  /** The pairs `choice` may draw: a positive weight and, under no-repeat,
      an element not drawn before. */
  function Candidates<T(==)>(s: seq<(T, real)>, noRepeat: bool, repeated: seq<T>): seq<(T, real)>
  {
    if s == [] then []
    else
      var rest := Candidates(s[..|s| - 1], noRepeat, repeated);
      var p := s[|s| - 1];
      if p.1 > 0.0 && (!noRepeat || p.0 !in repeated) then rest + [p] else rest
  }

  lemma {:induction false} CandidatesMember<T>(s: seq<(T, real)>, noRepeat: bool, repeated: seq<T>, p: (T, real))
    ensures p in Candidates(s, noRepeat, repeated) <==>
      p in s && p.1 > 0.0 && (noRepeat ==> p.0 !in repeated)
  {
    if s != [] {
      CandidatesMember(s[..|s| - 1], noRepeat, repeated, p);
      assert s == s[..|s| - 1] + [s[|s| - 1]];
    }
  }

  /** Positions `i` and `j` exchanged. */
  function Swap<X>(s: seq<X>, i: nat, j: nat): (r: seq<X>)
    requires i < |s| && j < |s|
    ensures |r| == |s| && r[i] == s[j] && r[j] == s[i]
    ensures forall k :: 0 <= k < |s| && k != i && k != j ==> r[k] == s[k]
  {
    s[i := s[j]][j := s[i]]
  }

  /** Swapping two positions keeps the contents. */
  lemma SwapPermutes<X>(s: seq<X>, i: nat, j: nat)
    requires i < |s| && j < |s|
    ensures multiset(Swap(s, i, j)) == multiset(s)
  {
  }

  /** CPython's `random.shuffle` from position `n - 1` down to 1: position
      `i` is swapped with `randbelow(i + 1)`, here `pick(i)` reduced below
      `i + 1`. */
  function ShuffleDown<X>(s: seq<X>, pick: nat -> nat, n: nat): (r: seq<X>)
    requires n <= |s|
    ensures |r| == |s|
    decreases n
  {
    if n <= 1 then s
    else ShuffleDown(Swap(s, n - 1, pick(n - 1) % n), pick, n - 1)
  }

  lemma {:induction false} ShuffleDownPermutes<X>(s: seq<X>, pick: nat -> nat, n: nat)
    requires n <= |s|
    ensures multiset(ShuffleDown(s, pick, n)) == multiset(s)
    decreases n
  {
    if n > 1 {
      SwapPermutes(s, n - 1, pick(n - 1) % n);
      ShuffleDownPermutes(Swap(s, n - 1, pick(n - 1) % n), pick, n - 1);
    }
  }

  /** `random.shuffle(x)`: the same length as `x`. */
  function Shuffle<X>(s: seq<X>, pick: nat -> nat): (r: seq<X>)
    ensures |r| == |s|
  {
    ShuffleDown(s, pick, |s|)
  }

  /** `random.shuffle(x)` rearranges `x`: whatever the random choices, the
      result is a permutation of it. */
  lemma ShufflePermutes<X>(s: seq<X>, pick: nat -> nat)
    ensures multiset(Shuffle(s, pick)) == multiset(s)
  {
    ShuffleDownPermutes(s, pick, |s|);
  }

  /** Where the scan of `choice` stops, looking from `from` on: the first
      candidate whose running total `rmax` passes the draw
      (`rmin <= rndval < rmax`, with `rmin` never moved from 0), the last
      candidate when none does. */
  function PickIndex<T>(allowed: seq<(T, real)>, rndval: real, from: nat): (j: nat)
    requires from < |allowed|
    ensures from <= j < |allowed|
    decreases |allowed| - from
  {
    if 0.0 <= rndval < Sum(WeightsOf(allowed[..from + 1])) || from == |allowed| - 1 then from
    else PickIndex(allowed, rndval, from + 1)
  }

  predicate Passes<T>(allowed: seq<(T, real)>, rndval: real, k: nat)
    requires k < |allowed|
  {
    0.0 <= rndval < Sum(WeightsOf(allowed[..k + 1]))
  }

  lemma {:induction false} PickIndexFrom<T>(allowed: seq<(T, real)>, rndval: real, from: nat)
    requires from < |allowed|
    requires forall k :: 0 <= k < from ==> !Passes(allowed, rndval, k)
    ensures var j := PickIndex(allowed, rndval, from);
      (forall k :: 0 <= k < j ==> !Passes(allowed, rndval, k)) &&
      (j == |allowed| - 1 || Passes(allowed, rndval, j))
    decreases |allowed| - from
  {
    if !(Passes(allowed, rndval, from) || from == |allowed| - 1) {
      PickIndexFrom(allowed, rndval, from + 1);
    }
  }

  /** The scan stops at the first candidate whose running total passes the
      draw, or falls back to the last candidate. */
  lemma PickIndexFirst<T>(allowed: seq<(T, real)>, rndval: real)
    requires allowed != []
    ensures var j := PickIndex(allowed, rndval, 0);
      (forall k :: 0 <= k < j ==> !Passes(allowed, rndval, k)) &&
      (j == |allowed| - 1 || Passes(allowed, rndval, j))
  {
    PickIndexFrom(allowed, rndval, 0);
  }

  /** A draw in `[0, total)` lands in the interval of the candidate picked:
      the running total before it is at most the draw, the one after it
      exceeds the draw. So each candidate is picked for a stretch of draws
      as long as its weight. */
  lemma PickInInterval<T>(allowed: seq<(T, real)>, rndval: real)
    requires allowed != []
    requires 0.0 <= rndval < Sum(WeightsOf(allowed))
    ensures var j := PickIndex(allowed, rndval, 0);
      Sum(WeightsOf(allowed[..j])) <= rndval < Sum(WeightsOf(allowed[..j + 1]))
  {
    var j := PickIndex(allowed, rndval, 0);
    PickIndexFirst(allowed, rndval);
    assert allowed[..|allowed|] == allowed;
    if j > 0 {
      assert !Passes(allowed, rndval, j - 1);
    }
  }

  /** The scan of `choice`: `rmax` accumulates the weights, the first
      candidate whose total passes the draw is chosen, and the last one when
      none does. */
  method Scan<T>(allowed: seq<(T, real)>, rndval: real) returns (choice: T)
    requires allowed != []
    ensures choice == allowed[PickIndex(allowed, rndval, 0)].0
  {
    var rmin := 0.0;
    var rmax := 0.0;
    var i := 0;
    while i < |allowed|
      invariant 0 <= i <= |allowed|
      invariant rmax == Sum(WeightsOf(allowed[..i]))
      invariant i < |allowed| ==> PickIndex(allowed, rndval, 0) == PickIndex(allowed, rndval, i)
      invariant i == |allowed| ==> PickIndex(allowed, rndval, 0) == |allowed| - 1
    {
      WeightsOfPrefix(allowed, i);
      rmax := rmax + allowed[i].1;
      if rmin <= rndval < rmax {
        return allowed[i].0;
      }
      i := i + 1;
    }
    choice := allowed[|allowed| - 1].0;
  }

  /** The randomness of one round of `choice`: the `randbelow` results of
      the shuffle, and what `random.uniform(0.0, total)` returns for the
      total of the candidates. */
  datatype Draw = Draw(pick: nat -> nat, uniform: real -> real)

  /** The element one round draws from the candidates. */
  function Drawn<T>(allowed: seq<(T, real)>, d: Draw): T
    requires allowed != []
  {
    var shuffled := Shuffle(allowed, d.pick);
    shuffled[PickIndex(shuffled, d.uniform(Sum(WeightsOf(shuffled))), 0)].0
  }

  /** The shuffle, the draw `random.uniform(0.0, total)` taken for the
      candidates' total, and the scan. */
  method DrawOne<T>(allowed: seq<(T, real)>, d: Draw) returns (c: T)
    requires allowed != []
    ensures c == Drawn(allowed, d)
  {
    var shuffled := Shuffle(allowed, d.pick);
    var total := Sum(WeightsOf(shuffled));
    var rndval := d.uniform(total);
    c := Scan(shuffled, rndval);
  }

  /** The drawn element is a candidate. */
  lemma DrawnIsCandidate<T>(allowed: seq<(T, real)>, d: Draw)
    requires allowed != []
    ensures exists p :: p in allowed && p.0 == Drawn(allowed, d)
  {
    var shuffled := Shuffle(allowed, d.pick);
    var j := PickIndex(shuffled, d.uniform(Sum(WeightsOf(shuffled))), 0);
    ShufflePermutes(allowed, d.pick);
    assert shuffled[j] in multiset(shuffled);
  }

  /** What `choice` has read and written so far: the pairs as values, the
      repeated cache, `_last`, the elements chosen, and the exception that
      ended the loop, if one did. */
  datatype ChoiceState<T> = ChoiceState(
    snap: seq<(T, real)>, cache: seq<T>, last: seq<T>, choices: seq<T>, error: Option<PyError>)

  /** The bookkeeping after a draw: the element joins the choices, `_last`
      becomes a copy of them, and under no-repeat the element joins the
      cache (the local list of `choice` aliases it). */
  function Record<T>(st: ChoiceState<T>, c: T, noRepeat: bool): ChoiceState<T>
  {
    var choices := st.choices + [c];
    st.(cache := if noRepeat then st.cache + [c] else st.cache, last := choices, choices := choices)
  }

  /** `age()` called from `choice`: the weights of the elements not in
      `_last` multiplied, then normalized, which may raise. */
  function AgeState<T(==)>(st: ChoiceState<T>, coef: real): ChoiceState<T>
  {
    var scaled := Aged(st.snap, st.last, coef);
    match Normalized(scaled)
    case Success(n) => st.(snap := n)
    case Failure(e) => st.(snap := scaled, error := Some(e))
  }

  /** `AgeState` read off the outcome of `age()` and the weights it left. */
  lemma AgeStateFrom<T>(st: ChoiceState<T>, coef: real, o: Outcome<PyError>, after: seq<(T, real)>)
    requires st.error.None?
    requires match Normalized(Aged(st.snap, st.last, coef))
      case Success(n) => o == Pass && after == n
      case Failure(e) => o == Fail(e) && after == Aged(st.snap, st.last, coef)
    ensures AgeState(st, coef) == st.(snap := after, error := if o.Fail? then Some(o.error) else None)
  {
  }

  /** Aging changes weights and may raise ZeroDivisionError; it keeps the
      elements and everything else. */
  lemma AgeStateKeeps<T>(st: ChoiceState<T>, coef: real)
    ensures var a := AgeState(st, coef);
      a.cache == st.cache && a.last == st.last && a.choices == st.choices &&
      ElemsOf(a.snap) == ElemsOf(st.snap) &&
      (a.error == st.error || a.error == Some(ZeroDivisionError))
  {
    var scaled := Aged(st.snap, st.last, coef);
    assert ElemsOf(scaled) == ElemsOf(st.snap);
    if Normalized(scaled).Success? {
      NormalizedKeepsElems(scaled);
    }
  }

  /** One pass of `choice`'s loop: no candidate raises
      NoItemsLeftException; otherwise the drawn element is recorded and,
      with aging, the weights age. */
  function Round<T(==)>(st: ChoiceState<T>, d: Draw, noRepeat: bool, age: bool, coef: real): ChoiceState<T>
  {
    if st.error.Some? then st
    else
      var allowed := Candidates(st.snap, noRepeat, st.cache);
      if allowed == [] then st.(error := Some(NoItemsLeft))
      else
        var recorded := Record(st, Drawn(allowed, d), noRepeat);
        if age then AgeState(recorded, coef) else recorded
  }

  /** The loop of `choice` over the first `n` of the given draws. */
  function Rounds<T(==)>(st: ChoiceState<T>, ds: seq<Draw>, n: nat, noRepeat: bool, age: bool, coef: real): ChoiceState<T>
    requires n <= |ds|
  {
    if n == 0 then st
    else Round(Rounds(st, ds, n - 1, noRepeat, age, coef), ds[n - 1], noRepeat, age, coef)
  }

  /** Once a round has raised, the later ones change nothing. */
  lemma {:induction false} RoundsStopAtError<T>(st: ChoiceState<T>, ds: seq<Draw>, n: nat, m: nat, noRepeat: bool, age: bool, coef: real)
    requires m <= n <= |ds|
    requires Rounds(st, ds, m, noRepeat, age, coef).error.Some?
    ensures Rounds(st, ds, n, noRepeat, age, coef) == Rounds(st, ds, m, noRepeat, age, coef)
  {
    if m < n {
      RoundsStopAtError(st, ds, n - 1, m, noRepeat, age, coef);
    }
  }

  /** A round that does not raise NoItemsLeftException draws an element that
      has a positive weight and, under no-repeat, is not in the cache. */
  lemma RoundDrawsCandidate<T>(st: ChoiceState<T>, d: Draw, noRepeat: bool, age: bool, coef: real)
    requires st.error.None?
    requires Round(st, d, noRepeat, age, coef).error != Some(NoItemsLeft)
    ensures var next := Round(st, d, noRepeat, age, coef);
      |next.choices| == |st.choices| + 1 &&
      next.choices[..|st.choices|] == st.choices &&
      next.cache == (if noRepeat then st.cache + [next.choices[|st.choices|]] else st.cache)
    ensures var next := Round(st, d, noRepeat, age, coef);
      exists i :: 0 <= i < |st.snap| && st.snap[i].0 == next.choices[|st.choices|] && st.snap[i].1 > 0.0 &&
        (noRepeat ==> st.snap[i].0 !in st.cache)
  {
    var allowed := Candidates(st.snap, noRepeat, st.cache);
    var c := Drawn(allowed, d);
    var recorded := Record(st, c, noRepeat);
    if age {
      AgeStateKeeps(recorded, coef);
    }
    assert Round(st, d, noRepeat, age, coef).choices == recorded.choices;
    assert Round(st, d, noRepeat, age, coef).cache == recorded.cache;
    DrawnIsCandidate(allowed, d);
    var p :| p in allowed && p.0 == c;
    CandidatesMember(st.snap, noRepeat, st.cache, p);
    var i :| 0 <= i < |st.snap| && st.snap[i] == p;
  }

  /** Under no-repeat the cache is what it was plus the choices, the choices
      are pairwise distinct, and none of them was in the cache before. */
  ghost predicate FreshChoices<T>(st: ChoiceState<T>, cache0: seq<T>)
  {
    st.cache == cache0 + st.choices &&
    Distinct(st.choices) &&
    forall i :: 0 <= i < |st.choices| ==> st.choices[i] !in cache0
  }

  lemma RoundKeepsFresh<T>(st: ChoiceState<T>, d: Draw, age: bool, coef: real, cache0: seq<T>)
    requires FreshChoices(st, cache0)
    ensures FreshChoices(Round(st, d, true, age, coef), cache0)
  {
    var next := Round(st, d, true, age, coef);
    if st.error.None? && next.error != Some(NoItemsLeft) {
      RoundDrawsCandidate(st, d, true, age, coef);
      var c := next.choices[|st.choices|];
      assert c !in st.cache;
      forall i | 0 <= i < |next.choices| ensures next.choices[i] !in cache0 {
        if i == |st.choices| {
          assert c !in cache0 + st.choices;
        }
      }
      forall a, b | 0 <= a < b < |next.choices| ensures next.choices[a] != next.choices[b] {
        if b == |st.choices| {
          assert next.choices[a] in cache0 + st.choices;
        }
      }
    }
  }

  /** Under no-repeat every element `choice` returns is new: pairwise
      distinct, and never one the cache already held. */
  lemma {:induction false} RoundsNoRepeat<T>(st: ChoiceState<T>, ds: seq<Draw>, n: nat, age: bool, coef: real)
    requires st.choices == [] && n <= |ds|
    ensures var fin := Rounds(st, ds, n, true, age, coef);
      fin.cache == st.cache + fin.choices &&
      Distinct(fin.choices) &&
      forall i :: 0 <= i < |fin.choices| ==> fin.choices[i] !in st.cache
  {
    RoundsFresh(st, ds, n, age, coef, st.cache);
  }

  lemma {:induction false} RoundsFresh<T>(st: ChoiceState<T>, ds: seq<Draw>, n: nat, age: bool, coef: real, cache0: seq<T>)
    requires FreshChoices(st, cache0) && n <= |ds|
    ensures FreshChoices(Rounds(st, ds, n, true, age, coef), cache0)
  {
    if n > 0 {
      RoundsFresh(st, ds, n - 1, age, coef, cache0);
      RoundKeepsFresh(Rounds(st, ds, n - 1, true, age, coef), ds[n - 1], age, coef, cache0);
    }
  }

  /** Aging and normalizing change weights, never elements. */
  lemma RoundKeepsElements<T>(st: ChoiceState<T>, d: Draw, noRepeat: bool, age: bool, coef: real)
    ensures ElemsOf(Round(st, d, noRepeat, age, coef).snap) == ElemsOf(st.snap)
  {
    if st.error.None? {
      var allowed := Candidates(st.snap, noRepeat, st.cache);
      if allowed != [] && age {
        AgeStateKeeps(Record(st, Drawn(allowed, d), noRepeat), coef);
      }
    }
  }

  /** One round keeps the elements, adds one choice when it does not
      raise, and that choice is an element of the list. */
  lemma RoundChoosesElement<T>(st: ChoiceState<T>, d: Draw, noRepeat: bool, age: bool, coef: real,
                               elems: seq<T>, n: nat)
    requires ElemsOf(st.snap) == elems
    requires st.error.None? ==> |st.choices| == n
    requires forall i :: 0 <= i < |st.choices| ==> st.choices[i] in elems
    ensures var next := Round(st, d, noRepeat, age, coef);
      ElemsOf(next.snap) == elems &&
      (next.error.None? ==> |next.choices| == n + 1) &&
      forall i :: 0 <= i < |next.choices| ==> next.choices[i] in elems
  {
    RoundKeepsElements(st, d, noRepeat, age, coef);
    var next := Round(st, d, noRepeat, age, coef);
    if st.error.None? && next.error != Some(NoItemsLeft) {
      RoundDrawsCandidate(st, d, noRepeat, age, coef);
      var k :| 0 <= k < |st.snap| && st.snap[k].0 == next.choices[|st.choices|] && st.snap[k].1 > 0.0;
      assert ElemsOf(st.snap)[k] == next.choices[|st.choices|];
    }
  }

  /** Every element `choice` returns is an element of the list, and when
      the loop ran to the end there is one per round. */
  lemma {:induction false} RoundsChooseElements<T>(st: ChoiceState<T>, ds: seq<Draw>, n: nat, noRepeat: bool, age: bool, coef: real)
    requires st.choices == [] && st.error.None? && n <= |ds|
    ensures var fin := Rounds(st, ds, n, noRepeat, age, coef);
      ElemsOf(fin.snap) == ElemsOf(st.snap) &&
      (fin.error.None? ==> |fin.choices| == n) &&
      forall i :: 0 <= i < |fin.choices| ==> fin.choices[i] in ElemsOf(st.snap)
  {
    if n > 0 {
      var prev := Rounds(st, ds, n - 1, noRepeat, age, coef);
      RoundsChooseElements(st, ds, n - 1, noRepeat, age, coef);
      RoundChoosesElement(prev, ds[n - 1], noRepeat, age, coef, ElemsOf(st.snap), n - 1);
    }
  }

  /** The rounds over `i + 1` draws are one more round after the first `i`. */
  lemma RoundsNext<T>(st: ChoiceState<T>, ds: seq<Draw>, i: nat, noRepeat: bool, age: bool, coef: real,
                      before: ChoiceState<T>, after: ChoiceState<T>)
    requires i < |ds|
    requires Rounds(st, ds, i, noRepeat, age, coef) == before
    requires Round(before, ds[i], noRepeat, age, coef) == after
    ensures Rounds(st, ds, i + 1, noRepeat, age, coef) == after
  {
  }

  /** A round that finds candidates records the draw, then ages if asked. */
  lemma RoundRecords<T>(st: ChoiceState<T>, d: Draw, noRepeat: bool, age: bool, coef: real)
    requires st.error.None? && Candidates(st.snap, noRepeat, st.cache) != []
    ensures var rec := Record(st, Drawn(Candidates(st.snap, noRepeat, st.cache), d), noRepeat);
      Round(st, d, noRepeat, age, coef) == if age then AgeState(rec, coef) else rec
  {
  }

  /** Some pair has a negative weight. */
  predicate HasNegative<T>(s: seq<(T, real)>)
  {
    exists i :: 0 <= i < |s| && s[i].1 < 0.0
  }

  /** The pairs `__init__` builds for each argument form. */
  method InitialItems<T>(src: Source<T>, key: Option<T -> real>) returns (ps: seq<Pair<T>>)
    ensures Distinct(ps) && forall i :: 0 <= i < |ps| ==> fresh(ps[i])
    ensures SnapshotOf(ps) == InitialPairs(src, key)
  {
    match src {
      case NoLists =>
        ps := [];
      case OneList(es) =>
        ps := PairsOfOneList(es, key);
      case TwoLists(xs, ws) =>
        ps := PairsOfTwoLists(xs, ws);
    }
    forall i | 0 <= i < |ps| ensures fresh(ps[i]) {
      assert ps[i] in ps;
    }
  }

  /** The loop of the single-list form: a tuple gives its weight, a bare
      element `key(x)` when there is a key, else `1/len`. */
  method PairsOfOneList<T>(es: seq<Entry<T>>, key: Option<T -> real>) returns (ps: seq<Pair<T>>)
    ensures Distinct(ps) && forall p :: p in ps ==> fresh(p)
    ensures SnapshotOf(ps) == InitialPairs(OneList(es), key)
  {
    ghost var want := InitialPairs(OneList(es), key);
    ps := [];
    var i := 0;
    while i < |es|
      invariant 0 <= i <= |es|
      invariant Distinct(ps) && forall p :: p in ps ==> fresh(p)
      invariant SnapshotOf(ps) == want[..i]
    {
      var p;
      match es[i] {
        case Weighted(x, w) => p := new Pair(x, w);
        case Bare(x) =>
          if key.Some? {
            p := new Pair(x, key.value(x));
          } else {
            p := new Pair(x, 1.0 / (|es| as real));
          }
      }
      ps := ps + [p];
      assert want[..i + 1] == want[..i] + [want[i]];
      i := i + 1;
    }
    assert want[..|es|] == want;
  }

  /** The loop of the two-list form over `zip_longest(items, weights)`:
      `weight or 0.0` gives 0.0 past the end of the weights. */
  method PairsOfTwoLists<T>(xs: seq<T>, ws: seq<real>) returns (ps: seq<Pair<T>>)
    ensures Distinct(ps) && forall p :: p in ps ==> fresh(p)
    ensures SnapshotOf(ps) == InitialPairs(TwoLists(xs, ws), None)
  {
    ghost var want := InitialPairs(TwoLists(xs, ws), None);
    ps := [];
    var i := 0;
    while i < |xs|
      invariant 0 <= i <= |xs|
      invariant Distinct(ps) && forall p :: p in ps ==> fresh(p)
      invariant SnapshotOf(ps) == want[..i]
    {
      var w := if i < |ws| then ws[i] else 0.0;
      var p := new Pair(xs[i], w);
      ps := ps + [p];
      assert want[..i + 1] == want[..i] + [want[i]];
      i := i + 1;
    }
    assert want[..|xs|] == want;
  }

  // ---------------------------------------------------------------------
  // The list object
  // ---------------------------------------------------------------------

  class RandomList<T(==)> {
    /** `items`: the pairs, in list order. */
    var items: seq<Pair<T>>
    /** `key`: the weight of an element that comes without one. */
    var key: Option<T -> real>
    /** `_stored_weights`: what the generator has not yielded yet. */
    var stored: seq<real>
    /** `_last`: the elements of the last `choice`. */
    var last: seq<T>
    var noRepeat: bool
    /** `_repeated_cache`. */
    var cache: seq<T>
    var alwaysAge: bool
    var agingCoef: real
    /** `_backup`: a shallow copy of `items` whose pairs are the live ones.
        `None` and the empty list are both empty here, as `if self._backup:`
        treats them alike. */
    var backup: seq<Pair<T>>
    /** `repeated`: the attribute `reset_repeated` assigns and nothing
        reads. */
    var repeated: seq<T>

    /** No pair occurs twice in the list or in the backup, as every pair is
        created once and only copied by reference into the backup. */
    ghost predicate Valid()
      reads this`items, this`backup
    {
      Distinct(items) && Distinct(backup)
    }

    /** The pairs as (element, weight) values. */
    function Snapshot(): seq<(T, real)>
      reads this`items, items
    {
      SnapshotOf(items)
    }

    /** The fields `__init__` sets, with the pairs and stored weights it
        builds from its arguments. */
    constructor (key: Option<T -> real>, ps: seq<Pair<T>>, stored: seq<real>)
      requires Distinct(ps)
      ensures Valid() && items == ps && this.key == key && this.stored == stored && last == []
      ensures !noRepeat && cache == [] && !alwaysAge && agingCoef == DefaultAgingCoef
      ensures backup == [] && repeated == []
    {
      items := ps;
      this.key := key;
      this.stored := stored;
      last := [];
      noRepeat := false;
      cache := [];
      alwaysAge := false;
      agingCoef := DefaultAgingCoef;
      backup := [];
      repeated := [];
    }

    /** `RandomList(*args, key=..., no_repeat=..., always_age=...,
        aging_coef=...)`: the pairs of the argument form, the surplus of the
        two-list form stored, ValueError when a weight is negative, and then
        `configure` with the options. */
    static method Make(src: Source<T>, key: Option<T -> real>,
                       noRepeat: Option<bool>, alwaysAge: Option<bool>, agingCoef: Option<real>)
      returns (r: Result<RandomList<T>, PyError>)
      ensures r.Failure? <==> HasNegative(InitialPairs(src, key))
      ensures r.Failure? ==> r.error == ValueError
      ensures r.Success? ==>
        fresh(r.value) && r.value.Valid() && (forall i :: 0 <= i < |r.value.items| ==> fresh(r.value.items[i])) &&
        r.value.Snapshot() == InitialPairs(src, key) && r.value.stored == InitialStored(src)
      ensures r.Success? ==>
        r.value.key == key && r.value.last == [] && r.value.cache == [] && r.value.repeated == [] &&
        r.value.noRepeat == (noRepeat.Some? && noRepeat.value) &&
        r.value.alwaysAge == (alwaysAge.Some? && alwaysAge.value) &&
        r.value.agingCoef == (if agingCoef.Some? then agingCoef.value else DefaultAgingCoef) &&
        r.value.backup == (if r.value.alwaysAge then r.value.items else [])
    {
      var ps := InitialItems(src, key);
      if HasNegative(SnapshotOf(ps)) {
        return Failure(ValueError);
      }
      var rl := new RandomList(key, ps, InitialStored(src));
      rl.Configure(noRepeat, alwaysAge, agingCoef);
      r := Success(rl);
    }

    /** `len(rl)`. */
    function Len(): (n: nat)
      reads this`items
      ensures n == |items|
    {
      |items|
    }

    /** `elems()`: the elements, in list order. */
    function Elems(): (r: seq<T>)
      reads this`items
      ensures |r| == |items| && forall i :: 0 <= i < |items| ==> r[i] == items[i].elem
    {
      var ps := items;
      seq(|ps|, i requires 0 <= i < |ps| => ps[i].elem)
    }

    /** `weights()`: the weights, in list order. */
    function Weights(): (r: seq<real>)
      reads this`items, items
      ensures |r| == |items| && forall i :: 0 <= i < |items| ==> r[i] == items[i].weight
    {
      WeightsOf(Snapshot())
    }

    /** `elems()` and `weights()` are the two halves of the pairs. */
    lemma ElemsAndWeights()
      ensures |Elems()| == |Weights()| == |Snapshot()|
      ensures forall i :: 0 <= i < |Snapshot()| ==> Snapshot()[i] == (Elems()[i], Weights()[i])
    {
    }

    /** `index(req)`: the first position of `req`; ValueError when absent.
        The `start` and `end` arguments are accepted and ignored. */
    function Index(req: T): (r: Result<nat, PyError>)
      reads this`items
      ensures r.Failure? <==> req !in Elems()
      ensures r.Failure? ==> r.error == ValueError
      ensures r.Success? ==> r.value < |items| && items[r.value].elem == req
      ensures r.Success? ==> forall i :: 0 <= i < r.value ==> items[i].elem != req
    {
      match FirstIndex(Elems(), req)
      case None => Failure(ValueError)
      case Some(i) => Success(i)
    }

    /** `count(req)`: how many pairs hold `req`. */
    function Count(req: T): (n: nat)
      reads this`items
      ensures n == multiset(Elems())[req]
      ensures n > 0 <==> Index(req).Success?
    {
      CountInMultiset(Elems(), req);
      CountFindsIndex(Elems(), req);
      CountIn(Elems(), req)
    }

    /** `at(pos)`: the element at `pos`, counted from the end when negative;
        IndexError out of range. */
    function At(pos: int): (r: Result<T, PyError>)
      reads this`items
      ensures r.Failure? <==> ItemIndex(pos, |items|).None?
      ensures r.Failure? ==> r.error == IndexError
      ensures r.Success? ==> r.value == Elems()[ItemIndex(pos, |items|).value]
    {
      match ItemIndex(pos, |items|)
      case None => Failure(IndexError)
      case Some(i) => Success(items[i].elem)
    }

    /** `weight_of(req)`: the weight of the first pair holding `req`;
        ValueError when there is none. */
    method WeightOf(req: T) returns (r: Result<real, PyError>)
      ensures match FirstIndex(Elems(), req)
        case None => r == Failure(ValueError)
        case Some(i) => r == Success(Weights()[i])
    {
      var i := 0;
      while i < |items|
        invariant 0 <= i <= |items|
        invariant forall j :: 0 <= j < i ==> items[j].elem != req
      {
        if items[i].elem == req {
          return Success(items[i].weight);
        }
        i := i + 1;
      }
      r := Failure(ValueError);
    }

    /** `configure(**kwargs)`: every option given replaces the setting, and
        with aging on the backup becomes a shallow copy of the list. */
    method Configure(noRepeat: Option<bool>, alwaysAge: Option<bool>, agingCoef: Option<real>)
      requires Valid()
      modifies this
      ensures Valid()
      ensures this.noRepeat == (if noRepeat.Some? then noRepeat.value else old(this.noRepeat))
      ensures this.alwaysAge == (if alwaysAge.Some? then alwaysAge.value else old(this.alwaysAge))
      ensures this.agingCoef == (if agingCoef.Some? then agingCoef.value else old(this.agingCoef))
      ensures backup == (if this.alwaysAge then items else old(backup))
      ensures items == old(items) && key == old(key) && stored == old(stored)
      ensures last == old(last) && cache == old(cache) && repeated == old(repeated)
    {
      if noRepeat.Some? {
        this.noRepeat := noRepeat.value;
      }
      if alwaysAge.Some? {
        this.alwaysAge := alwaysAge.value;
      }
      if agingCoef.Some? {
        this.agingCoef := agingCoef.value;
      }
      if this.alwaysAge {
        backup := items;
      }
    }

    /** `append(item, weight)`: the weight from the fallback chain, a stored
        weight used up if one was taken, ValueError for a negative weight,
        and otherwise a new pair at the end followed by `configure()`. */
    method Append(x: T, weight: Option<real>) returns (o: Outcome<PyError>)
      requires Valid()
      modifies this
      ensures Valid()
      ensures stored == StoredAfter(weight, old(stored))
      ensures key == old(key) && last == old(last) && cache == old(cache) && repeated == old(repeated)
      ensures noRepeat == old(noRepeat) && alwaysAge == old(alwaysAge) && agingCoef == old(agingCoef)
      ensures o.Fail? <==> AppendWeight(weight, old(stored), key, x) < 0.0
      ensures o.Fail? ==> o.error == ValueError && items == old(items) && backup == old(backup)
      ensures o.Pass? ==>
        |items| == |old(items)| + 1 && items[..|old(items)|] == old(items) && fresh(items[|old(items)|]) &&
        Snapshot() == old(Snapshot()) + [(x, AppendWeight(weight, old(stored), key, x))] &&
        backup == (if alwaysAge then items else old(backup))
    {
      var w := AppendWeight(weight, stored, key, x);
      stored := StoredAfter(weight, stored);
      if w < 0.0 {
        return Fail(ValueError);
      }
      var p := new Pair(x, w);
      DistinctSnoc(items, p);
      SnapshotOfSnoc(items, p);
      items := items + [p];
      Configure(None, None, None);
      o := Pass;
    }

    /** `remove(req)`: the first pair holding `req` is taken out and
        returned, the others stay in order; ValueError when there is none.
        `list.remove` takes out the first pair equal to the one found, and
        no pair before it holds `req`, so that is the one found. */
    method Remove(req: T) returns (r: Result<Pair<T>, PyError>)
      requires Valid()
      modifies this
      ensures Valid()
      ensures key == old(key) && stored == old(stored) && last == old(last) && cache == old(cache)
      ensures noRepeat == old(noRepeat) && alwaysAge == old(alwaysAge) && agingCoef == old(agingCoef)
      ensures backup == old(backup) && repeated == old(repeated)
      ensures match FirstIndex(old(Elems()), req)
        case None => r == Failure(ValueError) && items == old(items)
        case Some(i) => r == Success(old(items)[i]) && items == Without(old(items), i)
    {
      var copy := items;
      var i := 0;
      while i < |copy|
        invariant 0 <= i <= |copy|
        invariant items == copy
        invariant forall j :: 0 <= j < i ==> copy[j].elem != req
      {
        if copy[i].elem == req {
          DistinctWithout(items, i);
          items := Without(items, i);
          return Success(copy[i]);
        }
        i := i + 1;
      }
      r := Failure(ValueError);
    }

    /** `pop(pos)` as written: the element at `pos` is looked up, and then
        `remove` takes out the first pair holding that element, which need
        not be the pair at `pos`. IndexError when `pos` is out of range. */
    method Pop(pos: int) returns (r: Result<T, PyError>)
      requires Valid()
      modifies this
      ensures Valid()
      ensures key == old(key) && stored == old(stored) && last == old(last) && cache == old(cache)
      ensures backup == old(backup) && repeated == old(repeated)
      ensures match ItemIndex(pos, |old(items)|)
        case None => r == Failure(IndexError) && items == old(items)
        case Some(k) =>
          r == Success(old(items)[k].elem) &&
          FirstIndex(old(Elems()), old(items)[k].elem).Some? &&
          items == Without(old(items), FirstIndex(old(Elems()), old(items)[k].elem).value)
      ensures noRepeat == old(noRepeat) && alwaysAge == old(alwaysAge) && agingCoef == old(agingCoef)
    {
      var ix := ItemIndex(pos, |items|);
      if ix.None? {
        return Failure(IndexError);
      }
      var x := items[ix.value].elem;
      assert Elems()[ix.value] == x;
      var removed := Remove(x);
      r := Success(removed.value.elem);
    }

    /** `pop(pos)` as its documentation describes it: the pair at `pos`
        itself is taken out and its element returned. */
    method PopAt(pos: int) returns (r: Result<T, PyError>)
      requires Valid()
      modifies this
      ensures Valid()
      ensures key == old(key) && stored == old(stored) && last == old(last) && cache == old(cache)
      ensures backup == old(backup) && repeated == old(repeated)
      ensures match ItemIndex(pos, |old(items)|)
        case None => r == Failure(IndexError) && items == old(items)
        case Some(k) => r == Success(old(items)[k].elem) && items == Without(old(items), k)
      ensures noRepeat == old(noRepeat) && alwaysAge == old(alwaysAge) && agingCoef == old(agingCoef)
    {
      var ix := ItemIndex(pos, |items|);
      if ix.None? {
        return Failure(IndexError);
      }
      var x := items[ix.value].elem;
      DistinctWithout(items, ix.value);
      items := Without(items, ix.value);
      r := Success(x);
    }

    /** `clear()`: the pair list only. */
    method Clear()
      requires Valid()
      modifies this
      ensures Valid() && items == []
      ensures key == old(key) && stored == old(stored) && last == old(last) && cache == old(cache)
      ensures backup == old(backup) && repeated == old(repeated)
      ensures noRepeat == old(noRepeat) && alwaysAge == old(alwaysAge) && agingCoef == old(agingCoef)
    {
      items := [];
    }

    /** `clear_all()`: the pair list, the stored weights and the key. */
    method ClearAll()
      requires Valid()
      modifies this
      ensures Valid() && items == [] && stored == [] && key == None
      ensures last == old(last) && cache == old(cache) && backup == old(backup) && repeated == old(repeated)
      ensures noRepeat == old(noRepeat) && alwaysAge == old(alwaysAge) && agingCoef == old(agingCoef)
    {
      items := [];
      stored := [];
      key := None;
    }

    /** `uniform()`: every weight becomes `1/len`, in place. */
    method Uniform()
      requires Valid()
      modifies items
      ensures Snapshot() == Uniformed(old(Snapshot()))
    {
      var i := 0;
      while i < |items|
        invariant 0 <= i <= |items|
        invariant forall j :: 0 <= j < i ==> items[j].weight == 1.0 / (|items| as real)
        invariant forall j :: i <= j < |items| ==> items[j].weight == old(items[j].weight)
      {
        items[i].weight := 1.0 / (|items| as real);
        i := i + 1;
      }
    }

    /** `normalize()`: every weight divided by their sum, in place; with a
        zero sum the first division raises before anything changes. */
    method Normalize() returns (o: Outcome<PyError>)
      requires Valid()
      modifies items
      ensures match Normalized(old(Snapshot()))
        case Success(n) => o == Pass && Snapshot() == n
        case Failure(e) => o == Fail(e) && Snapshot() == old(Snapshot())
    {
      var suma := Sum(Weights());
      assert Weights() == WeightsOf(Snapshot());
      var i := 0;
      while i < |items|
        invariant 0 <= i <= |items|
        invariant i > 0 ==> suma != 0.0
        invariant forall j :: 0 <= j < i ==> items[j].weight == old(items[j].weight) / suma
        invariant forall j :: i <= j < |items| ==> items[j].weight == old(items[j].weight)
      {
        if suma == 0.0 {
          return Fail(ZeroDivisionError);
        }
        items[i].weight := items[i].weight / suma;
        i := i + 1;
      }
      o := Pass;
    }

    /** `age()`: the weight of every element not in `_last` is multiplied by
        the aging coefficient in place, and then the list is normalized. When
        the normalization raises, the multiplied weights stay. */
    method Age() returns (o: Outcome<PyError>)
      requires Valid()
      modifies items
      ensures match Normalized(Aged(old(Snapshot()), last, agingCoef))
        case Success(n) => o == Pass && Snapshot() == n
        case Failure(e) => o == Fail(e) && Snapshot() == Aged(old(Snapshot()), last, agingCoef)
    {
      ghost var scaled := Aged(Snapshot(), last, agingCoef);
      var i := 0;
      while i < |items|
        invariant 0 <= i <= |items|
        invariant forall j :: 0 <= j < i ==> items[j].weight == scaled[j].1
        invariant forall j :: i <= j < |items| ==> items[j].weight == old(items[j].weight)
      {
        if items[i].elem !in last {
          items[i].weight := items[i].weight * agingCoef;
        }
        i := i + 1;
      }
      assert Snapshot() == scaled;
      o := Normalize();
    }

    /** `choice(k, no_repeat, age)` with the randomness of each round given
        by `draws`: `k` rounds of the loop (none when `k` is not positive),
        the options or-ed with the settings, and at the end, with no-repeat
        set on the object, the cache extended by itself (the local list
        aliases it). */
    method Choice(k: int, noRepeat: bool, age: bool, draws: seq<Draw>) returns (r: Result<seq<T>, PyError>)
      requires Valid()
      requires k <= |draws|
      modifies this, items
      ensures Valid()
      ensures items == old(items) && key == old(key) && stored == old(stored) && backup == old(backup)
      ensures this.noRepeat == old(this.noRepeat) && alwaysAge == old(alwaysAge) && agingCoef == old(agingCoef)
      ensures repeated == old(repeated)
      ensures var fin := Rounds(ChoiceState(old(Snapshot()), old(cache), old(last), [], None),
                                draws, if k < 0 then 0 else k, noRepeat || old(this.noRepeat),
                                age || old(alwaysAge), old(agingCoef));
        Snapshot() == fin.snap && last == fin.last &&
        (r.Failure? <==> fin.error.Some?) &&
        (r.Failure? ==> r.error == fin.error.value && cache == fin.cache) &&
        (r.Success? ==> r.value == fin.choices &&
                        cache == (if this.noRepeat then fin.cache + fin.cache else fin.cache))
    {
      var n := if k < 0 then 0 else k;
      var nr := noRepeat || this.noRepeat;
      var ag := age || alwaysAge;
      ghost var st0 := ChoiceState(Snapshot(), cache, last, [], None);
      var choices, err := Loop(n, nr, ag, draws);
      ghost var fin := Rounds(st0, draws, n, nr, ag, agingCoef);
      assert fin == ChoiceState(Snapshot(), cache, last, choices, err);
      if err.Some? {
        return Failure(err.value);
      }
      if this.noRepeat {
        cache := cache + cache;
      }
      r := Success(choices);
    }

    /** The loop of `choice`: `n` rounds, stopping at the first error. */
    method Loop(n: nat, nr: bool, ag: bool, draws: seq<Draw>) returns (choices: seq<T>, err: Option<PyError>)
      requires Valid()
      requires n <= |draws|
      modifies this, items
      ensures Valid()
      ensures items == old(items) && key == old(key) && stored == old(stored) && backup == old(backup)
      ensures noRepeat == old(noRepeat) && alwaysAge == old(alwaysAge) && agingCoef == old(agingCoef)
      ensures repeated == old(repeated)
      ensures Rounds(ChoiceState(old(Snapshot()), old(cache), old(last), [], None), draws, n, nr, ag, agingCoef)
        == ChoiceState(Snapshot(), cache, last, choices, err)
    {
      ghost var st0 := ChoiceState(Snapshot(), cache, last, [], None);
      assert st0 == ChoiceState(old(Snapshot()), old(cache), old(last), [], None);
      choices := [];
      err := None;
      var i := 0;
      while i < n
        invariant 0 <= i <= n
        invariant Valid()
        invariant items == old(items) && key == old(key) && stored == old(stored) && backup == old(backup)
        invariant noRepeat == old(noRepeat) && alwaysAge == old(alwaysAge)
        invariant agingCoef == old(agingCoef) && repeated == old(repeated)
        invariant err == None
        invariant Rounds(st0, draws, i, nr, ag, agingCoef) == ChoiceState(Snapshot(), cache, last, choices, err)
      {
        ghost var before := ChoiceState(Snapshot(), cache, last, choices, None);
        choices, err := Step(choices, draws[i], nr, ag);
        ghost var after := ChoiceState(Snapshot(), cache, last, choices, err);
        RoundsNext(st0, draws, i, nr, ag, agingCoef, before, after);
        if err.Some? {
          RoundsStopAtError(st0, draws, n, i + 1, nr, ag, agingCoef);
          return;
        }
        i := i + 1;
      }
    }

    /** The first half of one pass of `choice`'s loop: the candidates, the
        shuffle, the draw scaled to their total, the scan, and the
        bookkeeping of `_last` and the cache; no candidates is an error. */
    method Pick(choices: seq<T>, d: Draw, nr: bool) returns (next: seq<T>, err: Option<PyError>)
      requires Valid()
      modifies this
      ensures Valid() && Snapshot() == old(Snapshot())
      ensures items == old(items) && key == old(key) && stored == old(stored) && backup == old(backup)
      ensures noRepeat == old(noRepeat) && alwaysAge == old(alwaysAge) && agingCoef == old(agingCoef)
      ensures repeated == old(repeated)
      ensures var allowed := Candidates(old(Snapshot()), nr, old(cache));
        var st := ChoiceState(old(Snapshot()), old(cache), old(last), choices, None);
        if allowed == [] then err == Some(NoItemsLeft) && next == choices && cache == old(cache) && last == old(last)
        else err == None && Record(st, Drawn(allowed, d), nr) == ChoiceState(Snapshot(), cache, last, next, None)
    {
      ghost var snap := Snapshot();
      var allowed := Candidates(Snapshot(), nr, cache);
      if allowed == [] {
        return choices, Some(NoItemsLeft);
      }
      var c := DrawOne(allowed, d);
      next := choices + [c];
      last, cache := next, if nr then cache + [c] else cache;
      err := None;
      assert Snapshot() == snap;
    }

    /** One pass of `choice`'s loop: the draw and its bookkeeping, then the
        aging when it is on. */
    method Step(choices: seq<T>, d: Draw, nr: bool, ag: bool) returns (next: seq<T>, err: Option<PyError>)
      requires Valid()
      modifies this, items
      ensures Valid()
      ensures items == old(items) && key == old(key) && stored == old(stored) && backup == old(backup)
      ensures noRepeat == old(noRepeat) && alwaysAge == old(alwaysAge) && agingCoef == old(agingCoef)
      ensures repeated == old(repeated)
      ensures Round(ChoiceState(old(Snapshot()), old(cache), old(last), choices, None), d, nr, ag, agingCoef)
        == ChoiceState(Snapshot(), cache, last, next, err)
    {
      ghost var st := ChoiceState(Snapshot(), cache, last, choices, None);
      next, err := Pick(choices, d, nr);
      if err.None? {
        RoundRecords(st, d, nr, ag, agingCoef);
        if ag {
          err := AgeRound(next);
        }
      }
    }

    /** The aging at the end of a round of `choice`: `age()`, whose
        ZeroDivisionError ends the loop. */
    method AgeRound(choices: seq<T>) returns (err: Option<PyError>)
      requires Valid()
      modifies items
      ensures AgeState(ChoiceState(old(Snapshot()), cache, last, choices, None), agingCoef)
        == ChoiceState(Snapshot(), cache, last, choices, err)
    {
      ghost var rec := ChoiceState(Snapshot(), cache, last, choices, None);
      var o := Age();
      AgeStateFrom(rec, agingCoef, o, Snapshot());
      err := if o.Fail? then Some(o.error) else None;
    }

    /** `reset_repeated()` as written: it assigns an attribute nothing reads,
        so the repeated cache keeps its elements. */
    method ResetRepeated()
      modifies this
      ensures repeated == [] && cache == old(cache)
      ensures items == old(items) && key == old(key) && stored == old(stored) && last == old(last)
      ensures noRepeat == old(noRepeat) && alwaysAge == old(alwaysAge) && agingCoef == old(agingCoef)
      ensures backup == old(backup)
    {
      repeated := [];
    }

    /** `reset_aging()`: a non-empty backup becomes the list again and the
        backup is emptied; an empty one changes nothing. The backup holds
        the live pairs, so the weights come back as they are now. */
    method ResetAging()
      requires Valid()
      modifies this
      ensures Valid()
      ensures old(backup) != [] ==> items == old(backup) && backup == []
      ensures old(backup) == [] ==> items == old(items) && backup == []
      ensures key == old(key) && stored == old(stored) && last == old(last) && cache == old(cache)
      ensures noRepeat == old(noRepeat) && alwaysAge == old(alwaysAge) && agingCoef == old(agingCoef)
      ensures repeated == old(repeated)
    {
      if backup != [] {
        items := backup;
        backup := [];
      }
    }
  }

  /** The pair list that `pop()` leaves when two pairs hold the same element:
      the first pair goes, though the last one was asked for. */
  method PopTakesFirstTwin() returns (left: seq<(int, real)>)
    ensures left == [(7, 2.0)]
  {
    var made := RandomList.Make(TwoLists([7, 7], [1.0, 2.0]), None, None, None, None);
    assert InitialPairs(TwoLists([7, 7], [1.0, 2.0]), None) == [(7, 1.0), (7, 2.0)];
    var rl := made.value;
    ghost var ps := rl.items;
    assert ps[0].elem == 7 && ps[1].elem == 7 && ps[1].weight == 2.0;
    assert rl.Elems() == [7, 7];
    assert FirstIndex([7, 7], 7) == Some(0);
    var popped := rl.Pop(-1);
    assert rl.items == [ps[1]];
    left := rl.Snapshot();
  }

  /** The pair list that the corrected `pop()` leaves on the same list: the
      last pair goes. */
  method PopAtTakesLast() returns (left: seq<(int, real)>)
    ensures left == [(7, 1.0)]
  {
    var made := RandomList.Make(TwoLists([7, 7], [1.0, 2.0]), None, None, None, None);
    assert InitialPairs(TwoLists([7, 7], [1.0, 2.0]), None) == [(7, 1.0), (7, 2.0)];
    var rl := made.value;
    var popped := rl.PopAt(-1);
    left := rl.Snapshot();
  }

  /** One aging of two unit weights with nothing recently chosen. */
  lemma AgedExample()
    ensures Normalized(Aged([(1, 1.0), (2, 1.0)], [], 2.0)) == Success([(1, 0.5), (2, 0.5)])
  {
    var scaled := [(1, 2.0), (2, 2.0)];
    assert Aged([(1, 1.0), (2, 1.0)], [], 2.0) == scaled;
    assert WeightsOf(scaled) == [2.0, 2.0];
    assert [2.0, 2.0][..1] == [2.0];
    assert Sum([2.0]) == 2.0 by {
      assert [2.0][..0] == [];
    }
    assert Sum(WeightsOf(scaled)) == 4.0;
    var n := Normalized(scaled).value;
    assert |n| == 2 && n[0] == (1, 0.5) && n[1] == (2, 0.5);
    assert n == [(1, 0.5), (2, 0.5)];
  }

  /** The weights that `reset_aging()` hands back after one `age()` with
      aging on: the aged ones, 0.5 each, not the 1.0 each the list was built
      with, because the backup shares its pairs with the list. */
  method ResetKeepsAgedWeights() returns (restored: seq<real>)
    ensures restored == [0.5, 0.5]
  {
    var made := RandomList.Make(TwoLists([1, 2], [1.0, 1.0]), None, None, Some(true), None);
    assert InitialPairs(TwoLists([1, 2], [1.0, 1.0]), None) == [(1, 1.0), (2, 1.0)];
    var rl := made.value;
    assert rl.backup == rl.items && rl.last == [] && rl.agingCoef == 2.0;
    var aged := rl.Age();
    AgedExample();
    assert rl.Snapshot() == [(1, 0.5), (2, 0.5)];
    rl.ResetAging();
    restored := rl.Weights();
  }
}
