/** The arithmetic helpers of morelib/math.py: `normalize` (shares of the
    total), `remap` (a value moved from one range to another),
    `vector_product` (a scalar times a vector, or the entry-wise product of
    vectors of one length) and `dot_product` (the sum of that product).
    Numbers are exact reals; Python's int/float distinction and rounding
    are not modelled. */
module VectorMath {
  import opened Wrappers
  import opened PyBuiltins

  // ---------------------------------------------------------------------
  // normalize
  // ---------------------------------------------------------------------

  /** Every entry is a natural value (`n >= 0`). */
  predicate AllNatural(v: seq<real>)
  {
    forall i :: 0 <= i < |v| ==> v[i] >= 0.0
  }

  /** `out` holds each entry of `v` divided by the sum of `v`. */
  predicate Shares(v: seq<real>, out: seq<real>)
  {
    |out| == |v| && forall i :: 0 <= i < |v| ==> Sum(v) != 0.0 && out[i] == v[i] / Sum(v)
  }

  /** `normalize(vector)`: TypeError when an entry is negative; otherwise
      the loop divides each entry by `sum(vector)`, which raises
      ZeroDivisionError on a non-empty list of zeros. An empty list gives
      an empty list. */
  method Normalize(vector: seq<real>) returns (r: Result<seq<real>, PyError>)
    ensures r.Failure? <==> !AllNatural(vector) || (vector != [] && Sum(vector) == 0.0)
    ensures r.Failure? ==> r.error == if AllNatural(vector) then ZeroDivisionError else TypeError
    ensures r.Success? ==> Shares(vector, r.value)
  {
    if !(forall i | 0 <= i < |vector| :: vector[i] >= 0.0) {
      return Failure(TypeError);
    }
    var out := [];
    var i := 0;
    while i < |vector|
      invariant 0 <= i <= |vector| && |out| == i
      invariant i > 0 ==> Sum(vector) != 0.0
      invariant forall j :: 0 <= j < i ==> out[j] == vector[j] / Sum(vector)
    {
      var total := Sum(vector);
      if total == 0.0 {
        return Failure(ZeroDivisionError);
      }
      out := out + [vector[i] / total];
      i := i + 1;
    }
    return Success(out);
  }

  /** The shares of a non-empty list add up to 1. */
  lemma SharesSumToOne(v: seq<real>, out: seq<real>)
    requires v != [] && Shares(v, out)
    ensures Sum(out) == 1.0
  {
    var t := Sum(v);
    assert t != 0.0 && out[0] == v[0] / t;
    SumDivided(v, out, t);
    DivSelf(t);
  }

  /** A non-zero number divided by itself is 1. */
  lemma DivSelf(t: real)
    requires t != 0.0
    ensures t / t == 1.0
  {
  }

  /** An entry of a list of natural values is at most its sum, which is
      itself natural. */
  lemma {:induction false} EntryAtMostSum(v: seq<real>, i: nat)
    requires AllNatural(v) && i < |v|
    ensures 0.0 <= v[i] <= Sum(v)
    decreases |v|
  {
    var init := v[..|v| - 1];
    if i < |v| - 1 {
      EntryAtMostSum(init, i);
      assert v[i] == init[i];
    }
    if init != [] {
      SumNatural(init);
    }
  }

  lemma {:induction false} SumNatural(v: seq<real>)
    requires AllNatural(v)
    ensures Sum(v) >= 0.0
    decreases |v|
  {
    if v != [] {
      SumNatural(v[..|v| - 1]);
    }
  }

  /** A natural value divided by a positive total it does not exceed lies
      in [0, 1]. */
  lemma ShareBounds(a: real, t: real)
    requires 0.0 <= a <= t && t > 0.0
    ensures 0.0 <= a / t <= 1.0
  {
  }

  /** Each share of a list of natural values lies in [0, 1]. */
  lemma SharesBetweenZeroAndOne(v: seq<real>, out: seq<real>)
    requires AllNatural(v) && Shares(v, out)
    ensures forall i :: 0 <= i < |out| ==> 0.0 <= out[i] <= 1.0
  {
    forall i | 0 <= i < |out|
      ensures 0.0 <= out[i] <= 1.0
    {
      EntryAtMostSum(v, i);
      ShareBounds(v[i], Sum(v));
    }
  }

  /** Normalizing a normalized list changes nothing. */
  lemma SharesIdempotent(v: seq<real>, out: seq<real>)
    requires v != [] && Shares(v, out)
    ensures Shares(out, out)
  {
    SharesSumToOne(v, out);
  }

  // ---------------------------------------------------------------------
  // remap
  // ---------------------------------------------------------------------

  /** The forms of `remap`'s extra arguments: the four bounds; two
      sequences whose first and last elements are the bounds; or any other
      number of arguments, which leaves the bounds unassigned. The original
      bounds are integers, as `range` demands. */
  datatype RemapArgs =
    | Bounds(omin: int, omax: int, dmin: real, dmax: real)
    | Ranges(origin: seq<int>, destiny: seq<real>)
    | OtherCount(count: nat)

  /** The four bounds read from the arguments: unpacking a sequence of fewer
      than two elements raises ValueError, and reading a bound that was never
      assigned raises UnboundLocalError. */
  function BoundsOf(args: RemapArgs): (r: Result<(int, int, real, real), PyError>)
    ensures args.Bounds? ==> r == Success((args.omin, args.omax, args.dmin, args.dmax))
    ensures args.Ranges? ==>
      if |args.origin| < 2 || |args.destiny| < 2 then r == Failure(ValueError)
      else r == Success((args.origin[0], args.origin[|args.origin| - 1],
                         args.destiny[0], args.destiny[|args.destiny| - 1]))
    ensures args.OtherCount? ==> r == Failure(UnboundLocalError)
  {
    match args
    case Bounds(omin, omax, dmin, dmax) => Success((omin, omax, dmin, dmax))
    case Ranges(o, d) =>
      if |o| < 2 || |d| < 2 then Failure(ValueError)
      else Success((o[0], o[|o| - 1], d[0], d[|d| - 1]))
    case OtherCount(_) => Failure(UnboundLocalError)
  }

  /** `value in range(lo, hi + 1)`: `value` equals one of the integers from
      `lo` to `hi`. */
  predicate InIntRange(value: real, lo: int, hi: int)
  {
    value.Floor as real == value && lo <= value.Floor <= hi
  }

  /** `remap(value, *args)`: ValueError when a range is empty or reversed or
      when `value` is not one of the integers of the original range;
      otherwise `value`'s position in the original range carried over to
      the destination range. */
  function Remap(value: real, args: RemapArgs): (r: Result<real, PyError>)
    ensures r.Success? <==>
      BoundsOf(args).Success? &&
      var (omin, omax, dmin, dmax) := BoundsOf(args).value;
      omin < omax && dmin < dmax && InIntRange(value, omin, omax)
    ensures r.Failure? ==> r.error == (if BoundsOf(args).Failure? then BoundsOf(args).error else ValueError)
  {
    match BoundsOf(args)
    case Failure(e) => Failure(e)
    case Success(b) => RemapBetween(value, b.0, b.1, b.2, b.3)
  }

  /** `remap` once its four bounds are read: ValueError unless both ranges
      increase and `value` is an integer of the original range. */
  function RemapBetween(value: real, omin: int, omax: int, dmin: real, dmax: real): (r: Result<real, PyError>)
    ensures r.Success? <==> omin < omax && dmin < dmax && InIntRange(value, omin, omax)
    ensures r.Failure? ==> r.error == ValueError
  {
    if omax <= omin || dmax <= dmin then Failure(ValueError)
    else if !InIntRange(value, omin, omax) then Failure(ValueError)
    else
      var r := (value - omin as real) / (omax - omin) as real;
      Success(dmin + r * (dmax - dmin))
  }

  /** The two-sequence form reads only the first and the last element of
      each sequence. */
  lemma RemapRangesUseEnds(value: real, o: seq<int>, d: seq<real>)
    requires |o| >= 2 && |d| >= 2
    ensures Remap(value, Ranges(o, d)) == Remap(value, Bounds(o[0], o[|o| - 1], d[0], d[|d| - 1]))
  {
    assert BoundsOf(Ranges(o, d)) == BoundsOf(Bounds(o[0], o[|o| - 1], d[0], d[|d| - 1]));
  }

  /** The ends of the original range go to the ends of the destination. */
  lemma RemapEndpoints(omin: int, omax: int, dmin: real, dmax: real)
    requires omin < omax && dmin < dmax
    ensures Remap(omin as real, Bounds(omin, omax, dmin, dmax)) == Success(dmin)
    ensures Remap(omax as real, Bounds(omin, omax, dmin, dmax)) == Success(dmax)
  {
    assert InIntRange(omin as real, omin, omax);
    assert InIntRange(omax as real, omin, omax);
    var o := (omax - omin) as real;
    var d := dmax - dmin;
    var lo := omin as real - omin as real;
    var hi := omax as real - omin as real;
    assert lo / o == 0.0;
    assert hi == o;
    DivSelf(o);
    assert hi / o == 1.0;
    assert RemapBetween(omin as real, omin, omax, dmin, dmax) == Success(dmin + (lo / o) * d);
    assert RemapBetween(omax as real, omin, omax, dmin, dmax) == Success(dmin + (hi / o) * d);
  }

  /** A product of a factor in [0, 1] and a positive length is in
      [0, length], and grows strictly with the factor. */
  lemma ScaleWithin(r: real, s: real, d: real)
    requires 0.0 <= r <= s <= 1.0 && d > 0.0
    ensures 0.0 <= r * d <= s * d <= d
    ensures r < s ==> r * d < s * d
  {
    assert (s - r) * d >= 0.0;
    assert (1.0 - s) * d >= 0.0;
    if r < s {
      assert (s - r) * d > 0.0;
    }
  }

  /** Every result of `remap` lies in the destination range. */
  lemma RemapWithin(value: real, args: RemapArgs)
    requires Remap(value, args).Success?
    ensures var (omin, omax, dmin, dmax) := BoundsOf(args).value;
      dmin <= Remap(value, args).value <= dmax
  {
    var (omin, omax, dmin, dmax) := BoundsOf(args).value;
    var o := (omax - omin) as real;
    var r := (value - omin as real) / o;
    ShareBounds(value - omin as real, o);
    ScaleWithin(r, r, dmax - dmin);
  }

  /** `remap` keeps the order of values: a larger value of the original
      range goes to a strictly larger value of the destination. */
  lemma RemapIncreasing(a: real, b: real, args: RemapArgs)
    requires Remap(a, args).Success? && Remap(b, args).Success? && a < b
    ensures Remap(a, args).value < Remap(b, args).value
  {
    var (omin, omax, dmin, dmax) := BoundsOf(args).value;
    BetweenIncreasing(a, b, omin, omax, dmin, dmax);
  }

  lemma BetweenIncreasing(a: real, b: real, omin: int, omax: int, dmin: real, dmax: real)
    requires RemapBetween(a, omin, omax, dmin, dmax).Success?
    requires RemapBetween(b, omin, omax, dmin, dmax).Success? && a < b
    ensures RemapBetween(a, omin, omax, dmin, dmax).value < RemapBetween(b, omin, omax, dmin, dmax).value
  {
    var o := (omax - omin) as real;
    var x := a - omin as real;
    var y := b - omin as real;
    var d := dmax - dmin;
    var ra := dmin + (x / o) * d;
    var rb := dmin + (y / o) * d;
    assert RemapBetween(a, omin, omax, dmin, dmax).value == ra;
    assert RemapBetween(b, omin, omax, dmin, dmax).value == rb;
    assert 0.0 <= x < y <= o;
    AffineIncreasing(x, y, o, dmin, d);
    assert ra < rb;
  }

  /** `x |-> lo + (x / o) * d` is strictly increasing on [0, o]. */
  lemma AffineIncreasing(x: real, y: real, o: real, lo: real, d: real)
    requires 0.0 <= x < y <= o && d > 0.0
    ensures lo + (x / o) * d < lo + (y / o) * d
  {
    ShareBounds(x, o);
    ShareBounds(y, o);
    DivideStrict(x, y, o);
    ScaleWithin(x / o, y / o, d);
  }

  /** Dividing by a positive number keeps a strict order. */
  lemma DivideStrict(x: real, y: real, o: real)
    requires x < y && o > 0.0
    ensures x / o < y / o
  {
    assert y / o - x / o == (y - x) / o;
  }

  /** `remap` can be undone: carrying the result back from the destination
      range to the original range gives the value again. */
  lemma RemapRoundTrip(value: real, args: RemapArgs)
    requires Remap(value, args).Success?
    ensures var (omin, omax, dmin, dmax) := BoundsOf(args).value;
      omin as real + (Remap(value, args).value - dmin) / (dmax - dmin) * (omax - omin) as real == value
  {
    var (omin, omax, dmin, dmax) := BoundsOf(args).value;
    var o := (omax - omin) as real;
    var d := dmax - dmin;
    var r := (value - omin as real) / o;
    assert Remap(value, args).value - dmin == r * d;
    assert (r * d) / d == r;
    assert r * o == value - omin as real;
  }

  // ---------------------------------------------------------------------
  // vector_product and dot_product
  // ---------------------------------------------------------------------

  /** The first argument of `vector_product`: a number or a list. */
  datatype Operand = Scalar(x: real) | Vector(xs: seq<real>)

  /** Every list of `vs` has length `n`. */
  predicate SameLength(vs: seq<seq<real>>, n: nat)
  {
    forall k :: 0 <= k < |vs| ==> |vs[k]| == n
  }

  /** The `i`-th entries of the lists of `vs`. */
  function Column(vs: seq<seq<real>>, i: nat): seq<real>
    requires forall k :: 0 <= k < |vs| ==> i < |vs[k]|
  {
    seq(|vs|, k requires 0 <= k < |vs| => vs[k][i])
  }

  /** The left-to-right product of `s`, 1 for an empty `s`. */
  function Product(s: seq<real>): real
  {
    if s == [] then 1.0 else Product(s[..|s| - 1]) * s[|s| - 1]
  }

  /** The entry-wise products of lists of length `n`. */
  function Products(vs: seq<seq<real>>, n: nat): (r: seq<real>)
    requires SameLength(vs, n)
    ensures |r| == n
  {
    seq(n, i requires 0 <= i < n => Product(Column(vs, i)))
  }

  /** `[v * n for n in w]`. */
  function Scaled(c: real, w: seq<real>): (r: seq<real>)
    ensures |r| == |w| && forall i :: 0 <= i < |w| ==> r[i] == c * w[i]
  {
    seq(|w|, i requires 0 <= i < |w| => c * w[i])
  }

  /** What `vector_product(v, w, *args)` returns: with a number `v`, `w`
      scaled by it, multiplied on by the further lists if there are any;
      with a list `v`, the entry-wise product of `v`, `w` and the further
      lists, or ValueError when their lengths differ. */
  function VectorProductSpec(v: Operand, w: seq<real>, args: seq<seq<real>>): Result<seq<real>, PyError>
    decreases if v.Scalar? then 1 else 0
  {
    match v
    case Scalar(c) =>
      if args == [] then Success(Scaled(c, w))
      else VectorProductSpec(Vector(Scaled(c, w)), args[0], args[1..])
    case Vector(xs) =>
      if |w| == |xs| && SameLength(args, |xs|) then
        assert SameLength([xs, w] + args, |xs|);
        Success(Products([xs, w] + args, |xs|))
      else Failure(ValueError)
  }

  /** One more list in a column multiplies its product by that list's
      entry. */
  lemma ProductColumnStep(vs: seq<seq<real>>, m: nat, i: nat)
    requires m < |vs| && forall k :: 0 <= k < |vs| ==> i < |vs[k]|
    ensures Product(Column(vs[..m + 1], i)) == Product(Column(vs[..m], i)) * vs[m][i]
  {
    assert Column(vs[..m + 1], i)[..m] == Column(vs[..m], i);
  }

  /** `vector_product(v, w, *args)`: the scalar branch builds the scaled
      list and calls itself on the further lists; the list branch checks the
      lengths and then, for each position, multiplies `v[i] * w[i]` by each
      further list's entry in turn. */
  method VectorProduct(v: Operand, w: seq<real>, args: seq<seq<real>>) returns (r: Result<seq<real>, PyError>)
    ensures r == VectorProductSpec(v, w, args)
    decreases if v.Scalar? then 1 else 0
  {
    if v.Scalar? {
      var ans := seq(|w|, i requires 0 <= i < |w| => v.x * w[i]);
      assert ans == Scaled(v.x, w);
      if args != [] {
        r := VectorProduct(Vector(ans), args[0], args[1..]);
      } else {
        r := Success(ans);
      }
      return;
    }
    var xs := v.xs;
    if !(|w| == |xs| && forall k | 0 <= k < |args| :: |args[k]| == |xs|) {
      return Failure(ValueError);
    }
    ghost var all := [xs, w] + args;
    assert SameLength(all, |xs|);
    var ans := [];
    var i := 0;
    while i < |xs|
      invariant 0 <= i <= |xs| && |ans| == i
      invariant forall j :: 0 <= j < i ==> ans[j] == Product(Column(all, j))
    {
      var n := EntryProduct(xs, w, args, i);
      ans := ans + [n];
      i := i + 1;
    }
    assert ans == Products(all, |xs|);
    r := Success(ans);
  }

  /** The inner loop of `vector_product`: `v[i] * w[i]` multiplied by each
      further list's `i`-th entry in turn. */
  method EntryProduct(xs: seq<real>, w: seq<real>, args: seq<seq<real>>, i: nat) returns (n: real)
    requires |w| == |xs| && SameLength(args, |xs|) && i < |xs|
    ensures SameLength([xs, w] + args, |xs|)
    ensures n == Product(Column([xs, w] + args, i))
  {
    ghost var all := [xs, w] + args;
    assert SameLength(all, |xs|);
    ProductColumnStep(all, 0, i);
    ProductColumnStep(all, 1, i);
    n := xs[i] * w[i];
    var k := 0;
    while k < |args|
      invariant 0 <= k <= |args|
      invariant n == Product(Column(all[..k + 2], i))
    {
      ProductColumnStep(all, k + 2, i);
      n := n * args[k][i];
      k := k + 1;
    }
    assert all[..|args| + 2] == all;
  }

  /** With a list `v`: success exactly when all the lengths agree, and then
      each entry is `v`'s entry times `w`'s times the further lists'
      entries at that position, in a list as long as `v`. */
  lemma {:induction false} VectorsMultiplyEntrywise(xs: seq<real>, w: seq<real>, args: seq<seq<real>>)
    ensures VectorProductSpec(Vector(xs), w, args).Success? <==> |w| == |xs| && SameLength(args, |xs|)
    ensures |w| == |xs| && SameLength(args, |xs|) ==>
      var r := VectorProductSpec(Vector(xs), w, args).value;
      |r| == |xs| && forall i :: 0 <= i < |xs| ==> r[i] == xs[i] * (w[i] * Product(Column(args, i)))
  {
    if |w| == |xs| && SameLength(args, |xs|) {
      var all := [xs, w] + args;
      assert SameLength(all, |xs|);
      var r := VectorProductSpec(Vector(xs), w, args).value;
      forall i | 0 <= i < |xs|
        ensures r[i] == xs[i] * (w[i] * Product(Column(args, i)))
      {
        var c := Column(args, i);
        assert Column(all, i) == [xs[i]] + ([w[i]] + c);
        ProductCons(xs[i], [w[i]] + c);
        ProductCons(w[i], c);
      }
    }
  }

  /** The product of a list with one more entry in front is that entry
      times the product of the list. */
  lemma {:induction false} ProductCons(x: real, s: seq<real>)
    ensures Product([x] + s) == x * Product(s)
    decreases |s|
  {
    var t := [x] + s;
    if s == [] {
      assert t[..0] == [];
    } else {
      var init := s[..|s| - 1];
      var y := s[|s| - 1];
      ProductCons(x, init);
      assert t[..|t| - 1] == [x] + init;
      var p := Product(init);
      assert Product(t) == (x * p) * y;
      assert (x * p) * y == x * (p * y);
    }
  }

  /** The entry-wise product of two lists does not depend on their order. */
  lemma VectorProductCommutes(a: seq<real>, b: seq<real>)
    ensures VectorProductSpec(Vector(a), b, []) == VectorProductSpec(Vector(b), a, [])
  {
    VectorsMultiplyEntrywise(a, b, []);
    VectorsMultiplyEntrywise(b, a, []);
    if |a| == |b| {
      var ra := VectorProductSpec(Vector(a), b, []).value;
      var rb := VectorProductSpec(Vector(b), a, []).value;
      forall i | 0 <= i < |a|
        ensures ra[i] == rb[i]
      {
        var p := Product(Column([], i));
        assert a[i] * (b[i] * p) == b[i] * (a[i] * p);
      }
      assert ra == rb;
    }
  }

  /** A number `c` times a list gives the list scaled by `c`; with further
      lists, the scaled list is multiplied on by them: ValueError when their
      lengths differ from that of `w`, and otherwise each entry is `c` times
      `w`'s entry times the further lists' entries. */
  lemma {:induction false} ScalarThenVectors(c: real, w: seq<real>, args: seq<seq<real>>)
    ensures args == [] ==> VectorProductSpec(Scalar(c), w, args) == Success(Scaled(c, w))
    ensures args != [] ==> (VectorProductSpec(Scalar(c), w, args).Success? <==> SameLength(args, |w|))
    ensures args != [] && SameLength(args, |w|) ==>
      var r := VectorProductSpec(Scalar(c), w, args).value;
      |r| == |w| && forall i :: 0 <= i < |w| ==> r[i] == c * (w[i] * Product(Column(args, i)))
  {
    if args != [] {
      var sw := Scaled(c, w);
      VectorsMultiplyEntrywise(sw, args[0], args[1..]);
      SameLengthSplit(args, |w|);
      if SameLength(args, |w|) {
        ScaledRowTimesColumns(c, w, args, VectorProductSpec(Scalar(c), w, args).value);
      }
    }
  }

  lemma ScaledRowTimesColumns(c: real, w: seq<real>, args: seq<seq<real>>, r: seq<real>)
    requires args != [] && SameLength(args, |w|) && |r| == |w|
    requires forall i :: 0 <= i < |w| ==> r[i] == Scaled(c, w)[i] * (args[0][i] * Product(Column(args[1..], i)))
    ensures forall i :: 0 <= i < |w| ==> r[i] == c * (w[i] * Product(Column(args, i)))
  {
    forall i | 0 <= i < |w|
      ensures r[i] == c * (w[i] * Product(Column(args, i)))
    {
      ColumnCons(args, i);
      ScaledEntry(c, w[i], args[0][i], Product(Column(args[1..], i)));
    }
  }

  lemma SameLengthSplit(vs: seq<seq<real>>, n: nat)
    requires vs != []
    ensures SameLength(vs, n) <==> |vs[0]| == n && SameLength(vs[1..], n)
  {
    assert forall k :: 1 <= k < |vs| ==> vs[k] == vs[1..][k - 1];
  }

  /** A column's product is its first entry times the product of the rest. */
  lemma ColumnCons(vs: seq<seq<real>>, i: nat)
    requires vs != [] && forall k :: 0 <= k < |vs| ==> i < |vs[k]|
    ensures Product(Column(vs, i)) == vs[0][i] * Product(Column(vs[1..], i))
  {
    assert Column(vs, i) == [vs[0][i]] + Column(vs[1..], i);
    ProductCons(vs[0][i], Column(vs[1..], i));
  }

  lemma ScaledEntry(c: real, x: real, a: real, p: real)
    ensures (c * x) * (a * p) == c * (x * (a * p))
  {
  }

  /** What `dot_product(v, w, *args)` returns: the sum of the vector
      product; its ValueError is raised again as ValueError. */
  function DotProductSpec(v: Operand, w: seq<real>, args: seq<seq<real>>): Result<real, PyError>
  {
    match VectorProductSpec(v, w, args)
    case Success(vec) => Success(Sum(vec))
    case Failure(_) => Failure(ValueError)
  }

  /** `dot_product(v, w, *args)`. */
  method DotProduct(v: Operand, w: seq<real>, args: seq<seq<real>>) returns (r: Result<real, PyError>)
    ensures r == DotProductSpec(v, w, args)
  {
    var vector := VectorProduct(v, w, args);
    if vector.Failure? {
      return Failure(ValueError);
    }
    r := Success(Sum(vector.value));
  }

  /** The entry-wise products of two lists of one length. */
  function Pairwise(a: seq<real>, b: seq<real>): (r: seq<real>)
    requires |a| == |b|
    ensures |r| == |a| && forall i :: 0 <= i < |a| ==> r[i] == a[i] * b[i]
  {
    seq(|a|, i requires 0 <= i < |a| => a[i] * b[i])
  }

  /** The dot product of two lists is the sum of their entry-wise products,
      symmetric in the two lists, and ValueError when their lengths
      differ. */
  lemma DotProductOfTwo(a: seq<real>, b: seq<real>)
    ensures DotProductSpec(Vector(a), b, []) == DotProductSpec(Vector(b), a, [])
    ensures DotProductSpec(Vector(a), b, []).Failure? <==> |a| != |b|
    ensures |a| == |b| ==> DotProductSpec(Vector(a), b, []) == Success(Sum(Pairwise(a, b)))
  {
    VectorProductCommutes(a, b);
    VectorsMultiplyEntrywise(a, b, []);
    if |a| == |b| {
      var r := VectorProductSpec(Vector(a), b, []).value;
      forall i | 0 <= i < |a|
        ensures r[i] == a[i] * b[i]
      {
        assert Column([], i) == [];
      }
      assert r == Pairwise(a, b);
    }
  }

  /** The sum of a scaled list is the scaled sum. */
  lemma {:induction false} SumScaled(c: real, w: seq<real>)
    ensures Sum(Scaled(c, w)) == c * Sum(w)
    decreases |w|
  {
    if w != [] {
      var init := w[..|w| - 1];
      var sw := Scaled(c, w);
      SumScaled(c, init);
      assert sw[..|w| - 1] == Scaled(c, init) by {
        forall k | 0 <= k < |w| - 1
          ensures sw[k] == Scaled(c, init)[k]
        {
          assert init[k] == w[k];
        }
      }
      assert c * Sum(init) + c * w[|w| - 1] == c * (Sum(init) + w[|w| - 1]);
    }
  }

  /** The dot product of a number and one list is the number times the
      list's sum. */
  lemma DotProductScalar(c: real, w: seq<real>)
    ensures DotProductSpec(Scalar(c), w, []) == Success(c * Sum(w))
  {
    SumScaled(c, w);
  }
}
