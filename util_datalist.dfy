/** `DataList` of morelib/util.py: a list of counted records, each holding an
    item, its count and its weight (the count divided by the total of all
    counts, once computed). Items are distinct: `add` adds to the record of
    an item already present instead of appending a second one. Counts and
    weights are exact reals. */
module UtilDataList {
  import opened Wrappers
  import opened PyBuiltins
  import UtilStrings
  import UtilClassify

  /** `_DataItem`: one record. The weight is `None` until the first weight
      recomputation after the record was appended. */
  datatype DataItem<T> = DataItem(item: T, count: real, weight: Option<real>)

  // ---------------------------------------------------------------------
  // Views of a record list
  // ---------------------------------------------------------------------

  /** The records without their weights: the state that the weights are
      computed from. */
  function Basic<T>(rs: seq<DataItem<T>>): seq<(T, real)>
  {
    seq(|rs|, i requires 0 <= i < |rs| => (rs[i].item, rs[i].count))
  }

  function Counts<T>(rs: seq<DataItem<T>>): seq<real>
  {
    seq(|rs|, i requires 0 <= i < |rs| => rs[i].count)
  }

  /** The weights, an absent weight read as 0. */
  function Weights<T>(rs: seq<DataItem<T>>): seq<real>
  {
    seq(|rs|, i requires 0 <= i < |rs| => if rs[i].weight.Some? then rs[i].weight.value else 0.0)
  }

  predicate DistinctItems<T(==)>(rs: seq<DataItem<T>>)
  {
    forall i, j :: 0 <= i < j < |rs| ==> rs[i].item != rs[j].item
  }

  /** The position of the first record of `x`. */
  function FirstMatch<T(==)>(rs: seq<DataItem<T>>, x: T): (r: Option<nat>)
    ensures r.Some? ==> r.value < |rs| && rs[r.value].item == x &&
                        forall j :: 0 <= j < r.value ==> rs[j].item != x
    ensures r.None? ==> forall j :: 0 <= j < |rs| ==> rs[j].item != x
  {
    if rs == [] then None
    else if rs[0].item == x then Some(0)
    else
      match FirstMatch(rs[1..], x)
      case None => None
      case Some(i) => Some(i + 1)
  }

  /** The count of `x`, 0 when it has no record. */
  function CountOf<T(==)>(rs: seq<DataItem<T>>, x: T): real
  {
    match FirstMatch(rs, x)
    case Some(i) => rs[i].count
    case None => 0.0
  }

  /** A negative count is taken as 0. */
  function Clamp(c: real): (r: real)
    ensures r >= 0.0 && (r == c || (c < 0.0 && r == 0.0))
  {
    if c < 0.0 then 0.0 else c
  }

  /** The weight of a count: its share of the total, or 0 when the total is
      0 (the division raises ZeroDivisionError, which is caught). */
  function WeightFor(count: real, total: real): real
  {
    if total == 0.0 then 0.0 else count / total
  }

  // ---------------------------------------------------------------------
  // Sums
  // ---------------------------------------------------------------------

  lemma SumUpdate(s: seq<real>, i: nat, v: real)
    requires i < |s|
    ensures Sum(s[i := v]) == Sum(s) - s[i] + v
  {
    var a, b := s[..i], s[i + 1..];
    SplitAt(s, i);
    SplitAt(s[i := v], i);
    SumAppend(a + [s[i]], b);
    SumSnoc(a, s[i]);
    SumAppend(a + [v], b);
    SumSnoc(a, v);
  }

  lemma SumRemove(s: seq<real>, i: nat)
    requires i < |s|
    ensures Sum(s[..i] + s[i + 1..]) == Sum(s) - s[i]
  {
    var a, b := s[..i], s[i + 1..];
    SplitAt(s, i);
    SumAppend(a + [s[i]], b);
    SumSnoc(a, s[i]);
    SumAppend(a, b);
  }

  // ---------------------------------------------------------------------
  // Operations on the record list
  // ---------------------------------------------------------------------

  /** `add(x, c)` on the records: the clamped count goes to the record of
      `x`, or a new record with no weight is appended at the end. */
  function AddSpec<T(==)>(rs: seq<DataItem<T>>, x: T, c: real): seq<DataItem<T>>
  {
    match FirstMatch(rs, x)
    case Some(i) => rs[i := rs[i].(count := rs[i].count + Clamp(c))]
    case None => rs + [DataItem(x, Clamp(c), None)]
  }

  /** `add` keeps the items distinct. */
  lemma AddDistinct<T>(rs: seq<DataItem<T>>, x: T, c: real)
    requires DistinctItems(rs)
    ensures DistinctItems(AddSpec(rs, x, c))
  {
    if FirstMatch(rs, x).Some? {
      var r := AddSpec(rs, x, c);
      assert forall j :: 0 <= j < |rs| ==> r[j].item == rs[j].item;
    }
  }

  /** `add` of a present item creates no record and touches no other
      record; `add` of a new item appends its record at the end, with the
      clamped count. */
  lemma AddPlacement<T>(rs: seq<DataItem<T>>, x: T, c: real)
    ensures var r := AddSpec(rs, x, c);
            (FirstMatch(rs, x).Some? ==>
              |r| == |rs| && forall j :: 0 <= j < |rs| && j != FirstMatch(rs, x).value ==> r[j] == rs[j]) &&
            (FirstMatch(rs, x).None? ==> r == rs + [DataItem(x, Clamp(c), None)])
  {
  }

  /** `add(x, c)` raises the count of `x`, and the total of the counts, by
      the clamped `c`. */
  lemma AddCounts<T>(rs: seq<DataItem<T>>, x: T, c: real)
    ensures CountOf(AddSpec(rs, x, c), x) == CountOf(rs, x) + Clamp(c)
    ensures Sum(Counts(AddSpec(rs, x, c))) == Sum(Counts(rs)) + Clamp(c)
  {
    if FirstMatch(rs, x).Some? {
      AddPresentCounts(rs, x, c);
    } else {
      AddNewCounts(rs, x, c);
    }
  }

  lemma AddPresentCounts<T>(rs: seq<DataItem<T>>, x: T, c: real)
    requires FirstMatch(rs, x).Some?
    ensures CountOf(AddSpec(rs, x, c), x) == CountOf(rs, x) + Clamp(c)
    ensures Sum(Counts(AddSpec(rs, x, c))) == Sum(Counts(rs)) + Clamp(c)
  {
    var i := FirstMatch(rs, x).value;
    var v := rs[i].count + Clamp(c);
    assert AddSpec(rs, x, c) == rs[i := rs[i].(count := v)];
    CountsUpdate(rs, i, v);
    UpdateKeepsFirstMatch(rs, i, v, x);
  }

  lemma AddNewCounts<T>(rs: seq<DataItem<T>>, x: T, c: real)
    requires FirstMatch(rs, x).None?
    ensures CountOf(AddSpec(rs, x, c), x) == CountOf(rs, x) + Clamp(c)
    ensures Sum(Counts(AddSpec(rs, x, c))) == Sum(Counts(rs)) + Clamp(c)
  {
    var r := AddSpec(rs, x, c);
    assert Counts(r) == Counts(rs) + [Clamp(c)];
    SumAppend(Counts(rs), [Clamp(c)]);
    assert [Clamp(c)][..0] == [];
    assert FirstMatch(r, x) == Some(|rs|);
  }

  /** Two record lists with the same items and counts. */
  lemma BasicSame<T>(a: seq<DataItem<T>>, b: seq<DataItem<T>>)
    requires Basic(a) == Basic(b)
    ensures |a| == |b| && forall j :: 0 <= j < |a| ==> a[j].item == b[j].item && a[j].count == b[j].count
    ensures Counts(a) == Counts(b) && (DistinctItems(a) <==> DistinctItems(b))
  {
    assert |a| == |Basic(a)| == |Basic(b)| == |b|;
    forall j | 0 <= j < |a| ensures a[j].item == b[j].item && a[j].count == b[j].count {
      assert Basic(a)[j] == Basic(b)[j];
    }
  }

  /** `FirstMatch` looks at the items only. */
  lemma {:induction false} FirstMatchSameItems<T>(a: seq<DataItem<T>>, b: seq<DataItem<T>>, x: T)
    requires |a| == |b| && forall i :: 0 <= i < |a| ==> a[i].item == b[i].item
    ensures FirstMatch(a, x) == FirstMatch(b, x)
  {
    if a != [] && a[0].item != x {
      FirstMatchSameItems(a[1..], b[1..], x);
    }
  }

  /** The records after `add` of each `(item, count)` entry in turn: what the
      constructor and `update` do before recomputing weights. */
  function AddAll<T(==)>(rs: seq<DataItem<T>>, entries: seq<(T, real)>): seq<DataItem<T>>
  {
    if entries == [] then rs
    else
      var e := entries[|entries| - 1];
      AddSpec(AddAll(rs, entries[..|entries| - 1]), e.0, e.1)
  }

  /** The clamped counts of the entries. */
  function EntryCounts<T>(entries: seq<(T, real)>): seq<real>
  {
    seq(|entries|, i requires 0 <= i < |entries| => Clamp(entries[i].1))
  }

  /** Adding entries keeps the items distinct. */
  lemma {:induction false} AddAllDistinct<T>(rs: seq<DataItem<T>>, entries: seq<(T, real)>)
    requires DistinctItems(rs)
    ensures DistinctItems(AddAll(rs, entries))
    decreases |entries|
  {
    if entries != [] {
      var e := entries[|entries| - 1];
      AddAllDistinct(rs, entries[..|entries| - 1]);
      AddDistinct(AddAll(rs, entries[..|entries| - 1]), e.0, e.1);
    }
  }

  /** After adding entries, every entry's element has a record. */
  lemma {:induction false} AddAllHas<T>(rs: seq<DataItem<T>>, entries: seq<(T, real)>)
    ensures forall i :: 0 <= i < |entries| ==> FirstMatch(AddAll(rs, entries), entries[i].0).Some?
    decreases |entries|
  {
    if entries != [] {
      var init := entries[..|entries| - 1];
      var e := entries[|entries| - 1];
      var before := AddAll(rs, init);
      AddAllHas(rs, init);
      var r := AddSpec(before, e.0, e.1);
      forall i | 0 <= i < |entries| ensures FirstMatch(r, entries[i].0).Some? {
        if i < |entries| - 1 {
          assert entries[i] == init[i];
          AddKeepsItems(before, e.0, e.1, entries[i].0);
        } else if FirstMatch(before, e.0).Some? {
          AddKeepsItems(before, e.0, e.1, e.0);
        } else {
          AddPlacement(before, e.0, e.1);
          assert r[|before|].item == e.0;
        }
      }
    }
  }

  /** Adding entries raises the total of the counts by the entries'
      clamped counts. */
  lemma {:induction false} AddAllSum<T>(rs: seq<DataItem<T>>, entries: seq<(T, real)>)
    ensures Sum(Counts(AddAll(rs, entries))) == Sum(Counts(rs)) + Sum(EntryCounts(entries))
    decreases |entries|
  {
    if entries != [] {
      var init := entries[..|entries| - 1];
      var e := entries[|entries| - 1];
      AddAllSum(rs, init);
      AddCounts(AddAll(rs, init), e.0, e.1);
      assert EntryCounts(entries) == EntryCounts(init) + [Clamp(e.1)];
      SumAppend(EntryCounts(init), [Clamp(e.1)]);
      assert [Clamp(e.1)][..0] == [];
    }
  }

  /** `add` removes no item. */
  lemma AddKeepsItems<T>(rs: seq<DataItem<T>>, x: T, c: real, y: T)
    requires FirstMatch(rs, y).Some?
    ensures FirstMatch(AddSpec(rs, x, c), y).Some?
  {
    var j := FirstMatch(rs, y).value;
    assert AddSpec(rs, x, c)[j].item == y;
  }

  /** `subtract(x, cnt)` on the records: with no `cnt` the first record of
      `x` is deleted; with a `cnt` every record of `x` has its count lowered
      by `cnt`, with no clamping. A missing `x` changes nothing. */
  function SubtractSpec<T(==)>(rs: seq<DataItem<T>>, x: T, cnt: Option<real>): seq<DataItem<T>>
  {
    if cnt.None? then
      match FirstMatch(rs, x)
      case Some(i) => rs[..i] + rs[i + 1..]
      case None => rs
    else
      seq(|rs|, j requires 0 <= j < |rs| =>
        if rs[j].item == x then rs[j].(count := rs[j].count - cnt.value) else rs[j])
  }

  /** `subtract` of an item without a record changes nothing. */
  lemma SubtractMissing<T>(rs: seq<DataItem<T>>, x: T, cnt: Option<real>)
    requires FirstMatch(rs, x).None?
    ensures SubtractSpec(rs, x, cnt) == rs
  {
    if cnt.Some? {
      assert forall j :: 0 <= j < |rs| ==> rs[j].item != x;
    }
  }

  /** `subtract(x)` deletes exactly the record of `x`: the others stay in
      order, `x` is gone, and its count leaves the total. */
  lemma SubtractDeletes<T>(rs: seq<DataItem<T>>, x: T)
    requires DistinctItems(rs) && FirstMatch(rs, x).Some?
    ensures var i := FirstMatch(rs, x).value;
            var r := SubtractSpec(rs, x, None);
            r == rs[..i] + rs[i + 1..] && DistinctItems(r) && FirstMatch(r, x).None? &&
            Sum(Counts(r)) == Sum(Counts(rs)) - rs[i].count
  {
    var i := FirstMatch(rs, x).value;
    RemoveRecord(rs, i);
    SumRemove(Counts(rs), i);
  }

  /** Removing one record of distinct records leaves distinct records none
      of which holds the removed item, with that record's count gone. */
  lemma RemoveRecord<T>(rs: seq<DataItem<T>>, i: nat)
    requires DistinctItems(rs) && i < |rs|
    ensures var r := rs[..i] + rs[i + 1..];
            DistinctItems(r) && (forall j :: 0 <= j < |r| ==> r[j].item != rs[i].item) &&
            Counts(r) == Counts(rs)[..i] + Counts(rs)[i + 1..]
  {
    var r := rs[..i] + rs[i + 1..];
    assert forall j :: 0 <= j < |r| ==> r[j] == rs[if j < i then j else j + 1];
  }

  /** `subtract(x, cnt)` lowers the count of `x` by `cnt`, possibly below
      zero, and changes no other record. */
  lemma SubtractLowers<T>(rs: seq<DataItem<T>>, x: T, c: real)
    requires DistinctItems(rs) && FirstMatch(rs, x).Some?
    ensures var i := FirstMatch(rs, x).value;
            SubtractSpec(rs, x, Some(c)) == rs[i := rs[i].(count := rs[i].count - c)]
  {
  }

  /** `subtract(x, cnt)` lowers the count of `x` by `cnt`. */
  lemma SubtractLowersCount<T>(rs: seq<DataItem<T>>, x: T, c: real)
    requires FirstMatch(rs, x).Some?
    ensures CountOf(SubtractSpec(rs, x, Some(c)), x) == CountOf(rs, x) - c
  {
    var r := SubtractSpec(rs, x, Some(c));
    FirstMatchSameItems(rs, r, x);
  }

  /** `subtract(x, cnt)` lowers the total of the counts by `cnt`. */
  lemma SubtractLowersTotal<T>(rs: seq<DataItem<T>>, x: T, c: real)
    requires DistinctItems(rs) && FirstMatch(rs, x).Some?
    ensures Sum(Counts(SubtractSpec(rs, x, Some(c)))) == Sum(Counts(rs)) - c
  {
    var i := FirstMatch(rs, x).value;
    SubtractLowers(rs, x, c);
    CountsUpdate(rs, i, rs[i].count - c);
  }

  /** Changing a count leaves where each item is first found. */
  lemma UpdateKeepsFirstMatch<T>(rs: seq<DataItem<T>>, i: nat, v: real, x: T)
    requires i < |rs|
    ensures FirstMatch(rs[i := rs[i].(count := v)], x) == FirstMatch(rs, x)
  {
    FirstMatchSameItems(rs, rs[i := rs[i].(count := v)], x);
  }

  /** Setting one record's count moves the total by the difference. */
  lemma CountsUpdate<T>(rs: seq<DataItem<T>>, i: nat, v: real)
    requires i < |rs|
    ensures Sum(Counts(rs[i := rs[i].(count := v)])) == Sum(Counts(rs)) - rs[i].count + v
  {
    assert Counts(rs[i := rs[i].(count := v)]) == Counts(rs)[i := v];
    SumUpdate(Counts(rs), i, v);
  }

  /** `get(key)`: the count of `key`'s record; failing that, when `key` is
      the integer `n`, the count of the record at position `n` (negative
      positions count from the end), or `None` when there is none. */
  function GetSpec<T(==)>(rs: seq<DataItem<T>>, key: T, keyInt: Option<int>): Option<real>
  {
    match FirstMatch(rs, key)
    case Some(i) => Some(rs[i].count)
    case None =>
      if keyInt.None? then None
      else
        match ItemIndex(keyInt.value, |rs|)
        case Some(p) => Some(rs[p].count)
        case None => None
  }

  /** `set(key, value)` on the records: the clamped value becomes the count
      of `key`'s record. When `key` has no record but is an integer, the
      value goes to the last record of the list (the loop variable left over
      from the search), and raises UnboundLocalError on an empty list; a
      missing key of another type changes nothing. */
  function SetSpec<T(==)>(rs: seq<DataItem<T>>, key: T, keyInt: Option<int>, value: real)
    : Result<seq<DataItem<T>>, PyError>
  {
    var v := Clamp(value);
    match FirstMatch(rs, key)
    case Some(i) => Success(rs[i := rs[i].(count := v)])
    case None =>
      if keyInt.None? then Success(rs)
      else if rs == [] then Failure(UnboundLocalError)
      else Success(rs[|rs| - 1 := rs[|rs| - 1].(count := v)])
  }

  /** Reading back a count: after `add(x, c)`, `get(x)` is the former count
      plus the clamped `c`. */
  lemma GetAfterAdd<T>(rs: seq<DataItem<T>>, x: T, keyInt: Option<int>, c: real)
    ensures GetSpec(AddSpec(rs, x, c), x, keyInt) == Some(CountOf(rs, x) + Clamp(c))
  {
    AddCounts(rs, x, c);
    AddPlacement(rs, x, c);
    if FirstMatch(rs, x).None? {
      assert AddSpec(rs, x, c)[|rs|].item == x;
    }
  }

  /** After `set(x, v)` on a present `x`, `get(x)` is the clamped `v`. */
  lemma GetAfterSet<T>(rs: seq<DataItem<T>>, x: T, keyInt: Option<int>, v: real)
    requires FirstMatch(rs, x).Some?
    ensures SetSpec(rs, x, keyInt, v).Success?
    ensures GetSpec(SetSpec(rs, x, keyInt, v).value, x, keyInt) == Some(Clamp(v))
  {
    var i := FirstMatch(rs, x).value;
    FirstMatchSameItems(rs, rs[i := rs[i].(count := Clamp(v))], x);
  }

  /** With an integer key that names no record, `set` writes the last
      record, whatever position the integer gives. */
  lemma SetIntegerWritesLast<T>(rs: seq<DataItem<T>>, key: T, n: int, value: real)
    requires rs != [] && FirstMatch(rs, key).None?
    ensures SetSpec(rs, key, Some(n), value) == Success(rs[|rs| - 1 := rs[|rs| - 1].(count := Clamp(value))])
  {
  }

  // ---------------------------------------------------------------------
  // elements
  // ---------------------------------------------------------------------

  /** `int(count)` repetitions; a negative count truncates to a non-positive
      number, which repeats nothing. */
  function Reps(count: real): nat
  {
    if count < 0.0 then 0 else count.Floor
  }

  function Repeat<T>(x: T, n: nat): (r: seq<T>)
    ensures |r| == n && forall k :: 0 <= k < n ==> r[k] == x
  {
    if n == 0 then [] else Repeat(x, n - 1) + [x]
  }

  /** `elements()`: each record's item repeated `int(count)` times, record
      after record. */
  function ElementsOf<T>(rs: seq<DataItem<T>>): seq<T>
  {
    if rs == [] then [] else Repeat(rs[0].item, Reps(rs[0].count)) + ElementsOf(rs[1..])
  }

  /** Over distinct items, `elements()` holds each item exactly `int(count)`
      times, and nothing else. */
  lemma {:induction false} ElementsCount<T>(rs: seq<DataItem<T>>)
    requires DistinctItems(rs)
    ensures forall i :: 0 <= i < |rs| ==> multiset(ElementsOf(rs))[rs[i].item] == Reps(rs[i].count)
    ensures forall x :: x in ElementsOf(rs) ==> FirstMatch(rs, x).Some?
  {
    if rs != [] {
      var tail := rs[1..];
      assert DistinctItems(tail) by {
        forall a, b | 0 <= a < b < |tail| ensures tail[a].item != tail[b].item {
          assert tail[a] == rs[a + 1] && tail[b] == rs[b + 1];
        }
      }
      ElementsCount(tail);
      var block := Repeat(rs[0].item, Reps(rs[0].count));
      assert multiset(block)[rs[0].item] == Reps(rs[0].count) by {
        RepeatMultiset(rs[0].item, Reps(rs[0].count));
      }
      forall i | 0 <= i < |rs| ensures multiset(ElementsOf(rs))[rs[i].item] == Reps(rs[i].count) {
        RepeatMultiset(rs[0].item, Reps(rs[0].count));
        if i == 0 {
          assert FirstMatch(tail, rs[0].item).None? by {
            forall j | 0 <= j < |tail| ensures tail[j].item != rs[0].item {
              assert tail[j] == rs[j + 1];
            }
          }
          ElementsAbsent(tail, rs[0].item);
        } else {
          assert tail[i - 1] == rs[i];
        }
      }
      forall x | x in ElementsOf(rs) ensures FirstMatch(rs, x).Some? {
        if x !in block {
          assert x in ElementsOf(tail);
          var j := FirstMatch(tail, x).value;
          assert rs[j + 1].item == x;
        } else {
          assert x == rs[0].item;
        }
      }
    }
  }

  lemma RepeatMultiset<T>(x: T, n: nat)
    ensures multiset(Repeat(x, n)) == multiset{}[x := n]
  {
    if n > 0 {
      RepeatMultiset(x, n - 1);
    }
  }

  lemma {:induction false} ElementsAbsent<T>(rs: seq<DataItem<T>>, x: T)
    requires FirstMatch(rs, x).None?
    ensures multiset(ElementsOf(rs))[x] == 0
  {
    if rs != [] {
      RepeatMultiset(rs[0].item, Reps(rs[0].count));
      assert FirstMatch(rs[1..], x).None? by {
        forall j | 0 <= j < |rs[1..]| ensures rs[1..][j].item != x {
          assert rs[1..][j] == rs[j + 1];
        }
      }
      ElementsAbsent(rs[1..], x);
    }
  }

  // ---------------------------------------------------------------------
  // _group_items
  // ---------------------------------------------------------------------

  /** One attribute of a record, as `_group_items` hands it out. */
  datatype Field<T> = Record(d: DataItem<T>) | Item(x: T) | Count(c: real) | Weight(w: Option<real>)

  /** A record's attributes: the attribute alone when there is one, a tuple
      otherwise. */
  datatype Grouped<T> = Single(f: Field<T>) | Tuple(fs: seq<Field<T>>)

  /** The placeholders `all`, `basic` and `stats`; any other `returns` is
      taken as it is. */
  function Expand(shape: string): string
  {
    if shape == "all" then "item|count|weight"
    else if shape == "basic" then "item|count"
    else if shape == "stats" then "item|weight"
    else shape
  }

  /** `cleansplit(returns, '|')` after expanding a placeholder: the pieces
      of the split, each stripped. */
  function Tokens(shape: string): seq<string>
  {
    UtilStrings.StripEach(Split(Expand(shape), "|"))
  }

  /** `Tokens` is what `cleansplit` returns. */
  lemma TokensCleanSplit(shape: string)
    ensures UtilStrings.CleanSplit(Expand(shape), "|") == Success(Tokens(shape))
  {
  }

  /** The attribute a token names; an unknown token names none. */
  function FieldOf<T>(d: DataItem<T>, token: string): Option<Field<T>>
  {
    if token == "dataitem" then Some(Record(d))
    else if token == "item" then Some(Item(d.item))
    else if token == "count" then Some(Count(d.count))
    else if token == "weight" then Some(Weight(d.weight))
    else None
  }

  predicate KnownToken(token: string)
  {
    token in {"dataitem", "item", "count", "weight"}
  }

  /** The attributes the tokens name, in token order. */
  function Fields<T>(d: DataItem<T>, tokens: seq<string>): seq<Field<T>>
  {
    if tokens == [] then []
    else
      var f := FieldOf(d, tokens[|tokens| - 1]);
      Fields(d, tokens[..|tokens| - 1]) + (if f.Some? then [f.value] else [])
  }

  function Project<T>(d: DataItem<T>, tokens: seq<string>): Grouped<T>
  {
    var fs := Fields(d, tokens);
    if |fs| == 1 then Single(fs[0]) else Tuple(fs)
  }

  /** `_group_items(records, returns)` as a value. */
  function GroupSpec<T>(rs: seq<DataItem<T>>, shape: string): seq<Grouped<T>>
  {
    ProjectAll(rs, Tokens(shape))
  }

  /** Every record projected onto the tokens, in record order. */
  function ProjectAll<T>(rs: seq<DataItem<T>>, tokens: seq<string>): seq<Grouped<T>>
  {
    seq(|rs|, k requires 0 <= k < |rs| => Project(rs[k], tokens))
  }

  /** With only known tokens, a record gives one attribute per token, in
      token order, and unknown tokens are skipped. */
  lemma {:induction false} FieldsPerToken<T>(d: DataItem<T>, tokens: seq<string>)
    ensures |Fields(d, tokens)| <= |tokens|
    ensures (forall k :: 0 <= k < |tokens| ==> KnownToken(tokens[k])) ==>
      |Fields(d, tokens)| == |tokens| &&
      forall k :: 0 <= k < |tokens| ==> Fields(d, tokens)[k] == FieldOf(d, tokens[k]).value
    ensures (forall k :: 0 <= k < |tokens| ==> !KnownToken(tokens[k])) ==> Fields(d, tokens) == []
  {
    if tokens != [] {
      FieldsPerToken(d, tokens[..|tokens| - 1]);
    }
  }

  /** The inner loop of `_group_items`: the attributes of one record that
      the tokens name. */
  method RecordFields<T>(d: DataItem<T>, tokens: seq<string>) returns (retobj: seq<Field<T>>)
    ensures retobj == Fields(d, tokens)
  {
    retobj := [];
    var j := 0;
    while j < |tokens|
      invariant 0 <= j <= |tokens|
      invariant retobj == Fields(d, tokens[..j])
    {
      assert tokens[..j + 1][..j] == tokens[..j];
      var f := FieldOf(d, tokens[j]);
      if f.Some? {
        retobj := retobj + [f.value];
      }
      j := j + 1;
    }
    assert tokens[..|tokens|] == tokens;
  }

  /** `_group_items(records, returns)`: one entry per record, in order. */
  method GroupItems<T>(rs: seq<DataItem<T>>, shape: string) returns (ret: seq<Grouped<T>>)
    ensures ret == GroupSpec(rs, shape)
  {
    ret := ProjectRecords(rs, Tokens(shape));
  }

  /** The outer loop of `_group_items`: each record's attributes, a single
      one unwrapped. */
  method ProjectRecords<T>(rs: seq<DataItem<T>>, tokens: seq<string>) returns (ret: seq<Grouped<T>>)
    ensures ret == ProjectAll(rs, tokens)
  {
    ret := [];
    var i := 0;
    while i < |rs|
      invariant 0 <= i <= |rs|
      invariant |ret| == i && forall k :: 0 <= k < i ==> ret[k] == Project(rs[k], tokens)
    {
      var retobj := RecordFields(rs[i], tokens);
      if |retobj| == 1 {
        ret := ret + [Single(retobj[0])];
      } else {
        ret := ret + [Tuple(retobj)];
      }
      i := i + 1;
    }
  }

  /** The loop of `rank`: `_group_items` applied to each group, in order. */
  method GroupEach<T>(groups: seq<seq<DataItem<T>>>, shape: string) returns (retlist: seq<seq<Grouped<T>>>)
    ensures |retlist| == |groups|
    ensures forall j :: 0 <= j < |groups| ==> retlist[j] == GroupSpec(groups[j], shape)
  {
    retlist := [];
    var i := 0;
    while i < |groups|
      invariant 0 <= i <= |groups|
      invariant |retlist| == i && forall j :: 0 <= j < i ==> retlist[j] == GroupSpec(groups[j], shape)
    {
      var fixed := GroupItems(groups[i], shape);
      retlist := retlist + [fixed];
      i := i + 1;
    }
  }

  // ---------------------------------------------------------------------
  // rank, top, bottom, sort
  // ---------------------------------------------------------------------

  /** `key or (lambda x: x.count)`. */
  function KeyOrCount<T>(key: Option<DataItem<T> -> real>): DataItem<T> -> real
  {
    if key.Some? then key.value else (d: DataItem<T>) => d.count
  }

  /** `key or (lambda x: x.count)` for a list of keys: an empty list is
      falsy too. */
  function KeysOrCount<T>(keys: seq<DataItem<T> -> real>): (r: seq<DataItem<T> -> real>)
    ensures r != []
  {
    if keys != [] then keys else [(d: DataItem<T>) => d.count]
  }

  /** The groups `ranked` makes of the records. */
  function RankGroups<T>(rs: seq<DataItem<T>>, key: DataItem<T> -> real, reverse: bool): seq<seq<DataItem<T>>>
    requires rs != []
  {
    StableSortSorts(rs, key, reverse);
    UtilClassify.Runs(StableSort(rs, key, reverse), key)
  }

  /** The first group holds the records with the least key (the greatest
      when reversed), the last group those with the greatest (the least),
      and every record of a group has the group's key. */
  lemma RankEnds<T>(rs: seq<DataItem<T>>, key: DataItem<T> -> real, reverse: bool)
    requires rs != []
    ensures var g := RankGroups(rs, key, reverse);
            (forall d :: d in rs ==> !Before(d, g[0][0], key, reverse)) &&
            (forall d :: d in rs ==> !Before(g[|g| - 1][0], d, key, reverse)) &&
            (forall k :: 0 <= k < |g[0]| ==> key(g[0][k]) == key(g[0][0])) &&
            var last := g[|g| - 1];
            forall k :: 0 <= k < |last| ==> key(last[k]) == key(last[0])
  {
    var sl := StableSort(rs, key, reverse);
    StableSortSorts(rs, key, reverse);
    var g := RankGroups(rs, key, reverse);
    UtilClassify.RunsOfSorted(sl, key, reverse);
    UtilClassify.RunsFlatten(sl, key);
    FlattenEnds(g);
    assert g[0][0] == sl[0];
    forall d | d in rs ensures !Before(d, g[0][0], key, reverse) && !Before(g[|g| - 1][0], d, key, reverse) {
      assert d in multiset(sl);
      var k :| 0 <= k < |sl| && sl[k] == d;
      assert k == 0 || !Before(sl[k], sl[0], key, reverse);
      assert key(sl[|sl| - 1]) == key(g[|g| - 1][0]) by {
        var last := g[|g| - 1];
        assert last[|last| - 1] == sl[|sl| - 1];
      }
      assert k == |sl| - 1 || !Before(sl[|sl| - 1], sl[k], key, reverse);
    }
  }

  /** The first element of the flattened groups opens the first group, and
      the last one closes the last group. */
  lemma FlattenEnds<T>(g: seq<seq<T>>)
    requires g != [] && forall i :: 0 <= i < |g| ==> g[i] != []
    ensures var f := UtilClassify.Flatten(g);
            f != [] && f[0] == g[0][0] && f[|f| - 1] == g[|g| - 1][|g[|g| - 1]| - 1]
    decreases |g|
  {
    if |g| > 1 {
      FlattenEnds(g[..|g| - 1]);
    }
  }

  class DataList<T(==)> {
    var items: seq<DataItem<T>>
    var total: real

    /** No item has two records. */
    ghost predicate Valid()
      reads this
    {
      DistinctItems(items)
    }

    /** The total and the weights agree with the counts, as
        `_weight_update` leaves them. */
    ghost predicate Consistent()
      reads this
    {
      total == Sum(Counts(items)) &&
      forall i :: 0 <= i < |items| ==> items[i].weight == Some(WeightFor(items[i].count, total))
    }

    /** `DataList(...)`: the positional forms of the constructor arguments
        (a list of items or `(item, count)` pairs, a dictionary, several
        items) are a sequence of `(item, count)` entries added in turn, a
        bare item having count 0; then the weights are computed. */
    constructor (entries: seq<(T, real)>)
      ensures Valid() && Consistent()
      ensures Basic(items) == Basic(AddAll([], entries))
    {
      items := [];
      total := 0.0;
      new;
      Update(entries);
    }

    /** `update(...)`: `add` of every entry, then `_weight_update`. */
    method Update(entries: seq<(T, real)>)
      requires Valid()
      modifies this
      ensures Valid() && Consistent()
      ensures Basic(items) == Basic(AddAll(old(items), entries))
    {
      var i := 0;
      while i < |entries|
        invariant 0 <= i <= |entries|
        invariant Valid() && items == AddAll(old(items), entries[..i])
      {
        assert entries[..i + 1][..i] == entries[..i];
        Add(entries[i].0, entries[i].1);
        i := i + 1;
      }
      assert entries[..|entries|] == entries;
      WeightUpdate();
    }

    /** `_weight_update()`: the total becomes the sum of the counts and each
        weight the count's share of it (0 when the total is 0); items and
        counts are untouched. */
    method WeightUpdate()
      modifies this
      ensures Basic(items) == Basic(old(items)) && Consistent()
      ensures old(Valid()) ==> Valid()
    {
      total := Sum(Counts(items));
      ghost var start := items;
      var i := 0;
      while i < |items|
        invariant 0 <= i <= |items| == |start| && total == Sum(Counts(start))
        invariant forall j :: 0 <= j < |items| ==> items[j].item == start[j].item && items[j].count == start[j].count
        invariant forall j :: 0 <= j < i ==> items[j].weight == Some(WeightFor(items[j].count, total))
      {
        items := items[i := items[i].(weight := Some(WeightFor(items[i].count, total)))];
        i := i + 1;
      }
      assert Counts(items) == Counts(start);
      assert Basic(items) == Basic(start);
      BasicSame(items, start);
    }

    /** Once the weights are computed from a non-zero total, they add up
        to 1. */
    lemma WeightsSumToOne()
      requires Consistent() && total != 0.0
      ensures Sum(Weights(items)) == 1.0
    {
      var c, w := Counts(items), Weights(items);
      forall i | 0 <= i < |c|
        ensures w[i] == c[i] / total
      {
        assert items[i].weight == Some(WeightFor(items[i].count, total));
      }
      SumDivided(c, w, total);
      assert total / total == 1.0;
    }

    /** `add(x, c)`: see `AddSpec`; the total and the weights are not
        recomputed. */
    method Add(x: T, c: real)
      requires Valid()
      modifies this
      ensures Valid() && items == AddSpec(old(items), x, c) && total == old(total)
    {
      AddDistinct(items, x, c);
      var cnt := Clamp(c);
      var i := 0;
      while i < |items|
        invariant 0 <= i <= |items| && items == old(items)
        invariant forall j :: 0 <= j < i ==> items[j].item != x
      {
        if items[i].item == x {
          items := items[i := items[i].(count := items[i].count + cnt)];
          return;
        }
        i := i + 1;
      }
      items := items + [DataItem(x, cnt, None)];
    }

    /** `subtract(x, cnt)`: see `SubtractSpec`; then the weights are
        recomputed. */
    method Subtract(x: T, cnt: Option<real>)
      requires Valid()
      modifies this
      ensures Valid() && Consistent()
      ensures Basic(items) == Basic(SubtractSpec(old(items), x, cnt))
    {
      var n := |items|;
      var i := 0;
      if cnt.None? {
        while i < n
          invariant 0 <= i <= n == |items| && items == old(items)
          invariant forall j :: 0 <= j < i ==> items[j].item != x
        {
          if items[i].item == x {
            SubtractDeletes(items, x);
            items := items[..i] + items[i + 1..];
            break;
          }
          i := i + 1;
        }
        if items == old(items) {
          SubtractMissing(items, x, cnt);
        }
      } else {
        while i < n
          invariant 0 <= i <= n == |items| == |old(items)|
          invariant forall j :: 0 <= j < n ==>
            items[j] == if j < i && old(items)[j].item == x then old(items)[j].(count := old(items)[j].count - cnt.value)
                        else old(items)[j]
        {
          if items[i].item == x {
            items := items[i := items[i].(count := items[i].count - cnt.value)];
          }
          i := i + 1;
        }
        assert items == SubtractSpec(old(items), x, cnt);
        assert forall j :: 0 <= j < n ==> items[j].item == old(items)[j].item;
      }
      WeightUpdate();
    }

    /** `clear()`: every count becomes 0, every record stays, and so every
        weight and the total are 0. */
    method Clear()
      requires Valid()
      modifies this
      ensures Valid() && Consistent() && total == 0.0
      ensures |items| == |old(items)|
      ensures forall i :: 0 <= i < |items| ==> items[i] == DataItem(old(items)[i].item, 0.0, Some(0.0))
    {
      var i := 0;
      while i < |items|
        invariant 0 <= i <= |items| == |old(items)|
        invariant forall j :: 0 <= j < |items| ==> items[j].item == old(items)[j].item
        invariant forall j :: 0 <= j < i ==> items[j].count == 0.0
      {
        items := items[i := items[i].(count := 0.0)];
        i := i + 1;
      }
      ghost var zeros := items;
      WeightUpdate();
      BasicSame(items, zeros);
      SumZeros(Counts(items));
    }

    /** `get(key)`, with `keyInt` the integer that `key` is, if it is one:
        see `GetSpec`. When the key is neither found nor an integer, the
        weights are recomputed on the way out. */
    method Get(key: T, keyInt: Option<int>) returns (r: Option<real>)
      modifies this
      ensures r == GetSpec(old(items), key, keyInt)
      ensures FirstMatch(old(items), key).Some? || keyInt.Some? ==> items == old(items) && total == old(total)
      ensures FirstMatch(old(items), key).None? && keyInt.None? ==>
        Basic(items) == Basic(old(items)) && Consistent()
      ensures old(Valid()) ==> Valid()
    {
      var i := 0;
      while i < |items|
        invariant 0 <= i <= |items|
        invariant forall j :: 0 <= j < i ==> items[j].item != key
      {
        if items[i].item == key {
          return Some(items[i].count);
        }
        i := i + 1;
      }
      if keyInt.Some? {
        var p := ItemIndex(keyInt.value, |items|);
        if p.Some? {
          return Some(items[p.value].count);
        }
        return None;
      }
      WeightUpdate();
      r := None;
    }

    /** `set(key, value)`: see `SetSpec`; the weights are recomputed unless
        it raises. */
    method Set(key: T, keyInt: Option<int>, value: real) returns (r: Outcome<PyError>)
      requires Valid()
      modifies this
      ensures r.Fail? <==> SetSpec(old(items), key, keyInt, value).Failure?
      ensures r.Fail? ==> r.error == UnboundLocalError && items == old(items) && total == old(total)
      ensures r.Pass? ==> Valid() && Consistent()
      ensures r.Pass? ==> Basic(items) == Basic(SetSpec(old(items), key, keyInt, value).value)
    {
      var v := Clamp(value);
      var i := 0;
      var found := false;
      while i < |items|
        invariant 0 <= i <= |items| && items == old(items)
        invariant forall j :: 0 <= j < i ==> items[j].item != key
      {
        if items[i].item == key {
          found := true;
          break;
        }
        i := i + 1;
      }
      if found {
        items := items[i := items[i].(count := v)];
      } else if keyInt.Some? {
        if |items| == 0 {
          return Fail(UnboundLocalError);
        }
        items := items[|items| - 1 := items[|items| - 1].(count := v)];
      }
      ghost var written := items;
      assert forall j :: 0 <= j < |items| ==> items[j].item == old(items)[j].item;
      WeightUpdate();
      assert DistinctItems(written);
      r := Pass;
    }

    /** `elements()`. */
    function Elements(): (r: seq<T>)
      requires Valid()
      reads this
      ensures forall i :: 0 <= i < |items| ==> multiset(r)[items[i].item] == Reps(items[i].count)
      ensures forall x :: x in r ==> FirstMatch(items, x).Some?
    {
      ElementsCount(items);
      ElementsOf(items)
    }

    /** `rank(key, reverse, returns)`: the records ranked by `key` (by
        count when none is given), each group passed through
        `_group_items`. An empty list raises IndexError in `ranked`. */
    method Rank(key: Option<DataItem<T> -> real>, reverse: bool, shape: string)
      returns (r: Result<seq<seq<Grouped<T>>>, PyError>)
      ensures r.Failure? <==> items == []
      ensures r.Failure? ==> r.error == IndexError
      ensures r.Success? ==>
        items != [] &&
        var g := RankGroups(items, KeyOrCount(key), reverse);
        |r.value| == |g| && forall i :: 0 <= i < |g| ==> r.value[i] == GroupSpec(g[i], shape)
    {
      var k := KeyOrCount(key);
      var rlist := UtilClassify.Ranked(items, k, k, reverse);
      if rlist.Failure? {
        return Failure(rlist.error);
      }
      var retlist := GroupEach(rlist.value, shape);
      r := Success(retlist);
    }

    /** `top(...)`: the first group of `rank(...)`. */
    method Top(key: Option<DataItem<T> -> real>, reverse: bool, shape: string)
      returns (r: Result<seq<Grouped<T>>, PyError>)
      ensures r.Failure? <==> items == []
      ensures r.Failure? ==> r.error == IndexError
      ensures r.Success? ==>
        items != [] && r.value == GroupSpec(RankGroups(items, KeyOrCount(key), reverse)[0], shape)
    {
      var ranks := Rank(key, reverse, shape);
      if ranks.Failure? {
        return Failure(ranks.error);
      }
      r := Success(ranks.value[0]);
    }

    /** `bottom(...)`: the last group of `rank(...)`. */
    method Bottom(key: Option<DataItem<T> -> real>, reverse: bool, shape: string)
      returns (r: Result<seq<Grouped<T>>, PyError>)
      ensures r.Failure? <==> items == []
      ensures r.Failure? ==> r.error == IndexError
      ensures r.Success? ==>
        items != [] &&
        var g := RankGroups(items, KeyOrCount(key), reverse);
        r.value == GroupSpec(g[|g| - 1], shape)
    {
      var ranks := Rank(key, reverse, shape);
      if ranks.Failure? {
        return Failure(ranks.error);
      }
      ghost var g := RankGroups(items, KeyOrCount(key), reverse);
      assert g != [] && |ranks.value| == |g|;
      var last := ranks.value[|ranks.value| - 1];
      assert last == GroupSpec(g[|g| - 1], shape);
      r := Success(last);
    }

    /** `sort(keys, reverse, returns)`: the records multisorted by the keys
        (by count when none are given), passed through `_group_items`. An
        empty list raises IndexError in `ranked`. */
    method Sort(keys: seq<DataItem<T> -> real>, reverse: bool, shape: string)
      returns (r: Result<seq<Grouped<T>>, PyError>)
      ensures r.Failure? <==> items == []
      ensures r.Failure? ==> r.error == IndexError
      ensures r.Success? ==> r.value == GroupSpec(UtilClassify.MultiSort(items, KeysOrCount(keys), reverse), shape)
    {
      var slist := UtilClassify.MultiSorted(items, KeysOrCount(keys), reverse);
      if slist.Failure? {
        return Failure(slist.error);
      }
      var grouped := GroupItems(slist.value, shape);
      r := Success(grouped);
    }
  }

  lemma {:induction false} SumZeros(s: seq<real>)
    requires forall i :: 0 <= i < |s| ==> s[i] == 0.0
    ensures Sum(s) == 0.0
  {
    if s != [] {
      SumZeros(s[..|s| - 1]);
    }
  }
}
