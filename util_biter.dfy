/** `Biter` of morelib/util.py: a bidirectional iterator over a list copied
    at construction. It keeps a position and the element at it; `next` and
    `prev` move one step or raise StopIteration, and `forward`/`backward`
    give the elements from a position to the end or back to the start.
    The generators are modelled as the sequences they yield: the copied
    list never changes, so yielding lazily makes no difference. */
module UtilBiter {
  import opened Wrappers
  import opened PyBuiltins

  /** `has_next()` computed from a stored position: a step forward stays
      below the length. */
  function HasNextAt(pos: int, len: nat): bool
  {
    pos + 1 < len
  }

  /** `has_prev()` computed from a stored position: a step back stays at or
      above zero. */
  function HasPrevAt(pos: int): bool
  {
    pos - 1 >= 0
  }

  /** The start position, counted from the front. */
  function StartIndex(start: int, len: nat): int
  {
    if start < 0 then start + len else start
  }

  /** The list read from its end to its front. */
  function Reversed<T>(s: seq<T>): (r: seq<T>)
    ensures |r| == |s|
    ensures forall k :: 0 <= k < |s| ==> r[k] == s[|s| - 1 - k]
  {
    if s == [] then [] else Reversed(s[1..]) + [s[0]]
  }

  /** Where a slice with step -1 starts: Python counts a negative start from
      the end, and clamps it to -1 (nothing to yield) or to the last index. */
  function BackwardStart(p: int, len: nat): (q: int)
    ensures -1 <= q < len
  {
    if p < 0 then (if p + len < 0 then -1 else p + len)
    else if p >= len then len - 1
    else p
  }

  /** `pos or self._pos`: an absent position and position 0 both mean the
      current one. */
  predicate FromCurrent(start: Option<int>)
  {
    start.None? || start.value == 0
  }

  class Biter<T> {
    /** The copy of the iterable. */
    const items: seq<T>
    var pos: int
    var current: T

    /** The position is an index of the list, and `current` the element at
        it. */
    ghost predicate Valid()
      reads this
    {
      0 <= pos < |items| && current == items[pos]
    }

    /** `Biter(iterable, pos)` for a start that `iterable[pos]` accepts; a
        negative start counts from the end. */
    constructor (iterable: seq<T>, start: int)
      requires ItemIndex(start, |iterable|).Some?
      ensures Valid() && items == iterable
      ensures pos == StartIndex(start, |iterable|) && current == iterable[ItemIndex(start, |iterable|).value]
    {
      items := iterable;
      pos := StartIndex(start, |iterable|);
      current := iterable[ItemIndex(start, |iterable|).value];
    }

    /** Construction from any start: one outside the list raises IndexError
        at `self._iter[self._pos]`. */
    static method Make(iterable: seq<T>, start: int) returns (r: Result<Biter<T>, PyError>)
      ensures r.Failure? <==> ItemIndex(start, |iterable|).None?
      ensures r.Failure? ==> r.error == IndexError
      ensures r.Success? ==> fresh(r.value) && r.value.Valid() && r.value.items == iterable
      ensures r.Success? ==> r.value.current == iterable[ItemIndex(start, |iterable|).value]
      ensures r.Success? ==> r.value.pos == StartIndex(start, |iterable|)
    {
      if ItemIndex(start, |iterable|).None? {
        return Failure(IndexError);
      }
      var b := new Biter(iterable, start);
      r := Success(b);
    }

    /** `len(biter)`: the elements behind the cursor, the current one and
        the elements ahead of it. */
    function Len(): (n: nat)
      reads this
      ensures Valid() ==> n == |Backward(None)| + |Forward(None)| - 1
    {
      |items|
    }

    /** `index()`: the position of `current` in the list, with exactly that
        many elements behind it. */
    function Index(): (i: int)
      reads this
      ensures Valid() ==> 0 <= i < |items| && items[i] == current && |Backward(None)| == i + 1
    {
      pos
    }

    /** `has_next()`: the forward generator from here yields more than the
        current element. */
    function HasNext(): (b: bool)
      reads this
      ensures Valid() ==> (b <==> |Forward(None)| > 1)
    {
      HasNextAt(pos, |items|)
    }

    /** `has_prev()`: the backward generator from here yields more than the
        current element. */
    function HasPrev(): (b: bool)
      reads this
      ensures Valid() ==> (b <==> |Backward(None)| > 1)
    {
      HasPrevAt(pos)
    }

    /** `next()`: one step forward, or StopIteration at the last element
        with nothing changed. */
    method Next() returns (r: Outcome<PyError>)
      requires Valid()
      modifies this
      ensures Valid()
      ensures r.Fail? <==> !old(HasNext())
      ensures r.Fail? ==> r.error == StopIteration && pos == old(pos) && current == old(current)
      ensures r.Pass? ==> pos == old(pos) + 1 && current == items[old(pos) + 1]
    {
      if pos + 1 >= |items| {
        return Fail(StopIteration);
      }
      pos := pos + 1;
      current := items[pos];
      r := Pass;
    }

    /** `prev()`: one step back, or StopIteration at the first element with
        nothing changed. */
    method Prev() returns (r: Outcome<PyError>)
      requires Valid()
      modifies this
      ensures Valid()
      ensures r.Fail? <==> !old(HasPrev())
      ensures r.Fail? ==> r.error == StopIteration && pos == old(pos) && current == old(current)
      ensures r.Pass? ==> pos == old(pos) - 1 && current == items[old(pos) - 1]
    {
      if pos - 1 < 0 {
        return Fail(StopIteration);
      }
      pos := pos - 1;
      current := items[pos];
      r := Pass;
    }

    /** `forward(pos)`: what `self._iter[pos:]` yields, a suffix of the
        list; from the current position it starts with `current`, from a
        given position it starts there, and past either end it is empty or
        the whole list. */
    function Forward(start: Option<int>): (r: seq<T>)
      reads this
      ensures |r| <= |items| && r == items[|items| - |r|..]
      ensures Valid() && FromCurrent(start) ==> r != [] && r[0] == current && |r| == |items| - pos
      ensures start.Some? && start.value != 0 && ItemIndex(start.value, |items|).Some? ==>
                var i := ItemIndex(start.value, |items|).value;
                r != [] && r[0] == items[i] && |r| == |items| - i
      ensures start.Some? && start.value != 0 && ItemIndex(start.value, |items|).None? ==>
                r == if start.value < 0 then items else []
    {
      var p := if FromCurrent(start) then pos else start.value;
      items[SliceBound(p, |items|)..]
    }

    /** `backward(pos)`: what `self._iter[pos::-1]` yields, a prefix of the
        list read backwards; from the current position it starts with
        `current`, from a given position it starts there, and past either
        end it is empty or the whole list reversed. */
    function Backward(start: Option<int>): (r: seq<T>)
      reads this
      ensures |r| <= |items|
      ensures forall k :: 0 <= k < |r| ==> r[k] == items[|r| - 1 - k]
      ensures Valid() && FromCurrent(start) ==> r != [] && r[0] == current && |r| == pos + 1
      ensures start.Some? && start.value != 0 && ItemIndex(start.value, |items|).Some? ==>
                var i := ItemIndex(start.value, |items|).value;
                r != [] && r[0] == items[i] && |r| == i + 1
      ensures start.Some? && start.value != 0 && ItemIndex(start.value, |items|).None? ==>
                |r| == if start.value < 0 then 0 else |items|
    {
      var p := if FromCurrent(start) then pos else start.value;
      Reversed(items[..BackwardStart(p, |items|) + 1])
    }

    /** From any position, the backward generator read backwards, then the
        forward generator without its first element, give the whole list
        back. */
    lemma BackwardThenForward()
      requires Valid()
      ensures Reversed(Backward(None)) + Forward(None)[1..] == items
    {
      var b := Backward(None);
      var f := Forward(None);
      var whole := Reversed(b) + f[1..];
      assert |whole| == |items|;
      forall k | 0 <= k < |items| ensures whole[k] == items[k] {
        if k <= pos {
          assert whole[k] == b[|b| - 1 - k];
        } else {
          assert whole[k] == f[1..][k - |b|];
        }
      }
    }
  }

  /** As written, the constructor stores a negative start as given. Started
      at -1 on a list of two or more, the iterator stands on the last
      element; yet `has_next()` holds, `next()` moves to position 0 (the
      first element), and `has_prev()` fails although elements precede. */
  lemma RawNegativeStart(len: nat)
    requires len >= 2
    ensures ItemIndex(-1, len) == Some(len - 1)
    ensures HasNextAt(-1, len) && ItemIndex(-1 + 1, len) == Some(0)
    ensures !HasPrevAt(-1)
  {
  }
}
