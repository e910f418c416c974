/** The string helpers of morelib/util.py: `cleansplit`, `multisplit` and
    `nsplit`, built on `str.split`, `str.strip` and `str.join`. An empty
    separator makes `str.split` raise ValueError, which these helpers let
    through. */
module UtilStrings {
  import opened Wrappers
  import opened PyBuiltins
  import UtilLists

  // ---------------------------------------------------------------------
  // cleansplit
  // ---------------------------------------------------------------------

  /** Every string of `ps`, stripped. */
  function StripEach(ps: seq<string>): (r: seq<string>)
    ensures |r| == |ps|
    ensures forall i :: 0 <= i < |ps| ==> r[i] == Strip(ps[i])
  {
    if ps == [] then [] else [Strip(ps[0])] + StripEach(ps[1..])
  }

  /** `cleansplit(s, chars)`: the pieces of `s.split(chars)`, each stripped.
      No piece holds the separator, none starts or ends with whitespace, and
      there is one more piece than there are separators cut at. */
  function CleanSplit(s: string, chars: string): (r: Result<seq<string>, PyError>)
    ensures r.Failure? <==> chars == []
    ensures r.Failure? ==> r.error == ValueError
    ensures r.Success? ==> |r.value| == |Split(s, chars)|
    ensures r.Success? ==> forall i :: 0 <= i < |r.value| ==>
      r.value[i] == Strip(Split(s, chars)[i]) && Strip(r.value[i]) == r.value[i] &&
      !Contains(r.value[i], chars)
  {
    if chars == [] then Failure(ValueError)
    else
      var pieces := Split(s, chars);
      var r := StripEach(pieces);
      SplitPiecesFree(s, chars);
      forall i | 0 <= i < |r|
        ensures Strip(r[i]) == r[i] && !Contains(r[i], chars)
      {
        StripIdempotent(pieces[i]);
        StripKeepsFree(pieces[i], chars);
      }
      Success(r)
  }

  /** Stripping cuts an infix out, so it adds no occurrence of `t`. */
  lemma StripKeepsFree(s: string, t: string)
    requires !Contains(s, t)
    ensures !Contains(Strip(s), t)
  {
    var lo, hi :| StrippedAt(s, Strip(s), lo, hi);
    InfixFree(s, t, lo, hi);
  }

  // ---------------------------------------------------------------------
  // multisplit
  // ---------------------------------------------------------------------

  /** The inner loop of `multisplit`: each token stripped and split by
      `sub`, all the pieces in order. */
  function SplitEach(tokens: seq<string>, sub: string): (r: seq<string>)
    requires sub != []
    ensures tokens != [] ==> r != []
    ensures forall p :: p in r ==> !Contains(p, sub)
  {
    if tokens == [] then []
    else
      SplitPiecesFree(Strip(tokens[0]), sub);
      Split(Strip(tokens[0]), sub) + SplitEach(tokens[1..], sub)
  }

  /** Splitting stripped tokens creates no occurrence of a string that none
      of the tokens held. */
  lemma {:induction false} SplitEachKeepsFree(tokens: seq<string>, sub: string, t: string)
    requires sub != []
    requires forall tok :: tok in tokens ==> !Contains(tok, t)
    ensures forall p :: p in SplitEach(tokens, sub) ==> !Contains(p, t)
    decreases |tokens|
  {
    if tokens != [] {
      StripKeepsFree(tokens[0], t);
      SplitKeepsFree(Strip(tokens[0]), sub, t);
      SplitEachKeepsFree(tokens[1..], sub, t);
    }
  }

  /** `multisplit(s, subs)`: `s` cut at every occurrence of every separator.
      The separators are applied from the last to the first, each token
      being stripped before it is split again. The result is never empty,
      and no piece contains any of the separators; an empty separator
      raises ValueError. */
  function MultiSplit(s: string, subs: seq<string>): (r: Result<seq<string>, PyError>)
    ensures r.Failure? <==> exists i :: 0 <= i < |subs| && subs[i] == []
    ensures r.Failure? ==> r.error == ValueError
    ensures r.Success? ==> r.value != []
    ensures r.Success? ==> forall p, t :: p in r.value && t in subs ==> !Contains(p, t)
    decreases |subs|
  {
    if subs == [] then Success([s])
    else
      var inner := MultiSplit(s, subs[1..]);
      if inner.Failure? then
        assert exists i :: 0 <= i < |subs| - 1 && subs[1..][i] == [];
        inner
      else if subs[0] == [] then Failure(ValueError)
      else
        SplitEachFreeOfAll(inner.value, subs);
        assert forall i :: 1 <= i < |subs| ==> subs[i] == subs[1..][i - 1];
        Success(SplitEach(inner.value, subs[0]))
  }

  /** Splitting by the first separator pieces that hold none of the others
      gives pieces that hold none of the separators. */
  lemma SplitEachFreeOfAll(tokens: seq<string>, subs: seq<string>)
    requires subs != [] && subs[0] != []
    requires forall p, t :: p in tokens && t in subs[1..] ==> !Contains(p, t)
    ensures forall p, t :: p in SplitEach(tokens, subs[0]) && t in subs ==> !Contains(p, t)
  {
    var out := SplitEach(tokens, subs[0]);
    forall t | t in subs[1..]
      ensures forall p :: p in out ==> !Contains(p, t)
    {
      SplitEachKeepsFree(tokens, subs[0], t);
    }
    assert forall t :: t in subs ==> t == subs[0] || t in subs[1..];
  }

  /** The inner loop keeps the order: tokens that occur in order in `s`
      give pieces that occur in order in `s`. */
  lemma {:induction false} SplitEachInOrder(tokens: seq<string>, sub: string, s: string)
    requires sub != [] && InOrder(tokens, s)
    ensures InOrder(SplitEach(tokens, sub), s)
    decreases |tokens|, 1
  {
    if tokens != [] {
      var lo :| OccursAt(s, tokens[0], lo) && InOrder(tokens[1..], s[lo + |tokens[0]|..]);
      SplitEachInOrderAt(tokens, sub, s, lo);
    }
  }

  /** The step of `SplitEachInOrder` once the first token is found at
      `lo`. */
  lemma {:induction false} SplitEachInOrderAt(tokens: seq<string>, sub: string, s: string, lo: int)
    requires sub != [] && tokens != []
    requires OccursAt(s, tokens[0], lo) && InOrder(tokens[1..], s[lo + |tokens[0]|..])
    ensures InOrder(SplitEach(tokens, sub), s)
    decreases |tokens|, 0
  {
    var m := |tokens[0]|;
    var pieces := Split(Strip(tokens[0]), sub);
    TokenPiecesInOrder(tokens[0], sub, s, lo);
    SplitEachInOrder(tokens[1..], sub, s[lo + m..]);
    assert SplitEach(tokens, sub) == pieces + SplitEach(tokens[1..], sub);
    InOrderAppend(pieces, SplitEach(tokens[1..], sub), s, lo + m);
  }

  /** The pieces one token gives occur in order in the text up to the end
      of that token. */
  lemma TokenPiecesInOrder(tok: string, sub: string, s: string, lo: int)
    requires sub != [] && OccursAt(s, tok, lo)
    ensures InOrder(Split(Strip(tok), sub), s[..lo + |tok|])
  {
    var pieces := Split(Strip(tok), sub);
    SplitInOrder(Strip(tok), sub);
    StripInOrder(pieces, tok);
    var pre := s[..lo + |tok|];
    assert tok == pre[lo..];
    InOrderSuffix(pieces, pre, lo);
  }

  /** The pieces of `multisplit` are cut out of `s` and come in the order
      they have in `s`; each of them therefore occurs in `s`. */
  lemma {:induction false} MultiSplitInOrder(s: string, subs: seq<string>)
    requires MultiSplit(s, subs).Success?
    ensures InOrder(MultiSplit(s, subs).value, s)
    ensures forall p :: p in MultiSplit(s, subs).value ==> Contains(s, p)
    decreases |subs|
  {
    var r := MultiSplit(s, subs).value;
    if subs == [] {
      assert r == [s];
      assert OccursAt(s, s, 0) && InOrder(r[1..], s[0 + |s|..]);
    } else {
      MultiSplitInOrder(s, subs[1..]);
      SplitEachInOrder(MultiSplit(s, subs[1..]).value, subs[0], s);
    }
    InOrderContains(r, s);
  }

  /** With one separator, `multisplit` is `split` of the stripped string,
      so joining its pieces with the separator gives the stripped string
      back. */
  lemma MultiSplitOne(s: string, t: string)
    requires t != []
    ensures MultiSplit(s, [t]) == Success(Split(Strip(s), t))
    ensures Join(t, MultiSplit(s, [t]).value) == Strip(s)
  {
    assert [t][1..] == [] && [s][1..] == [];
    assert MultiSplit(s, []) == Success([s]);
    assert MultiSplit(s, [t]) == Success(SplitEach([s], t));
    assert SplitEach([s], t) == Split(Strip(s), t) + SplitEach([], t);
    assert Split(Strip(s), t) + [] == Split(Strip(s), t);
    JoinSplit(Strip(s), t);
  }

  // ---------------------------------------------------------------------
  // nsplit
  // ---------------------------------------------------------------------

  /** `nsplit(s, chars, n)`: `s` cut at the (n+1)-th occurrence of `chars`;
      the pieces of `s.split(chars)` are parted by `lcut(pieces, n + 1)` and
      each half is re-joined with `chars` and stripped. */
  function NSplit(s: string, chars: string, n: int): (r: Result<(string, string), PyError>)
    ensures r.Failure? <==> chars == []
    ensures r.Failure? ==> r.error == ValueError
  {
    if chars == [] then Failure(ValueError)
    else
      var halves := UtilLists.LCut(Split(s, chars), n + 1);
      Success((Strip(Join(chars, halves.0)), Strip(Join(chars, halves.1))))
  }

  /** With no more than `n` occurrences to cut at, everything is `before`
      and `after` is empty. */
  lemma NSplitFewOccurrences(s: string, chars: string, n: int)
    requires chars != [] && 0 <= n
    requires |Split(s, chars)| <= n + 1
    ensures NSplit(s, chars, n) == Success((Strip(s), []))
  {
    var pieces := Split(s, chars);
    var halves := UtilLists.LCut(pieces, n + 1);
    assert halves.1 == [] && halves.0 == pieces;
    JoinSplit(s, chars);
    StripEmpty();
  }

  /** With more than `n` occurrences, `before` and `after` are the text
      before and after the (n+1)-th cut, stripped: put back together with
      the separator between them they give `s`. */
  lemma NSplitAtOccurrence(s: string, chars: string, n: int)
    requires chars != [] && 0 <= n
    requires n + 1 < |Split(s, chars)|
    ensures var pieces := Split(s, chars);
            var before := Join(chars, pieces[..n + 1]);
            var after := Join(chars, pieces[n + 1..]);
            before + chars + after == s &&
            NSplit(s, chars, n) == Success((Strip(before), Strip(after)))
  {
    var pieces := Split(s, chars);
    JoinSplit(s, chars);
    JoinAppend(chars, pieces[..n + 1], pieces[n + 1..]);
    assert pieces[..n + 1] + pieces[n + 1..] == pieces;
  }

  /** A negative `n` moves the cut with Python's negative slice bounds:
      `n = -1` leaves `before` empty and `after` holding the whole string. */
  lemma NSplitMinusOne(s: string, chars: string)
    requires chars != []
    ensures NSplit(s, chars, -1) == Success(([], Strip(s)))
  {
    var pieces := Split(s, chars);
    var halves := UtilLists.LCut(pieces, 0);
    assert halves.0 == [] && halves.1 == pieces;
    JoinSplit(s, chars);
    StripEmpty();
  }

  /** Below -1, `n + 1` is a negative slice bound and counts from the end:
      the cut falls at the (-n-1)-th occurrence from the end, and with no
      more occurrences than that, `before` is empty. */
  lemma NSplitFromEnd(s: string, chars: string, n: int)
    requires chars != [] && n < -1
    ensures var pieces := Split(s, chars);
            var k := |pieces| + n + 1;
            (k <= 0 ==> NSplit(s, chars, n) == Success(([], Strip(s)))) &&
            (0 < k ==>
              var before := Join(chars, pieces[..k]);
              var after := Join(chars, pieces[k..]);
              before + chars + after == s &&
              NSplit(s, chars, n) == Success((Strip(before), Strip(after))))
  {
    var pieces := Split(s, chars);
    var k := |pieces| + n + 1;
    JoinSplit(s, chars);
    if k <= 0 {
      var halves := UtilLists.LCut(pieces, n + 1);
      assert halves.0 == [] && halves.1 == pieces;
      StripEmpty();
    } else {
      JoinAppend(chars, pieces[..k], pieces[k..]);
      assert pieces[..k] + pieces[k..] == pieces;
    }
  }
}
