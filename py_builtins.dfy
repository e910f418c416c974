/** The Python built-ins that the library leans on, stated once: list
    indexing and slicing with negative positions, `sum` over numbers,
    `str.split`, `str.strip`, `str.join`, and the stable `sorted`. */
module PyBuiltins {
  import opened Wrappers

  // ---------------------------------------------------------------------
  // Indexing and slicing
  // ---------------------------------------------------------------------

  /** The position that a slice bound `n` denotes in `l[:n]` / `l[n:]` of a
      list of length `len`: negative bounds count from the end, and out of
      range bounds are clamped to the ends. */
  function SliceBound(n: int, len: nat): (k: nat)
    ensures k <= len
    ensures 0 <= n ==> k == if n <= len then n else len
    ensures n < 0 ==> k == if -n <= len then len + n else 0
  {
    if n < 0 then (if -n <= len then len + n else 0)
    else if n <= len then n else len
  }

  /** The element position that `l[i]` reads, or `None` where Python raises
      IndexError. */
  function ItemIndex(i: int, len: nat): (r: Option<nat>)
    ensures r.Some? <==> -(len as int) <= i < len
    ensures r.Some? ==> r.value < len && (r.value == i || r.value == len + i)
  {
    if 0 <= i < len then Some(i)
    else if -(len as int) <= i < 0 then Some(len + i)
    else None
  }

  // ---------------------------------------------------------------------
  // sum
  // ---------------------------------------------------------------------

  /** `sum(s)`: the left-to-right running total, starting from 0. */
  function Sum(s: seq<real>): real
  {
    if s == [] then 0.0 else Sum(s[..|s| - 1]) + s[|s| - 1]
  }

  lemma {:induction false} SumAppend(a: seq<real>, b: seq<real>)
    ensures Sum(a + b) == Sum(a) + Sum(b)
    decreases |b|
  {
    if b == [] {
      assert a + b == a;
    } else {
      assert (a + b)[..|a + b| - 1] == a + b[..|b| - 1];
      SumAppend(a, b[..|b| - 1]);
    }
  }

  /** A non-empty sequence is its front and its last element. */
  lemma FrontLast<T>(s: seq<T>)
    requires s != []
    ensures s == s[..|s| - 1] + [s[|s| - 1]]
  {
  }

  /** A sequence cut around position `i`. */
  lemma SplitAt<T>(s: seq<T>, i: nat)
    requires i < |s|
    ensures s == (s[..i] + [s[i]]) + s[i + 1..]
  {
  }

  lemma SumSnoc(a: seq<real>, v: real)
    ensures Sum(a + [v]) == Sum(a) + v
  {
    assert (a + [v])[..|a|] == a;
  }

  lemma {:induction false} SumFirst(s: seq<real>)
    requires s != []
    ensures Sum(s) == s[0] + Sum(s[1..])
  {
    assert s == [s[0]] + s[1..];
    SumAppend([s[0]], s[1..]);
    assert [s[0]][..0] == [];
  }

  lemma {:induction false} SumNonNegative(s: seq<real>)
    requires forall i :: 0 <= i < |s| ==> s[i] >= 0.0
    ensures Sum(s) >= 0.0
  {
    if s != [] {
      SumNonNegative(s[..|s| - 1]);
    }
  }

  /** A sum of non-negative numbers is zero only when every number is zero. */
  lemma {:induction false} SumZeroAllZero(s: seq<real>, k: nat)
    requires forall i :: 0 <= i < |s| ==> s[i] >= 0.0
    requires Sum(s) == 0.0
    requires k < |s|
    ensures s[k] == 0.0
  {
    SumNonNegative(s[..|s| - 1]);
    if k < |s| - 1 {
      SumZeroAllZero(s[..|s| - 1], k);
    }
  }

  /** Every element of a sum of non-negative numbers is at most the sum. */
  lemma {:induction false} SumBoundsElement(s: seq<real>, k: nat)
    requires forall i :: 0 <= i < |s| ==> s[i] >= 0.0
    requires k < |s|
    ensures s[k] <= Sum(s)
  {
    SumNonNegative(s[..|s| - 1]);
    if k < |s| - 1 {
      SumBoundsElement(s[..|s| - 1], k);
    }
  }

  /** Dividing every number by `t` divides the sum by `t`. */
  lemma {:induction false} SumDivided(s: seq<real>, d: seq<real>, t: real)
    requires t != 0.0 && |d| == |s|
    requires forall i :: 0 <= i < |s| ==> d[i] == s[i] / t
    ensures Sum(d) == Sum(s) / t
    decreases |s|
  {
    if s != [] {
      SumDivided(s[..|s| - 1], d[..|d| - 1], t);
    }
  }

  // ---------------------------------------------------------------------
  // str.strip()
  // ---------------------------------------------------------------------

  /** The characters `str.strip()` removes: the ASCII whitespace and the
      four ASCII separators 0x1C-0x1F (`str.isspace`). */
  predicate IsSpace(c: char)
  {
    9 <= c as int <= 13 || 28 <= c as int <= 32
  }

  /** Length of the longest all-whitespace prefix. */
  function LeadingSpaces(s: string): (n: nat)
    ensures n <= |s|
    ensures forall i :: 0 <= i < n ==> IsSpace(s[i])
    ensures n < |s| ==> !IsSpace(s[n])
  {
    if s == [] || !IsSpace(s[0]) then 0 else 1 + LeadingSpaces(s[1..])
  }

  /** Length of the longest all-whitespace suffix. */
  function TrailingSpaces(s: string): (n: nat)
    ensures n <= |s|
    ensures forall i :: |s| - n <= i < |s| ==> IsSpace(s[i])
    ensures n < |s| ==> !IsSpace(s[|s| - 1 - n])
  {
    if s == [] || !IsSpace(s[|s| - 1]) then 0 else 1 + TrailingSpaces(s[..|s| - 1])
  }

  /** `s.strip()`: `s` without its leading and trailing whitespace. The
      result is the infix `s[lo..hi]`, everything outside it is whitespace,
      and it neither starts nor ends with whitespace. */
  function Strip(s: string): (r: string)
    ensures exists lo, hi :: StrippedAt(s, r, lo, hi)
  {
    var lo := LeadingSpaces(s);
    var hi := |s| - TrailingSpaces(s[lo..]);
    assert StrippedAt(s, s[lo..hi], lo, hi);
    s[lo..hi]
  }

  /** `r` is `s[lo..hi]`, the characters outside `[lo, hi)` are whitespace,
      and `r` has no whitespace at either end. */
  ghost predicate StrippedAt(s: string, r: string, lo: int, hi: int)
  {
    0 <= lo <= hi <= |s| && r == s[lo..hi] &&
    (forall i :: 0 <= i < lo ==> IsSpace(s[i])) &&
    (forall i :: hi <= i < |s| ==> IsSpace(s[i])) &&
    (r != [] ==> !IsSpace(r[0]) && !IsSpace(r[|r| - 1]))
  }

  lemma StripEmpty()
    ensures Strip([]) == []
  {
    var lo, hi :| StrippedAt([], Strip([]), lo, hi);
  }

  lemma StripIdempotent(s: string)
    ensures Strip(Strip(s)) == Strip(s)
  {
    var r := Strip(s);
    var lo, hi :| StrippedAt(s, r, lo, hi);
    var lo', hi' :| StrippedAt(r, Strip(r), lo', hi');
  }

  // ---------------------------------------------------------------------
  // str.split(sep) and sep.join(parts)
  // ---------------------------------------------------------------------

  /** `t` occurs in `s` starting at position `i`. */
  predicate OccursAt(s: string, t: string, i: int)
  {
    0 <= i && i + |t| <= |s| && s[i..i + |t|] == t
  }

  ghost predicate Contains(s: string, t: string)
  {
    exists i :: OccursAt(s, t, i)
  }

  /** `s.split(sep)` for a non-empty separator (Python raises ValueError on
      an empty one; the callers model that). The string is cut at the
      non-overlapping occurrences of `sep` found from the left. */
  function Split(s: string, sep: string): (r: seq<string>)
    requires sep != []
    ensures |r| >= 1
    ensures |r[0]| <= |s| && r[0] == s[..|r[0]|]
    decreases |s|
  {
    if |s| < |sep| then [s]
    else if s[..|sep|] == sep then [[]] + Split(s[|sep|..], sep)
    else
      var rest := Split(s[1..], sep);
      [[s[0]] + rest[0]] + rest[1..]
  }

  /** `sep.join(parts)`. */
  function Join(sep: string, parts: seq<string>): string
  {
    if parts == [] then []
    else if |parts| == 1 then parts[0]
    else parts[0] + sep + Join(sep, parts[1..])
  }

  /** Joining two non-empty runs of parts puts one separator between them. */
  lemma {:induction false} JoinAppend(sep: string, a: seq<string>, b: seq<string>)
    requires a != [] && b != []
    ensures Join(sep, a + b) == Join(sep, a) + sep + Join(sep, b)
    decreases |a|
  {
    if |a| == 1 {
      assert (a + b)[1..] == b;
    } else {
      assert (a + b)[1..] == a[1..] + b;
      JoinAppend(sep, a[1..], b);
    }
  }

  /** Splitting and re-joining with the same separator gives the string back. */
  lemma {:induction false} JoinSplit(s: string, sep: string)
    requires sep != []
    ensures Join(sep, Split(s, sep)) == s
    decreases |s|
  {
    if |s| < |sep| {
      assert Split(s, sep) == [s];
    } else if s[..|sep|] == sep {
      var rest := Split(s[|sep|..], sep);
      JoinSplit(s[|sep|..], sep);
      assert ([[]] + rest)[1..] == rest;
      assert Join(sep, Split(s, sep)) == [] + sep + Join(sep, rest);
      assert s == sep + s[|sep|..];
    } else {
      var rest := Split(s[1..], sep);
      JoinSplit(s[1..], sep);
      JoinExtendFirst(sep, s[0], rest);
      assert Split(s, sep) == [[s[0]] + rest[0]] + rest[1..];
      assert s == [s[0]] + s[1..];
    }
  }

  /** Putting a character in front of the first part puts it in front of
      the joined string. */
  lemma JoinExtendFirst(sep: string, c: char, parts: seq<string>)
    requires parts != []
    ensures Join(sep, [[c] + parts[0]] + parts[1..]) == [c] + Join(sep, parts)
  {
    var r := [[c] + parts[0]] + parts[1..];
    assert r[1..] == parts[1..];
  }

  /** No piece that `split` returns contains the separator. */
  lemma {:induction false} SplitPiecesFree(s: string, sep: string)
    requires sep != []
    ensures forall p :: p in Split(s, sep) ==> !Contains(p, sep)
    decreases |s|
  {
    if |s| < |sep| {
      forall i | OccursAt(s, sep, i) ensures false {
      }
    } else if s[..|sep|] == sep {
      SplitPiecesFree(s[|sep|..], sep);
      forall i | OccursAt([], sep, i) ensures false {
      }
    } else {
      var rest := Split(s[1..], sep);
      SplitPiecesFree(s[1..], sep);
      var first := [s[0]] + rest[0];
      assert first == s[..1 + |rest[0]|];
      assert rest[0] in rest;
      forall i | 0 <= i && i + |sep| <= |first|
        ensures !OccursAt(first, sep, i)
      {
        if i == 0 {
          assert first[..|sep|] == s[..|sep|];
        } else {
          assert first[i..i + |sep|] == rest[0][i - 1..i - 1 + |sep|];
          assert !OccursAt(rest[0], sep, i - 1);
        }
      }
      forall p | p in Split(s, sep) ensures !Contains(p, sep) {
        if p != first {
          assert p in rest[1..];
          assert p in rest;
        }
      }
    }
  }

  /** A string without occurrences of `t` has none in any of its infixes. */
  lemma InfixFree(s: string, t: string, lo: int, hi: int)
    requires 0 <= lo <= hi <= |s|
    requires !Contains(s, t)
    ensures !Contains(s[lo..hi], t)
  {
    forall i | 0 <= i && i + |t| <= hi - lo
      ensures !OccursAt(s[lo..hi], t, i)
    {
      var window := s[lo..hi][i..i + |t|];
      assert forall k :: 0 <= k < |t| ==> window[k] == s[lo + i + k];
      assert window == s[lo + i..lo + i + |t|];
      assert !OccursAt(s, t, lo + i);
    }
  }

  /** The cuts of `split` fall at the leftmost occurrences: the separator
      occurs nowhere before the end of the first piece, a single piece is
      the whole string, and otherwise the separator follows the first
      piece and the other pieces are the split of what comes after it. */
  lemma SplitLeftmost(s: string, sep: string)
    requires sep != []
    ensures var r := Split(s, sep);
            (forall i :: 0 <= i < |r[0]| ==> !OccursAt(s, sep, i)) &&
            (|r| == 1 ==> r[0] == s) &&
            (|r| > 1 ==> OccursAt(s, sep, |r[0]|) && r[1..] == Split(s[|r[0]| + |sep|..], sep))
  {
    SplitHeadFree(s, sep);
    SplitCutOccurs(s, sep);
    SplitTail(s, sep);
  }

  /** The separator occurs nowhere before the end of the first piece. */
  lemma {:induction false} SplitHeadFree(s: string, sep: string)
    requires sep != []
    ensures forall i :: 0 <= i < |Split(s, sep)[0]| ==> !OccursAt(s, sep, i)
    decreases |s|
  {
    if |s| >= |sep| && s[..|sep|] != sep {
      var r := Split(s, sep);
      var rest := Split(s[1..], sep);
      SplitHeadFree(s[1..], sep);
      assert r == [[s[0]] + rest[0]] + rest[1..];
      forall i | 0 <= i < |r[0]|
        ensures !OccursAt(s, sep, i)
      {
        if i == 0 {
          assert s[0..|sep|] == s[..|sep|];
        } else if OccursAt(s, sep, i) {
          OccursShift(s, sep, i);
        }
      }
    }
  }

  /** When there is more than one piece, the separator follows the first. */
  lemma {:induction false} SplitCutOccurs(s: string, sep: string)
    requires sep != []
    ensures var r := Split(s, sep);
            |r| > 1 ==> OccursAt(s, sep, |r[0]|)
    decreases |s|
  {
    if |s| < |sep| {
    } else if s[..|sep|] == sep {
      assert Split(s, sep)[0] == [] && s[0..|sep|] == s[..|sep|];
    } else {
      var rest := Split(s[1..], sep);
      SplitCutOccurs(s[1..], sep);
      assert Split(s, sep) == [[s[0]] + rest[0]] + rest[1..];
      if |rest| > 1 {
        OccursUnshift(s, sep, |rest[0]|);
      }
    }
  }

  /** A single piece is the whole string; otherwise the other pieces are the
      split of what follows the first cut. */
  lemma {:induction false} SplitTail(s: string, sep: string)
    requires sep != []
    ensures var r := Split(s, sep);
            (|r| == 1 ==> r[0] == s) &&
            (|r| > 1 ==> |r[0]| + |sep| <= |s| && r[1..] == Split(s[|r[0]| + |sep|..], sep))
    decreases |s|
  {
    var r := Split(s, sep);
    if |s| < |sep| {
    } else if s[..|sep|] == sep {
      assert r[0] == [] && r[1..] == Split(s[|sep|..], sep);
    } else {
      var rest := Split(s[1..], sep);
      SplitTail(s[1..], sep);
      assert r == [[s[0]] + rest[0]] + rest[1..];
      assert |r| == |rest| && r[0] == [s[0]] + rest[0] && r[1..] == rest[1..];
      if |rest| > 1 {
        var k := |rest[0]| + |sep|;
        assert s[1..][k..] == s[k + 1..];
      } else {
        assert r[0] == [s[0]] + s[1..] == s;
      }
    }
  }

  lemma OccursShift(s: string, t: string, i: int)
    requires 1 <= i && OccursAt(s, t, i)
    ensures OccursAt(s[1..], t, i - 1)
  {
    assert s[1..][i - 1..i - 1 + |t|] == s[i..i + |t|];
  }

  lemma OccursUnshift(s: string, t: string, j: int)
    requires s != [] && OccursAt(s[1..], t, j)
    ensures OccursAt(s, t, j + 1)
  {
    assert s[1..][j..j + |t|] == s[j + 1..j + 1 + |t|];
  }

  /** The strings of `ps` occur in `s` one after another, without
      overlapping. */
  ghost predicate InOrder(ps: seq<string>, s: string)
    decreases |ps|
  {
    ps == [] ||
    exists lo :: OccursAt(s, ps[0], lo) && InOrder(ps[1..], s[lo + |ps[0]|..])
  }

  /** Strings in order in a suffix are in order in the whole string. */
  lemma InOrderSuffix(ps: seq<string>, s: string, k: int)
    requires 0 <= k <= |s| && InOrder(ps, s[k..])
    ensures InOrder(ps, s)
  {
    if ps != [] {
      var m := |ps[0]|;
      var lo :| OccursAt(s[k..], ps[0], lo) && InOrder(ps[1..], s[k..][lo + m..]);
      assert s[k..][lo..lo + m] == s[k + lo..k + lo + m];
      assert s[k..][lo + m..] == s[k + lo + m..];
      assert OccursAt(s, ps[0], k + lo);
    }
  }

  /** Strings in order in a prefix are in order in the whole string. */
  lemma {:induction false} InOrderPrefix(ps: seq<string>, s: string, k: int)
    requires 0 <= k <= |s| && InOrder(ps, s[..k])
    ensures InOrder(ps, s)
    decreases |ps|
  {
    if ps != [] {
      var m := |ps[0]|;
      var lo :| OccursAt(s[..k], ps[0], lo) && InOrder(ps[1..], s[..k][lo + m..]);
      assert s[..k][lo..lo + m] == s[lo..lo + m];
      assert OccursAt(s, ps[0], lo);
      var t := s[lo + m..];
      assert s[..k][lo + m..] == t[..k - (lo + m)];
      InOrderPrefix(ps[1..], t, k - (lo + m));
    }
  }

  /** Strings in order in an infix are in order in the whole string. */
  lemma InOrderInfix(ps: seq<string>, s: string, lo: int, hi: int)
    requires 0 <= lo <= hi <= |s| && InOrder(ps, s[lo..hi])
    ensures InOrder(ps, s)
  {
    assert s[lo..hi] == s[lo..][..hi - lo];
    InOrderPrefix(ps, s[lo..], hi - lo);
    InOrderSuffix(ps, s, lo);
  }

  /** Strings in order before a cut, followed by strings in order after it,
      are in order. */
  lemma {:induction false} InOrderAppend(a: seq<string>, b: seq<string>, s: string, k: int)
    requires 0 <= k <= |s| && InOrder(a, s[..k]) && InOrder(b, s[k..])
    ensures InOrder(a + b, s)
    decreases |a|, 1
  {
    if a == [] {
      assert a + b == b;
      InOrderSuffix(b, s, k);
    } else {
      var lo :| OccursAt(s[..k], a[0], lo) && InOrder(a[1..], s[..k][lo + |a[0]|..]);
      InOrderAppendAt(a, b, s, k, lo);
    }
  }

  /** `InOrderAppend` once the first string of `a` is placed at `lo`. */
  lemma {:induction false} InOrderAppendAt(a: seq<string>, b: seq<string>, s: string, k: int, lo: int)
    requires 0 <= k <= |s| && a != [] && InOrder(b, s[k..])
    requires OccursAt(s[..k], a[0], lo) && InOrder(a[1..], s[..k][lo + |a[0]|..])
    ensures InOrder(a + b, s)
    decreases |a|, 0
  {
    var m := |a[0]|;
    assert s[..k][lo..lo + m] == s[lo..lo + m];
    assert OccursAt(s, a[0], lo);
    var t := s[lo + m..];
    assert s[..k][lo + m..] == t[..k - (lo + m)];
    assert s[k..] == t[k - (lo + m)..];
    InOrderAppend(a[1..], b, t, k - (lo + m));
    assert (a + b)[0] == a[0] && (a + b)[1..] == a[1..] + b;
  }

  /** Every string that occurs in order in `s` occurs in `s`. */
  lemma {:induction false} InOrderContains(ps: seq<string>, s: string)
    requires InOrder(ps, s)
    ensures forall p :: p in ps ==> Contains(s, p)
    decreases |ps|
  {
    if ps != [] {
      var m := |ps[0]|;
      var lo :| OccursAt(s, ps[0], lo) && InOrder(ps[1..], s[lo + m..]);
      InOrderContains(ps[1..], s[lo + m..]);
      forall p | p in ps
        ensures Contains(s, p)
      {
        if p != ps[0] {
          assert p in ps[1..];
          var j :| OccursAt(s[lo + m..], p, j);
          assert s[lo + m..][j..j + |p|] == s[lo + m + j..lo + m + j + |p|];
          assert OccursAt(s, p, lo + m + j);
        }
      }
    }
  }

  /** The parts of `sep.join(parts)` occur in it in order. */
  lemma {:induction false} InOrderJoin(sep: string, ps: seq<string>)
    ensures InOrder(ps, Join(sep, ps))
    decreases |ps|
  {
    if |ps| == 1 {
      assert Join(sep, ps) == ps[0];
      assert OccursAt(ps[0], ps[0], 0) && InOrder(ps[1..], ps[0][0 + |ps[0]|..]);
    } else if |ps| > 1 {
      var j := Join(sep, ps);
      var rest := Join(sep, ps[1..]);
      assert j == ps[0] + sep + rest;
      InOrderJoin(sep, ps[1..]);
      assert OccursAt(j, ps[0], 0);
      assert j[|ps[0]|..][|sep|..] == rest;
      InOrderSuffix(ps[1..], j[|ps[0]|..], |sep|);
    }
  }

  /** The pieces of `s.split(sep)` occur in `s` in order. */
  lemma SplitInOrder(s: string, sep: string)
    requires sep != []
    ensures InOrder(Split(s, sep), s)
  {
    JoinSplit(s, sep);
    InOrderJoin(sep, Split(s, sep));
  }

  /** What occurs in order in `s.strip()` occurs in order in `s`. */
  lemma StripInOrder(ps: seq<string>, s: string)
    requires InOrder(ps, Strip(s))
    ensures InOrder(ps, s)
  {
    var lo, hi :| StrippedAt(s, Strip(s), lo, hi);
    InOrderInfix(ps, s, lo, hi);
  }

  /** Every piece of `split` is an infix of the string it came from, so a
      string that avoids `t` yields pieces that avoid `t`. */
  lemma {:induction false} SplitKeepsFree(s: string, sep: string, t: string)
    requires sep != []
    requires !Contains(s, t)
    ensures forall p :: p in Split(s, sep) ==> !Contains(p, t)
    decreases |s|
  {
    if |s| < |sep| {
    } else if s[..|sep|] == sep {
      InfixFree(s, t, |sep|, |s|);
      assert s[|sep|..|s|] == s[|sep|..];
      SplitKeepsFree(s[|sep|..], sep, t);
      InfixFree(s, t, 0, 0);
      assert s[0..0] == [];
    } else {
      var rest := Split(s[1..], sep);
      InfixFree(s, t, 1, |s|);
      assert s[1..|s|] == s[1..];
      SplitKeepsFree(s[1..], sep, t);
      var first := [s[0]] + rest[0];
      assert first == s[0..1 + |rest[0]|];
      InfixFree(s, t, 0, 1 + |rest[0]|);
    }
  }

  // ---------------------------------------------------------------------
  // sorted(l, key=key, reverse=reverse)
  // ---------------------------------------------------------------------

  /** `a` sorts strictly before `b`: smaller key, or larger key under
      `reverse=True`. */
  predicate Before<T>(a: T, b: T, key: T -> real, reverse: bool)
  {
    if reverse then key(a) > key(b) else key(a) < key(b)
  }

  /** No element sorts strictly before an element to its left. */
  predicate SortedBy<T>(s: seq<T>, key: T -> real, reverse: bool)
  {
    forall i, j :: 0 <= i < j < |s| ==> !Before(s[j], s[i], key, reverse)
  }

  /** The elements of `s` whose key is `v`, in their order in `s`. */
  function WithKey<T>(s: seq<T>, key: T -> real, v: real): seq<T>
  {
    if s == [] then []
    else (if key(s[0]) == v then [s[0]] else []) + WithKey(s[1..], key, v)
  }

  /** Insert `x` into a sorted list after every element it does not sort
      strictly before. */
  function Insert<T>(s: seq<T>, x: T, key: T -> real, reverse: bool): seq<T>
  {
    if s == [] then [x]
    else if Before(x, s[0], key, reverse) then [x] + s
    else [s[0]] + Insert(s[1..], x, key, reverse)
  }

  /** `sorted(l, key=key, reverse=reverse)`: a stable sort, here an
      insertion sort that inserts each element after its equals. */
  function StableSort<T>(l: seq<T>, key: T -> real, reverse: bool): seq<T>
  {
    if l == [] then []
    else Insert(StableSort(l[..|l| - 1], key, reverse), l[|l| - 1], key, reverse)
  }

  lemma {:induction false} WithKeyAppend<T>(a: seq<T>, b: seq<T>, key: T -> real, v: real)
    ensures WithKey(a + b, key, v) == WithKey(a, key, v) + WithKey(b, key, v)
    decreases |a|
  {
    if a == [] {
      assert a + b == b;
    } else {
      var h := if key(a[0]) == v then [a[0]] else [];
      assert (a + b)[0] == a[0] && (a + b)[1..] == a[1..] + b;
      WithKeyAppend(a[1..], b, key, v);
      assert WithKey(a + b, key, v) == h + WithKey(a[1..] + b, key, v);
      assert WithKey(a, key, v) == h + WithKey(a[1..], key, v);
    }
  }

  lemma {:induction false} InsertPermutes<T>(s: seq<T>, x: T, key: T -> real, reverse: bool)
    ensures multiset(Insert(s, x, key, reverse)) == multiset(s) + multiset{x}
    decreases |s|
  {
    if s != [] && !Before(x, s[0], key, reverse) {
      InsertPermutes(s[1..], x, key, reverse);
      assert s == [s[0]] + s[1..];
    }
  }

  lemma {:induction false} InsertSorted<T>(s: seq<T>, x: T, key: T -> real, reverse: bool)
    requires SortedBy(s, key, reverse)
    ensures SortedBy(Insert(s, x, key, reverse), key, reverse)
    decreases |s|
  {
    if s != [] && !Before(x, s[0], key, reverse) {
      var rest := Insert(s[1..], x, key, reverse);
      InsertSorted(s[1..], x, key, reverse);
      InsertAfterHead(s, x, key, reverse);
      var r := [s[0]] + rest;
      forall i, j | 0 <= i < j < |r| ensures !Before(r[j], r[i], key, reverse) {
        if i > 0 {
          assert r[i] == rest[i - 1] && r[j] == rest[j - 1];
        } else {
          assert r[j] == rest[j - 1];
        }
      }
    }
  }

  /** When `x` does not sort before the head of a sorted list, nothing in
      the tail with `x` inserted sorts before that head. */
  lemma InsertAfterHead<T>(s: seq<T>, x: T, key: T -> real, reverse: bool)
    requires SortedBy(s, key, reverse) && s != [] && !Before(x, s[0], key, reverse)
    ensures forall j :: 0 <= j < |Insert(s[1..], x, key, reverse)| ==>
              !Before(Insert(s[1..], x, key, reverse)[j], s[0], key, reverse)
  {
    var rest := Insert(s[1..], x, key, reverse);
    InsertPermutes(s[1..], x, key, reverse);
    forall j | 0 <= j < |rest| ensures !Before(rest[j], s[0], key, reverse) {
      assert rest[j] in multiset(rest);
      if rest[j] != x {
        assert rest[j] in multiset(s[1..]);
        var m :| 0 <= m < |s[1..]| && s[1..][m] == rest[j];
        assert s[m + 1] == rest[j];
      }
    }
  }

  /** Inserting `x` into a sorted list places it after every element with
      the same key, so each key's run keeps its order and gains `x` last. */
  lemma {:induction false} InsertStable<T>(s: seq<T>, x: T, key: T -> real, reverse: bool, v: real)
    requires SortedBy(s, key, reverse)
    ensures WithKey(Insert(s, x, key, reverse), key, v)
         == WithKey(s, key, v) + (if key(x) == v then [x] else [])
    decreases |s|
  {
    if s == [] {
      WithKeyCons(x, [], key, v);
    } else if Before(x, s[0], key, reverse) {
      WithKeyCons(x, s, key, v);
      if key(x) == v {
        AllAfterHaveOtherKey(s, x, key, reverse);
      }
    } else {
      var rest := Insert(s[1..], x, key, reverse);
      WithKeyCons(s[0], rest, key, v);
      InsertStable(s[1..], x, key, reverse, v);
      WithKeyCons(s[0], s[1..], key, v);
      assert [s[0]] + s[1..] == s;
    }
  }

  lemma WithKeyCons<T>(x: T, s: seq<T>, key: T -> real, v: real)
    ensures WithKey([x] + s, key, v) == (if key(x) == v then [x] else []) + WithKey(s, key, v)
  {
    assert ([x] + s)[1..] == s;
  }

  /** In a sorted list whose head sorts after `x`, nothing shares `x`'s key. */
  lemma {:induction false} AllAfterHaveOtherKey<T>(s: seq<T>, x: T, key: T -> real, reverse: bool)
    requires SortedBy(s, key, reverse)
    requires s != [] && Before(x, s[0], key, reverse)
    ensures WithKey(s, key, key(x)) == []
    decreases |s|
  {
    if |s| > 1 {
      assert !Before(s[1], s[0], key, reverse);
      AllAfterHaveOtherKey(s[1..], x, key, reverse);
    }
  }

  /** `sorted` returns a permutation of its input, in key order. */
  lemma {:induction false} StableSortSorts<T>(l: seq<T>, key: T -> real, reverse: bool)
    ensures multiset(StableSort(l, key, reverse)) == multiset(l)
    ensures SortedBy(StableSort(l, key, reverse), key, reverse)
    ensures |StableSort(l, key, reverse)| == |l|
    decreases |l|
  {
    if l != [] {
      var init := l[..|l| - 1];
      StableSortSorts(init, key, reverse);
      InsertPermutes(StableSort(init, key, reverse), l[|l| - 1], key, reverse);
      InsertSorted(StableSort(init, key, reverse), l[|l| - 1], key, reverse);
      assert l == init + [l[|l| - 1]];
      assert multiset(l) == multiset(init) + multiset{l[|l| - 1]};
    }
  }

  /** `sorted` is stable: the elements sharing a key keep their input order
      (also under `reverse=True`). */
  lemma {:induction false} StableSortStable<T>(l: seq<T>, key: T -> real, reverse: bool, v: real)
    ensures WithKey(StableSort(l, key, reverse), key, v) == WithKey(l, key, v)
    decreases |l|
  {
    if l != [] {
      var init := l[..|l| - 1];
      var x := l[|l| - 1];
      StableSortStable(init, key, reverse, v);
      StableSortSorts(init, key, reverse);
      InsertStable(StableSort(init, key, reverse), x, key, reverse, v);
      assert StableSort(l, key, reverse) == Insert(StableSort(init, key, reverse), x, key, reverse);
      WithKeySnoc(l, key, v);
    }
  }

  /** The last element joins its key's run at the end. */
  lemma WithKeySnoc<T>(l: seq<T>, key: T -> real, v: real)
    requires l != []
    ensures WithKey(l, key, v)
         == WithKey(l[..|l| - 1], key, v) + (if key(l[|l| - 1]) == v then [l[|l| - 1]] else [])
  {
    var init, x := l[..|l| - 1], l[|l| - 1];
    assert l == init + [x];
    WithKeyAppend(init, [x], key, v);
    assert [x][1..] == [];
    assert WithKey([x], key, v) == (if key(x) == v then [x] else []) + WithKey([], key, v);
  }
}
