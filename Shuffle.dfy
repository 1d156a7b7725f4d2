/**
 * `shuffleList`: a Fisher-Yates loop that, for `i` counting down from the
 * last index to 1, swaps cell `i` with a randomly drawn cell `j`, `0 <= j <= i`.
 * The random draws are an input here: `picks[i]` is the `j` of round `i`.
 */
module Shuffle {
  import opened People

  /** One draw per loop counter: `picks[k]` lies in `0..k` (`picks[0]` is never used). */
  predicate ValidPicks(picks: seq<nat>, n: nat)
  {
    |picks| == n && forall k :: 0 <= k < n ==> picks[k] <= k
  }

  /** The draws for counters `0..i` are in range. */
  predicate PicksInRange(picks: seq<nat>, i: nat)
  {
    i < |picks| && forall k :: 0 <= k <= i ==> picks[k] <= k
  }

  /** `s` with cells `i` and `j` exchanged. */
  function SwapAt<T>(s: seq<T>, i: nat, j: nat): (r: seq<T>)
    requires i < |s| && j < |s|
    ensures |r| == |s|
  {
    s[i := s[j]][j := s[i]]
  }

  lemma SwapAtPermutes<T>(s: seq<T>, i: nat, j: nat)
    requires i < |s| && j < |s|
    ensures multiset(SwapAt(s, i, j)) == multiset(s)
  {
  }

  /** The rounds for counters `i`, `i - 1`, ..., `1`, applied to `s` in that order. */
  function FisherYatesFrom<T>(s: seq<T>, picks: seq<nat>, i: nat): seq<T>
    requires i < |s| && PicksInRange(picks, i)
    decreases i
  {
    if i == 0 then s else FisherYatesFrom(SwapAt(s, i, picks[i]), picks, i - 1)
  }

  /** The whole loop: what the array holds once the counter reaches 0. */
  function FisherYates<T>(s: seq<T>, picks: seq<nat>): seq<T>
    requires ValidPicks(picks, |s|)
  {
    if |s| == 0 then s else FisherYatesFrom(s, picks, |s| - 1)
  }

  lemma {:induction false} FisherYatesFromPermutes<T>(s: seq<T>, picks: seq<nat>, i: nat)
    requires i < |s| && PicksInRange(picks, i)
    ensures |FisherYatesFrom(s, picks, i)| == |s|
    ensures multiset(FisherYatesFrom(s, picks, i)) == multiset(s)
    decreases i
  {
    if i > 0 {
      var s' := SwapAt(s, i, picks[i]);
      SwapAtPermutes(s, i, picks[i]);
      FisherYatesFromPermutes(s', picks, i - 1);
      assert FisherYatesFrom(s, picks, i) == FisherYatesFrom(s', picks, i - 1);
    }
  }

  /** Whatever the draws, the loop only permutes the array. */
  lemma FisherYatesPermutes<T>(s: seq<T>, picks: seq<nat>)
    requires ValidPicks(picks, |s|)
    ensures |FisherYates(s, picks)| == |s|
    ensures multiset(FisherYates(s, picks)) == multiset(s)
  {
    if |s| > 0 {
      FisherYatesFromPermutes(s, picks, |s| - 1);
    }
  }

  /** Round `i` and the rounds after it read only `picks[..i + 1]`. */
  lemma {:induction false} FisherYatesFromReadsPrefix<T>(s: seq<T>, p: seq<nat>, q: seq<nat>, i: nat)
    requires i < |s| && i < |p| && i < |q|
    requires p[..i + 1] == q[..i + 1]
    requires forall k :: 0 <= k <= i ==> p[k] <= k
    ensures forall k :: 0 <= k <= i ==> q[k] <= k
    ensures FisherYatesFrom(s, p, i) == FisherYatesFrom(s, q, i)
    decreases i
  {
    assert forall k :: 0 <= k <= i ==> p[k] == p[..i + 1][k] == q[..i + 1][k] == q[k];
    if i > 0 {
      assert p[..i] == p[..i + 1][..i] == q[..i + 1][..i] == q[..i];
      FisherYatesFromReadsPrefix(SwapAt(s, i, p[i]), p, q, i - 1);
    }
  }

  /** A swap inside the first `i + 1` cells is a swap of that prefix. */
  lemma SwapAtPrefix<T>(s: seq<T>, i: nat, j: nat)
    requires j <= i < |s|
    ensures SwapAt(s, i, j)[..i + 1] == SwapAt(s[..i + 1], i, j)
  {
  }

  /** Removing the same last element from two rearrangements leaves two rearrangements. */
  lemma MultisetCancelLast<T>(a: seq<T>, b: seq<T>, x: T)
    requires multiset(a + [x]) == multiset(b + [x])
    ensures multiset(a) == multiset(b)
  {
    var ma, mb, mx := multiset(a), multiset(b), multiset([x]);
    assert multiset(a + [x]) == ma + mx && multiset(b + [x]) == mb + mx;
    assert ma == (ma + mx) - mx && mb == (mb + mx) - mx;
  }

  /** Round `i` with the draw `j` leaves a rearrangement of `t[..i]` before cell `i`. */
  lemma SwapKeepsPrefix<T>(s: seq<T>, t: seq<T>, i: nat, j: nat)
    requires 0 <= j <= i < |s| == |t|
    requires multiset(s[..i + 1]) == multiset(t[..i + 1])
    requires s[j] == t[i]
    ensures multiset(SwapAt(s, i, j)[..i]) == multiset(t[..i])
  {
    var s' := SwapAt(s, i, j);
    SwapAtPrefix(s, i, j);
    SwapAtPermutes(s[..i + 1], i, j);
    assert s'[..i + 1] == s'[..i] + [t[i]];
    assert t[..i + 1] == t[..i] + [t[i]];
    MultisetCancelLast(s'[..i], t[..i], t[i]);
  }

  /** Round `i` with the draw `j` puts `t[i]` in cell `i` and leaves the cells after it alone. */
  lemma SwapFixesSuffix<T>(s: seq<T>, t: seq<T>, i: nat, j: nat)
    requires 0 <= j <= i < |s| == |t|
    requires s[i + 1..] == t[i + 1..]
    requires s[j] == t[i]
    ensures SwapAt(s, i, j)[i..] == t[i..]
  {
    var s' := SwapAt(s, i, j);
    var after', after := s'[i + 1..], s[i + 1..];
    assert after' == after by {
      forall k | 0 <= k < |after| ensures after'[k] == after[k] {
        assert s'[i + 1 + k] == s[i + 1 + k];
      }
    }
    assert s'[i..] == [s'[i]] + after';
    assert t[i..] == [t[i]] + t[i + 1..];
  }

  /**
   * Rounds `i` down to 1 can turn `s` into any `t` that rearranges
   * `s[..i + 1]` and leaves the rest alone.
   */
  lemma {:induction false} FisherYatesFromReaches<T>(s: seq<T>, t: seq<T>, i: nat) returns (picks: seq<nat>)
    requires i < |s| == |t|
    requires multiset(s[..i + 1]) == multiset(t[..i + 1])
    requires s[i + 1..] == t[i + 1..]
    ensures |picks| == i + 1 && forall k :: 0 <= k <= i ==> picks[k] <= k
    ensures FisherYatesFrom(s, picks, i) == t
    decreases i
  {
    if i == 0 {
      assert s[..1] == [s[0]] && t[..1] == [t[0]];
      assert t[0] in multiset(s[..1]);
      assert s == s[..1] + s[1..] && t == t[..1] + t[1..];
      picks := [0];
    } else {
      assert t[..i + 1][i] == t[i];
      assert t[i] in multiset(s[..i + 1]);
      var j :| 0 <= j <= i && s[..i + 1][j] == t[i];
      assert s[j] == t[i];
      var s' := SwapAt(s, i, j);
      SwapKeepsPrefix(s, t, i, j);
      SwapFixesSuffix(s, t, i, j);
      var rest := FisherYatesFromReaches(s', t, i - 1);
      picks := rest + [j];
      assert picks[..i] == rest[..i];
      FisherYatesFromReadsPrefix(s', rest, picks, i - 1);
    }
  }

  /**
   * The outcomes of the loop are exactly the rearrangements of its input:
   * every result is a permutation, and every permutation is the result of
   * some sequence of draws.
   */
  lemma FisherYatesReachesEveryPermutation<T>(s: seq<T>, t: seq<T>) returns (picks: seq<nat>)
    requires multiset(t) == multiset(s)
    ensures ValidPicks(picks, |s|)
    ensures FisherYates(s, picks) == t
  {
    assert |t| == |multiset(t)| == |s|;
    if |s| == 0 {
      picks := [];
    } else {
      assert s[..|s|] == s && t[..|t|] == t;
      picks := FisherYatesFromReaches(s, t, |s| - 1);
    }
  }

  /** No element occurs twice. */
  predicate Distinct<T(==)>(s: seq<T>)
  {
    forall a, b :: 0 <= a < b < |s| ==> s[a] != s[b]
  }

  lemma SwapAtKeepsDistinct<T>(s: seq<T>, i: nat, j: nat)
    requires i < |s| && j < |s| && Distinct(s)
    ensures Distinct(SwapAt(s, i, j))
  {
    var r := SwapAt(s, i, j);
    forall a, b | 0 <= a < b < |r| ensures r[a] != r[b] {
      var a' := if a == i then j else if a == j then i else a;
      var b' := if b == i then j else if b == j then i else b;
      assert r[a] == s[a'] && r[b] == s[b'];
    }
  }

  /** Rounds `i` down to 1 never touch the cells after `i`. */
  lemma {:induction false} FisherYatesFromKeepsAbove<T>(s: seq<T>, picks: seq<nat>, i: nat)
    requires i < |s| && PicksInRange(picks, i)
    ensures |FisherYatesFrom(s, picks, i)| == |s|
    ensures forall m :: i < m < |s| ==> FisherYatesFrom(s, picks, i)[m] == s[m]
    decreases i
  {
    if i > 0 {
      FisherYatesFromKeepsAbove(SwapAt(s, i, picks[i]), picks, i - 1);
    }
  }

  /** On distinct elements, different draws for rounds `i` down to 1 give different results. */
  lemma {:induction false} FisherYatesFromInjective<T>(s: seq<T>, p: seq<nat>, q: seq<nat>, i: nat)
    requires i < |s| && Distinct(s)
    requires PicksInRange(p, i) && PicksInRange(q, i)
    requires FisherYatesFrom(s, p, i) == FisherYatesFrom(s, q, i)
    ensures forall k :: 0 <= k <= i ==> p[k] == q[k]
    decreases i
  {
    if i == 0 {
      assert p[0] <= 0 && q[0] <= 0;
    } else {
      var sp, sq := SwapAt(s, i, p[i]), SwapAt(s, i, q[i]);
      FisherYatesFromKeepsAbove(sp, p, i - 1);
      FisherYatesFromKeepsAbove(sq, q, i - 1);
      assert FisherYatesFrom(s, p, i)[i] == sp[i] == s[p[i]];
      assert FisherYatesFrom(s, q, i)[i] == sq[i] == s[q[i]];
      assert p[i] == q[i];
      SwapAtKeepsDistinct(s, i, p[i]);
      FisherYatesFromInjective(sp, p, q, i - 1);
    }
  }

  /**
   * On a list of distinct people, each sequence of draws yields its own
   * order. Together with `FisherYatesReachesEveryPermutation` the draws and
   * the orderings are in one-to-one correspondence, which is what makes
   * uniform draws give a uniform shuffle.
   */
  lemma FisherYatesInjective<T>(s: seq<T>, p: seq<nat>, q: seq<nat>)
    requires Distinct(s) && ValidPicks(p, |s|) && ValidPicks(q, |s|)
    requires FisherYates(s, p) == FisherYates(s, q)
    ensures p == q
  {
    if |s| > 0 {
      FisherYatesFromInjective(s, p, q, |s| - 1);
    }
  }

  /** The loop of `shuffleList`, run on the array it is given. */
  method ShuffleInPlace<T>(list: array<T>, picks: seq<nat>)
    requires ValidPicks(picks, list.Length)
    modifies list
    ensures list[..] == FisherYates(old(list[..]), picks)
    ensures multiset(list[..]) == old(multiset(list[..]))
  {
    ghost var start := list[..];
    ghost var goal := FisherYates(start, picks);
    var i: int := list.Length - 1;
    while i > 0
      invariant -1 <= i < list.Length
      invariant i < 0 ==> list.Length == 0 && list[..] == start
      invariant i >= 0 ==> FisherYatesFrom(list[..], picks, i) == goal
    {
      var j := picks[i];
      ghost var before := list[..];
      var tmp := list[i];
      list[i] := list[j];
      list[j] := tmp;
      assert list[..] == SwapAt(before, i, j);
      i := i - 1;
    }
    FisherYatesPermutes(start, picks);
  }

  /**
   * `shuffleList(list)` as written: `result` is `list.slice(1)` taken before
   * the loop, and the loop swaps the cells of the caller's `list`. So the
   * returned list is the unshuffled input without its first element, and the
   * caller's array is the one that ends up permuted.
   */
  method ShuffleList(list: array<Person>, picks: seq<nat>) returns (result: seq<Person>)
    requires ValidPicks(picks, list.Length)
    modifies list
    ensures result == SliceFromOne(old(list[..]))
    ensures list[..] == FisherYates(old(list[..]), picks)
    ensures multiset(list[..]) == old(multiset(list[..]))
  {
    result := SliceFromOne(list[..]);
    ShuffleInPlace(list, picks);
  }

  /**
   * What the comment above the copy intends: copy all of `list`, shuffle the
   * copy. The method has no `modifies` clause, so `list` is left as it was.
   */
  method ShuffleCopy(list: array<Person>, picks: seq<nat>) returns (result: seq<Person>)
    requires ValidPicks(picks, list.Length)
    ensures result == FisherYates(list[..], picks)
    ensures |result| == list.Length
    ensures multiset(result) == multiset(list[..])
  {
    var copy := new Person[list.Length](k requires 0 <= k < list.Length reads list => list[k]);
    assert copy[..] == list[..];
    ShuffleInPlace(copy, picks);
    result := copy[..];
    FisherYatesPermutes(list[..], picks);
  }

  /**
   * For two different people and the draw `j = 0` in round 1, the as-written
   * result is the second person alone while the caller's array is swapped.
   */
  lemma ShuffleAsWrittenTwoPeople(p: Person, q: Person)
    requires p != q
    ensures ValidPicks([0, 0], 2)
    ensures SliceFromOne([p, q]) == [q]
    ensures multiset(SliceFromOne([p, q])) != multiset([p, q])
    ensures FisherYates([p, q], [0, 0]) == [q, p]
  {
    assert multiset([q])[p] == 0;
  }
}
