/** `rand.Shuffle` as the handlers use it to spread load over name servers: the Fisher-Yates
    shuffle driven by draws from a random source. The random source is not modelled; any
    draw the source could produce is allowed, and the shuffle is proved to reach exactly the
    permutations of its input. */
module Shuffle {

  function Swap<T>(s: seq<T>, i: nat, j: nat): (r: seq<T>)
    requires i < |s| && j < |s|
    ensures |r| == |s|
  {
    s[i := s[j]][j := s[i]]
  }

  /** A swap exchanges the two positions, keeps every other one, and so keeps the multiset. */
  lemma SwapExchanges<T>(s: seq<T>, i: nat, j: nat)
    requires i < |s| && j < |s|
    ensures Swap(s, i, j)[i] == s[j] && Swap(s, i, j)[j] == s[i]
    ensures forall k :: 0 <= k < |s| && k != i && k != j ==> Swap(s, i, j)[k] == s[k]
    ensures multiset(Swap(s, i, j)) == multiset(s)
  {
  }

  /** Draws `rand.Shuffle` can make: the draw for position `i` lies in [0, i]. */
  ghost predicate ValidDraws(js: seq<nat>)
  {
    forall i :: 0 <= i < |js| ==> js[i] <= i
  }

  /** Fisher-Yates in `rand.Shuffle`'s order: for i from |js| - 1 down to 1, swap positions
      i and js[i]. */
  function FisherYates<T>(d: seq<T>, js: seq<nat>): (r: seq<T>)
    requires |js| <= |d| && ValidDraws(js)
    ensures |r| == |d|
    ensures |js| <= 1 ==> r == d
  {
    Rounds(d, js, |js|)
  }

  /** The rounds for i from n - 1 down to 1. */
  function Rounds<T>(d: seq<T>, js: seq<nat>, n: nat): (r: seq<T>)
    requires n <= |js| <= |d| && ValidDraws(js)
    ensures |r| == |d|
    decreases n
  {
    if n <= 1 then d else Rounds(Swap(d, n - 1, js[n - 1]), js, n - 1)
  }

  /** The rounds up to n read only the first n draws. */
  lemma {:induction false} RoundsReadPrefix<T>(d: seq<T>, a: seq<nat>, b: seq<nat>, n: nat)
    requires n <= |a| <= |d| && n <= |b| <= |d| && ValidDraws(a) && ValidDraws(b)
    requires forall i :: 0 <= i < n ==> a[i] == b[i]
    ensures Rounds(d, a, n) == Rounds(d, b, n)
    decreases n
  {
    if n > 1 {
      RoundsReadPrefix(Swap(d, n - 1, a[n - 1]), a, b, n - 1);
    }
  }

  /** Fisher-Yates only reorders: every swap keeps the multiset. */
  lemma {:induction false} RoundsPermute<T>(d: seq<T>, js: seq<nat>, n: nat)
    requires n <= |js| <= |d| && ValidDraws(js)
    ensures multiset(Rounds(d, js, n)) == multiset(d)
    decreases n
  {
    if n > 1 {
      SwapExchanges(d, n - 1, js[n - 1]);
      RoundsPermute(Swap(d, n - 1, js[n - 1]), js, n - 1);
    }
  }

  /** `t` differs from `d` only by a permutation of the first `k` positions. */
  ghost predicate Rearranged<T>(d: seq<T>, t: seq<T>, k: nat)
  {
    && |d| == |t| && k <= |d|
    && multiset(d[..k]) == multiset(t[..k])
    && d[k..] == t[k..]
  }

  /** Fisher-Yates can produce `t` from `d` when `t` differs from `d` only by a permutation of
      the first `k` positions; the draws are built position by position from the top. */
  lemma {:induction false} DrawsFor<T>(d: seq<T>, t: seq<T>, k: nat) returns (js: seq<nat>)
    requires Rearranged(d, t, k)
    ensures |js| == k && ValidDraws(js) && FisherYates(d, js) == t
    decreases k
  {
    if k <= 1 {
      js := NoDraws(d, t, k);
    } else {
      var j := PlaceTop(d, t, k);
      var js' := DrawsFor(Swap(d, k - 1, j), t, k - 1);
      js := js' + [j];
      DrawOnTop(d, js', j, t);
    }
  }

  /** With at most one position to permute, `t` is `d` and at most a dummy draw is needed. */
  lemma NoDraws<T>(d: seq<T>, t: seq<T>, k: nat) returns (js: seq<nat>)
    requires Rearranged(d, t, k) && k <= 1
    ensures |js| == k && ValidDraws(js) && FisherYates(d, js) == t
  {
    js := if k == 0 then [] else [0];
    SamePrefixSameSeq(d, t, k);
  }

  /** Drawing `j` for the top position before the draws `js` reaches what `js` reaches from
      the swapped sequence. */
  lemma DrawOnTop<T>(d: seq<T>, js: seq<nat>, j: nat, t: seq<T>)
    requires 1 <= |js| < |d| && j <= |js| && ValidDraws(js)
    requires FisherYates(Swap(d, |js|, j), js) == t
    ensures ValidDraws(js + [j]) && FisherYates(d, js + [j]) == t
  {
    AppendDraw(js, j);
    TopDrawFirst(d, js, j);
  }

  /** Where in the first `k` positions of `d` the value `t[k-1]` sits. */
  lemma SourceOfTop<T>(d: seq<T>, t: seq<T>, k: nat) returns (j: nat)
    requires |d| == |t| && 0 < k <= |d|
    requires multiset(d[..k]) == multiset(t[..k])
    ensures j < k && d[j] == t[k - 1]
  {
    assert t[..k][k - 1] == t[k - 1];
    assert t[k - 1] in multiset(d[..k]);
    j :| 0 <= j < k && d[..k][j] == t[k - 1];
  }

  /** One more draw on top of valid ones is valid when it lies in range. */
  lemma AppendDraw(js: seq<nat>, j: nat)
    requires ValidDraws(js) && j <= |js|
    ensures ValidDraws(js + [j])
  {
    var js' := js + [j];
    forall m | 0 <= m < |js'|
      ensures js'[m] <= m
    {
      if m < |js| {
        assert js'[m] == js[m];
      }
    }
  }

  /** Fisher-Yates spends the last draw first. */
  lemma TopDrawFirst<T>(d: seq<T>, js: seq<nat>, j: nat)
    requires 1 <= |js| < |d| && j <= |js| && ValidDraws(js) && ValidDraws(js + [j])
    ensures FisherYates(d, js + [j]) == FisherYates(Swap(d, |js|, j), js)
  {
    var js' := js + [j];
    assert js'[|js|] == j;
    assert FisherYates(d, js') == Rounds(Swap(d, |js|, j), js', |js|);
    RoundsReadPrefix(Swap(d, |js|, j), js', js, |js|);
  }

  lemma SamePrefixSameSeq<T>(d: seq<T>, t: seq<T>, k: nat)
    requires |d| == |t| && k <= 1 && k <= |d|
    requires multiset(d[..k]) == multiset(t[..k])
    requires d[k..] == t[k..]
    ensures d == t
  {
    if k == 1 {
      assert d[..1] == [d[0]] && t[..1] == [t[0]];
      assert d[0] in multiset(t[..1]);
    }
    assert d == d[..k] + d[k..];
    assert t == t[..k] + t[k..];
  }

  /** Swapping the value `t[k-1]` into position k - 1 fixes one more position of `t`. */
  lemma PlaceTop<T>(d: seq<T>, t: seq<T>, k: nat) returns (j: nat)
    requires Rearranged(d, t, k) && 1 < k
    ensures j < k && Rearranged(Swap(d, k - 1, j), t, k - 1)
  {
    j := SourceOfTop(d, t, k);
    PlaceTopPrefix(d, t, k, j);
    PlaceTopSuffix(d, t, k, j);
  }

  lemma PlaceTopPrefix<T>(d: seq<T>, t: seq<T>, k: nat, j: nat)
    requires |d| == |t| && 1 < k <= |d| && j < k
    requires multiset(d[..k]) == multiset(t[..k])
    requires d[j] == t[k - 1]
    ensures multiset(Swap(d, k - 1, j)[..k - 1]) == multiset(t[..k - 1])
  {
    var i := k - 1;
    var d' := Swap(d, i, j);
    SwapExchanges(d, i, j);
    SwapExchanges(d[..k], i, j);
    assert d'[..k] == Swap(d[..k], i, j);
    assert d'[..k] == d'[..i] + [t[i]];
    assert t[..k] == t[..i] + [t[i]];
    CancelOne(multiset(d'[..i]), multiset(t[..i]), t[i]);
  }

  lemma PlaceTopSuffix<T>(d: seq<T>, t: seq<T>, k: nat, j: nat)
    requires |d| == |t| && 1 < k <= |d| && j < k
    requires d[k..] == t[k..]
    requires d[j] == t[k - 1]
    ensures Swap(d, k - 1, j)[k - 1..] == t[k - 1..]
  {
    var d' := Swap(d, k - 1, j);
    SwapExchanges(d, k - 1, j);
    forall m | k - 1 <= m < |d|
      ensures d'[m] == t[m]
    {
      if m >= k {
        assert d'[m] == d[m] == d[k..][m - k] == t[k..][m - k];
      }
    }
  }

  lemma CancelOne<T>(a: multiset<T>, b: multiset<T>, x: T)
    requires a + multiset{x} == b + multiset{x}
    ensures a == b
  {
    assert forall y :: a[y] == (a + multiset{x})[y] - multiset{x}[y] == b[y];
  }

  /** Every permutation of `s` is the outcome of some sequence of draws. */
  lemma EveryPermutationIsReachable<T>(s: seq<T>, t: seq<T>)
    requires multiset(s) == multiset(t)
    ensures exists js :: |js| == |s| && ValidDraws(js) && FisherYates(s, js) == t
  {
    assert |s| == |multiset(s)| == |multiset(t)| == |t|;
    assert s[..|s|] == s && t[..|t|] == t;
    var js := DrawsFor(s, t, |s|);
  }

  /** `rand.Shuffle(len(xs), swap)` on a copy of `s`, with each draw chosen arbitrarily within
      the range the random source allows. `s` itself is a value and is never changed. */
  method Shuffle<T>(s: seq<T>) returns (r: seq<T>)
    ensures |r| == |s| && multiset(r) == multiset(s)
    ensures exists js :: |js| == |s| && ValidDraws(js) && r == FisherYates(s, js)
  {
    var js: seq<nat> := [];
    while |js| < |s|
      invariant |js| <= |s| && ValidDraws(js)
    {
      var j :| 0 <= j <= |js|;
      js := js + [j];
    }
    r := FisherYates(s, js);
    RoundsPermute(s, js, |js|);
  }
}
