/** What the combinators return, as functions of the values their draws
    produced: the shrinking index pool behind gen_perm and the per-element
    flips behind gen_subset. */
module Choice {
  import opened Trace

  /** `s` without its element at position `k`. */
  function RemoveAt<T>(s: seq<T>, k: nat): (r: seq<T>)
    requires k < |s|
    ensures |r| == |s| - 1
    ensures forall j :: 0 <= j < k ==> r[j] == s[j]
    ensures forall j :: k <= j < |r| ==> r[j] == s[j + 1]
  {
    s[..k] + s[k + 1..]
  }

  /** The indices 0, 1, ..., n-1 in order. */
  function Range(n: nat): (r: seq<nat>)
    ensures |r| == n
    ensures forall j :: 0 <= j < n ==> r[j] == j
  {
    seq(n, j => j)
  }

  /** The elements of `s` at the positions listed in `idxs`. */
  function Gather<T>(s: seq<T>, idxs: seq<nat>): (r: seq<T>)
    requires forall j :: 0 <= j < |idxs| ==> idxs[j] < |s|
    ensures |r| == |idxs|
    ensures forall j :: 0 <= j < |idxs| ==> r[j] == s[idxs[j]]
  {
    seq(|idxs|, j requires 0 <= j < |idxs| => s[idxs[j]])
  }

  /** Draw k of a permutation of n items picks from a pool of n - k candidates,
      so its value is at most n - k - 1. */
  predicate ValidCodes(codes: seq<nat>, n: nat) {
    |codes| <= n && forall k :: 0 <= k < |codes| ==> codes[k] < n - k
  }

  lemma ValidCodesPrefix(codes: seq<nat>, n: nat, m: nat)
    requires ValidCodes(codes, n) && m <= |codes|
    ensures ValidCodes(codes[..m], n)
  {
  }

  /** The candidates left after picking with `codes`. */
  function Pool<T>(codes: seq<nat>, s: seq<T>): (r: seq<T>)
    requires ValidCodes(codes, |s|)
    ensures |r| == |s| - |codes|
    decreases |codes|
  {
    if codes == [] then s
    else
      var k := |codes| - 1;
      ValidCodesPrefix(codes, |s|, k);
      RemoveAt(Pool(codes[..k], s), codes[k])
  }

  /** The candidates picked with `codes`, in the order they were picked: each
      code indexes the pool that the earlier picks left. */
  function Picks<T>(codes: seq<nat>, s: seq<T>): (r: seq<T>)
    requires ValidCodes(codes, |s|)
    ensures |r| == |codes|
    decreases |codes|
  {
    if codes == [] then []
    else
      var k := |codes| - 1;
      ValidCodesPrefix(codes, |s|, k);
      Picks(codes[..k], s) + [Pool(codes[..k], s)[codes[k]]]
  }

  /** One more pick removes the chosen candidate from the pool and appends it. */
  lemma PickStep<T>(codes: seq<nat>, s: seq<T>, c: nat)
    requires ValidCodes(codes, |s|) && c < |s| - |codes|
    ensures ValidCodes(codes + [c], |s|)
    ensures Pool(codes + [c], s) == RemoveAt(Pool(codes, s), c)
    ensures Picks(codes + [c], s) == Picks(codes, s) + [Pool(codes, s)[c]]
  {
    assert (codes + [c])[..|codes|] == codes;
  }

  lemma RemoveAtMultiset<T>(s: seq<T>, k: nat)
    requires k < |s|
    ensures multiset(s) == multiset(RemoveAt(s, k)) + multiset{s[k]}
  {
    assert s == s[..k] + [s[k]] + s[k + 1..];
  }

  /** Picking never loses or duplicates a candidate: what was picked and what
      is left together are the original items. */
  lemma {:induction false} PicksAndPool<T>(codes: seq<nat>, s: seq<T>)
    requires ValidCodes(codes, |s|)
    ensures multiset(Picks(codes, s)) + multiset(Pool(codes, s)) == multiset(s)
    decreases |codes|
  {
    if codes != [] {
      var k := |codes| - 1;
      var init := codes[..k];
      ValidCodesPrefix(codes, |s|, k);
      PicksAndPool(init, s);
      var pool, c := Pool(init, s), codes[k];
      assert Picks(codes, s) == Picks(init, s) + [pool[c]];
      assert Pool(codes, s) == RemoveAt(pool, c);
      RemoveAtMultiset(pool, c);
    }
  }

  /** A full set of codes picks a permutation of the items. */
  lemma PicksPermutation<T>(codes: seq<nat>, s: seq<T>)
    requires ValidCodes(codes, |s|) && |codes| == |s|
    ensures multiset(Picks(codes, s)) == multiset(s)
  {
    PicksAndPool(codes, s);
    assert Pool(codes, s) == [];
  }

  /** Moving one element from the front of the suffix to the end of the prefix. */
  lemma TakeOneMore<T>(s: seq<T>, k: nat)
    requires k < |s|
    ensures s[..k + 1] == s[..k] + [s[k]]
    ensures s[k..][0] == s[k] && RemoveAt(s[k..], 0) == s[k + 1..]
  {
  }

  /** Always picking the first candidate keeps the original order. */
  lemma {:induction false} PicksZeros<T>(codes: seq<nat>, s: seq<T>)
    requires ValidCodes(codes, |s|)
    requires forall k :: 0 <= k < |codes| ==> codes[k] == 0
    ensures Picks(codes, s) == s[..|codes|]
    ensures Pool(codes, s) == s[|codes|..]
    decreases |codes|
  {
    if codes != [] {
      var k := |codes| - 1;
      var init := codes[..k];
      ValidCodesPrefix(codes, |s|, k);
      PicksZeros(init, s);
      TakeOneMore(s, k);
      assert Picks(codes, s) == Picks(init, s) + [Pool(init, s)[codes[k]]];
      assert Pool(codes, s) == RemoveAt(Pool(init, s), codes[k]);
    }
  }

  /** Taking `x` out of a pool that holds `x` and the rest leaves the rest. */
  lemma RemoveAtLeaves<T>(pool: seq<T>, c: nat, x: T, rest: seq<T>)
    requires c < |pool| && pool[c] == x && multiset(pool) == multiset([x] + rest)
    ensures multiset(RemoveAt(pool, c)) == multiset(rest)
  {
    var left, after := multiset(RemoveAt(pool, c)), multiset(rest);
    RemoveAtMultiset(pool, c);
    assert multiset([x] + rest) == multiset{x} + after;
    forall y
      ensures left[y] == after[y]
    {
      assert multiset(pool)[y] == (left + multiset{x})[y] == (multiset{x} + after)[y];
    }
  }

  /** The element at `k - 1` splits `q` around it. */
  lemma SplitBefore<T>(q: seq<T>, k: nat)
    requires 0 < k <= |q|
    ensures q[k - 1..] == [q[k - 1]] + q[k..]
    ensures q[..k] == q[..k - 1] + [q[k - 1]]
  {
  }

  /** Every ordering of the items is picked by some codes: the first k of
      them are picked by k codes, which leave in the pool exactly the rest. */
  lemma {:induction false} PicksOntoPrefix<T>(q: seq<T>, s: seq<T>, k: nat) returns (codes: seq<nat>)
    requires |q| == |s| && multiset(q) == multiset(s) && k <= |q|
    ensures |codes| == k && ValidCodes(codes, |s|)
    ensures Picks(codes, s) == q[..k]
    ensures multiset(Pool(codes, s)) == multiset(q[k..])
    decreases k
  {
    if k == 0 {
      codes := [];
      assert q[0..] == q;
    } else {
      var init := PicksOntoPrefix(q, s, k - 1);
      var pool := Pool(init, s);
      var x := q[k - 1];
      SplitBefore(q, k);
      assert x in multiset(pool);
      var c :| 0 <= c < |pool| && pool[c] == x;
      PickStep(init, s, c);
      codes := init + [c];
      RemoveAtLeaves(pool, c, x, q[k..]);
    }
  }

  /** Every permutation of the items is what some full list of codes picks. */
  lemma PicksOnto<T>(q: seq<T>, s: seq<T>) returns (codes: seq<nat>)
    requires multiset(q) == multiset(s)
    ensures |codes| == |s| && ValidCodes(codes, |s|) && Picks(codes, s) == q
  {
    assert |q| == |multiset(q)| == |multiset(s)| == |s|;
    codes := PicksOntoPrefix(q, s, |q|);
    assert q[..|q|] == q;
  }

  /** Picking from a pool of indices and then looking the indices up is picking
      from the items themselves. */
  lemma GatherRemoveAt<T>(s: seq<T>, idxs: seq<nat>, c: nat)
    requires forall j :: 0 <= j < |idxs| ==> idxs[j] < |s|
    requires c < |idxs|
    ensures forall j :: 0 <= j < |RemoveAt(idxs, c)| ==> RemoveAt(idxs, c)[j] < |s|
    ensures Gather(s, RemoveAt(idxs, c)) == RemoveAt(Gather(s, idxs), c)
  {
  }

  /** The elements of `s` whose flip came up 1, in order. */
  function Chosen<T>(s: seq<T>, flips: seq<nat>): (r: seq<T>)
    requires |flips| == |s|
    ensures |r| <= |s|
    decreases |s|
  {
    if s == [] then []
    else
      var k := |s| - 1;
      Chosen(s[..k], flips[..k]) + (if flips[k] == 1 then [s[k]] else [])
  }

  lemma ChosenSnoc<T>(s: seq<T>, flips: seq<nat>, a: T, f: nat)
    requires |flips| == |s|
    ensures Chosen(s + [a], flips + [f]) == Chosen(s, flips) + (if f == 1 then [a] else [])
  {
    assert (s + [a])[..|s|] == s;
    assert (flips + [f])[..|s|] == flips;
  }

  /** Every chosen element comes from `s`, at most as often as it occurs there. */
  lemma {:induction false} ChosenSubMultiset<T>(s: seq<T>, flips: seq<nat>)
    requires |flips| == |s|
    ensures multiset(Chosen(s, flips)) <= multiset(s)
    decreases |s|
  {
    if s != [] {
      var k := |s| - 1;
      ChosenSubMultiset(s[..k], flips[..k]);
      assert s == s[..k] + [s[k]];
    }
  }

  /** All flips 1 keeps everything; no flip 1 keeps nothing. */
  lemma {:induction false} ChosenExtremes<T>(s: seq<T>, flips: seq<nat>)
    requires |flips| == |s|
    ensures (forall j :: 0 <= j < |s| ==> flips[j] == 1) ==> Chosen(s, flips) == s
    ensures (forall j :: 0 <= j < |s| ==> flips[j] != 1) ==> Chosen(s, flips) == []
    decreases |s|
  {
    if s != [] {
      var k := |s| - 1;
      ChosenExtremes(s[..k], flips[..k]);
      assert s == s[..k] + [s[k]];
    }
  }

  /** Each chosen element is the element at a position whose flip was 1, and
      the positions increase: the result is a subsequence of `s`. */
  lemma {:induction false} ChosenPositions<T>(s: seq<T>, flips: seq<nat>) returns (pos: seq<nat>)
    requires |flips| == |s|
    ensures |pos| == |Chosen(s, flips)|
    ensures forall i :: 0 <= i < |pos| ==> pos[i] < |s| && flips[pos[i]] == 1 && Chosen(s, flips)[i] == s[pos[i]]
    ensures forall i, j :: 0 <= i < j < |pos| ==> pos[i] < pos[j]
    ensures forall q :: 0 <= q < |s| && flips[q] == 1 ==> q in pos
    decreases |s|
  {
    if s == [] {
      pos := [];
    } else {
      var k := |s| - 1;
      var init := Chosen(s[..k], flips[..k]);
      pos := ChosenPositions(s[..k], flips[..k]);
      if flips[k] == 1 {
        assert Chosen(s, flips) == init + [s[k]];
        pos := pos + [k];
      } else {
        assert Chosen(s, flips) == init;
      }
    }
  }

  /** No element occurs twice. */
  ghost predicate Distinct<T>(s: seq<T>) {
    forall i, j :: 0 <= i < j < |s| ==> s[i] != s[j]
  }

  lemma {:induction false} PoolDistinct<T>(codes: seq<nat>, s: seq<T>)
    requires Distinct(s) && ValidCodes(codes, |s|)
    ensures Distinct(Pool(codes, s))
    decreases |codes|
  {
    if codes != [] {
      var k := |codes| - 1;
      ValidCodesPrefix(codes, |s|, k);
      PoolDistinct(codes[..k], s);
    }
  }

  /** The picks of a non-empty list of codes: those of all but the last code,
      then the candidate the last code selects. */
  lemma PicksSplit<T>(codes: seq<nat>, s: seq<T>)
    requires ValidCodes(codes, |s|) && codes != []
    ensures ValidCodes(codes[..|codes| - 1], |s|)
    ensures Picks(codes[..|codes| - 1], s) == Picks(codes, s)[..|codes| - 1]
    ensures codes[|codes| - 1] < |Pool(codes[..|codes| - 1], s)|
    ensures Picks(codes, s)[|codes| - 1] == Pool(codes[..|codes| - 1], s)[codes[|codes| - 1]]
  {
    var k := |codes| - 1;
    ValidCodesPrefix(codes, |s|, k);
    var init := Picks(codes[..k], s);
    assert Picks(codes, s) == init + [Pool(codes[..k], s)[codes[k]]];
    assert (init + [Pool(codes[..k], s)[codes[k]]])[..k] == init;
  }

  /** Over distinct items, two codes that select the same candidate from the
      same pool are the same code. */
  lemma PoolPickUnique<T>(codes: seq<nat>, s: seq<T>, a: nat, b: nat)
    requires Distinct(s) && ValidCodes(codes, |s|)
    requires a < |s| - |codes| && b < |s| - |codes|
    requires Pool(codes, s)[a] == Pool(codes, s)[b]
    ensures a == b
  {
    PoolDistinct(codes, s);
  }

  /** Over distinct items, different codes pick different orderings: each
      permutation comes from one set of codes only. */
  lemma {:induction false} PicksInjective<T>(c1: seq<nat>, c2: seq<nat>, s: seq<T>)
    requires Distinct(s) && ValidCodes(c1, |s|) && ValidCodes(c2, |s|) && |c1| == |c2|
    requires Picks(c1, s) == Picks(c2, s)
    ensures c1 == c2
    decreases |c1|
  {
    if c1 != [] {
      var k := |c1| - 1;
      var i1, i2 := c1[..k], c2[..k];
      PicksSplit(c1, s);
      PicksSplit(c2, s);
      PicksInjective(i1, i2, s);
      PoolPickUnique(i1, s, c1[k], c2[k]);
      SameInitAndLast(c1, c2);
    }
  }

  /** Over distinct items, an item is chosen exactly when its flip is 1. */
  lemma {:induction false} ChosenMember<T>(s: seq<T>, flips: seq<nat>, q: nat)
    requires Distinct(s) && |flips| == |s| && q < |s|
    ensures s[q] in Chosen(s, flips) <==> flips[q] == 1
    decreases |s|
  {
    var k := |s| - 1;
    var init := Chosen(s[..k], flips[..k]);
    assert Chosen(s, flips) == init + (if flips[k] == 1 then [s[k]] else []);
    ChosenSubMultiset(s[..k], flips[..k]);
    if q == k {
      assert s[k] !in multiset(s[..k]);
      assert s[k] !in init;
    } else {
      assert s[q] != s[k];
      assert s[q] == s[..k][q] && flips[q] == flips[..k][q];
      assert Distinct(s[..k]);
      ChosenMember(s[..k], flips[..k], q);
    }
  }

  /** Over distinct items, different 0/1 flips choose different subsets. */
  lemma ChosenInjective<T>(s: seq<T>, f1: seq<nat>, f2: seq<nat>)
    requires Distinct(s) && |f1| == |s| && |f2| == |s|
    requires forall j :: 0 <= j < |s| ==> f1[j] <= 1 && f2[j] <= 1
    requires Chosen(s, f1) == Chosen(s, f2)
    ensures f1 == f2
  {
    forall q | 0 <= q < |s|
      ensures f1[q] == f2[q]
    {
      ChosenMember(s, f1, q);
      ChosenMember(s, f2, q);
    }
  }
}
