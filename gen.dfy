/** The exhaustive sequence generator: a counter trace `v` replayed and
    extended by the draws of a pass, and a cursor `p` counting the draws made
    so far in the current pass. A caller runs its body, which draws, and then
    asks IsDone; it repeats the body until IsDone answers true. */
module Exhaustigen {
  import opened Trace
  import opened Choice

  class Gen {
    var v: seq<Counter>
    var p: nat

    /** The cursor never runs past the trace: every draw either reads the
        counter under the cursor or appends one exactly there. */
    ghost predicate Valid()
      reads this
    {
      p <= |v|
    }

    constructor ()
      ensures Valid() && v == [] && p == 0
    {
      v := [];
      p := 0;
    }

    /** is_done: scan from the tail for a counter below its bound; bump it,
        drop everything after it and rewind the cursor. If there is none, the
        enumeration is over and nothing changes. */
    method IsDone() returns (done: bool)
      modifies this
      ensures done <==> AllSpent(old(v))
      ensures done ==> v == old(v) && p == old(p)
      ensures !done ==> Advance(old(v)) == Some(v) && p == 0 && Valid()
    {
      var i := |v|;
      while i > 0
        invariant 0 <= i <= |v|
        invariant v == old(v) && p == old(p)
        invariant forall j :: i <= j < |v| ==> !Open(v[j])
      {
        var c := v[i - 1];
        if c.current < c.bound {
          v := v[..i - 1] + [Counter(c.current + 1, c.bound)];
          p := 0;
          return false;
        }
        i := i - 1;
      }
      return true;
    }

    /** gen: the value at the cursor, appending a fresh zero counter when the
        cursor is at the end of the trace; the counter's bound becomes `bound`. */
    method Draw(bound: nat) returns (x: nat)
      requires Valid()
      modifies this
      ensures Valid() && p == old(p) + 1
      ensures old(p) == |old(v)| ==> v == old(v) + [Counter(0, bound)] && x == 0
      ensures old(p) < |old(v)| ==>
        v == old(v)[old(p) := Counter(old(v)[old(p)].current, bound)] && x == old(v)[old(p)].current
      ensures Replays(old(v), old(p), v, p) && v[old(p)] == Counter(x, bound)
    {
      if p == |v| {
        v := v + [Counter(0, 0)];
      }
      p := p + 1;
      var c := v[p - 1];
      v := v[p - 1 := Counter(c.current, bound)];
      x := c.current;
    }

    /** flip: one draw with bound 1, true exactly when it produced 1. */
    method Flip() returns (b: bool)
      requires Valid()
      modifies this
      ensures Valid() && Replays(old(v), old(p), v, p) && p == old(p) + 1
      ensures v[old(p)].bound == 1 && (b <==> v[old(p)].current == 1)
    {
      var x := Draw(1);
      b := x == 1;
    }

    /** gen_vec: a length drawn with bound `lenBound`, then that many elements
        each drawn with bound `eltBound`. */
    method GenVec(lenBound: nat, eltBound: nat) returns (r: seq<nat>)
      requires Valid()
      modifies this
      ensures Valid() && Replays(old(v), old(p), v, p)
      ensures p == old(p) + 1 + |r|
      ensures v[old(p)] == Counter(|r|, lenBound)
      ensures forall i :: 0 <= i < |r| ==> v[old(p) + 1 + i] == Counter(r[i], eltBound)
      ensures old(p) == |old(v)| ==> r == []
    {
      var n := Draw(lenBound);
      var buf := new nat[n](_ => 0);
      var i := 0;
      while i < n
        invariant 0 <= i <= n
        invariant Valid() && Replays(old(v), old(p), v, p) && p == old(p) + 1 + i
        invariant v[old(p)] == Counter(n, lenBound)
        invariant forall k :: 0 <= k < i ==> v[old(p) + 1 + k] == Counter(buf[k], eltBound)
      {
        ghost var w, q := v, p;
        var x := Draw(eltBound);
        ReplaysChain(old(v), old(p), w, q, v, p);
        buf[i] := x;
        i := i + 1;
      }
      r := buf[..];
    }

    /** gen_comb: for non-empty `items`, a count n drawn with bound |items|,
        then n indices each drawn with bound |items| - 1; duplicates allowed.
        The index draws must land inside `items` (the source would throw). */
    method GenComb<T>(items: seq<T>) returns (r: seq<T>)
      requires Valid()
      requires |items| > 0 ==>
        forall j :: p < j < |v| && j - p <= v[p].current ==> v[j].current < |items|
      modifies this
      ensures Valid() && Replays(old(v), old(p), v, p)
      ensures |items| == 0 ==> r == [] && v == old(v) && p == old(p)
      ensures |items| > 0 ==> p == old(p) + 1 + |r| && v[old(p)] == Counter(|r|, |items|)
      ensures |items| > 0 ==> forall i :: 0 <= i < |r| ==>
        && v[old(p) + 1 + i].bound == |items| - 1
        && v[old(p) + 1 + i].current < |items|
        && r[i] == items[v[old(p) + 1 + i].current]
      ensures old(p) == |old(v)| ==> r == []
    {
      r := [];
      var sz := |items|;
      ReplaysNone(v, p);
      if sz > 0 {
        var n := Draw(sz);
        var i := 0;
        while i < n
          invariant 0 <= i <= n && |r| == i
          invariant Valid() && Replays(old(v), old(p), v, p) && p == old(p) + 1 + i
          invariant v[old(p)] == Counter(n, sz)
          invariant forall j :: old(p) < j < p ==>
            && v[j].bound == sz - 1
            && v[j].current < sz
            && r[j - old(p) - 1] == items[v[j].current]
        {
          ghost var w, q := v, p;
          var x := Draw(sz - 1);
          ReplaysChain(old(v), old(p), w, q, v, p);
          assert x < sz by {
            if q < |old(v)| {
              assert old(v)[old(p)].current == n;
              assert x == old(v)[q].current;
            }
          }
          r := r + [items[x]];
          assert r[q - old(p) - 1] == items[v[q].current];
          i := i + 1;
        }
      } else {
        ReplaysEmpty(old(v), old(p), v);
      }
    }

    /** gen_perm: for non-empty `items`, repeatedly draw an index into the
        pool of remaining item indices (bound one less than the pool's size),
        move that item to the result and erase it from the pool. The draws must
        land inside the pool (the source would index past it). */
    method GenPerm<T>(items: seq<T>) returns (r: seq<T>)
      requires Valid()
      requires forall j :: p <= j < |v| && j - p < |items| ==> v[j].current < |items| - (j - p)
      modifies this
      ensures Valid() && Replays(old(v), old(p), v, p)
      ensures p == old(p) + |items|
      ensures forall j :: old(p) <= j < p ==> v[j].bound == |items| - 1 - (j - old(p))
      ensures ValidCodes(Currents(v[old(p)..p]), |items|)
      ensures r == Picks(Currents(v[old(p)..p]), items)
      ensures multiset(r) == multiset(items)
      ensures old(p) == |old(v)| ==> r == items
    {
      r := [];
      var sz := |items|;
      ghost var codes: seq<nat> := [];
      if sz == 0 {
        PermStart(items, v, p, v, p, []);
      } else {
        var idxs := IndexPool(sz);
        PermStart(items, old(v), old(p), v, p, idxs);
        assert PermFits(old(v), old(p), sz);
        while |idxs| > 0
          invariant Valid() && PermProgress(items, old(v), old(p), v, p, codes, idxs, r)
          decreases |idxs|
        {
          codes, idxs, r := PermPick(items, old(v), old(p), codes, idxs, r);
        }
      }
      PermDone(items, old(v), old(p), v, p, codes, r);
    }

    /** One turn of gen_perm's loop: draw an index into the pool of remaining
        items, take that item, and drop it from the pool. */
    method PermPick<T>(items: seq<T>, ghost v0: seq<Counter>, ghost p0: nat,
                       ghost codes: seq<nat>, idxs: seq<nat>, r: seq<T>)
        returns (ghost codes': seq<nat>, idxs': seq<nat>, r': seq<T>)
      requires Valid() && |idxs| > 0
      requires PermFits(v0, p0, |items|) && PermProgress(items, v0, p0, v, p, codes, idxs, r)
      modifies this
      ensures Valid() && |idxs'| == |idxs| - 1
      ensures PermProgress(items, v0, p0, v, p, codes', idxs', r')
    {
      ghost var w := v;
      var x := Draw(|idxs| - 1);
      PermStep(items, v0, p0, w, p - 1, codes, idxs, r, v, x);
      r' := r + [items[idxs[x]]];
      idxs' := RemoveAt(idxs, x);
      codes' := codes + [x];
    }

    /** gen_subset: one flip per element of `items`, in order; an element is
        kept exactly when its flip is true. */
    method GenSubset<T>(items: seq<T>) returns (r: seq<T>)
      requires Valid()
      modifies this
      ensures Valid() && Replays(old(v), old(p), v, p)
      ensures p == old(p) + |items|
      ensures forall j :: old(p) <= j < p ==> v[j].bound == 1
      ensures r == Chosen(items, Currents(v[old(p)..p]))
      ensures old(p) == |old(v)| ==> r == []
    {
      r := [];
      ghost var flips: seq<nat> := [];
      SubsetStart(items, v, p);
      for i := 0 to |items|
        invariant Valid() && SubsetProgress(items, old(v), old(p), v, p, i, flips, r)
      {
        ghost var w := v;
        var b := Flip();
        SubsetStep(items, old(v), old(p), w, p - 1, i, flips, r, v, b);
        if b {
          r := r + [items[i]];
        }
        flips := flips + [v[p - 1].current];
      }
      SubsetDone(items, old(v), old(p), v, p, flips, r);
    }
  }

  /** The pool of candidate indices gen_perm starts from: 0, 1, ..., n-1. */
  method IndexPool(n: nat) returns (idxs: seq<nat>)
    ensures |idxs| == n
    ensures forall j :: 0 <= j < n ==> idxs[j] == j
  {
    idxs := [];
    var i := 0;
    while i < n
      invariant 0 <= i <= n && |idxs| == i
      invariant forall j :: 0 <= j < i ==> idxs[j] == j
    {
      idxs := idxs + [i];
      i := i + 1;
    }
  }

  /** The draws of a permutation of `n` items, made from cursor `p0` on,
      find stored values inside the shrinking pool. */
  ghost predicate PermFits(v0: seq<Counter>, p0: nat, n: nat) {
    forall j :: p0 <= j < |v0| && j - p0 < n ==> v0[j].current < n - (j - p0)
  }

  /** GenPerm part way: `codes` were drawn from `p0` on, `r` holds what they
      picked, and `idxs` lists the indices of the items still in the pool. */
  ghost predicate PermProgress<T>(items: seq<T>, v0: seq<Counter>, p0: nat, v: seq<Counter>, p: nat,
                                  codes: seq<nat>, idxs: seq<nat>, r: seq<T>)
  {
    && Replays(v0, p0, v, p)
    && p == p0 + |codes| && |codes| + |idxs| == |items|
    && (forall j :: p0 <= j < p ==> v[j] == Counter(codes[j - p0], |items| - 1 - (j - p0)))
    && ValidCodes(codes, |items|)
    && r == Picks(codes, items)
    && (forall j :: 0 <= j < |idxs| ==> idxs[j] < |items|)
    && Gather(items, idxs) == Pool(codes, items)
  }

  lemma PermStart<T>(items: seq<T>, v0: seq<Counter>, p0: nat, v: seq<Counter>, p: nat, idxs: seq<nat>)
    requires v == v0 && p == p0 && p0 <= |v0| && idxs == Range(|items|)
    ensures PermProgress(items, v0, p0, v, p, [], idxs, [])
  {
    ReplaysNone(v0, p0);
    assert Gather(items, idxs) == items;
  }

  lemma PermStep<T>(items: seq<T>, v0: seq<Counter>, p0: nat, v: seq<Counter>, p: nat,
                    codes: seq<nat>, idxs: seq<nat>, r: seq<T>, v1: seq<Counter>, x: nat)
    requires PermFits(v0, p0, |items|) && PermProgress(items, v0, p0, v, p, codes, idxs, r)
    requires |idxs| > 0 && Replays(v, p, v1, p + 1) && v1[p] == Counter(x, |idxs| - 1)
    ensures x < |idxs| && idxs[x] < |items|
    ensures PermProgress(items, v0, p0, v1, p + 1, codes + [x], RemoveAt(idxs, x), r + [items[idxs[x]]])
  {
    ReplaysChain(v0, p0, v, p, v1, p + 1);
    assert x < |idxs| by {
      if p < |v0| {
        assert x == v0[p].current;
      }
    }
    PickStep(codes, items, x);
    GatherRemoveAt(items, idxs, x);
  }

  lemma PermDone<T>(items: seq<T>, v0: seq<Counter>, p0: nat, v: seq<Counter>, p: nat,
                    codes: seq<nat>, r: seq<T>)
    requires PermProgress(items, v0, p0, v, p, codes, [], r)
    ensures p == p0 + |items|
    ensures forall j :: p0 <= j < p ==> v[j].bound == |items| - 1 - (j - p0)
    ensures Currents(v[p0..p]) == codes
    ensures ValidCodes(codes, |items|) && r == Picks(codes, items)
    ensures multiset(r) == multiset(items)
    ensures p0 == |v0| ==> r == items
  {
    assert Currents(v[p0..p]) == codes;
    assert multiset(r) == multiset(items) by {
      PicksPermutation(codes, items);
    }
    if p0 == |v0| {
      PicksZeros(codes, items);
    }
  }

  /** GenSubset part way: the first `i` items have been flipped for, from
      cursor `p0` on, and `r` holds those whose flip came up 1. */
  ghost predicate SubsetProgress<T>(items: seq<T>, v0: seq<Counter>, p0: nat, v: seq<Counter>, p: nat,
                                    i: nat, flips: seq<nat>, r: seq<T>)
  {
    && i <= |items|
    && Replays(v0, p0, v, p)
    && p == p0 + i && |flips| == i
    && (forall j :: p0 <= j < p ==> v[j] == Counter(flips[j - p0], 1))
    && r == Chosen(items[..i], flips)
  }

  lemma SubsetStart<T>(items: seq<T>, v0: seq<Counter>, p0: nat)
    requires p0 <= |v0|
    ensures SubsetProgress(items, v0, p0, v0, p0, 0, [], [])
  {
    ReplaysNone(v0, p0);
  }

  lemma SubsetStep<T>(items: seq<T>, v0: seq<Counter>, p0: nat, v: seq<Counter>, p: nat,
                      i: nat, flips: seq<nat>, r: seq<T>, v1: seq<Counter>, b: bool)
    requires SubsetProgress(items, v0, p0, v, p, i, flips, r) && i < |items|
    requires Replays(v, p, v1, p + 1) && v1[p].bound == 1 && (b <==> v1[p].current == 1)
    ensures SubsetProgress(items, v0, p0, v1, p + 1, i + 1, flips + [v1[p].current],
                           if b then r + [items[i]] else r)
  {
    ReplaysChain(v0, p0, v, p, v1, p + 1);
    assert items[..i + 1] == items[..i] + [items[i]];
    ChosenSnoc(items[..i], flips, items[i], v1[p].current);
  }

  lemma SubsetDone<T>(items: seq<T>, v0: seq<Counter>, p0: nat, v: seq<Counter>, p: nat,
                      flips: seq<nat>, r: seq<T>)
    requires SubsetProgress(items, v0, p0, v, p, |items|, flips, r)
    ensures Currents(v[p0..p]) == flips && r == Chosen(items, flips)
    ensures p0 == |v0| ==> r == []
  {
    assert items[..|items|] == items;
    assert Currents(v[p0..p]) == flips;
    if p0 == |v0| {
      ChosenExtremes(items, flips);
    }
  }
}
