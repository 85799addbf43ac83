/** The do-while loop around a body that is one gen_perm, or one gen_subset,
    of a fixed list of items. Both combinators draw the same bounds on every
    pass whatever the values drawn, so the odometer result for fixed bodies
    applies: the loop produces every ordering (n! passes) or every subset
    (2^n passes) of the items, each once. */
module Enumerate {
  import opened Trace
  import opened Choice
  import opened Exhaustigen
  import opened Driver

  function Factorial(n: nat): (r: nat)
    ensures r >= 1
  {
    if n == 0 then 1 else n * Factorial(n - 1)
  }

  function Pow2(n: nat): (r: nat)
    ensures r >= 1
  {
    if n == 0 then 1 else 2 * Pow2(n - 1)
  }

  /** The bounds a gen_perm of n items draws: n-1, n-2, ..., 0. */
  function PermBounds(n: nat): (b: seq<nat>)
    ensures |b| == n
    ensures forall j :: 0 <= j < n ==> b[j] == n - 1 - j
  {
    seq(n, j requires 0 <= j < n => n - 1 - j)
  }

  /** The bounds a gen_subset of n items draws: n flips. */
  function Ones(n: nat): (b: seq<nat>)
    ensures |b| == n
    ensures forall j :: 0 <= j < n ==> b[j] == 1
  {
    seq(n, j => 1)
  }

  /** n * (n-1) * ... * (n-k+1). */
  function Falling(n: nat, k: nat): nat
    requires k <= n
  {
    if k == 0 then 1 else Falling(n, k - 1) * (n - k + 1)
  }

  lemma {:induction false} SpacePermPrefix(n: nat, k: nat)
    requires k <= n
    ensures Space(PermBounds(n)[..k]) == Falling(n, k)
    decreases k
  {
    if k > 0 {
      var b := PermBounds(n)[..k];
      assert b[..k - 1] == PermBounds(n)[..k - 1];
      SpacePermPrefix(n, k - 1);
      TimesIsProduct(Falling(n, k - 1), n - k + 1);
    }
  }

  lemma {:induction false} FallingFactorial(n: nat, k: nat)
    requires k <= n
    ensures Falling(n, k) * Factorial(n - k) == Factorial(n)
    decreases k
  {
    if k > 0 {
      FallingFactorial(n, k - 1);
      var f := Falling(n, k - 1);
      var m := n - k;
      assert Factorial(m + 1) == (m + 1) * Factorial(m);
      assert Falling(n, k) == f * (m + 1);
      MulAssoc(f, m + 1, Factorial(m));
    }
  }

  lemma MulAssoc(a: nat, b: nat, c: nat)
    ensures (a * b) * c == a * (b * c)
  {
  }

  /** A gen_perm body has n! passes. */
  lemma PermSpace(n: nat)
    ensures Space(PermBounds(n)) == Factorial(n)
  {
    SpacePermPrefix(n, n);
    assert PermBounds(n)[..n] == PermBounds(n);
    FallingFactorial(n, n);
  }

  /** A gen_subset body has 2^n passes. */
  lemma {:induction false} SubsetSpace(n: nat)
    ensures Space(Ones(n)) == Pow2(n)
    decreases n
  {
    if n > 0 {
      assert Ones(n)[..n - 1] == Ones(n - 1);
      SubsetSpace(n - 1);
      TimesIsProduct(Pow2(n - 1), 2);
    }
  }

  /** Full codes of a permutation are exactly the tuples within its bounds. */
  lemma PermCodesWithin(codes: seq<nat>, n: nat)
    ensures (|codes| == n && ValidCodes(codes, n)) <==> Within(codes, PermBounds(n))
  {
  }

  /** Loop state shared by both drivers: the values each pass drew, and what
      the body returned from them. */
  ghost predicate PermsSoFar<T>(items: seq<T>, outputs: seq<seq<nat>>, perms: seq<seq<T>>) {
    && |perms| == |outputs|
    && forall k {:trigger outputs[k]} :: 0 <= k < |outputs| ==>
         |outputs[k]| == |items| && ValidCodes(outputs[k], |items|) && perms[k] == Picks(outputs[k], items)
  }

  ghost predicate SubsetsSoFar<T>(items: seq<T>, outputs: seq<seq<nat>>, subsets: seq<seq<T>>) {
    && |subsets| == |outputs|
    && forall k {:trigger outputs[k]} :: 0 <= k < |outputs| ==>
         |outputs[k]| == |items| && subsets[k] == Chosen(items, outputs[k])
  }

  /** A trace whose replayed tuple is within the bounds holds values within them. */
  lemma ReplayWithin(v: seq<Counter>, b: seq<nat>)
    requires |v| <= |b| && Within(Currents(v) + Zeros(|b| - |v|), b)
    ensures forall j :: 0 <= j < |v| ==> v[j].current <= b[j]
  {
    var t := Currents(v) + Zeros(|b| - |v|);
    assert forall j :: 0 <= j < |v| ==> t[j] == v[j].current;
  }

  /** What a gen_perm pass from cursor 0 leaves: the trace is the codes it
      drew, zipped with the bounds n-1, n-2, ..., 0, and those codes are the
      replayed tuple. */
  lemma PermPassTrace(n: nat, v: seq<Counter>, w: seq<Counter>)
    requires |v| <= n && Replays(v, 0, w, n)
    requires forall j :: 0 <= j < n ==> w[j].bound == n - 1 - j
    ensures |w| == n && w == Zip(Currents(w[0..n]), PermBounds(n))
    ensures Currents(w[0..n]) == Currents(v) + Zeros(n - |v|)
  {
    PassTrace(v, w, PermBounds(n));
    assert w[0..n] == w;
  }

  /** What a gen_subset pass from cursor 0 leaves: the trace is the flips it
      drew, each zipped with the bound 1, and those flips are the replayed
      tuple. */
  lemma SubsetPassTrace(n: nat, v: seq<Counter>, w: seq<Counter>)
    requires |v| <= n && Replays(v, 0, w, n)
    requires forall j :: 0 <= j < n ==> w[j].bound == 1
    ensures |w| == n && w == Zip(Currents(w[0..n]), Ones(n))
    ensures Currents(w[0..n]) == Currents(v) + Zeros(n - |v|)
  {
    PassTrace(v, w, Ones(n));
    assert w[0..n] == w;
  }

  /** One pass of the perm loop's body: a single gen_perm from the start of
      the trace. It leaves the trace of the codes it drew, and returns the
      ordering those codes pick. */
  method PermBody<T>(g: Gen, items: seq<T>) returns (perm: seq<T>, ghost codes: seq<nat>)
    requires g.Valid() && g.p == 0 && |g.v| <= |items|
    requires Within(Currents(g.v) + Zeros(|items| - |g.v|), PermBounds(|items|))
    modifies g
    ensures g.Valid() && g.p == |items| && |codes| == |items| && g.v == Zip(codes, PermBounds(|items|))
    ensures codes == Currents(old(g.v)) + Zeros(|items| - |old(g.v)|)
    ensures ValidCodes(codes, |items|) && perm == Picks(codes, items)
  {
    ghost var v := g.v;
    ReplayWithin(v, PermBounds(|items|));
    perm := g.GenPerm(items);
    codes := Currents(g.v[0..g.p]);
    PermPassTrace(|items|, v, g.v);
  }

  /** One pass of the subset loop's body: a single gen_subset from the start
      of the trace. It leaves the trace of the flips it drew, and returns the
      subset those flips choose. */
  method SubsetBody<T>(g: Gen, items: seq<T>) returns (subset: seq<T>, ghost flips: seq<nat>)
    requires g.Valid() && g.p == 0 && |g.v| <= |items|
    modifies g
    ensures g.Valid() && g.p == |items| && |flips| == |items| && g.v == Zip(flips, Ones(|items|))
    ensures flips == Currents(old(g.v)) + Zeros(|items| - |old(g.v)|)
    ensures subset == Chosen(items, flips)
  {
    ghost var v := g.v;
    subset := g.GenSubset(items);
    flips := Currents(g.v[0..g.p]);
    SubsetPassTrace(|items|, v, g.v);
  }

  /** One more pass extends the perm loop's record. */
  lemma PermsSnoc<T>(items: seq<T>, outputs: seq<seq<nat>>, perms: seq<seq<T>>, codes: seq<nat>, perm: seq<T>)
    requires PermsSoFar(items, outputs, perms)
    requires |codes| == |items| && ValidCodes(codes, |items|) && perm == Picks(codes, items)
    ensures PermsSoFar(items, outputs + [codes], perms + [perm])
  {
    var outs, ps := outputs + [codes], perms + [perm];
    forall k | 0 <= k < |outs|
      ensures |outs[k]| == |items| && ValidCodes(outs[k], |items|) && ps[k] == Picks(outs[k], items)
    {
      if k < |outputs| {
        assert outs[k] == outputs[k] && ps[k] == perms[k];
      }
    }
  }

  /** One more pass extends the subset loop's record. */
  lemma SubsetsSnoc<T>(items: seq<T>, outputs: seq<seq<nat>>, subsets: seq<seq<T>>, flips: seq<nat>, subset: seq<T>)
    requires SubsetsSoFar(items, outputs, subsets)
    requires |flips| == |items| && subset == Chosen(items, flips)
    ensures SubsetsSoFar(items, outputs + [flips], subsets + [subset])
  {
    var outs, ss := outputs + [flips], subsets + [subset];
    forall k | 0 <= k < |outs|
      ensures |outs[k]| == |items| && ss[k] == Chosen(items, outs[k])
    {
      if k < |outputs| {
        assert outs[k] == outputs[k] && ss[k] == subsets[k];
      }
    }
  }

  /** do { perms.push(g.gen_perm(items)) } while (!g.is_done()): n! passes,
      each a reordering of the items, the first the items in order, every
      choice of pick order and so every ordering reached, and no ordering
      twice when the items are distinct. */
  method RunPerm<T>(items: seq<T>) returns (perms: seq<seq<T>>)
    ensures |perms| == Factorial(|items|)
    ensures forall k :: 0 <= k < |perms| ==> multiset(perms[k]) == multiset(items)
    ensures perms[0] == items
    ensures forall codes :: |codes| == |items| && ValidCodes(codes, |items|) ==> Picks(codes, items) in perms
    ensures forall q :: multiset(q) == multiset(items) ==> q in perms
    ensures Distinct(items) ==> forall i, j :: 0 <= i < j < |perms| ==> perms[i] != perms[j]
  {
    var g := new Gen();
    perms := [];
    var done := false;
    ghost var b := PermBounds(|items|);
    ghost var outputs: seq<seq<nat>> := [];
    while !done
      invariant fresh(g) && g.Valid() && DriverProgress(outputs, b, g.v, g.p, done)
      invariant PermsSoFar(items, outputs, perms)
      decreases Space(b) - |outputs|
    {
      DriverEntry(outputs, b, g.v, g.p);
      ghost var v := g.v;
      var perm, codes := PermBody(g, items);
      done := g.IsDone();
      DriverStep(outputs, b, v, codes, g.v, g.p, done);
      PermsSnoc(items, outputs, perms, codes, perm);
      outputs := outputs + [codes];
      perms := perms + [perm];
    }
    DriverDone(outputs, b, g.v, g.p);
    PermResults(items, outputs, perms);
  }

  /** Everything the finished perm loop promises, from its outputs and record. */
  lemma PermResults<T>(items: seq<T>, outputs: seq<seq<nat>>, perms: seq<seq<T>>)
    requires Enumerates(outputs, PermBounds(|items|)) && outputs[0] == Zeros(|items|)
    requires PermsSoFar(items, outputs, perms)
    ensures |perms| == Factorial(|items|)
    ensures forall k :: 0 <= k < |perms| ==> multiset(perms[k]) == multiset(items)
    ensures perms[0] == items
    ensures forall codes :: |codes| == |items| && ValidCodes(codes, |items|) ==> Picks(codes, items) in perms
    ensures forall q :: multiset(q) == multiset(items) ==> q in perms
    ensures Distinct(items) ==> forall i, j :: 0 <= i < j < |perms| ==> perms[i] != perms[j]
  {
    PermRun(items, outputs, perms);
    PermsEveryOrdering(items, perms);
    if Distinct(items) {
      PermsDistinct(items, outputs, perms);
    }
  }

  /** What the finished loop's outputs give for a gen_perm body. */
  lemma PermRun<T>(items: seq<T>, outputs: seq<seq<nat>>, perms: seq<seq<T>>)
    requires Enumerates(outputs, PermBounds(|items|)) && outputs[0] == Zeros(|items|)
    requires PermsSoFar(items, outputs, perms)
    ensures |perms| == Factorial(|items|)
    ensures forall k :: 0 <= k < |perms| ==> multiset(perms[k]) == multiset(items)
    ensures perms[0] == items
    ensures forall codes :: |codes| == |items| && ValidCodes(codes, |items|) ==> Picks(codes, items) in perms
  {
    assert |perms| == Factorial(|items|) by {
      PermSpace(|items|);
    }
    forall k | 0 <= k < |perms|
      ensures multiset(perms[k]) == multiset(items)
    {
      PicksPermutation(outputs[k], items);
    }
    PicksZeros(outputs[0], items);
    assert items[..|items|] == items;
    PermsComplete(items, outputs, perms);
  }

  /** Every full set of codes is drawn on some pass. */
  lemma PermsComplete<T>(items: seq<T>, outputs: seq<seq<nat>>, perms: seq<seq<T>>)
    requires Enumerates(outputs, PermBounds(|items|)) && PermsSoFar(items, outputs, perms)
    ensures forall codes :: |codes| == |items| && ValidCodes(codes, |items|) ==> Picks(codes, items) in perms
  {
    forall codes | |codes| == |items| && ValidCodes(codes, |items|)
      ensures Picks(codes, items) in perms
    {
      var k := PermReached(items, outputs, perms, codes);
    }
  }

  lemma PermReached<T>(items: seq<T>, outputs: seq<seq<nat>>, perms: seq<seq<T>>, codes: seq<nat>)
      returns (k: nat)
    requires Enumerates(outputs, PermBounds(|items|)) && PermsSoFar(items, outputs, perms)
    requires |codes| == |items| && ValidCodes(codes, |items|)
    ensures k < |perms| && perms[k] == Picks(codes, items)
  {
    PermCodesWithin(codes, |items|);
    EveryTupleVisited(outputs, PermBounds(|items|), codes);
    k := Space(PermBounds(|items|)) - 1 - Rem(codes, PermBounds(|items|));
    assert outputs[k] == codes;
  }

  /** Reaching every list of codes reaches every ordering of the items. */
  lemma PermsEveryOrdering<T>(items: seq<T>, perms: seq<seq<T>>)
    requires forall codes :: |codes| == |items| && ValidCodes(codes, |items|) ==> Picks(codes, items) in perms
    ensures forall q :: multiset(q) == multiset(items) ==> q in perms
  {
    forall q | multiset(q) == multiset(items)
      ensures q in perms
    {
      var codes := PicksOnto(q, items);
    }
  }

  lemma PermsDistinct<T>(items: seq<T>, outputs: seq<seq<nat>>, perms: seq<seq<T>>)
    requires Enumerates(outputs, PermBounds(|items|)) && PermsSoFar(items, outputs, perms)
    requires Distinct(items)
    ensures forall i, j :: 0 <= i < j < |perms| ==> perms[i] != perms[j]
  {
    forall i, j | 0 <= i < j < |perms|
      ensures perms[i] != perms[j]
    {
      NoTupleRepeated(outputs, PermBounds(|items|), i, j);
      if perms[i] == perms[j] {
        PicksInjective(outputs[i], outputs[j], items);
      }
    }
  }

  /** do { subsets.push(g.gen_subset(items)) } while (!g.is_done()): 2^n
      passes, each a selection of the items, from none to all, every choice of
      flips reached, and no subset twice when the items are distinct. */
  method RunSubset<T>(items: seq<T>) returns (subsets: seq<seq<T>>)
    ensures |subsets| == Pow2(|items|)
    ensures forall k :: 0 <= k < |subsets| ==> multiset(subsets[k]) <= multiset(items)
    ensures subsets[0] == [] && subsets[|subsets| - 1] == items
    ensures forall flips :: Within(flips, Ones(|items|)) ==> Chosen(items, flips) in subsets
    ensures Distinct(items) ==> forall i, j :: 0 <= i < j < |subsets| ==> subsets[i] != subsets[j]
  {
    var g := new Gen();
    subsets := [];
    var done := false;
    ghost var b := Ones(|items|);
    ghost var outputs: seq<seq<nat>> := [];
    while !done
      invariant fresh(g) && g.Valid() && DriverProgress(outputs, b, g.v, g.p, done)
      invariant SubsetsSoFar(items, outputs, subsets)
      decreases Space(b) - |outputs|
    {
      DriverEntry(outputs, b, g.v, g.p);
      ghost var v := g.v;
      var subset, flips := SubsetBody(g, items);
      done := g.IsDone();
      DriverStep(outputs, b, v, flips, g.v, g.p, done);
      SubsetsSnoc(items, outputs, subsets, flips, subset);
      outputs := outputs + [flips];
      subsets := subsets + [subset];
    }
    DriverDone(outputs, b, g.v, g.p);
    SubsetResults(items, outputs, subsets);
  }

  /** Everything the finished subset loop promises, from its outputs and record. */
  lemma SubsetResults<T>(items: seq<T>, outputs: seq<seq<nat>>, subsets: seq<seq<T>>)
    requires Enumerates(outputs, Ones(|items|)) && outputs[0] == Zeros(|items|)
    requires outputs[|outputs| - 1] == Ones(|items|)
    requires SubsetsSoFar(items, outputs, subsets)
    ensures |subsets| == Pow2(|items|)
    ensures forall k :: 0 <= k < |subsets| ==> multiset(subsets[k]) <= multiset(items)
    ensures subsets[0] == [] && subsets[|subsets| - 1] == items
    ensures forall flips :: Within(flips, Ones(|items|)) ==> Chosen(items, flips) in subsets
    ensures Distinct(items) ==> forall i, j :: 0 <= i < j < |subsets| ==> subsets[i] != subsets[j]
  {
    SubsetRun(items, outputs, subsets);
    SubsetEnds(items, outputs, subsets);
    if Distinct(items) {
      SubsetsDistinct(items, outputs, subsets);
    }
  }

  /** What the finished loop's outputs give for a gen_subset body. */
  lemma SubsetRun<T>(items: seq<T>, outputs: seq<seq<nat>>, subsets: seq<seq<T>>)
    requires Enumerates(outputs, Ones(|items|))
    requires SubsetsSoFar(items, outputs, subsets)
    ensures |subsets| == Pow2(|items|)
    ensures forall k :: 0 <= k < |subsets| ==> multiset(subsets[k]) <= multiset(items)
    ensures forall flips :: Within(flips, Ones(|items|)) ==> Chosen(items, flips) in subsets
  {
    SubsetSpace(|items|);
    SubsetsOfItems(items, outputs, subsets);
    SubsetsComplete(items, outputs, subsets);
  }

  /** Every pass returns a sub-multiset of the items. */
  lemma SubsetsOfItems<T>(items: seq<T>, outputs: seq<seq<nat>>, subsets: seq<seq<T>>)
    requires SubsetsSoFar(items, outputs, subsets)
    ensures forall k :: 0 <= k < |subsets| ==> multiset(subsets[k]) <= multiset(items)
  {
    forall k | 0 <= k < |subsets|
      ensures multiset(subsets[k]) <= multiset(items)
    {
      ChosenSubMultiset(items, outputs[k]);
    }
  }

  /** The first pass chooses nothing and the last chooses everything. */
  lemma SubsetEnds<T>(items: seq<T>, outputs: seq<seq<nat>>, subsets: seq<seq<T>>)
    requires SubsetsSoFar(items, outputs, subsets) && outputs != []
    requires outputs[0] == Zeros(|items|) && outputs[|outputs| - 1] == Ones(|items|)
    ensures subsets[0] == [] && subsets[|subsets| - 1] == items
  {
    ChosenExtremes(items, outputs[0]);
    ChosenExtremes(items, outputs[|outputs| - 1]);
  }

  /** Every choice of flips is drawn on some pass. */
  lemma SubsetsComplete<T>(items: seq<T>, outputs: seq<seq<nat>>, subsets: seq<seq<T>>)
    requires Enumerates(outputs, Ones(|items|)) && SubsetsSoFar(items, outputs, subsets)
    ensures forall flips :: Within(flips, Ones(|items|)) ==> Chosen(items, flips) in subsets
  {
    forall flips | Within(flips, Ones(|items|))
      ensures Chosen(items, flips) in subsets
    {
      var k := SubsetReached(items, outputs, subsets, flips);
    }
  }

  lemma SubsetReached<T>(items: seq<T>, outputs: seq<seq<nat>>, subsets: seq<seq<T>>, flips: seq<nat>)
      returns (k: nat)
    requires Enumerates(outputs, Ones(|items|)) && SubsetsSoFar(items, outputs, subsets)
    requires Within(flips, Ones(|items|))
    ensures k < |subsets| && subsets[k] == Chosen(items, flips)
  {
    EveryTupleVisited(outputs, Ones(|items|), flips);
    k := Space(Ones(|items|)) - 1 - Rem(flips, Ones(|items|));
    assert outputs[k] == flips;
  }

  lemma SubsetsDistinct<T>(items: seq<T>, outputs: seq<seq<nat>>, subsets: seq<seq<T>>)
    requires Enumerates(outputs, Ones(|items|)) && SubsetsSoFar(items, outputs, subsets)
    requires Distinct(items)
    ensures forall i, j :: 0 <= i < j < |subsets| ==> subsets[i] != subsets[j]
  {
    forall i, j | 0 <= i < j < |subsets|
      ensures subsets[i] != subsets[j]
    {
      NoTupleRepeated(outputs, Ones(|items|), i, j);
      if subsets[i] == subsets[j] {
        ChosenInjective(items, outputs[i], outputs[j]);
      }
    }
  }
}
