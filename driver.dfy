/** The caller's side of the protocol: a do-while loop around a body whose
    draws are the same fixed list of bounds on every pass. Such a loop visits
    every tuple of values within the bounds exactly once, in odometer order
    (the last draw changes fastest), and stops after the last one. */
module Driver {
  import opened Trace
  import opened Exhaustigen

  /** Each value is within its inclusive bound. */
  predicate Within(d: seq<nat>, b: seq<nat>) {
    |d| == |b| && forall j :: 0 <= j < |d| ==> d[j] <= b[j]
  }

  /** The trace a pass of the fixed body leaves: value d[j] drawn with bound b[j]. */
  function Zip(d: seq<nat>, b: seq<nat>): (r: seq<Counter>)
    requires |d| == |b|
    ensures |r| == |d|
    ensures forall j :: 0 <= j < |d| ==> r[j] == Counter(d[j], b[j])
  {
    seq(|d|, j requires 0 <= j < |d| => Counter(d[j], b[j]))
  }

  /** The odometer successor of a tuple: the last value below its bound goes
      up by one and every value after it restarts at zero; None for the last
      tuple. */
  function NextTuple(d: seq<nat>, b: seq<nat>): (r: Option<seq<nat>>)
    requires |d| == |b|
    ensures r.Some? ==> |r.value| == |d|
    decreases |d|
  {
    if d == [] then None
    else
      var k := |d| - 1;
      if d[k] < b[k] then Some(d[..k] + [d[k] + 1])
      else match NextTuple(d[..k], b[..k])
        case None => None
        case Some(t) => Some(t + [0])
  }

  /** The number of tuples within the bounds. */
  function Space(b: seq<nat>): (n: nat)
    ensures n >= 1
    decreases |b|
  {
    if b == [] then 1
    else
      var k := |b| - 1;
      Times(Space(b[..k]), b[k] + 1)
  }

  /** The number of tuples after `d` in odometer order (`d` read as a
      mixed-radix numeral, counted down from the last tuple). */
  function Rem(d: seq<nat>, b: seq<nat>): nat
    requires Within(d, b)
    decreases |d|
  {
    if d == [] then 0
    else
      var k := |d| - 1;
      Times(Rem(d[..k], b[..k]), b[k] + 1) + (b[k] - d[k])
  }

  /** outputs lists every tuple within `b`, in odometer order. */
  ghost predicate Enumerates(outputs: seq<seq<nat>>, b: seq<nat>) {
    && |outputs| == Space(b)
    && forall k :: 0 <= k < |outputs| ==>
         Within(outputs[k], b) && Rem(outputs[k], b) == |outputs| - 1 - k
  }

  /** x * m, unfolded as repeated addition so that the proofs about ranks
      need only linear arithmetic. */
  function Times(x: nat, m: nat): nat
    decreases x
  {
    if x == 0 then 0 else Times(x - 1, m) + m
  }

  lemma {:induction false} TimesIsProduct(x: nat, m: nat)
    ensures Times(x, m) == x * m
    decreases x
  {
    if x > 0 {
      TimesIsProduct(x - 1, m);
    }
  }

  lemma {:induction false} TimesMonotone(a: nat, c: nat, m: nat)
    requires a <= c
    ensures Times(a, m) <= Times(c, m)
    decreases c
  {
    if a < c {
      TimesMonotone(a, c - 1, m);
    }
  }

  /** Dropping a spent counter from the tail does not change the odometer step. */
  lemma AdvanceSpentTail(v: seq<Counter>)
    requires v != [] && !Open(v[|v| - 1])
    ensures Advance(v) == Advance(v[..|v| - 1])
  {
    var init := v[..|v| - 1];
    assert RightmostOpen(v) == RightmostOpen(init);
    match RightmostOpen(init)
    case None =>
    case Some(k) =>
      assert v[..k] == init[..k];
  }

  /** What AdvanceZip states, for one tuple and its trace. */
  ghost predicate StepAgrees(d: seq<nat>, b: seq<nat>)
    requires |d| == |b|
  {
    && (Advance(Zip(d, b)).None? <==> NextTuple(d, b).None?)
    && (Advance(Zip(d, b)).Some? ==>
          var w := Advance(Zip(d, b)).value;
          && |w| <= |b|
          && (forall j :: 0 <= j < |w| ==> w[j].bound == b[j])
          && NextTuple(d, b).value == Currents(w) + Zeros(|b| - |w|))
  }

  /** The last value below its bound: both steps bump it and keep the rest. */
  lemma StepAgreesOpenTail(d: seq<nat>, b: seq<nat>)
    requires |d| == |b| && d != [] && d[|d| - 1] < b[|b| - 1]
    ensures StepAgrees(d, b)
  {
    var k := |d| - 1;
    var v := Zip(d, b);
    assert RightmostOpen(v) == Some(k);
    assert Currents(Advance(v).value) == d[..k] + [d[k] + 1];
  }

  /** The last value at its bound: the odometer step forgets it, the
      successor tuple resets it to zero. */
  lemma StepAgreesSpentTail(d: seq<nat>, b: seq<nat>)
    requires |d| == |b| && d != [] && d[|d| - 1] >= b[|b| - 1]
    requires StepAgrees(d[..|d| - 1], b[..|b| - 1])
    ensures StepAgrees(d, b)
  {
    var k := |d| - 1;
    var v := Zip(d, b);
    assert v[..k] == Zip(d[..k], b[..k]);
    AdvanceSpentTail(v);
    match NextTuple(d[..k], b[..k])
    case None =>
    case Some(t) =>
      var w := Advance(v).value;
      assert Currents(w) + Zeros(|b| - |w|) == Currents(w) + Zeros(k - |w|) + [0];
  }

  /** On the trace of a completed pass, the odometer step and the successor
      tuple agree: the next pass replays what the step kept and draws zeros
      where the step truncated. */
  lemma {:induction false} AdvanceZip(d: seq<nat>, b: seq<nat>)
    requires |d| == |b|
    ensures Advance(Zip(d, b)).None? <==> NextTuple(d, b).None?
    ensures Advance(Zip(d, b)).Some? ==>
      var w := Advance(Zip(d, b)).value;
      && |w| <= |b|
      && (forall j :: 0 <= j < |w| ==> w[j].bound == b[j])
      && NextTuple(d, b).value == Currents(w) + Zeros(|b| - |w|)
    decreases |d|
  {
    if d == [] {
    } else if d[|d| - 1] < b[|b| - 1] {
      StepAgreesOpenTail(d, b);
    } else {
      AdvanceZip(d[..|d| - 1], b[..|b| - 1]);
      StepAgreesSpentTail(d, b);
    }
  }

  /** Each step of the odometer moves one tuple closer to the last one. */
  lemma {:induction false} RemNext(d: seq<nat>, b: seq<nat>)
    requires Within(d, b) && NextTuple(d, b).Some?
    ensures Within(NextTuple(d, b).value, b)
    ensures Rem(NextTuple(d, b).value, b) + 1 == Rem(d, b)
    decreases |d|
  {
    var k := |d| - 1;
    var t := NextTuple(d, b).value;
    var m := b[k] + 1;
    if d[k] < b[k] {
      assert t == d[..k] + [d[k] + 1] && t[..k] == d[..k];
      assert Rem(t, b) == Times(Rem(d[..k], b[..k]), m) + (b[k] - d[k] - 1);
    } else {
      var u := NextTuple(d[..k], b[..k]).value;
      assert t == u + [0] && t[..k] == u;
      RemNext(d[..k], b[..k]);
      assert Rem(t, b) == Times(Rem(u, b[..k]), m) + b[k];
      assert Rem(d, b) == Times(Rem(u, b[..k]) + 1, m);
    }
  }

  /** The odometer stops exactly at the tuple of bounds, the only tuple with
      nothing after it. */
  lemma {:induction false} LastTuple(d: seq<nat>, b: seq<nat>)
    requires Within(d, b)
    ensures NextTuple(d, b).None? <==> d == b
    ensures Rem(d, b) == 0 <==> d == b
    decreases |d|
  {
    if d != [] {
      var k := |d| - 1;
      LastTuple(d[..k], b[..k]);
      assert d == d[..k] + [d[k]] && b == b[..k] + [b[k]];
      if Rem(d[..k], b[..k]) > 0 {
        TimesMonotone(1, Rem(d[..k], b[..k]), b[k] + 1);
      }
    }
  }

  /** The first tuple has every other tuple after it. */
  lemma {:induction false} RemZeros(b: seq<nat>)
    ensures Within(Zeros(|b|), b)
    ensures Rem(Zeros(|b|), b) + 1 == Space(b)
    decreases |b|
  {
    if b != [] {
      var k := |b| - 1;
      assert Zeros(|b|)[..k] == Zeros(k);
      RemZeros(b[..k]);
    }
  }

  /** There are no more than Space(b) tuples. */
  lemma {:induction false} RemBelowSpace(d: seq<nat>, b: seq<nat>)
    requires Within(d, b)
    ensures Rem(d, b) < Space(b)
    decreases |d|
  {
    if d != [] {
      var k := |d| - 1;
      RemBelowSpace(d[..k], b[..k]);
      TimesMonotone(Rem(d[..k], b[..k]) + 1, Space(b[..k]), b[k] + 1);
    }
  }

  /** A mixed-radix numeral has one reading: the high part and the low
      digit (below the radix) are both determined. */
  lemma {:induction false} DigitSplit(x: nat, dx: nat, y: nat, dy: nat, m: nat)
    requires dx < m && dy < m && Times(x, m) + dx == Times(y, m) + dy
    ensures x == y && dx == dy
    decreases x
  {
    if x > 0 && y > 0 {
      DigitSplit(x - 1, dx, y - 1, dy, m);
    }
  }

  /** The rank of a tuple: the rank of all but its last value, scaled, plus
      the room left in its last value. */
  lemma RemSplit(d: seq<nat>, b: seq<nat>)
    requires Within(d, b) && d != []
    ensures Within(d[..|d| - 1], b[..|d| - 1])
    ensures Rem(d, b) == Times(Rem(d[..|d| - 1], b[..|d| - 1]), b[|d| - 1] + 1) + (b[|d| - 1] - d[|d| - 1])
  {
  }

  /** Different tuples have different positions in the order. */
  lemma {:induction false} RemInjective(d: seq<nat>, e: seq<nat>, b: seq<nat>)
    requires Within(d, b) && Within(e, b) && Rem(d, b) == Rem(e, b)
    ensures d == e
    decreases |d|
  {
    if d != [] {
      var k := |d| - 1;
      var d', e', b' := d[..k], e[..k], b[..k];
      RemSplit(d, b);
      RemSplit(e, b);
      DigitSplit(Rem(d', b'), b[k] - d[k], Rem(e', b'), b[k] - e[k], b[k] + 1);
      RemInjective(d', e', b');
      SameInitAndLast(d, e);
    }
  }

  /** The body of the caller's loop: one unconditional draw per bound, in
      order. It replays the values the trace still holds and draws zeros
      past its end. */
  method FixedBody(g: Gen, bounds: seq<nat>) returns (tuple: seq<nat>)
    requires g.Valid() && g.p == 0 && |g.v| <= |bounds|
    modifies g
    ensures g.Valid() && g.p == |bounds| && |tuple| == |bounds| && g.v == Zip(tuple, bounds)
    ensures tuple == Currents(old(g.v)) + Zeros(|bounds| - |old(g.v)|)
  {
    tuple := [];
    ReplaysNone(g.v, 0);
    for i := 0 to |bounds|
      invariant g.Valid() && Replays(old(g.v), 0, g.v, i) && g.p == i && |tuple| == i
      invariant forall j :: 0 <= j < i ==> g.v[j] == Counter(tuple[j], bounds[j])
    {
      ghost var w := g.v;
      var x := g.Draw(bounds[i]);
      ReplaysChain(old(g.v), 0, w, i, g.v, i + 1);
      tuple := tuple + [x];
    }
    assert g.v == Zip(tuple, bounds);
    assert tuple == Currents(old(g.v)) + Zeros(|bounds| - |old(g.v)|);
  }

  /** outputs[k] is within the bounds and has rank Space(b) - 1 - k. */
  ghost predicate Ranked(outputs: seq<seq<nat>>, b: seq<nat>) {
    forall k :: 0 <= k < |outputs| ==> Within(outputs[k], b) && Rem(outputs[k], b) == Space(b) - 1 - k
  }

  /** Each output is the odometer successor of the one before. */
  ghost predicate Chained(outputs: seq<seq<nat>>, b: seq<nat>) {
    forall k :: 0 <= k < |outputs| - 1 ==> |outputs[k]| == |b| && NextTuple(outputs[k], b) == Some(outputs[k + 1])
  }

  lemma RankedSnoc(outputs: seq<seq<nat>>, b: seq<nat>, t: seq<nat>)
    requires Ranked(outputs, b) && Within(t, b) && Rem(t, b) == Space(b) - 1 - |outputs|
    ensures Ranked(outputs + [t], b)
  {
    var outs := outputs + [t];
    forall k | 0 <= k < |outs|
      ensures Within(outs[k], b) && Rem(outs[k], b) == Space(b) - 1 - k
    {
      if k < |outputs| {
        assert outs[k] == outputs[k];
      }
    }
  }

  lemma ChainedSnoc(outputs: seq<seq<nat>>, b: seq<nat>, t: seq<nat>)
    requires Chained(outputs, b) && |t| == |b|
    requires outputs != [] ==> |outputs[|outputs| - 1]| == |b| && NextTuple(outputs[|outputs| - 1], b) == Some(t)
    ensures Chained(outputs + [t], b)
  {
    var outs := outputs + [t];
    forall k | 0 <= k < |outs| - 1
      ensures |outs[k]| == |b| && NextTuple(outs[k], b) == Some(outs[k + 1])
    {
      var next := ChainedSnocAt(outputs, b, t, k);
      assert outs[k] == outputs[k] && outs[k + 1] == next;
    }
  }

  /** One link of the extended chain: an old link, or the old last output to `t`. */
  lemma ChainedSnocAt(outputs: seq<seq<nat>>, b: seq<nat>, t: seq<nat>, k: nat) returns (next: seq<nat>)
    requires Chained(outputs, b) && |t| == |b| && k < |outputs|
    requires |outputs[|outputs| - 1]| == |b| && NextTuple(outputs[|outputs| - 1], b) == Some(t)
    ensures next == if k + 1 < |outputs| then outputs[k + 1] else t
    ensures |outputs[k]| == |b| && NextTuple(outputs[k], b) == Some(next)
  {
    next := if k + 1 < |outputs| then outputs[k + 1] else t;
  }

  /** The caller's do-while loop part way: the passes so far produced
      `outputs`, and (v, p) is the generator's state after the last IsDone. */
  ghost predicate DriverProgress(outputs: seq<seq<nat>>, b: seq<nat>, v: seq<Counter>, p: nat, done: bool) {
    && (outputs == [] ==> v == [] && p == 0 && !done)
    && (outputs != [] ==> outputs[0] == Zeros(|b|))
    && Ranked(outputs, b)
    && Chained(outputs, b)
    && (outputs != [] && !done ==>
          && p == 0
          && Within(outputs[|outputs| - 1], b)
          && NextTuple(outputs[|outputs| - 1], b).Some?
          && Advance(Zip(outputs[|outputs| - 1], b)) == Some(v))
    && (outputs != [] && done ==>
          && Within(outputs[|outputs| - 1], b)
          && NextTuple(outputs[|outputs| - 1], b).None?)
  }

  /** Before another pass: the trace is short enough for the body, and what
      the body will replay is the successor of the last output. */
  lemma DriverEntry(outputs: seq<seq<nat>>, b: seq<nat>, v: seq<Counter>, p: nat)
    requires DriverProgress(outputs, b, v, p, false)
    ensures p == 0 && |v| <= |b| && |outputs| < Space(b)
    ensures outputs == [] ==> Currents(v) + Zeros(|b| - |v|) == Zeros(|b|)
    ensures outputs != [] ==>
      var last := outputs[|outputs| - 1];
      && NextTuple(last, b).Some?
      && Currents(v) + Zeros(|b| - |v|) == NextTuple(last, b).value
    ensures Within(Currents(v) + Zeros(|b| - |v|), b)
  {
    if outputs == [] {
      assert Currents(v) + Zeros(|b| - |v|) == Zeros(|b|);
      RemZeros(b);
    } else {
      var last := outputs[|outputs| - 1];
      AdvanceZip(last, b);
      LastTuple(last, b);
      RemNext(last, b);
    }
  }

  /** After another pass and its IsDone the loop's invariant holds again. */
  lemma DriverStep(outputs: seq<seq<nat>>, b: seq<nat>, v: seq<Counter>, tuple: seq<nat>,
                   v2: seq<Counter>, p2: nat, done: bool)
    requires DriverProgress(outputs, b, v, 0, false) && |tuple| == |b|
    requires outputs == [] ==> tuple == Zeros(|b|)
    requires outputs != [] ==> NextTuple(outputs[|outputs| - 1], b) == Some(tuple)
    requires done <==> AllSpent(Zip(tuple, b))
    requires !done ==> Advance(Zip(tuple, b)) == Some(v2) && p2 == 0
    ensures DriverProgress(outputs + [tuple], b, v2, p2, done)
  {
    var n := |outputs|;
    if outputs == [] {
      RemZeros(b);
    } else {
      RemNext(outputs[n - 1], b);
    }
    RankedSnoc(outputs, b, tuple);
    ChainedSnoc(outputs, b, tuple);
    StopsAtLast(tuple, b);
  }

  /** IsDone answers true after a pass exactly when that pass drew the last tuple. */
  lemma StopsAtLast(t: seq<nat>, b: seq<nat>)
    requires Within(t, b)
    ensures AllSpent(Zip(t, b)) <==> NextTuple(t, b).None?
  {
    AdvanceZip(t, b);
  }

  /** Once IsDone answers true, the loop has produced every tuple. */
  lemma DriverDone(outputs: seq<seq<nat>>, b: seq<nat>, v: seq<Counter>, p: nat)
    requires DriverProgress(outputs, b, v, p, true)
    ensures Enumerates(outputs, b) && Chained(outputs, b)
    ensures outputs[0] == Zeros(|b|) && outputs[|outputs| - 1] == b
  {
    LastTuple(outputs[|outputs| - 1], b);
  }

  /** A pass that draws once per bound from cursor 0 leaves the trace of the
      tuple it drew: the values the old trace held, then zeros. */
  lemma PassTrace(v0: seq<Counter>, v: seq<Counter>, b: seq<nat>)
    requires |v0| <= |b| && Replays(v0, 0, v, |b|)
    requires forall j :: 0 <= j < |b| ==> v[j].bound == b[j]
    ensures |v| == |b| && v == Zip(Currents(v), b)
    ensures Currents(v) == Currents(v0) + Zeros(|b| - |v0|)
  {
    assert v == Zip(Currents(v), b);
    assert Currents(v) == Currents(v0) + Zeros(|b| - |v0|);
  }

  /** The caller's do-while loop: run the body, then ask IsDone, until it
      answers true. The passes produce every tuple within the bounds once, in
      odometer order. */
  method RunFixed(bounds: seq<nat>) returns (outputs: seq<seq<nat>>)
    ensures Enumerates(outputs, bounds)
    ensures outputs[0] == Zeros(|bounds|)
    ensures forall k :: 0 <= k < |outputs| - 1 ==> NextTuple(outputs[k], bounds) == Some(outputs[k + 1])
    ensures outputs[|outputs| - 1] == bounds
  {
    var g := new Gen();
    outputs := [];
    var done := false;
    while !done
      invariant fresh(g) && g.Valid() && DriverProgress(outputs, bounds, g.v, g.p, done)
      decreases Space(bounds) - |outputs|
    {
      DriverEntry(outputs, bounds, g.v, g.p);
      ghost var v := g.v;
      var tuple := FixedBody(g, bounds);
      done := g.IsDone();
      DriverStep(outputs, bounds, v, tuple, g.v, g.p, done);
      outputs := outputs + [tuple];
    }
    DriverDone(outputs, bounds, g.v, g.p);
  }

  /** At the head of a while loop the generator does nothing: a fresh
      generator has an empty trace, so IsDone answers true before any pass. */
  method WhileHead() returns (done: bool)
    ensures done
  {
    var g := new Gen();
    done := g.IsDone();
  }

  /** Exhaustion is final: once IsDone has answered true, asking again
      answers true again and changes nothing. */
  method DoneStaysDone(g: Gen) returns (first: bool, second: bool)
    modifies g
    ensures first ==> second && g.v == old(g.v) && g.p == old(g.p)
  {
    first := g.IsDone();
    second := g.IsDone();
  }

  /** Every tuple within the bounds is among the outputs, at the place its
      rank gives it. */
  lemma EveryTupleVisited(outputs: seq<seq<nat>>, b: seq<nat>, d: seq<nat>)
    requires Enumerates(outputs, b) && Within(d, b)
    ensures Rem(d, b) < Space(b) && outputs[Space(b) - 1 - Rem(d, b)] == d
  {
    RemBelowSpace(d, b);
    var k := Space(b) - 1 - Rem(d, b);
    RemInjective(outputs[k], d, b);
  }

  /** No tuple is produced twice. */
  lemma NoTupleRepeated(outputs: seq<seq<nat>>, b: seq<nat>, i: nat, j: nat)
    requires Enumerates(outputs, b) && i < j < |outputs|
    ensures outputs[i] != outputs[j]
  {
  }

  /** Two loops over the same bounds produce the same outputs in the same order. */
  lemma Deterministic(o1: seq<seq<nat>>, o2: seq<seq<nat>>, b: seq<nat>)
    requires Enumerates(o1, b) && Enumerates(o2, b)
    ensures o1 == o2
  {
    forall k | 0 <= k < |o1|
      ensures o1[k] == o2[k]
    {
      RemInjective(o1[k], o2[k], b);
    }
  }

  /** A body that is a single draw with bound n runs n + 1 passes, which
      return 0, 1, ..., n in that order. */
  lemma SingleDraw(n: nat, outputs: seq<seq<nat>>)
    requires Enumerates(outputs, [n])
    ensures |outputs| == n + 1
    ensures forall k :: 0 <= k < |outputs| ==> outputs[k] == [k]
  {
    assert Space([n]) == n + 1 by {
      assert [n][..0] == [];
    }
    forall k | 0 <= k < |outputs|
      ensures outputs[k] == [k]
    {
      var d := outputs[k];
      assert d[..0] == [];
      assert Rem(d, [n]) == n - d[0];
      assert d == [d[0]];
    }
  }

  /** A body drawing with bound 1 and then with bound 2 runs six passes: the
      pairs (0,0), (0,1), (0,2), (1,0), (1,1), (1,2) in that order. */
  lemma TwoDraws(outputs: seq<seq<nat>>)
    requires Enumerates(outputs, [1, 2])
    ensures outputs == [[0, 0], [0, 1], [0, 2], [1, 0], [1, 1], [1, 2]]
  {
    var b := [1, 2];
    var expected := [[0, 0], [0, 1], [0, 2], [1, 0], [1, 1], [1, 2]];
    assert b[..1] == [1] && [1][..0] == [];
    assert Space(b) == 6;
    forall k | 0 <= k < 6
      ensures outputs[k] == expected[k]
    {
      var e := expected[k];
      assert e[..1] == [e[0]] && [e[0]][..0] == [];
      assert Rem(e, b) == 5 - k;
      RemInjective(outputs[k], e, b);
    }
  }

  /** The do-while loop around a single draw with bound n: n + 1 passes,
      returning 0, 1, ..., n in that order. */
  method RunSingleDraw(n: nat) returns (outputs: seq<seq<nat>>)
    ensures |outputs| == n + 1
    ensures forall k :: 0 <= k < |outputs| ==> outputs[k] == [k]
  {
    outputs := RunFixed([n]);
    SingleDraw(n, outputs);
  }

  /** The do-while loop around a draw with bound 1 followed by a draw with
      bound 2: the six pairs in odometer order. */
  method RunTwoDraws() returns (outputs: seq<seq<nat>>)
    ensures outputs == [[0, 0], [0, 1], [0, 2], [1, 0], [1, 1], [1, 2]]
  {
    outputs := RunFixed([1, 2]);
    TwoDraws(outputs);
  }
}
