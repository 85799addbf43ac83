/** The counter trace behind the exhaustive generator: one counter per draw
    position, the odometer step that ends a pass, and the relation between a
    trace before and after a run of draws. */
module Trace {

  datatype Option<T> = None | Some(value: T)

  /** One decision point: the value drawn there, and the inclusive upper bound
      requested for it by the most recent draw at that position. */
  datatype Counter = Counter(current: nat, bound: nat)

  /** A counter with room to grow. */
  predicate Open(c: Counter) {
    c.current < c.bound
  }

  /** No counter of the trace can be incremented any more. */
  predicate AllSpent(v: seq<Counter>) {
    forall j :: 0 <= j < |v| ==> !Open(v[j])
  }

  /** The position of the last counter that still has room to grow. */
  function RightmostOpen(v: seq<Counter>): (r: Option<nat>)
    ensures r.None? <==> AllSpent(v)
    ensures r.Some? ==> r.value < |v| && Open(v[r.value])
    ensures r.Some? ==> forall j :: r.value < j < |v| ==> !Open(v[j])
  {
    if v == [] then None
    else if Open(v[|v| - 1]) then Some(|v| - 1)
    else RightmostOpen(v[..|v| - 1])
  }

  /** The odometer step at the end of a pass: bump the rightmost open counter
      and forget every counter after it; None when the trace is exhausted. */
  function Advance(v: seq<Counter>): (r: Option<seq<Counter>>)
    ensures r.None? <==> AllSpent(v)
    ensures r.Some? ==> 0 < |r.value| <= |v|
    ensures r.Some? ==>
      var k := |r.value| - 1;
      && Open(v[k])
      && r.value[..k] == v[..k]
      && r.value[k] == Counter(v[k].current + 1, v[k].bound)
      && forall j :: k < j < |v| ==> !Open(v[j])
  {
    match RightmostOpen(v)
    case None => None
    case Some(k) => Some(v[..k] + [Counter(v[k].current + 1, v[k].bound)])
  }

  /** `v1` (with cursor `p1`) is what a run of draws at positions p0 .. p1-1 makes
      of `v0` (with cursor `p0`): draws append fresh zero counters past the end,
      they never change a current value, and only the drawn positions may get
      a new bound. */
  ghost predicate Replays(v0: seq<Counter>, p0: nat, v1: seq<Counter>, p1: nat) {
    && p0 <= |v0|
    && p0 <= p1 <= |v1|
    && |v1| == (if p1 <= |v0| then |v0| else p1)
    && (forall j :: 0 <= j < |v1| ==> v1[j].current == (if j < |v0| then v0[j].current else 0))
    && (forall j :: 0 <= j < |v0| && (j < p0 || p1 <= j) ==> v1[j] == v0[j])
  }

  lemma ReplaysNone(v: seq<Counter>, p: nat)
    requires p <= |v|
    ensures Replays(v, p, v, p)
  {
  }

  lemma ReplaysChain(v0: seq<Counter>, p0: nat, v1: seq<Counter>, p1: nat, v2: seq<Counter>, p2: nat)
    requires Replays(v0, p0, v1, p1) && Replays(v1, p1, v2, p2)
    ensures Replays(v0, p0, v2, p2)
  {
  }

  /** A run of draws that changes the cursor by nothing changes nothing. */
  lemma ReplaysEmpty(v0: seq<Counter>, p0: nat, v1: seq<Counter>)
    requires Replays(v0, p0, v1, p0)
    ensures v1 == v0
  {
    assert forall j :: 0 <= j < |v1| ==> v1[j] == v0[j];
  }

  /** Two non-empty sequences that agree up to their last element and on it are equal. */
  lemma SameInitAndLast<T>(a: seq<T>, b: seq<T>)
    requires |a| == |b| > 0
    requires a[..|a| - 1] == b[..|b| - 1] && a[|a| - 1] == b[|b| - 1]
    ensures a == b
  {
    assert forall j :: 0 <= j < |a| - 1 ==> a[j] == a[..|a| - 1][j];
    assert forall j :: 0 <= j < |b| - 1 ==> b[j] == b[..|b| - 1][j];
  }

  /** The values recorded in a stretch of the trace. */
  function Currents(cs: seq<Counter>): (r: seq<nat>)
    ensures |r| == |cs|
    ensures forall j :: 0 <= j < |cs| ==> r[j] == cs[j].current
  {
    seq(|cs|, j requires 0 <= j < |cs| => cs[j].current)
  }

  function Zeros(n: nat): (r: seq<nat>)
    ensures |r| == n
    ensures forall j :: 0 <= j < n ==> r[j] == 0
  {
    seq(n, j => 0)
  }
}
