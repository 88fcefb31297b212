/** The reinforcement-learning environment of the scheduler
    (drs-scheduler/myenv/K8sEnv.py): the 30-slot observation assembled from
    the four node agents' replies, the episode counter with its done flag,
    and the load-balancing reward.

    The socket exchange is replaced by its result: each node's reply text,
    parsed by `getNodeState` (`Wire.ParseReply`), is an input.  `np.std` needs a square root; the reward takes the root
    function as a parameter and the lemmas about it assume only that it is
    the non-negative square root (`IsRoot`).  The float32 conversions of
    numpy are not modelled: every number is a `real`. */
module Cluster {
  import opened Wrappers
  import opened Numeric
  import Wire

  /** `maxCount`: the episode length. */
  const MaxCount: int := 100
  /** Length of the observation: four node vectors plus the pod profile. */
  const Slots: nat := 30
  /** Fields per node vector: cpu, mem, net-in, net-out, io-read, io-write. */
  const Fields: nat := 6
  const Nodes: nat := 4

  /** What `getNodeState` returned for one node: its numbers, or the
      exception that parsing its reply raised. */
  type Answer = Result<seq<real>, Fault>

  /** The environment: `count`, `state` (a list that may hold `None`) and
      `isDone`. */
  datatype Env = Env(count: int, state: seq<Option<real>>, isDone: bool)

  /** `[None] * 30`. */
  function Unset(): (s: seq<Option<real>>)
    ensures |s| == Slots && forall i :: 0 <= i < |s| ==> s[i] == None
  {
    seq(Slots, _ => None)
  }

  /** A freshly constructed environment. */
  function Init(): (e: Env)
    ensures e.count == 0 && !e.isDone && e.state == Unset()
  {
    Env(0, Unset(), false)
  }

  // ---- Scaling of one node vector ----

  lemma HundredIsCents()
    ensures IsCents(100.0) && Round2(100.0) == 100.0
  {
  }

  /** `float('%.2f' % min(v, 100))`: rounded, and never above 100. */
  function Cap(v: real): (r: real)
    ensures r <= 100.0 && IsCents(r)
    ensures v <= 100.0 ==> r == Round2(v)
    ensures v >= 100.0 ==> r == 100.0
  {
    HundredIsCents();
    Round2Monotone(Min(v, 100.0), 100.0);
    Round2(Min(v, 100.0))
  }

  /** CPU: 25 % of the node already counts as full. */
  function ScaleCpu(x: real): (r: real)
    ensures r <= 100.0 && IsCents(r)
    ensures x * 4.0 <= 100.0 ==> r == Round2(x * 4.0)
    ensures x * 4.0 >= 100.0 ==> r == 100.0
  {
    Cap(x * 4.0)
  }

  /** Network rates: 40 KB/s counts as full. */
  function ScaleNet(x: real): (r: real)
    ensures r <= 100.0 && IsCents(r)
    ensures x / 40.0 * 100.0 <= 100.0 ==> r == Round2(x / 40.0 * 100.0)
    ensures x / 40.0 * 100.0 >= 100.0 ==> r == 100.0
  {
    Cap(x / 40.0 * 100.0)
  }

  /** Disk rates: 10240 KB/s counts as full. */
  function ScaleIo(x: real): (r: real)
    ensures r <= 100.0 && IsCents(r)
    ensures x / 10240.0 * 100.0 <= 100.0 ==> r == Round2(x / 10240.0 * 100.0)
    ensures x / 10240.0 * 100.0 >= 100.0 ==> r == 100.0
  {
    Cap(x / 10240.0 * 100.0)
  }

  /** Below the cap each scaled field lies within half a hundredth of its
      unrounded value, and equals it when that already has two decimals; a
      non-negative reading scales to a non-negative value. */
  lemma ScalesBelowCap(x: real)
    ensures x * 4.0 <= 100.0 ==> x * 4.0 - 0.005 < ScaleCpu(x) <= x * 4.0 + 0.005
    ensures x / 40.0 * 100.0 <= 100.0 ==>
              x / 40.0 * 100.0 - 0.005 < ScaleNet(x) <= x / 40.0 * 100.0 + 0.005
    ensures x / 10240.0 * 100.0 <= 100.0 ==>
              x / 10240.0 * 100.0 - 0.005 < ScaleIo(x) <= x / 10240.0 * 100.0 + 0.005
    ensures IsCents(x * 4.0) && x * 4.0 <= 100.0 ==> ScaleCpu(x) == x * 4.0
    ensures IsCents(x / 40.0 * 100.0) && x / 40.0 * 100.0 <= 100.0 ==> ScaleNet(x) == x / 40.0 * 100.0
    ensures IsCents(x / 10240.0 * 100.0) && x / 10240.0 * 100.0 <= 100.0 ==>
              ScaleIo(x) == x / 10240.0 * 100.0
    ensures x >= 0.0 ==> ScaleCpu(x) >= 0.0 && ScaleNet(x) >= 0.0 && ScaleIo(x) >= 0.0
  {
    if IsCents(x * 4.0) { Round2OfCents(x * 4.0); }
    if IsCents(x / 40.0 * 100.0) { Round2OfCents(x / 40.0 * 100.0); }
    if IsCents(x / 10240.0 * 100.0) { Round2OfCents(x / 10240.0 * 100.0); }
    if x >= 0.0 {
      Round2OfCents(0.0);
      HundredIsCents();
      Round2Monotone(0.0, Min(x * 4.0, 100.0));
      Round2Monotone(0.0, Min(x / 40.0 * 100.0, 100.0));
      Round2Monotone(0.0, Min(x / 10240.0 * 100.0, 100.0));
    }
  }

  /** The worked examples of the scaling: cpu 30 % is clamped to 100,
      10 KB/s of traffic is 25, 20000 KB/s of disk traffic is clamped to 100. */
  lemma ScaleExamples()
    ensures ScaleCpu(30.0) == 100.0
    ensures ScaleNet(10.0) == 25.0
    ensures ScaleIo(20000.0) == 100.0
    ensures ScaleCpu(12.5) == 50.0
  {
    assert IsCents(25.0) by { assert (25.0 * 100.0).Floor == 2500; }
    assert IsCents(50.0) by { assert (50.0 * 100.0).Floor == 5000; }
    Round2OfCents(25.0);
    Round2OfCents(50.0);
  }

  /** One node vector after `getState`'s scaling: fields 0, 2, 3, 4 and 5 are
      scaled, field 1 (memory) and any extra field pass through. */
  function ScaleNode(v: seq<real>): (r: seq<real>)
    requires |v| >= Fields
    ensures |r| == |v|
  {
    v[0 := ScaleCpu(v[0])]
     [2 := ScaleNet(v[2])][3 := ScaleNet(v[3])]
     [4 := ScaleIo(v[4])][5 := ScaleIo(v[5])]
  }

  /** Every scaled field is at most 100 and has two decimals; the memory
      field and any field past the sixth pass through unchanged. */
  lemma ScaleNodeFields(v: seq<real>)
    requires |v| >= Fields
    ensures forall i :: 0 <= i < Fields && i != 1 ==> ScaleNode(v)[i] <= 100.0 && IsCents(ScaleNode(v)[i])
    ensures ScaleNode(v)[0] == Cap(v[0] * 4.0)
    ensures ScaleNode(v)[2] == Cap(v[2] / 40.0 * 100.0) && ScaleNode(v)[3] == Cap(v[3] / 40.0 * 100.0)
    ensures ScaleNode(v)[4] == Cap(v[4] / 10240.0 * 100.0) && ScaleNode(v)[5] == Cap(v[5] / 10240.0 * 100.0)
    ensures ScaleNode(v)[1] == v[1]
    ensures ScaleNode(v)[Fields..] == v[Fields..]
  {
  }

  function Somes(v: seq<real>): (r: seq<Option<real>>)
    ensures |r| == |v| && forall i :: 0 <= i < |v| ==> r[i] == Some(v[i])
  {
    seq(|v|, i requires 0 <= i < |v| => Some(v[i]))
  }

  /** Slot of field `j` of node `k` (counting nodes from 0). */
  function Slot(k: nat, j: nat): nat
  {
    Fields * k + j
  }

  /** The first `n` slots exist and hold numbers. */
  predicate FilledUpTo(s: seq<Option<real>>, n: nat)
  {
    |s| >= n && forall i :: 0 <= i < n ==> s[i].Some?
  }

  // ---- Python slice assignment ----

  /** `s[lo:hi] = v`, with Python's clamping of both bounds to the list. */
  function SliceAssign<T>(s: seq<T>, lo: nat, hi: nat, v: seq<T>): (r: seq<T>)
    requires lo <= hi
    ensures |r| == |s| - ((if hi <= |s| then hi else |s|) - (if lo <= |s| then lo else |s|)) + |v|
  {
    var l := if lo <= |s| then lo else |s|;
    var h := if hi <= |s| then hi else |s|;
    s[..l] + v + s[h..]
  }

  /** What a slice assignment keeps, inserts and shifts: the slots before
      the clamped `lo` are kept, `v` follows, and the slots from the clamped
      `hi` on come after it. */
  lemma SliceAssignSlots<T>(s: seq<T>, lo: nat, hi: nat, v: seq<T>)
    requires lo <= hi
    ensures var r := SliceAssign(s, lo, hi, v);
            var l := if lo <= |s| then lo else |s|;
            var h := if hi <= |s| then hi else |s|;
            (forall i :: 0 <= i < l ==> r[i] == s[i]) &&
            (forall i :: 0 <= i < |v| ==> r[l + i] == v[i]) &&
            (forall i :: h <= i < |s| ==> r[i - h + l + |v|] == s[i])
  {
  }

  /** `self.state[0:6] = node1_state` ... `self.state[18:24] = node4_state`. */
  function Layout(state: seq<Option<real>>, nodes: seq<seq<real>>): seq<Option<real>>
    requires |nodes| == Nodes
  {
    var s1 := SliceAssign(state, 0, 6, Somes(nodes[0]));
    var s2 := SliceAssign(s1, 6, 12, Somes(nodes[1]));
    var s3 := SliceAssign(s2, 12, 18, Somes(nodes[2]));
    SliceAssign(s3, 18, 24, Somes(nodes[3]))
  }

  /** A slice assignment of a vector of at least six values at `lo`, with
      the slots before `lo` filled: afterwards the slots before `lo + 6` are
      filled. */
  lemma AssignFills(s: seq<Option<real>>, lo: nat, v: seq<real>)
    requires lo <= |s| && |v| >= Fields
    requires FilledUpTo(s, lo)
    ensures FilledUpTo(SliceAssign(s, lo, lo + 6, Somes(v)), lo + 6)
  {
    var r := SliceAssign(s, lo, lo + 6, Somes(v));
    SliceAssignSlots(s, lo, lo + 6, Somes(v));
    forall i | 0 <= i < lo + 6
      ensures r[i].Some?
    {
      if i >= lo {
        assert r[lo + (i - lo)] == Somes(v)[i - lo];
      }
    }
  }

  /** Whatever the replies' lengths (at least six fields each) and whatever
      the state held, the first 24 slots are filled afterwards. */
  lemma LayoutFills(state: seq<Option<real>>, nodes: seq<seq<real>>)
    requires |nodes| == Nodes && forall k :: 0 <= k < Nodes ==> |nodes[k]| >= Fields
    ensures FilledUpTo(Layout(state, nodes), 24)
  {
    var s1 := SliceAssign(state, 0, 6, Somes(nodes[0]));
    AssignFills(state, 0, nodes[0]);
    var s2 := SliceAssign(s1, 6, 12, Somes(nodes[1]));
    AssignFills(s1, 6, nodes[1]);
    var s3 := SliceAssign(s2, 12, 18, Somes(nodes[2]));
    AssignFills(s2, 12, nodes[2]);
    AssignFills(s3, 18, nodes[3]);
  }

  /** With vectors of exactly six values and a state of at least 24 slots,
      the four assignments simply replace the first 24 slots. */
  lemma LayoutExact(state: seq<Option<real>>, nodes: seq<seq<real>>)
    requires |state| >= 24
    requires |nodes| == Nodes && forall k :: 0 <= k < Nodes ==> |nodes[k]| == Fields
    ensures Layout(state, nodes) ==
              Somes(nodes[0]) + Somes(nodes[1]) + Somes(nodes[2]) + Somes(nodes[3]) + state[24..]
  {
    var a, b, c, d := Somes(nodes[0]), Somes(nodes[1]), Somes(nodes[2]), Somes(nodes[3]);
    var s1 := SliceAssign(state, 0, 6, a);
    assert s1 == a + state[6..];
    var s2 := SliceAssign(s1, 6, 12, b);
    assert s1[..6] == a && s1[12..] == state[12..];
    assert s2 == a + b + state[12..];
    var s3 := SliceAssign(s2, 12, 18, c);
    assert s2[..12] == a + b && s2[18..] == state[18..];
    assert s3 == a + b + c + state[18..];
    var s4 := SliceAssign(s3, 18, 24, d);
    assert s3[..18] == a + b + c && s3[24..] == state[24..];
  }

  /** With replies of exactly six fields, node `k`'s vector lands in slots
      `6k .. 6k+5` and every slot from 24 on is left as it was. */
  lemma LayoutSlots(state: seq<Option<real>>, nodes: seq<seq<real>>)
    requires |state| >= 24
    requires |nodes| == Nodes && forall k :: 0 <= k < Nodes ==> |nodes[k]| == Fields
    ensures |Layout(state, nodes)| == |state|
    ensures forall k, j :: 0 <= k < Nodes && 0 <= j < Fields ==>
              Layout(state, nodes)[Slot(k, j)] == Some(nodes[k][j])
    ensures forall i :: 24 <= i < |state| ==> Layout(state, nodes)[i] == state[i]
  {
    LayoutExact(state, nodes);
    var l := Layout(state, nodes);
    forall k, j | 0 <= k < Nodes && 0 <= j < Fields
      ensures l[Slot(k, j)] == Some(nodes[k][j])
    {
      BlockSlot(Somes(nodes[0]), Somes(nodes[1]), Somes(nodes[2]), Somes(nodes[3]), state[24..], k, j);
    }
    forall i | 24 <= i < |state|
      ensures l[i] == state[i]
    {
      BlockRest(Somes(nodes[0]), Somes(nodes[1]), Somes(nodes[2]), Somes(nodes[3]), state[24..], i - 24);
    }
  }

  /** Slot `6k + j` of four six-slot blocks followed by the rest. */
  lemma BlockSlot<T>(a: seq<T>, b: seq<T>, c: seq<T>, d: seq<T>, rest: seq<T>, k: nat, j: nat)
    requires |a| == |b| == |c| == |d| == Fields
    requires k < Nodes && j < Fields
    ensures (a + b + c + d + rest)[Slot(k, j)] == [a, b, c, d][k][j]
  {
    var s := a + b + c + d + rest;
    if k == 0 { assert s[j] == a[j]; }
    else if k == 1 { assert s[6 + j] == b[j]; }
    else if k == 2 { assert s[12 + j] == c[j]; }
    else { assert s[18 + j] == d[j]; }
  }

  /** Slot `24 + i` of four six-slot blocks followed by `rest`. */
  lemma BlockRest<T>(a: seq<T>, b: seq<T>, c: seq<T>, d: seq<T>, rest: seq<T>, i: nat)
    requires |a| == |b| == |c| == |d| == Fields
    requires i < |rest|
    ensures (a + b + c + d + rest)[24 + i] == rest[i]
  {
  }

  // ---- getState ----

  /** The index of the first failed answer, `Nodes` if none failed. */
  function FirstFailure(parsed: seq<Answer>): (k: nat)
    requires |parsed| == Nodes
    ensures k <= Nodes
    ensures k < Nodes ==> parsed[k].Failure?
    ensures forall i :: 0 <= i < k ==> parsed[i].Success?
  {
    if parsed[0].Failure? then 0
    else if parsed[1].Failure? then 1
    else if parsed[2].Failure? then 2
    else if parsed[3].Failure? then 3
    else 4
  }

  /** `getState`, given what `getNodeState` (`Wire.ParseReply`) returned
      for node1 .. node4: the first failed parse propagates; then a vector
      of fewer than six fields raises `IndexError` in the scaling; otherwise
      the scaled vectors are written into slots 0..23.  On a failure the
      state is not touched, which the caller sees as the unchanged list. */
  function GetState(state: seq<Option<real>>, parsed: seq<Answer>): (r: Result<seq<Option<real>>, Fault>)
    requires |parsed| == Nodes
    ensures FirstFailure(parsed) < Nodes ==> r == Failure(parsed[FirstFailure(parsed)].error)
    ensures FirstFailure(parsed) == Nodes ==>
              (r.Failure? <==> exists k :: 0 <= k < Nodes && |parsed[k].value| < Fields)
    ensures r.Failure? && FirstFailure(parsed) == Nodes ==> r.error == IndexError
    ensures r.Success? ==> FilledUpTo(r.value, 24)
  {
    var k := FirstFailure(parsed);
    if k < Nodes then Failure(parsed[k].error)
    else
      var nodes := [parsed[0].value, parsed[1].value, parsed[2].value, parsed[3].value];
      if exists k :: 0 <= k < Nodes && |nodes[k]| < Fields then Failure(IndexError)
      else
        var scaled := [ScaleNode(nodes[0]), ScaleNode(nodes[1]), ScaleNode(nodes[2]), ScaleNode(nodes[3])];
        LayoutFills(state, scaled);
        Success(Layout(state, scaled))
  }

  /** When every agent answers with six numbers, the state keeps its length,
      node `k`'s scaled vector occupies slots `6k .. 6k+5`, and the profile
      slots 24..29 are untouched. */
  lemma GetStateSlots(state: seq<Option<real>>, parsed: seq<Answer>, nodes: seq<seq<real>>)
    requires |state| >= 24 && |parsed| == Nodes && |nodes| == Nodes
    requires forall k :: 0 <= k < Nodes ==> |nodes[k]| == Fields && parsed[k] == Success(nodes[k])
    ensures GetState(state, parsed).Success?
    ensures |GetState(state, parsed).value| == |state|
    ensures forall k, j :: 0 <= k < Nodes && 0 <= j < Fields ==>
              GetState(state, parsed).value[Slot(k, j)] == Some(ScaleNode(nodes[k])[j])
    ensures forall i :: 24 <= i < |state| ==> GetState(state, parsed).value[i] == state[i]
  {
    assert [parsed[0].value, parsed[1].value, parsed[2].value, parsed[3].value] == nodes;
    var scaled := [ScaleNode(nodes[0]), ScaleNode(nodes[1]), ScaleNode(nodes[2]), ScaleNode(nodes[3])];
    LayoutSlots(state, scaled);
  }

  /** The agents' replies are read back as the numbers they sent: with six
      two-decimal numbers per agent, `getState` succeeds, the slots hold
      exactly their scaled values, and the profile slots stay as they were. */
  lemma AgentRepliesLand(state: seq<Option<real>>, sent: seq<seq<real>>, parsed: seq<Answer>)
    requires |state| >= 24 && |sent| == Nodes && |parsed| == Nodes
    requires forall k :: 0 <= k < Nodes ==> |sent[k]| == Fields
    requires forall k, j :: 0 <= k < Nodes && 0 <= j < Fields ==> IsCents(sent[k][j])
    requires forall k :: 0 <= k < Nodes ==> parsed[k] == Wire.ParseReply(Wire.EncodeTuple(sent[k]))
    ensures GetState(state, parsed).Success? && |GetState(state, parsed).value| == |state|
    ensures forall k, j :: 0 <= k < Nodes && 0 <= j < Fields ==>
              GetState(state, parsed).value[Slot(k, j)] == Some(ScaleNode(sent[k])[j])
    ensures forall i :: 24 <= i < |state| ==> GetState(state, parsed).value[i] == state[i]
  {
    forall k | 0 <= k < Nodes
      ensures parsed[k] == Success(sent[k])
    {
      Wire.ReplyRoundTrip(sent[k]);
    }
    GetStateSlots(state, parsed, sent);
  }

  // ---- Reward ----

  function Sq(x: real): real
  {
    x * x
  }

  lemma SquarePositive(x: real)
    ensures Sq(x) >= 0.0
    ensures x != 0.0 ==> Sq(x) > 0.0
  {
    if x > 0.0 {
      calc {
        Sq(x);
        x * x;
      >
        0.0 * x;
      }
    } else if x < 0.0 {
      calc {
        Sq(x);
        (-x) * (-x);
      >
        0.0 * (-x);
      }
    } else {
      assert Sq(x) == 0.0 * 0.0;
    }
  }

  /** The non-negative square root, as `np.std` uses it. */
  ghost predicate IsRoot(root: real -> real)
  {
    forall x :: x >= 0.0 ==> root(x) >= 0.0 && Sq(root(x)) == x
  }

  /** Population variance of four values (`np.std` squared). */
  function Variance(a: real, b: real, c: real, d: real): real
  {
    var m := (a + b + c + d) / 4.0;
    (Sq(a - m) + Sq(b - m) + Sq(c - m) + Sq(d - m)) / 4.0
  }

  lemma VarianceZeroIffEqual(a: real, b: real, c: real, d: real)
    ensures Variance(a, b, c, d) >= 0.0
    ensures Variance(a, b, c, d) == 0.0 <==> a == b == c == d
  {
    var m := (a + b + c + d) / 4.0;
    SquarePositive(a - m);
    SquarePositive(b - m);
    SquarePositive(c - m);
    SquarePositive(d - m);
    if a == b == c == d {
      assert m == a;
    }
  }

  /** Standard deviation across the four nodes of field `j`. */
  function Spread(vals: seq<real>, j: nat, root: real -> real): real
    requires |vals| >= 24 && j < Fields
  {
    root(Variance(vals[Slot(0, j)], vals[Slot(1, j)], vals[Slot(2, j)], vals[Slot(3, j)]))
  }

  lemma SpreadZeroIffEqual(vals: seq<real>, j: nat, root: real -> real)
    requires |vals| >= 24 && j < Fields && IsRoot(root)
    ensures Spread(vals, j, root) >= 0.0
    ensures Spread(vals, j, root) == 0.0 <==>
              vals[Slot(0, j)] == vals[Slot(1, j)] == vals[Slot(2, j)] == vals[Slot(3, j)]
  {
    var v := Variance(vals[Slot(0, j)], vals[Slot(1, j)], vals[Slot(2, j)], vals[Slot(3, j)]);
    VarianceZeroIffEqual(vals[Slot(0, j)], vals[Slot(1, j)], vals[Slot(2, j)], vals[Slot(3, j)]);
    assert root(v) >= 0.0 && Sq(root(v)) == v;
    SquarePositive(root(v));
  }

  /** `step`'s reward: minus the sum of the six cross-node spreads (the two
      network directions and the two disk directions each counted on their
      own). */
  function Reward(vals: seq<real>, root: real -> real): real
    requires |vals| >= 24
  {
    -(Spread(vals, 0, root) + Spread(vals, 1, root) + Spread(vals, 2, root) +
      Spread(vals, 3, root) + Spread(vals, 4, root) + Spread(vals, 5, root))
  }

  /** Four node vectors that agree field by field. */
  predicate Balanced(vals: seq<real>)
    requires |vals| >= 24
  {
    forall k, j :: 0 <= k < Nodes && 0 <= j < Fields ==> vals[Slot(k, j)] == vals[j]
  }

  /** The reward is never positive, and it is zero exactly when all four
      node vectors are identical. */
  lemma RewardZeroIffBalanced(vals: seq<real>, root: real -> real)
    requires |vals| >= 24 && IsRoot(root)
    ensures Reward(vals, root) <= 0.0
    ensures Reward(vals, root) == 0.0 <==> Balanced(vals)
  {
    SpreadZeroIffEqual(vals, 0, root);
    SpreadZeroIffEqual(vals, 1, root);
    SpreadZeroIffEqual(vals, 2, root);
    SpreadZeroIffEqual(vals, 3, root);
    SpreadZeroIffEqual(vals, 4, root);
    SpreadZeroIffEqual(vals, 5, root);
    if Reward(vals, root) == 0.0 {
      forall k, j | 0 <= k < Nodes && 0 <= j < Fields
        ensures vals[Slot(k, j)] == vals[j]
      {
        assert Spread(vals, j, root) == 0.0;
      }
    }
    if Balanced(vals) {
      forall j | 0 <= j < Fields
        ensures Spread(vals, j, root) == 0.0
      {
        assert vals[Slot(0, j)] == vals[j] && vals[Slot(1, j)] == vals[j];
        assert vals[Slot(2, j)] == vals[j] && vals[Slot(3, j)] == vals[j];
      }
    }
  }

  /** Spreading the CPU load unevenly, everything else fixed, lowers the
      reward: cpu fields 10/10/10/10 earn more than 0/0/0/100. */
  lemma RewardPrefersBalancedCpu(vals: seq<real>, root: real -> real)
    requires |vals| >= 24 && IsRoot(root)
    ensures Reward(vals[0 := 10.0][6 := 10.0][12 := 10.0][18 := 10.0], root) >
            Reward(vals[0 := 0.0][6 := 0.0][12 := 0.0][18 := 100.0], root)
  {
    var even := vals[0 := 10.0][6 := 10.0][12 := 10.0][18 := 10.0];
    var skew := vals[0 := 0.0][6 := 0.0][12 := 0.0][18 := 100.0];
    assert even[0] == 10.0 && even[6] == 10.0 && even[12] == 10.0 && even[18] == 10.0;
    assert skew[0] == 0.0 && skew[6] == 0.0 && skew[12] == 0.0 && skew[18] == 100.0;
    assert Variance(10.0, 10.0, 10.0, 10.0) == 0.0;
    assert Variance(0.0, 0.0, 0.0, 100.0) == 1875.0;
    assert Spread(even, 0, root) == 0.0 by {
      assert Sq(root(0.0)) == 0.0;
      SquarePositive(root(0.0));
    }
    assert Spread(skew, 0, root) > 0.0 by {
      assert root(1875.0) >= 0.0 && Sq(root(1875.0)) == 1875.0;
    }
    forall j | 1 <= j < Fields
      ensures Spread(even, j, root) == Spread(skew, j, root)
    {
    }
  }

  // ---- reset and step ----

  /** `reset`: the observation is fetched only while the state is still the
      initial `[None] * 30`; then the counter and the done flag are cleared.
      A failing fetch leaves the environment as it was. */
  function Reset(env: Env, answers: seq<Answer>): (r: Result<Env, Fault>)
    requires |answers| == Nodes
    ensures r.Success? ==> r.value.count == 0 && !r.value.isDone
    ensures env.state != Unset() ==> r == Success(env.(count := 0, isDone := false))
    ensures env.state == Unset() ==>
              r.Success? == GetState(env.state, answers).Success? &&
              (r.Success? ==> r.value.state == GetState(env.state, answers).value)
  {
    if env.state == Unset() then
      match GetState(env.state, answers)
      case Failure(e) => Failure(e)
      case Success(s) => Success(Env(0, s, false))
    else Success(env.(count := 0, isDone := false))
  }

  /** What `step` hands back: the observation, the reward and the done flag. */
  datatype Outcome = Outcome(state: seq<Option<real>>, reward: real, done: bool)

  /** First half of `step`: the counter goes up before the five-second wait
      for the pod. */
  function StepBegin(env: Env): (r: Env)
    ensures r.count == env.count + 1 && r.state == env.state && r.isDone == env.isDone
  {
    env.(count := env.count + 1)
  }

  /** The numbers in the first 24 slots. */
  function Values(s: seq<Option<real>>): (r: seq<real>)
    requires |s| >= 24 && forall i :: 0 <= i < 24 ==> s[i].Some?
    ensures |r| == 24 && forall i :: 0 <= i < 24 ==> s[i] == Some(r[i])
  {
    seq(24, i requires 0 <= i < 24 => s[i].value)
  }

  /** Second half of `step`: refresh the state, compute the reward, raise
      the done flag once the counter has reached `maxCount` (it is never
      lowered here).  A failing refresh propagates, after the counter was
      already raised. */
  function StepEnd(env: Env, answers: seq<Answer>, root: real -> real): (r: (Env, Result<Outcome, Fault>))
    requires |answers| == Nodes
    ensures r.0.count == env.count
    ensures r.1.Failure? <==> GetState(env.state, answers).Failure?
    ensures r.1.Failure? ==> r.0 == env
    ensures r.1.Success? ==>
              r.0.state == GetState(env.state, answers).value &&
              r.1.value.state == r.0.state && r.1.value.done == r.0.isDone &&
              (r.0.isDone <==> env.isDone || env.count >= MaxCount) &&
              r.1.value.reward == Reward(Values(r.0.state), root)
  {
    match GetState(env.state, answers)
    case Failure(e) => (env, Failure(e))
    case Success(s) =>
      var done := env.isDone || env.count >= MaxCount;
      (Env(env.count, s, done), Success(Outcome(s, Reward(Values(s), root), done)))
  }

  /** `step` without interference: the counter goes up by exactly one. */
  function Step(env: Env, answers: seq<Answer>, root: real -> real): (r: (Env, Result<Outcome, Fault>))
    requires |answers| == Nodes
    ensures r.0.count == env.count + 1
  {
    StepEnd(StepBegin(env), answers, root)
  }

  /** One completed step of an episode that is not yet done: it completes
      whenever the refresh succeeds, and it ends the episode exactly when it
      brings the counter to 100 or beyond. */
  lemma StepDoneAtMaxCount(env: Env, answers: seq<Answer>, root: real -> real)
    requires |answers| == Nodes && !env.isDone && env.count >= 0
    requires GetState(env.state, answers).Success?
    ensures Step(env, answers, root).1.Success?
    ensures Step(env, answers, root).0.isDone <==> env.count + 1 >= MaxCount
  {
  }

  /** A completed step never earns more than zero, and it earns exactly
      zero when the refreshed cluster is balanced. */
  lemma StepRewardBound(env: Env, answers: seq<Answer>, root: real -> real)
    requires |answers| == Nodes && IsRoot(root)
    requires Step(env, answers, root).1.Success?
    ensures Step(env, answers, root).1.value.reward <= 0.0
    ensures Balanced(Values(Step(env, answers, root).0.state)) ==>
              Step(env, answers, root).1.value.reward == 0.0
  {
    var s := Step(env, answers, root).0.state;
    RewardZeroIffBalanced(Values(s), root);
  }
}
