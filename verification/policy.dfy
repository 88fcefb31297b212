/** The bookkeeping of the `DQN` agent (drs-scheduler/dqn.py): the
    epsilon-greedy action choice, the circular replay memory with its row
    layout `[s | a | r | s_]`, and the learning-step counter that decides
    when the target network is refreshed.

    The neural networks are opaque here.  Their output for an observation
    (the four Q-values) is an input to the action choice, and their
    parameters are an uninterpreted `Weights` value; the optimiser's result
    after one training step is an input to `Learn`.  The random draws
    (`np.random.uniform`, `np.random.randint`, `np.random.choice`) are
    inputs constrained to the ranges those functions return. */
module Policy {
  import opened Numeric
  import opened Wrappers

  /** `N_ACTIONS`: `spaces.Discrete(4)`, one action per node. */
  const Actions: nat := 4
  /** `N_STATES`: the width of the observation. */
  const StateWidth: nat := 30
  /** `MEMORY_CAPACITY`: rows of the replay memory. */
  const MemoryCapacity: nat := 100
  /** `N_STATES * 2 + 2`: one stored transition. */
  const RowWidth: nat := StateWidth * 2 + 2
  /** `BATCH_SIZE`. */
  const BatchSize: nat := 32
  /** `TARGET_REPLACE_ITER`. */
  const TargetReplaceIter: nat := 100
  /** `EPSILON`: probability of the greedy choice. */
  const Epsilon: real := 0.9

  // ---- choose_action ----

  /** Index of the first largest Q-value. */
  function ArgMax(q: seq<real>): (best: nat)
    requires |q| > 0
    ensures best < |q|
    ensures forall i :: 0 <= i < |q| ==> q[i] <= q[best]
    ensures forall i :: 0 <= i < best ==> q[i] < q[best]
    decreases |q|
  {
    if |q| == 1 then 0
    else
      var b := ArgMax(q[..|q| - 1]);
      if q[|q| - 1] > q[b] then |q| - 1 else b
  }

  /** `choose_action`: with the uniform draw `u` below `EPSILON` the action
      with the largest Q-value in `q` (the network's output for the
      observation), otherwise the uniformly drawn `pick`.  Either way the
      action names one of the four nodes. */
  function ChooseAction(q: seq<real>, u: real, pick: int): (a: int)
    requires |q| == Actions
    requires 0.0 <= u < 1.0 && 0 <= pick < Actions
    ensures 0 <= a < Actions
    ensures u < Epsilon ==> forall i :: 0 <= i < Actions ==> q[i] <= q[a]
    ensures u >= Epsilon ==> a == pick
  {
    if u < Epsilon then ArgMax(q) else pick
  }

  /** On a greedy draw the Q-values alone decide: an action strictly better
      than all others is always the one chosen. */
  lemma GreedyPicksStrictBest(q: seq<real>, u: real, pick: int, best: nat)
    requires |q| == Actions && 0.0 <= u < Epsilon && 0 <= pick < Actions
    requires best < Actions && forall i :: 0 <= i < Actions && i != best ==> q[i] < q[best]
    ensures ChooseAction(q, u, pick) == best
  {
  }

  // ---- Replay memory ----

  /** One experience: observation, action, reward, next observation. */
  datatype Transition = Transition(s: seq<real>, a: int, r: real, next: seq<real>)

  /** A transition whose observations have the network's width. */
  predicate WellFormed(t: Transition)
  {
    |t.s| == StateWidth && |t.next| == StateWidth
  }

  /** `np.hstack((s, [a, r], s_))`. */
  function EncodeRow(t: Transition): (row: seq<real>)
    ensures |row| == |t.s| + 2 + |t.next|
  {
    t.s + [t.a as real, t.r] + t.next
  }

  /** `learn`'s slicing of one row: `[:N]`, `[N:N+1].astype(int)`,
      `[N+1:N+2]` and `[-N:]`. */
  function DecodeRow(row: seq<real>): (t: Transition)
    requires |row| == RowWidth
    ensures WellFormed(t)
  {
    Transition(row[..StateWidth], Trunc(row[StateWidth]), row[StateWidth + 1],
               row[RowWidth - StateWidth..])
  }

  /** Decoding a stored row gives back exactly the transition that was
      stored. */
  lemma DecodeEncode(t: Transition)
    ensures WellFormed(t) ==> |EncodeRow(t)| == RowWidth && DecodeRow(EncodeRow(t)) == t
  {
    if WellFormed(t) {
      var row := EncodeRow(t);
      assert row[..StateWidth] == t.s;
      assert row[RowWidth - StateWidth..] == t.next;
      TruncOfInt(t.a);
    }
  }

  /** `memory` (100 rows of 62 numbers) and `memory_counter`. */
  datatype Memory = Memory(rows: seq<seq<real>>, counter: nat)

  predicate Valid(m: Memory)
  {
    |m.rows| == MemoryCapacity && forall i :: 0 <= i < |m.rows| ==> |m.rows[i]| == RowWidth
  }

  function Zeros(n: nat): (z: seq<real>)
    ensures |z| == n && forall i :: 0 <= i < n ==> z[i] == 0.0
  {
    seq(n, _ => 0.0)
  }

  function ZeroRow(): (row: seq<real>)
    ensures |row| == RowWidth
  {
    Zeros(RowWidth)
  }

  /** A row that was never written reads as observation zero, action 0,
      reward 0, next observation zero. */
  lemma ZeroRowDecodes()
    ensures DecodeRow(ZeroRow()) == Transition(Zeros(StateWidth), 0, 0.0, Zeros(StateWidth))
  {
    var z := ZeroRow();
    assert z[..StateWidth] == Zeros(StateWidth);
    assert z[RowWidth - StateWidth..] == Zeros(StateWidth);
    assert Trunc(z[StateWidth]) == 0;
  }

  /** `np.zeros((MEMORY_CAPACITY, N_STATES * 2 + 2))` with the counter at 0. */
  function EmptyMemory(): (m: Memory)
    ensures Valid(m) && m.counter == 0
    ensures forall i :: 0 <= i < MemoryCapacity ==> m.rows[i] == ZeroRow()
  {
    Memory(seq(MemoryCapacity, _ => ZeroRow()), 0)
  }

  /** `store_transition`: the row `memory_counter % 100` is overwritten
      with the encoded transition and the counter goes up by one.  A row of
      any width other than 62 cannot be broadcast into the memory and
      raises `ValueError`, leaving everything as it was. */
  function StoreTransition(m: Memory, t: Transition): (r: Result<Memory, Fault>)
    requires Valid(m)
    ensures r.Success? <==> |t.s| + |t.next| == 2 * StateWidth
    ensures r.Failure? ==> r.error == ValueError
    ensures r.Success? ==> Valid(r.value) && r.value.counter == m.counter + 1
    ensures r.Success? ==> forall i :: 0 <= i < MemoryCapacity && i != m.counter % MemoryCapacity ==>
                             r.value.rows[i] == m.rows[i]
    ensures r.Success? && WellFormed(t) ==> DecodeRow(r.value.rows[m.counter % MemoryCapacity]) == t
  {
    var row := EncodeRow(t);
    if |row| == RowWidth then
      DecodeEncode(t);
      Success(Memory(m.rows[m.counter % MemoryCapacity := row], m.counter + 1))
    else Failure(ValueError)
  }

  /** Storing the transitions `ts` one after the other; the first failure
      stops the sequence. */
  function StoreAll(m: Memory, ts: seq<Transition>): (r: Result<Memory, Fault>)
    requires Valid(m)
    ensures r.Success? ==> Valid(r.value)
    decreases |ts|
  {
    if |ts| == 0 then Success(m)
    else
      match StoreAll(m, ts[..|ts| - 1])
      case Failure(e) => Failure(e)
      case Success(p) => StoreTransition(p, ts[|ts| - 1])
  }

  /** Two counter values less than a full turn apart use different rows. */
  lemma RowsDiffer(a: int, b: int)
    requires 0 <= a < b < a + MemoryCapacity
    ensures a % MemoryCapacity != b % MemoryCapacity
  {
  }

  /** The memory is a ring: after storing well-formed transitions, the
      counter has advanced by their number and each of the last 100 of them
      can be read back from row `(counter + k) % 100`. */
  lemma {:induction false} StoreAllKeepsRecent(m: Memory, ts: seq<Transition>)
    requires Valid(m) && forall k :: 0 <= k < |ts| ==> WellFormed(ts[k])
    ensures StoreAll(m, ts).Success?
    ensures StoreAll(m, ts).value.counter == m.counter + |ts|
    ensures forall k :: 0 <= k < |ts| && |ts| - k <= MemoryCapacity ==>
              DecodeRow(StoreAll(m, ts).value.rows[(m.counter + k) % MemoryCapacity]) == ts[k]
    decreases |ts|
  {
    if |ts| > 0 {
      var n := |ts|;
      var pre := ts[..n - 1];
      StoreAllKeepsRecent(m, pre);
      var p := StoreAll(m, pre).value;
      var r := StoreAll(m, ts).value;
      assert r == StoreTransition(p, ts[n - 1]).value;
      forall k | 0 <= k < n && n - k <= MemoryCapacity
        ensures DecodeRow(r.rows[(m.counter + k) % MemoryCapacity]) == ts[k]
      {
        if k < n - 1 {
          RowsDiffer(m.counter + k, m.counter + n - 1);
          assert pre[k] == ts[k];
        }
      }
    }
  }

  /** Starting from the zeroed memory and storing at most 100
      transitions, the counter is their number and the rows past the last
      one written are still zero. */
  lemma {:induction false} StoreAllLeavesZeros(ts: seq<Transition>)
    requires |ts| <= MemoryCapacity && forall k :: 0 <= k < |ts| ==> WellFormed(ts[k])
    ensures StoreAll(EmptyMemory(), ts).Success?
    ensures StoreAll(EmptyMemory(), ts).value.counter == |ts|
    ensures forall i :: |ts| <= i < MemoryCapacity ==> StoreAll(EmptyMemory(), ts).value.rows[i] == ZeroRow()
    decreases |ts|
  {
    if |ts| > 0 {
      var n := |ts|;
      StoreAllLeavesZeros(ts[..n - 1]);
      var p := StoreAll(EmptyMemory(), ts[..n - 1]).value;
      FirstTurn(n - 1);
      var r := StoreTransition(p, ts[n - 1]);
      assert StoreAll(EmptyMemory(), ts) == r;
      forall i | n <= i < MemoryCapacity
        ensures r.value.rows[i] == ZeroRow()
      {
        assert p.rows[i] == ZeroRow();
      }
    }
  }

  /** Filling the zeroed memory with at most 100 transitions puts the
      `k`-th of them in row `k`. */
  lemma FilledRow(m: Memory, ts: seq<Transition>, k: nat)
    requires Valid(m) && m.counter == 0
    requires |ts| <= MemoryCapacity && forall j :: 0 <= j < |ts| ==> WellFormed(ts[j])
    requires k < |ts|
    ensures StoreAll(m, ts).Success?
    ensures DecodeRow(StoreAll(m, ts).value.rows[k]) == ts[k]
  {
    StoreAllKeepsRecent(m, ts);
    var rows := StoreAll(m, ts).value.rows;
    FirstTurn(k);
    assert m.counter + k == k;
    assert DecodeRow(rows[(m.counter + k) % MemoryCapacity]) == ts[k];
  }

  /** Before the first full turn the counter is the row index. */
  lemma FirstTurn(c: int)
    requires 0 <= c < MemoryCapacity
    ensures c % MemoryCapacity == c
  {
  }

  // ---- learn ----

  /** The sampled rows of `learn`, decoded: `picks` is what
      `np.random.choice(MEMORY_CAPACITY, BATCH_SIZE)` drew. */
  function SampleBatch(m: Memory, picks: seq<int>): (b: seq<Transition>)
    requires Valid(m)
    requires |picks| == BatchSize && forall i :: 0 <= i < |picks| ==> 0 <= picks[i] < MemoryCapacity
    ensures |b| == BatchSize
    ensures forall i :: 0 <= i < BatchSize ==> WellFormed(b[i])
  {
    seq(BatchSize, i requires 0 <= i < BatchSize => DecodeRow(m.rows[picks[i]]))
  }

  /** What `learn` trains on, for a memory filled from empty by `ts`: a
      sampled row that was written holds the transition stored there. */
  lemma SampleWritten(ts: seq<Transition>, picks: seq<int>)
    requires |ts| <= MemoryCapacity && forall k :: 0 <= k < |ts| ==> WellFormed(ts[k])
    requires |picks| == BatchSize && forall i :: 0 <= i < |picks| ==> 0 <= picks[i] < MemoryCapacity
    ensures StoreAll(EmptyMemory(), ts).Success?
    ensures forall i :: 0 <= i < BatchSize && picks[i] < |ts| ==>
              SampleBatch(StoreAll(EmptyMemory(), ts).value, picks)[i] == ts[picks[i]]
  {
    StoreAllLeavesZeros(ts);
    var m := StoreAll(EmptyMemory(), ts).value;
    var b := SampleBatch(m, picks);
    forall i | 0 <= i < BatchSize && picks[i] < |ts|
      ensures b[i] == ts[picks[i]]
    {
      FilledRow(EmptyMemory(), ts, picks[i]);
      assert b[i] == DecodeRow(m.rows[picks[i]]);
    }
  }

  /** ... and a sampled row not yet written decodes to the all-zero
      transition. */
  lemma SampleUnwritten(ts: seq<Transition>, picks: seq<int>)
    requires |ts| <= MemoryCapacity && forall k :: 0 <= k < |ts| ==> WellFormed(ts[k])
    requires |picks| == BatchSize && forall i :: 0 <= i < |picks| ==> 0 <= picks[i] < MemoryCapacity
    ensures StoreAll(EmptyMemory(), ts).Success?
    ensures forall i :: 0 <= i < BatchSize && picks[i] >= |ts| ==>
              SampleBatch(StoreAll(EmptyMemory(), ts).value, picks)[i] ==
              Transition(Zeros(StateWidth), 0, 0.0, Zeros(StateWidth))
  {
    StoreAllLeavesZeros(ts);
    ZeroRowDecodes();
    var m := StoreAll(EmptyMemory(), ts).value;
    var b := SampleBatch(m, picks);
    forall i | 0 <= i < BatchSize && picks[i] >= |ts|
      ensures b[i] == Transition(Zeros(StateWidth), 0, 0.0, Zeros(StateWidth))
    {
      assert m.rows[picks[i]] == ZeroRow();
    }
  }

  /** Opaque network parameters. */
  type Weights = seq<real>

  /** `learn_step_counter` and the two networks. */
  datatype Learner = Learner(steps: nat, eval: Weights, target: Weights)

  /** `learn`: on a call that finds the counter at a multiple of 100 the
      target network first takes the evaluation network's parameters; the
      counter goes up; the optimiser step (whose outcome `trained` is)
      then replaces the evaluation network's parameters. */
  function Learn(l: Learner, trained: Weights): (r: Learner)
    ensures r.steps == l.steps + 1 && r.eval == trained
    ensures l.steps % TargetReplaceIter == 0 ==> r.target == l.eval
    ensures l.steps % TargetReplaceIter != 0 ==> r.target == l.target
  {
    var target := if l.steps % TargetReplaceIter == 0 then l.eval else l.target;
    Learner(l.steps + 1, trained, target)
  }

  /** Successive calls of `learn`, `trained[i]` being the outcome of the
      `i`-th optimiser step. */
  function LearnAll(l: Learner, trained: seq<Weights>): (r: Learner)
    ensures r.steps == l.steps + |trained|
    decreases |trained|
  {
    if |trained| == 0 then l
    else Learn(LearnAll(l, trained[..|trained| - 1]), trained[|trained| - 1])
  }

  /** The evaluation network's parameters before the call numbered `m`
      (counting calls from 0). */
  function EvalBefore(initial: Weights, trained: seq<Weights>, m: nat): Weights
    requires m <= |trained|
  {
    if m == 0 then initial else trained[m - 1]
  }

  /** The target network lags behind: after `n >= 1` calls from a fresh
      agent, it holds the evaluation network as it was before the last
      call whose number is a multiple of 100 (the 1st, 101st, 201st, ...
      call). */
  lemma {:induction false} TargetSyncSchedule(eval: Weights, target: Weights, trained: seq<Weights>)
    requires |trained| >= 1
    ensures var m := (|trained| - 1) / TargetReplaceIter * TargetReplaceIter;
            m <= |trained| - 1 &&
            LearnAll(Learner(0, eval, target), trained).target == EvalBefore(eval, trained, m)
    ensures LearnAll(Learner(0, eval, target), trained).eval == trained[|trained| - 1]
    decreases |trained|
  {
    var n := |trained|;
    var l0 := Learner(0, eval, target);
    var pre := trained[..n - 1];
    var p := LearnAll(l0, pre);
    assert LearnAll(l0, trained) == Learn(p, trained[n - 1]);
    if n > 1 {
      TargetSyncSchedule(eval, target, pre);
      var mp := (n - 2) / TargetReplaceIter * TargetReplaceIter;
      assert p.target == EvalBefore(eval, pre, mp);
      assert p.eval == trained[n - 2];
      if (n - 1) % TargetReplaceIter != 0 {
        assert (n - 1) / TargetReplaceIter == (n - 2) / TargetReplaceIter;
        if mp > 0 {
          assert pre[mp - 1] == trained[mp - 1];
        }
      }
    }
  }
}
