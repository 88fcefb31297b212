/** The scheduling service of the agent (drs-scheduler/dqn.py): the
    `/choose` handler that answers a pod name with a node name, and
    `makeStep`, which plays the chosen action in the environment and
    records the experience.

    The service's state is one record: the pod cache `pod_action`, the
    environment, the replay memory and the learner.  `makeStep` runs on its
    own thread in the original; here it is a separate step that the caller
    runs after `Choose`.  The Flask request, the sockets and the pickle dump
    of the memory are not modelled. */
module Scheduler {
  import opened Wrappers
  import opened Cluster
  import Policy
  import DqnFilter

  // ---- Workload profiles ----

  /** The resource profile assumed for a video-processing pod. */
  const VideoProfile: seq<real> := [100.0, 23.0, 11.25, 2.49, 0.0, 1.54]
  /** ... for a network-heavy pod. */
  const NetProfile: seq<real> := [54.0, 46.2, 80.04, 71.4, 0.0, 1.58]
  /** ... for a disk-heavy pod. */
  const DiskProfile: seq<real> := [100.0, 22.96, 12.6, 2.73, 0.0, 86.26]
  /** ... for any other pod. */
  const IdleProfile: seq<real> := [0.0, 0.0, 0.0, 0.0, 0.0, 0.0]

  /** `pat` occurs in `s` starting at `j`. */
  predicate OccursAt(s: string, pat: string, j: nat)
  {
    j + |pat| <= |s| && s[j..j + |pat|] == pat
  }

  /** `pat` occurs somewhere in `s`. */
  predicate Contains(s: string, pat: string)
  {
    exists j :: 0 <= j <= |s| && OccursAt(s, pat, j)
  }

  /** `s.find(pat, i)`: the first occurrence at or after `i`, or -1. */
  function FindFrom(s: string, pat: string, i: nat): (r: int)
    requires i <= |s|
    ensures r == -1 || (i <= r && OccursAt(s, pat, r))
    ensures r == -1 ==> forall j :: i <= j <= |s| ==> !OccursAt(s, pat, j)
    ensures r != -1 ==> forall j :: i <= j < r ==> !OccursAt(s, pat, j)
    decreases |s| - i
  {
    if i + |pat| > |s| then -1
    else if s[i..i + |pat|] == pat then i
    else FindFrom(s, pat, i + 1)
  }

  /** `s.find(pat)`. */
  function Find(s: string, pat: string): int
  {
    FindFrom(s, pat, 0)
  }

  /** `find` reports a hit exactly when the pattern occurs, and then the
      first place it occurs. */
  lemma FindIffContains(s: string, pat: string)
    ensures Find(s, pat) != -1 <==> Contains(s, pat)
    ensures Find(s, pat) != -1 ==>
              OccursAt(s, pat, Find(s, pat)) &&
              forall j :: 0 <= j < Find(s, pat) ==> !OccursAt(s, pat, j)
  {
    if Find(s, pat) != -1 {
      assert OccursAt(s, pat, Find(s, pat));
    }
  }

  /** The profile `choose` assumes for a pod, by the first keyword its name
      contains, tested in the order video, net, disk. */
  function Profile(pod: string): (p: seq<real>)
    ensures |p| == Fields
    ensures Contains(pod, "video") ==> p == VideoProfile
    ensures !Contains(pod, "video") && Contains(pod, "net") ==> p == NetProfile
    ensures !Contains(pod, "video") && !Contains(pod, "net") && Contains(pod, "disk") ==> p == DiskProfile
    ensures !Contains(pod, "video") && !Contains(pod, "net") && !Contains(pod, "disk") ==> p == IdleProfile
  {
    FindIffContains(pod, "video");
    FindIffContains(pod, "net");
    FindIffContains(pod, "disk");
    if Find(pod, "video") != -1 then VideoProfile
    else if Find(pod, "net") != -1 then NetProfile
    else if Find(pod, "disk") != -1 then DiskProfile
    else IdleProfile
  }

  /** First match wins: a name with both "video" and "disk" gets the video
      profile, and "net" is looked for before "disk". */
  lemma ProfileExamples()
    ensures Profile("video-disk") == VideoProfile
    ensures Profile("net-io") == NetProfile
    ensures Profile("disk-io") == DiskProfile
  {
    assert OccursAt("video-disk", "video", 0);
    assert OccursAt("net-io", "net", 0);
    assert OccursAt("disk-io", "disk", 0);
    Absent("net-io", "video", 0);
    Absent("disk-io", "video", 0);
    Absent("disk-io", "net", 0);
    FindIffContains("net-io", "video");
    FindIffContains("disk-io", "video");
    FindIffContains("disk-io", "net");
  }

  /** A name with no keyword gets zeros. */
  lemma ProfileOtherIsIdle()
    ensures Profile("redis") == IdleProfile
  {
    Absent("redis", "video", 0);
    Absent("redis", "net", 0);
    Absent("redis", "disk", 0);
    FindIffContains("redis", "video");
    FindIffContains("redis", "net");
    FindIffContains("redis", "disk");
  }

  /** No position from `i` on where the pattern could start holds its first
      character: `find` from `i` reports -1. */
  lemma {:induction false} Absent(s: string, pat: string, i: nat)
    requires i <= |s| && |pat| > 0
    requires forall j :: i <= j && j + |pat| <= |s| ==> s[j] != pat[0]
    ensures FindFrom(s, pat, i) == -1
    decreases |s| - i
  {
    if i + |pat| <= |s| {
      assert s[i..i + |pat|][0] == s[i];
      Absent(s, pat, i + 1);
    }
  }

  /** Every profile value lies in the observation's range 0..100. */
  lemma ProfileInRange(pod: string)
    ensures forall i :: 0 <= i < Fields ==> 0.0 <= Profile(pod)[i] <= 100.0
  {
  }

  // ---- Splicing the profile into the observation ----

  /** `s = s + s_pod` for a 24-slot observation, `s[-6:] = s_pod` (Python's
      clamped slice) otherwise. */
  function Splice(s: seq<Option<real>>, p: seq<real>): (r: seq<Option<real>>)
    ensures |s| == 24 ==> r == s + Somes(p)
    ensures |s| != 24 && |s| >= Fields ==>
              |r| == |s| - Fields + |p| && r[..|s| - Fields] == s[..|s| - Fields] &&
              r[|s| - Fields..] == Somes(p)
  {
    if |s| == 24 then s + Somes(p)
    else
      var lo := if |s| >= Fields then |s| - Fields else 0;
      assert SliceAssign(s, lo, |s|, Somes(p)) == s[..lo] + Somes(p);
      SliceAssign(s, lo, |s|, Somes(p))
  }

  /** Splicing never accumulates: the last profile replaces the previous
      one. */
  lemma SpliceLastWins(s: seq<Option<real>>, p1: seq<real>, p2: seq<real>)
    requires |s| >= Fields && |p1| == Fields
    ensures Splice(Splice(s, p1), p2) == Splice(s, p2)
  {
    var n := |s|;
    var t := Splice(s, p1);
    if n == 24 {
      assert t[..24] == s;
      assert Splice(t, p2) == t[..24] + Somes(p2);
    } else {
      assert t[..n - Fields] == s[..n - Fields];
      assert Splice(t, p2) == t[..n - Fields] + Somes(p2);
      assert Splice(s, p2) == s[..n - Fields] + Somes(p2);
    }
  }

  /** On a 24- or 30-slot observation the node slots are kept and the
      profile fills slots 24..29. */
  lemma SpliceKeepsNodes(s: seq<Option<real>>, p: seq<real>)
    requires (|s| == 24 || |s| == Slots) && |p| == Fields
    ensures |Splice(s, p)| == Slots
    ensures Splice(s, p)[..24] == s[..24]
    ensures Splice(s, p)[24..] == Somes(p)
  {
    var r := Splice(s, p);
    if |s| == 24 {
      assert r[..24] == s;
    } else {
      assert r[..24] == s[..24];
    }
  }

  // ---- Action to node ----

  /** The node name for an action index; anything past 2 is node4. */
  function NodeName(a: int): string
  {
    if a == 0 then "node1"
    else if a == 1 then "node2"
    else if a == 2 then "node3"
    else "node4"
  }

  /** The four actions name four different nodes, none of them "error". */
  lemma NodeNamesDistinct(a: int, b: int)
    requires 0 <= a < Policy.Actions && 0 <= b < Policy.Actions
    ensures NodeName(a) == NodeName(b) <==> a == b
    ensures NodeName(a) != DqnFilter.NoDecision
  {
  }

  // ---- The service ----

  /** `pod_action`, the environment, the replay memory and the learner. */
  datatype Server = Server(cache: map<string, string>, env: Env, memory: Policy.Memory, learner: Policy.Learner)

  /** What `choose` hands to the step thread: the observation the network
      was shown, the action, and whether the observation list is the
      environment's own state list (it is, unless the state had 24 slots). */
  datatype Launch = Launch(obs: seq<real>, action: int, aliased: bool)

  /** The numbers of a list that holds no `None`. */
  function Numbers(s: seq<Option<real>>): (r: Option<seq<real>>)
    ensures r.Some? <==> forall i :: 0 <= i < |s| ==> s[i].Some?
    ensures r.Some? ==> Somes(r.value) == s
  {
    if forall i :: 0 <= i < |s| ==> s[i].Some? then
      var v := seq(|s|, i requires 0 <= i < |s| => s[i].value);
      assert Somes(v) == s;
      Some(v)
    else None
  }

  /** `choose`: a cached pod gets its node again and nothing changes.
      Otherwise the pod's profile is spliced into the observation (which,
      the observation being the environment's own list, also rewrites the
      environment's slots 24..29), the network picks an action from the
      Q-values `q` with the draws `u` and `pick`, and the node name is
      cached and returned.  An observation holding `None` raises
      `TypeError` whatever the draw, before anything is cached.  Its width
      matters only on the greedy branch, where the network is run on it: one
      of the wrong width raises `RuntimeError` there, while the random
      branch answers, caches and launches as usual (the step then fails to
      store the row). */
  function Choose(srv: Server, pod: string, q: seq<real>, u: real, pick: int): (r: (Server, Result<(string, Option<Launch>), Fault>))
    requires |q| == Policy.Actions && 0.0 <= u < 1.0 && 0 <= pick < Policy.Actions
    ensures pod in srv.cache ==> r == (srv, Success((srv.cache[pod], None)))
    ensures pod !in srv.cache ==>
              r.0.memory == srv.memory && r.0.learner == srv.learner &&
              r.0.env.count == srv.env.count && r.0.env.isDone == srv.env.isDone &&
              r.0.env.state == (if |srv.env.state| == 24 then srv.env.state
                                else Splice(srv.env.state, Profile(pod)))
    ensures pod !in srv.cache ==>
              (r.1.Success? <==> Numbers(Splice(srv.env.state, Profile(pod))).Some? &&
                                 (u >= Policy.Epsilon ||
                                  |Splice(srv.env.state, Profile(pod))| == Policy.StateWidth))
    ensures pod !in srv.cache && r.1.Failure? ==>
              r.1.error == (if Numbers(Splice(srv.env.state, Profile(pod))).None? then TypeError
                            else RuntimeError)
    ensures pod !in srv.cache && r.1.Failure? ==> r.0.cache == srv.cache
    ensures pod !in srv.cache && r.1.Success? ==>
              r.1.value.1.Some? &&
              var l := r.1.value.1.value;
              0 <= l.action < Policy.Actions && r.1.value.0 == NodeName(l.action) &&
              r.0.cache == srv.cache[pod := r.1.value.0] &&
              Somes(l.obs) == Splice(srv.env.state, Profile(pod)) &&
              l.aliased == (|srv.env.state| != 24)
  {
    if pod in srv.cache then (srv, Success((srv.cache[pod], None)))
    else
      var s := Splice(srv.env.state, Profile(pod));
      var aliased := |srv.env.state| != 24;
      var srv1 := if aliased then srv.(env := srv.env.(state := s)) else srv;
      match Numbers(s)
      case None => (srv1, Failure(TypeError))
      case Some(x) =>
        if u < Policy.Epsilon && |x| != Policy.StateWidth then (srv1, Failure(RuntimeError))
        else
          var a := Policy.ChooseAction(q, u, pick);
          var name := NodeName(a);
          (srv1.(cache := srv1.cache[pod := name]), Success((name, Some(Launch(x, a, aliased)))))
  }

  /** Once a pod has been answered, asking again returns the same node and
      changes nothing, whatever the network would say now. */
  lemma ChooseRemembers(srv: Server, pod: string, q: seq<real>, u: real, pick: int,
                        q2: seq<real>, u2: real, pick2: int)
    requires |q| == Policy.Actions && 0.0 <= u < 1.0 && 0 <= pick < Policy.Actions
    requires |q2| == Policy.Actions && 0.0 <= u2 < 1.0 && 0 <= pick2 < Policy.Actions
    requires Choose(srv, pod, q, u, pick).1.Success?
    ensures var (srv1, reply) := Choose(srv, pod, q, u, pick);
            Choose(srv1, pod, q2, u2, pick2) == (srv1, Success((reply.value.0, None)))
  {
  }

  /** On the environment as `reset` leaves it (30 slots, the node slots
      filled), a new pod is always answered; the node slots are kept and the
      pod's profile sits in slots 24..29 of the environment's state. */
  lemma ChooseOnStartedEnv(srv: Server, pod: string, q: seq<real>, u: real, pick: int)
    requires |q| == Policy.Actions && 0.0 <= u < 1.0 && 0 <= pick < Policy.Actions
    requires |srv.env.state| == Slots && FilledUpTo(srv.env.state, 24) && pod !in srv.cache
    ensures Choose(srv, pod, q, u, pick).1.Success?
    ensures Choose(srv, pod, q, u, pick).0.env.state[..24] == srv.env.state[..24]
    ensures Choose(srv, pod, q, u, pick).0.env.state[24..] == Somes(Profile(pod))
  {
    SpliceKeepsNodes(srv.env.state, Profile(pod));
    var s := Splice(srv.env.state, Profile(pod));
    forall i | 0 <= i < |s|
      ensures s[i].Some?
    {
      if i < 24 {
        assert s[i] == s[..24][i];
      } else {
        assert s[i] == s[24..][i - 24];
      }
    }
  }

  /** On the random branch the observation's width is never looked at: a
      new pod whose observation holds no `None` is answered with the drawn
      node and launched with the drawn action, whatever the width. */
  lemma ChooseRandomIgnoresWidth(srv: Server, pod: string, q: seq<real>, u: real, pick: int)
    requires |q| == Policy.Actions && Policy.Epsilon <= u < 1.0 && 0 <= pick < Policy.Actions
    requires pod !in srv.cache && Numbers(Splice(srv.env.state, Profile(pod))).Some?
    ensures Choose(srv, pod, q, u, pick).1.Success?
    ensures Choose(srv, pod, q, u, pick).1.value.0 == NodeName(pick)
    ensures Choose(srv, pod, q, u, pick).1.value.1.Some? &&
            Choose(srv, pod, q, u, pick).1.value.1.value.action == pick
  {
  }

  /** The node `choose` answers with is the only one the filter plugin lets
      through for that pod. */
  lemma ChosenNodePasses(srv: Server, pod: string, q: seq<real>, u: real, pick: int, node: DqnFilter.Node)
    requires |q| == Policy.Actions && 0.0 <= u < 1.0 && 0 <= pick < Policy.Actions
    requires pod !in srv.cache && Choose(srv, pod, q, u, pick).1.Success?
    ensures var reply := Choose(srv, pod, q, u, pick).1.value.0;
            (DqnFilter.Filter(DqnFilter.New(), Some(node), DqnFilter.Body(reply)).1.code == DqnFilter.Success
             <==> node.name == reply)
  {
    var l := Choose(srv, pod, q, u, pick).1.value.1.value;
    NodeNamesDistinct(l.action, l.action);
  }

  // ---- makeStep ----

  /** The state after `makeStep`, and the exception that ended it early,
      if any. */
  datatype StepRun = StepRun(srv: Server, crash: Option<Fault>)

  /** Storing the transition and closing the episode: `obs` is the
      observation list as the thread reads it at store time, `o` what the
      environment's step returned, `episodeOver` the outcome of the
      episode-end test.  A `None` left in either observation makes the
      stored row non-numeric (`TypeError`). */
  function Record(srv: Server, obs: Option<seq<real>>, l: Launch, o: Outcome,
                  resetAnswers: seq<Answer>, episodeOver: bool): (r: StepRun)
    requires Policy.Valid(srv.memory) && |resetAnswers| == Nodes
    ensures r.srv.learner == srv.learner
    ensures r.crash.None? ==>
              obs.Some? && Numbers(o.state).Some? &&
              var st := Policy.StoreTransition(srv.memory,
                          Policy.Transition(obs.value, l.action, o.reward, Numbers(o.state).value));
              st.Success? && r.srv.memory == st.value
    ensures !episodeOver ==> r.srv.env == srv.env
    ensures r.crash.None? && episodeOver ==>
              r.srv.cache == map[] && r.srv.env.count == 0 && !r.srv.env.isDone
    ensures !episodeOver ==> r.srv.cache == srv.cache
    ensures r.crash.Some? && srv.env.state != Unset() ==> r.srv.memory == srv.memory
  {
    match (obs, Numbers(o.state))
    case (Some(s), Some(next)) =>
      (match Policy.StoreTransition(srv.memory, Policy.Transition(s, l.action, o.reward, next))
       case Failure(e) => StepRun(srv, Some(e))
       case Success(m) =>
         var stored := srv.(memory := m);
         if !episodeOver then StepRun(stored, None)
         else
           match Reset(stored.env, resetAnswers)
           case Failure(e) => StepRun(stored.(cache := map[]), Some(e))
           case Success(env) => StepRun(stored.(cache := map[], env := env), None))
    case _ => StepRun(srv, Some(TypeError))
  }

  /** `makeStep` as written.  The observation it stores is read when the
      transition is stored: for an aliased launch that is the environment's
      list, which the step has just refreshed, so the stored `s` is the new
      observation, not the one the action was chosen on.  The episode ends
      only when the counter is exactly 100.  `learn` is never called. */
  function MakeStepAsWritten(srv: Server, l: Launch, answers: seq<Answer>, resetAnswers: seq<Answer>,
                             root: real -> real): (r: StepRun)
    requires Policy.Valid(srv.memory) && |answers| == Nodes && |resetAnswers| == Nodes
    ensures r.srv.learner == srv.learner
    ensures r.crash.Some? ==> r.srv.memory == srv.memory
  {
    var (env1, out) := Step(srv.env, answers, root);
    var srv1 := srv.(env := env1);
    match out
    case Failure(e) => StepRun(srv1, Some(e))
    case Success(o) =>
      var obs := if l.aliased then Numbers(env1.state) else Some(l.obs);
      Record(srv1, obs, l, o, resetAnswers, env1.count == MaxCount)
  }

  /** As written too, a call that completes stores one transition. */
  lemma AsWrittenStoresOne(srv: Server, l: Launch, answers: seq<Answer>, resetAnswers: seq<Answer>,
                           root: real -> real)
    requires Policy.Valid(srv.memory) && |answers| == Nodes && |resetAnswers| == Nodes
    requires MakeStepAsWritten(srv, l, answers, resetAnswers, root).crash.None?
    ensures MakeStepAsWritten(srv, l, answers, resetAnswers, root).srv.memory.counter ==
              srv.memory.counter + 1
  {
  }

  /** `makeStep` as intended: the launch carries its own copy of the
      observation, and the episode ends once the counter has reached 100.
      A call that completes stores exactly the transition (observation
      shown to the network, action, reward, new observation) and leaves
      the counter below 100; `learn` is never called. */
  function MakeStep(srv: Server, l: Launch, answers: seq<Answer>, resetAnswers: seq<Answer>,
                    root: real -> real): (r: StepRun)
    requires Policy.Valid(srv.memory) && |answers| == Nodes && |resetAnswers| == Nodes
    ensures r.srv.learner == srv.learner
    ensures r.crash.Some? ==> r.srv.memory == srv.memory
  {
    var (env1, out) := Step(srv.env, answers, root);
    var srv1 := srv.(env := env1);
    match out
    case Failure(e) => StepRun(srv1, Some(e))
    case Success(o) =>
      Record(srv1, Some(l.obs), l, o, resetAnswers, env1.count >= MaxCount)
  }

  /** A call of `makeStep` that completes stores exactly the transition
      (observation shown to the network, action, reward, new observation)
      in the next row of the ring, and leaves the counter below 100. */
  lemma MakeStepStores(srv: Server, l: Launch, answers: seq<Answer>, resetAnswers: seq<Answer>,
                       root: real -> real)
    requires Policy.Valid(srv.memory) && |answers| == Nodes && |resetAnswers| == Nodes
    requires MakeStep(srv, l, answers, resetAnswers, root).crash.None?
    ensures var r := MakeStep(srv, l, answers, resetAnswers, root);
            Policy.Valid(r.srv.memory) && r.srv.memory.counter == srv.memory.counter + 1 &&
            r.srv.env.count < MaxCount
    ensures |l.obs| == Policy.StateWidth ==>
              Step(srv.env, answers, root).1.Success? &&
              var o := Step(srv.env, answers, root).1.value;
              Numbers(o.state).Some? &&
              Policy.DecodeRow(MakeStep(srv, l, answers, resetAnswers, root)
                                 .srv.memory.rows[srv.memory.counter % Policy.MemoryCapacity]) ==
                Policy.Transition(l.obs, l.action, o.reward, Numbers(o.state).value)
  {
  }

  /** A launch whose observation does not fit the memory's rows (as one
      answered on the random branch may not) is never stored: together with
      the new observation it is not 62 wide, `store_transition` raises
      `ValueError`, and the memory keeps every row and its counter. */
  lemma MisfitLaunchNotStored(srv: Server, l: Launch, answers: seq<Answer>, resetAnswers: seq<Answer>,
                              root: real -> real)
    requires Policy.Valid(srv.memory) && |answers| == Nodes && |resetAnswers| == Nodes
    requires Step(srv.env, answers, root).1.Success?
    requires Numbers(Step(srv.env, answers, root).1.value.state).Some?
    requires |l.obs| + |Numbers(Step(srv.env, answers, root).1.value.state).value| != 2 * Policy.StateWidth
    ensures MakeStep(srv, l, answers, resetAnswers, root).crash == Some(ValueError)
    ensures MakeStep(srv, l, answers, resetAnswers, root).srv.memory == srv.memory
  {
  }

  /** Finding, as written: with an aliased launch the stored transition's
      observation is the same list as its next observation. */
  lemma AliasedStoreRepeatsState(srv: Server, l: Launch, answers: seq<Answer>, resetAnswers: seq<Answer>,
                                 root: real -> real)
    requires Policy.Valid(srv.memory) && |answers| == Nodes && |resetAnswers| == Nodes
    requires l.aliased
    requires MakeStepAsWritten(srv, l, answers, resetAnswers, root).crash.None?
    ensures var t := Policy.DecodeRow(MakeStepAsWritten(srv, l, answers, resetAnswers, root)
                                        .srv.memory.rows[srv.memory.counter % Policy.MemoryCapacity]);
            t.s == t.next
  {
    var (env1, out) := Step(srv.env, answers, root);
    var o := out.value;
    var s := Numbers(env1.state).value;
    assert o.state == env1.state;
    var t := Policy.Transition(s, l.action, o.reward, s);
    assert |s| + |s| == 2 * Policy.StateWidth;
  }

  /** Finding, as written: if the step that brings the counter to 100
      fails, the episode-end test is never reached, the next step takes the
      counter to 101, and from then on the cache is never cleared. */
  lemma HundredSkipped(srv: Server, l: Launch, l2: Launch, bad: seq<Answer>, good: seq<Answer>,
                       resetAnswers: seq<Answer>, root: real -> real)
    requires Policy.Valid(srv.memory) && |bad| == Nodes && |good| == Nodes && |resetAnswers| == Nodes
    requires srv.env.count == MaxCount - 1
    requires GetState(srv.env.state, bad).Failure?
    ensures var r1 := MakeStepAsWritten(srv, l, bad, resetAnswers, root);
            r1.crash.Some? && r1.srv.env.count == MaxCount && r1.srv.cache == srv.cache &&
            var r2 := MakeStepAsWritten(r1.srv, l2, good, resetAnswers, root);
            r2.srv.env.count == MaxCount + 1 && r2.srv.cache == srv.cache
  {
    var r1 := MakeStepAsWritten(srv, l, bad, resetAnswers, root);
    assert r1.srv == srv.(env := Step(srv.env, bad, root).0);
    var env2 := Step(r1.srv.env, good, root).0;
    assert env2.count != MaxCount;
  }

  /** ... and past 100 the as-written test never fires again: the cache is
      kept and the counter only grows. */
  lemma AsWrittenNeverResetsPastHundred(srv: Server, l: Launch, answers: seq<Answer>,
                                        resetAnswers: seq<Answer>, root: real -> real)
    requires Policy.Valid(srv.memory) && |answers| == Nodes && |resetAnswers| == Nodes
    requires srv.env.count > MaxCount
    ensures MakeStepAsWritten(srv, l, answers, resetAnswers, root).srv.cache == srv.cache
    ensures MakeStepAsWritten(srv, l, answers, resetAnswers, root).srv.env.count == srv.env.count + 1
  {
    var env1 := Step(srv.env, answers, root).0;
    assert env1.count != MaxCount;
  }

  /** As intended, the same failure costs one step at most: the next step
      that completes closes the episode and empties the cache. */
  lemma HundredRecovered(srv: Server, l: Launch, answers: seq<Answer>, resetAnswers: seq<Answer>,
                         root: real -> real)
    requires Policy.Valid(srv.memory) && |answers| == Nodes && |resetAnswers| == Nodes
    requires srv.env.count >= MaxCount - 1
    requires MakeStep(srv, l, answers, resetAnswers, root).crash.None?
    ensures MakeStep(srv, l, answers, resetAnswers, root).srv.cache == map[]
    ensures MakeStep(srv, l, answers, resetAnswers, root).srv.env.count == 0
  {
  }
}
