# DRS scheduling core in Dafny

This project models the decision logic of DRS, a Kubernetes scheduler that uses deep Q-learning. It has four cooperating parts:

- **The per-node monitoring agent** (`drs-monitor/monitor.py`).
  - Four sampling loops, one each for cpu, memory, network and disk I/O. Each keeps a bounded FIFO of its last ten readings.
  - A warm-up barrier, `monitorInit`.
  - The six-number snapshot, `getState`.
  - A request loop that answers every read with that snapshot as tuple text.
- **The reinforcement-learning environment** (`drs-scheduler/myenv/K8sEnv.py`).
  - It parses each node's reply and scales and clamps the fields.
  - It lays the four node vectors out in a 30-slot observation.
  - It counts the steps of an episode with a done flag.
  - It computes the load-balancing reward, minus the sum of the six cross-node standard deviations.
- **The agent** (`drs-scheduler/dqn.py`).
  - The `/choose` handler:
    - a pod cache;
    - workload profiles picked by keyword;
    - splicing the profile into the environment's own state list;
    - mapping the action to a node name.
  - The epsilon-greedy `choose_action`.
  - The circular replay memory with its row layout `[s | a | r | s_]`.
  - The `learn` step counter that refreshes the target network.
  - `makeStep`, which plays the action and records the experience.
- **The scheduler-framework filter plugin** (`scheduler/framework/plugins/dqn/dqn.go`). It lets through only the node the agent chose.

Everything is modelled with immutable values and pure functions. Two methods carry loops: `MetricAgent.AwaitReady` (the barrier) and `MetricAgent.Serve` (the request loop). The modules follow the program's structure:

| module | file | models |
|---|---|---|
| `Wrappers` | wrappers.dfy | `Option`, `Result` and the Python exceptions (`Fault`) the core raises |
| `Numeric` | numeric.dfy | `float('%.2f' % x)`, `sum`, mean, `int()` truncation |
| `MetricWindow` | metric_window.dfy | the ten-sample FIFO and the averaging of its newest samples |
| `Wire` | wire.dfy | the reply text: `str()` of the tuple and `getNodeState`'s parse |
| `MetricAgent` | metric_agent.dfy | the sampling loops, the barrier, the snapshot, the request loop |
| `Cluster` | cluster.dfy | `K8sEnv`: scaling, slot layout, `reset`, `step`, reward |
| `Policy` | policy.dfy | `DQN`: `choose_action`, `store_transition`, `learn` |
| `Scheduler` | scheduler.dfy | `choose` and `makeStep` |
| `DqnFilter` | dqn_filter.dfy | `DQNPlugin.Filter` and `New` |

The boundary to the outside world is replaced by inputs:

- **Probes.** Each sensor probe's reading is an `Option`. `None` stands for a probe that failed. For cpu, memory and io that is a failed command, and the source's function returns `None`. For the network it is `awk` output that does not parse, and the source's `int()` raises.
- **Replies and answers.** Node replies and the agent's HTTP answer are given texts, or a transport error.
- **The network.**
  - Its output for an observation is the vector of four Q-values.
  - Its parameters are an opaque `Weights` value.
  - The optimiser's result is an input.
- **Random draws.** These are inputs within the ranges the numpy functions return.
- **Square root.** `np.std` needs one. The reward takes the root function as a parameter, and the lemmas about it assume only that it is the non-negative square root.

Two interleavings are made explicit:

- **Sampling threads.** The sampling threads are replaced by a sequence of `Tick` events, one per loop iteration. `Poll` events stand for checks of the barrier.
- **The step thread.** It becomes a call of `makeStep` that the caller makes after `choose`.

Four corrected behaviours run through the model:

- the sampling loops skip a failed probe and keep sampling;
- `choose` hands the step thread its own copy of the observation;
- `makeStep` ends the episode once the counter has reached 100;
- the filter plugin reads an unreachable agent as "error".

The "## Findings" section says why. It names the as-written definitions that are kept beside the corrected ones.

## Model

| member | source | states |
|---|---|---|
| Numeric.Round2 | drs-monitor/monitor.py:52 | the two-decimal rounding yields a whole number of hundredths within half a hundredth of its argument |
| Numeric.Round2Monotone | drs-scheduler/myenv/K8sEnv.py:48-69 | rounding to two decimals never reverses the order of two values |
| Numeric.Round2OfCents | drs-monitor/monitor.py:52 | rounding a value that already has two decimals returns it unchanged |
| Numeric.MeanBounds | drs-monitor/monitor.py:52 | the mean of samples lying in [lo, hi] lies in [lo, hi] |
| Numeric.MeanOfTwo | drs-monitor/monitor.py:8 | the mean of two samples is their half-sum |
| Numeric.TruncOfInt | drs-scheduler/dqn.py:97 | `astype(int)` gives back an integer that was stored as a float |
| MetricWindow.Push | drs-monitor/monitor.py:43-45 | after a push the window holds min(old length + 1, 10) samples, and the newest sample is the one pushed |
| MetricWindow.PushKeepsLatest | drs-monitor/monitor.py:14-17 | a push keeps exactly the ten newest of the old samples plus the new one, in arrival order: a full window loses its oldest sample, and a window that is not full loses nothing |
| MetricWindow.PushAllKeepsLatest | drs-monitor/monitor.py:40-46 | after any number of loop iterations the window holds exactly the ten newest readings, in arrival order |
| MetricWindow.PushAllFromEmpty | drs-monitor/monitor.py:14 | starting from the empty queue, the window holds the last ten readings, or all of them when there were at most ten |
| MetricWindow.Recent | drs-monitor/monitor.py:50 | `w[-num:]` is the suffix of the newest min(num, len) samples, and the whole window when num is 0 |
| MetricWindow.Average | drs-monitor/monitor.py:48-54 | `getCpuState(num)` fails with a zero division exactly on an empty window; otherwise it is the rounded mean of `w[-num:]`: the newest min(num, len) samples, or the whole window when num is 0 |
| MetricWindow.AverageWithinBounds | drs-monitor/monitor.py:76-82 | an average of samples in [lo, hi] lies between the rounded bounds |
| MetricWindow.PairAverage | drs-monitor/monitor.py:102-112 | averaging the paired net/io windows fails exactly on an empty window, and otherwise yields two two-decimal numbers |
| MetricWindow.PairAverageComponentwise | drs-monitor/monitor.py:146-158 | the two components are averaged independently over the same newest entries |
| MetricAgent.NetRate | drs-monitor/monitor.py:96-98 | each direction's rate is the byte delta since the baseline, divided by the elapsed seconds and by 1024, then rounded; a reading at the baseline's timestamp divides by zero |
| MetricAgent.RawRateRecoversBytes | drs-monitor/monitor.py:97-98 | the unrounded rate times the seconds times 1024 is the byte delta again |
| MetricAgent.NetRateMonotone | drs-monitor/monitor.py:97-98 | over the same interval more traffic never shows a lower rate, and no traffic shows a rate of zero |
| MetricAgent.ToKiB | drs-monitor/monitor.py:125-132 | a rate tagged `M/s` is multiplied by 1024, and any other unit is taken as is |
| MetricAgent.IoRate | drs-monitor/monitor.py:120-135 | the first iotop report (the one since boot) is dropped, so the rates exist exactly when more than one report was printed, and then have two decimals; otherwise it divides by zero |
| MetricAgent.IoRateUnitInvariant | drs-monitor/monitor.py:123-132 | the unit matters only through normalisation: rewriting every line in K/s first gives the same rates |
| MetricAgent.Start | drs-monitor/monitor.py:14-17 | the agent starts with four empty windows and the startup network baseline |
| MetricAgent.Sampled | drs-monitor/monitor.py:40-144 | one corrected iteration of a sampling loop keeps the startup baseline; its effect on the windows is stated by the next row |
| MetricAgent.SampledTouchesOwnWindow | drs-monitor/monitor.py:40-46 | one loop iteration changes only its own window, and only by pushing its probe's reading |
| MetricAgent.SampledGrows | drs-monitor/monitor.py:68-74 | no sampling iteration shrinks a window |
| MetricAgent.ReadyStable | drs-monitor/monitor.py:173 | once every window holds two samples, no further sample can undo that |
| MetricAgent.AwaitReady | drs-monitor/monitor.py:170-176 | the barrier returns at the first check that finds every window holding `avgtime` samples; every earlier check found some window short |
| MetricAgent.Replay | drs-monitor/monitor.py:170-176 | the agent after an interleaving of loop iterations and barrier checks keeps the startup baseline |
| MetricAgent.PollsChangeNothing | drs-monitor/monitor.py:173-174 | checks of the barrier alone leave the agent as it was |
| MetricAgent.ReplayKeepsReady | drs-monitor/monitor.py:170-176 | after the barrier has passed, every later interleaving of the loops keeps the agent warm |
| MetricAgent.Snapshot | drs-monitor/monitor.py:160-168 | the snapshot has six numbers exactly when no window is empty; otherwise it divides by zero |
| MetricAgent.SnapshotOrder | drs-monitor/monitor.py:161-168 | the six numbers come in the order cpu, mem, net-in, net-out, io-read, io-write |
| MetricAgent.SnapshotCents | drs-monitor/monitor.py:168 | every number of a snapshot has two decimals |
| MetricAgent.AverageOfLastTwo | drs-monitor/monitor.py:50-52 | with at least `avgtime` samples, the average is the rounded mean of the two newest |
| MetricAgent.ReadySnapshotAveragesTwo | drs-monitor/monitor.py:8 | after warm-up each of the six numbers is the rounded mean of exactly the two newest samples of its window |
| MetricAgent.Served | drs-monitor/monitor.py:202-205 | the loop serves the reads before the first empty one, and stops at that one |
| MetricAgent.Serve | drs-monitor/monitor.py:202-209 | each non-empty read before the first empty one gets exactly one reply, the snapshot tuple as text; a snapshot that divides by zero ends the loop after the replies already sent |
| MetricAgent.WarmRepliesParse | drs-monitor/monitor.py:209 | every reply of a warm agent reads back, field by field, as the six numbers of its snapshot |
| MetricAgent.CpuLoopAsWritten | drs-monitor/monitor.py:45 | as written, the loop puts whatever the probe returned, `None` included, as the newest entry |
| MetricAgent.AverageAsWritten | drs-monitor/monitor.py:50-52 | over a window holding `None` among the averaged entries, `sum` raises `TypeError` |
| MetricAgent.ProbeFailurePoisonsAverage | drs-monitor/monitor.py:32-35 | as written, one failed probe makes the very next snapshot raise, whatever the window held |
| MetricAgent.ProbeFailureExample | drs-monitor/monitor.py:73 | readings 10 and 20 average to 15; after one failed probe the average raises |
| MetricAgent.ProbeFailureSkipped | drs-monitor/monitor.py:40-46 | in the corrected loops a failed probe of any of the four leaves the agent unchanged, so a warm agent stays warm and its snapshot defined |
| MetricAgent.PairProbeFailureSkipped | drs-monitor/monitor.py:137-144 | in the corrected net and io loops a failed probe keeps the window, and the next reading is pushed as if the failure had not happened |
| MetricAgent.NetReadingAsWritten | drs-monitor/monitor.py:84-98 | as written, a net reading raises exactly when the `awk` output does not parse (`ValueError` in `int()`) or was taken at the baseline's timestamp; otherwise it is the two rates |
| MetricAgent.IoReadingAsWritten | drs-monitor/monitor.py:114-142 | as written, `r, w = getIORate()` raises exactly when iotop failed (`TypeError` unpacking `None`) or printed at most one report (zero division); otherwise it is the two rates |
| MetricAgent.PairLoopAsWritten | drs-monitor/monitor.py:137-144 | as written, the net or io thread ends exactly when some reading raises, with that reading's exception, and leaves a window of fewer than ten entries |
| MetricAgent.PairLoopAllGood | drs-monitor/monitor.py:91-100 | while every reading succeeds, the as-written loop holds the ten newest readings, as the corrected one does |
| MetricAgent.PairLoopStaysStopped | drs-monitor/monitor.py:139-142 | once a reading has raised, no later reading changes the window |
| MetricAgent.FailedPairProbeShrinks | drs-monitor/monitor.py:140-142 | as written, a failed probe on a full window drops its oldest entry, ends the thread, and leaves nine entries for good |
| MetricAgent.FailedIoProbeExample | drs-monitor/monitor.py:117-118 | a failed iotop run on a full io window ends the thread with `TypeError` and nine entries |
| Wire.ParseNumber | drs-scheduler/myenv/K8sEnv.py:10 | `float()` of one field: surrounding spaces are ignored and an optionally signed decimal is read; any other text is rejected; its properties are the next rows |
| Wire.ParseShow | drs-monitor/monitor.py:209 | a two-decimal number's text parses back to the same number |
| Wire.ParseSpacedShow | drs-scheduler/myenv/K8sEnv.py:10 | the same holds behind the space that follows a comma in a tuple |
| Wire.ParseShownCents | drs-scheduler/myenv/K8sEnv.py:10 | the text of any signed count of hundredths parses to the number it spells |
| Wire.ShownValueIsCents | drs-monitor/monitor.py:209 | the number `c` hundredths spells is c/100 |
| Wire.DecimalTextValue | drs-scheduler/myenv/K8sEnv.py:10 | digits, a point and two digits parse to whole part plus hundredths |
| Wire.ParseLeadingSpace | drs-scheduler/myenv/K8sEnv.py:10 | `float()` ignores a leading space |
| Wire.TrimLeadingSpace | drs-scheduler/myenv/K8sEnv.py:10 | stripping whitespace ignores a leading space |
| Wire.SplitJoin | drs-scheduler/myenv/K8sEnv.py:9 | splitting the comma-joined pieces, none of which holds a comma, gives back the pieces |
| Wire.SplitAt | drs-scheduler/myenv/K8sEnv.py:9 | a split at the first separator yields the text before it, then the split of the rest |
| Wire.ParseFields | drs-scheduler/myenv/K8sEnv.py:10 | converting the pieces succeeds exactly when every piece converts, with one number per piece in order; otherwise `ValueError` |
| Wire.ParseFieldsAll | drs-scheduler/myenv/K8sEnv.py:10 | pieces that each convert to the matching number convert to the whole list |
| Wire.ParseReply | drs-scheduler/myenv/K8sEnv.py:6-12 | `getNodeState` yields one number per comma-separated field of the reply with its brackets dropped, or `ValueError` |
| Wire.TupleField | drs-monitor/monitor.py:209 | every field of the tuple text is comma-free and converts back to its number |
| Wire.EncodeTuple | drs-monitor/monitor.py:209 | `str()` of a tuple of two or more numbers: the fields joined by `", "` inside brackets, so the text starts with `(` and ends with `)` |
| Wire.ReplyRoundTrip | drs-scheduler/myenv/K8sEnv.py:6-12 | `getNodeState` applied to `str()` of a tuple of two or more two-decimal numbers gives back exactly those numbers |
| Cluster.Init | drs-scheduler/myenv/K8sEnv.py:15-26 | a new environment has count 0, is not done, and holds `[None] * 30` |
| Cluster.Cap | drs-scheduler/myenv/K8sEnv.py:48 | `min(v, 100)` rounded: the rounded value below 100, exactly 100 from 100 on, never more than 100 |
| Cluster.ScaleCpu | drs-scheduler/myenv/K8sEnv.py:48-51 | the scaled cpu field is `Round2(4x)` while 4x is at most 100 and exactly 100 from there on, so never above 100 and always two decimals |
| Cluster.ScaleNet | drs-scheduler/myenv/K8sEnv.py:53-60 | a scaled net field is `Round2(x/40*100)` while that is at most 100 and exactly 100 from there on, so never above 100 and always two decimals |
| Cluster.ScaleIo | drs-scheduler/myenv/K8sEnv.py:62-69 | a scaled io field is `Round2(x/10240*100)` while that is at most 100 and exactly 100 from there on, so never above 100 and always two decimals |
| Cluster.ScalesBelowCap | drs-scheduler/myenv/K8sEnv.py:47-69 | below the cap every scaled field is within half a hundredth of its unrounded value, and equal to it when that already has two decimals; a non-negative reading stays non-negative |
| Cluster.ScaleExamples | drs-scheduler/myenv/K8sEnv.py:47-65 | cpu 30 clamps to 100, 12.5 becomes 50; 10 KB/s is 25; 20000 KB/s clamps to 100 |
| Cluster.ScaleNode | drs-scheduler/myenv/K8sEnv.py:47-69 | scaling one node vector keeps its length; the fields are stated by the next row |
| Cluster.ScaleNodeFields | drs-scheduler/myenv/K8sEnv.py:47-69 | fields 0, 2, 3, 4 and 5 hold the capped, rounded cpu, net and io scalings of the reading, at most 100 with two decimals; memory and any field past the sixth pass through |
| Cluster.SliceAssign | drs-scheduler/myenv/K8sEnv.py:74 | `s[lo:hi] = v` with both bounds clamped to the list: the list loses the clamped slice and gains `v` |
| Cluster.SliceAssignSlots | drs-scheduler/myenv/K8sEnv.py:74 | Python slice assignment keeps the slots before the clamped start, inserts the vector, and shifts the slots after the clamped end |
| Cluster.Layout | drs-scheduler/myenv/K8sEnv.py:74-77 | the four node vectors are assigned to the slices 0:6, 6:12, 12:18 and 18:24 in that order; the next three rows state the result |
| Cluster.LayoutFills | drs-scheduler/myenv/K8sEnv.py:74-77 | whatever the replies' lengths (six or more fields), the first 24 slots hold numbers afterwards |
| Cluster.LayoutExact | drs-scheduler/myenv/K8sEnv.py:74-77 | with six-field vectors, the four assignments replace exactly slots 0..23 |
| Cluster.LayoutSlots | drs-scheduler/myenv/K8sEnv.py:74-77 | node k's vector lands in slots 6k..6k+5, and slots from 24 on are untouched |
| Cluster.FirstFailure | drs-scheduler/myenv/K8sEnv.py:43-46 | the nodes are asked in order, so the first failed reply is the one that propagates |
| Cluster.GetState | drs-scheduler/myenv/K8sEnv.py:40-77 | the first failed parse propagates; a vector of fewer than six fields raises `IndexError`; otherwise the first 24 slots are filled |
| Cluster.GetStateSlots | drs-scheduler/myenv/K8sEnv.py:43-77 | with six fields per node, the state keeps its length, node k's scaled vector is in slots 6k..6k+5, and the profile slots are untouched |
| Cluster.AgentRepliesLand | drs-scheduler/myenv/K8sEnv.py:6-12 | replies the agents sent as tuple text land, scaled, in the right slots |
| Cluster.VarianceZeroIffEqual | drs-scheduler/myenv/K8sEnv.py:97 | the variance of four values is non-negative, and zero exactly when they are equal |
| Cluster.SpreadZeroIffEqual | drs-scheduler/myenv/K8sEnv.py:97-102 | a field's cross-node standard deviation is non-negative, and zero exactly when the four nodes agree on it |
| Cluster.Reward | drs-scheduler/myenv/K8sEnv.py:97-104 | minus the sum of the six fields' standard deviations across the four nodes, the two net and the two io directions each counted on their own; its sign and zero set are the next row |
| Cluster.RewardZeroIffBalanced | drs-scheduler/myenv/K8sEnv.py:97-104 | the reward is never positive, and zero exactly when the four node vectors are identical |
| Cluster.RewardPrefersBalancedCpu | drs-scheduler/myenv/K8sEnv.py:97-104 | an even cpu load earns a strictly higher reward than an uneven one, other fields fixed |
| Cluster.Reset | drs-scheduler/myenv/K8sEnv.py:80-85 | reset sets count 0 and not done; it fetches the state only while that is still all `None`, and otherwise keeps it |
| Cluster.StepBegin | drs-scheduler/myenv/K8sEnv.py:88 | the counter goes up before the wait, and nothing else changes |
| Cluster.StepEnd | drs-scheduler/myenv/K8sEnv.py:94-114 | a failed refresh propagates and leaves the environment as the first half left it (counter already raised); otherwise the new state, the reward over it, and done exactly when already done or the counter reached 100 |
| Cluster.Step | drs-scheduler/myenv/K8sEnv.py:87-88 | step raises the counter by exactly one, whether or not it completes |
| Cluster.StepDoneAtMaxCount | drs-scheduler/myenv/K8sEnv.py:109-110 | from an undone episode a completed step is done exactly when the counter reached 100 |
| Cluster.StepRewardBound | drs-scheduler/myenv/K8sEnv.py:97-104 | a completed step's reward is never positive, and zero when the refreshed cluster is balanced |
| Policy.ArgMax | drs-scheduler/dqn.py:77 | the maximum's index is in range, no value exceeds it, and it is the first such index |
| Policy.ChooseAction | drs-scheduler/dqn.py:73-81 | the action is always in [0, 4): a greedy draw takes a best Q-value, otherwise the random pick |
| Policy.GreedyPicksStrictBest | drs-scheduler/dqn.py:75-78 | on a greedy draw an action strictly better than all others is the one chosen |
| Policy.EncodeRow | drs-scheduler/dqn.py:84 | `np.hstack((s, [a, r], s_))` is as wide as both observations plus two |
| Policy.DecodeRow | drs-scheduler/dqn.py:96-99 | `learn`'s slicing of a 62-wide row yields observations of width 30 |
| Policy.DecodeEncode | drs-scheduler/dqn.py:84 | decoding a stored row gives back exactly the transition `hstack` concatenated |
| Policy.ZeroRowDecodes | drs-scheduler/dqn.py:69 | a row never written decodes to zero observations, action 0, reward 0 |
| Policy.EmptyMemory | drs-scheduler/dqn.py:68-69 | the memory starts as 100 zero rows of width 62 with the counter at 0 |
| Policy.StoreTransition | drs-scheduler/dqn.py:83-87 | row counter % 100 is overwritten, the counter goes up by one, and every other row is unchanged; a transition of the wrong width raises `ValueError` and changes nothing |
| Policy.StoreAllKeepsRecent | drs-scheduler/dqn.py:85-87 | the memory is a ring: each of the last 100 stored transitions is read back from its row |
| Policy.StoreAllLeavesZeros | drs-scheduler/dqn.py:69 | from empty, rows past the last one written are still zero |
| Policy.FilledRow | drs-scheduler/dqn.py:85 | before the first full turn, the k-th transition sits in row k |
| Policy.SampleBatch | drs-scheduler/dqn.py:94-99 | a batch has 32 decoded transitions, each of observation width 30 |
| Policy.SampleWritten | drs-scheduler/dqn.py:94-99 | a sampled row that was written holds the transition stored there |
| Policy.SampleUnwritten | drs-scheduler/dqn.py:94-99 | a sampled row not yet written decodes to the all-zero transition |
| Policy.Learn | drs-scheduler/dqn.py:89-92 | the target network takes the evaluation parameters exactly when the counter before the call is a multiple of 100; the counter goes up by one |
| Policy.TargetSyncSchedule | drs-scheduler/dqn.py:90-92 | after n calls the target holds the evaluation network from just before the last call numbered 1, 101, 201, ... |
| DqnFilter.New | scheduler/framework/plugins/dqn/dqn.go:79-81 | a new plugin has no cached choice |
| DqnFilter.Decide | scheduler/framework/plugins/dqn/dqn.go:65-76 | a node passes exactly when the choice is "error" or names it; otherwise it is unschedulable with `ErrReason` |
| DqnFilter.Choice | scheduler/framework/plugins/dqn/dqn.go:51-63 | the cached choice wins; otherwise the fetched answer, with a failed fetch read as "error" |
| DqnFilter.Filter | scheduler/framework/plugins/dqn/dqn.go:43-77 | a nil node is an error; otherwise a node passes exactly when the choice is "error" or its name; the plugin itself is unchanged |
| DqnFilter.FilterAsWritten | scheduler/framework/plugins/dqn/dqn.go:55-62 | as written, a transport error with no cached choice dereferences the nil response |
| DqnFilter.FilterRefinesAsWritten | scheduler/framework/plugins/dqn/dqn.go:43-77 | whenever the plugin as written returns, it returns the corrected status |
| DqnFilter.TransportErrorPanics | scheduler/framework/plugins/dqn/dqn.go:55-61 | as written, a fresh plugin panics on an unreachable agent, while the corrected one lets the node pass |
| DqnFilter.NoDecisionPassesAll | scheduler/framework/plugins/dqn/dqn.go:65-67 | with the agent unreachable or answering "error", every node passes |
| DqnFilter.AtMostOnePasses | scheduler/framework/plugins/dqn/dqn.go:69-75 | with a real answer, any two nodes that pass carry the chosen name |
| DqnFilter.EveryCallFetches | scheduler/framework/plugins/dqn/dqn.go:43 | over any sequence of calls the plugin stays new, so each status depends on its own answer only |
| Scheduler.FindFrom | drs-scheduler/dqn.py:149 | `find` returns the first occurrence at or after the start, or -1 when there is none |
| Scheduler.FindIffContains | drs-scheduler/dqn.py:149-153 | `find` reports a hit exactly when the keyword occurs |
| Scheduler.Profile | drs-scheduler/dqn.py:149-156 | the profile is chosen by first match in the order video, net, disk, else zeros |
| Scheduler.ProfileExamples | drs-scheduler/dqn.py:149-154 | a name with both "video" and "disk" gets the video profile; "net" is tested before "disk" |
| Scheduler.ProfileOtherIsIdle | drs-scheduler/dqn.py:155-156 | a name with no keyword gets zeros |
| Scheduler.ProfileInRange | drs-scheduler/dqn.py:150-156 | every profile value lies in the observation range 0..100 |
| Scheduler.Splice | drs-scheduler/dqn.py:158-161 | a 24-slot state gets the profile appended; otherwise the last six slots are replaced and the rest kept |
| Scheduler.SpliceLastWins | drs-scheduler/dqn.py:161 | splicing twice is splicing the last profile once |
| Scheduler.SpliceKeepsNodes | drs-scheduler/dqn.py:158-161 | on a 24- or 30-slot state, the node slots are kept and the profile fills slots 24..29 |
| Scheduler.NodeName | drs-scheduler/dqn.py:163-172 | actions 0, 1, 2 name node1, node2, node3, and any other action node4; the next row states what that map guarantees |
| Scheduler.NodeNamesDistinct | drs-scheduler/dqn.py:163-172 | the four actions name four different nodes, none of them "error" |
| Scheduler.Numbers | drs-scheduler/dqn.py:74 | a list converts to numbers exactly when it holds no `None` |
| Scheduler.Choose | drs-scheduler/dqn.py:138-180 | a cached pod gets its node and nothing changes; otherwise the profile is spliced into the environment's own list, and on success the action is in range, the node name is cached and returned; a `None` raises `TypeError` before anything is cached, and a wrong width raises `RuntimeError` only on a greedy draw |
| Scheduler.ChooseRandomIgnoresWidth | drs-scheduler/dqn.py:79-80 | on a random draw a new pod whose observation holds no `None` is answered and launched with the drawn action, whatever the observation's width |
| Scheduler.ChooseRemembers | drs-scheduler/dqn.py:143-145 | asking again for an answered pod returns the same node and changes nothing, whatever the network says now |
| Scheduler.ChooseOnStartedEnv | drs-scheduler/dqn.py:147-161 | after `reset`, a new pod is always answered, and its profile sits in slots 24..29 of the environment's state |
| Scheduler.ChosenNodePasses | drs-scheduler/dqn.py:174-180 | the node `choose` answers is the only one the filter plugin lets through for that pod |
| Scheduler.Record | drs-scheduler/dqn.py:126-130 | a completed store writes exactly the transition; the cache is cleared and the counter reset only when the episode ends |
| Scheduler.MakeStepAsWritten | drs-scheduler/dqn.py:123-130 | as written, the learner is never touched, and a crashed call leaves the memory unchanged |
| Scheduler.AsWrittenStoresOne | drs-scheduler/dqn.py:126 | as written, a completed call stores exactly one transition |
| Scheduler.MisfitLaunchNotStored | drs-scheduler/dqn.py:83-86 | a launch whose observation, together with the new one, is not 62 wide raises `ValueError` when stored, and the memory is unchanged |
| Scheduler.AliasedStoreRepeatsState | drs-scheduler/dqn.py:147 | as written, with the aliased list, the stored observation equals the stored next observation |
| Scheduler.HundredSkipped | drs-scheduler/dqn.py:128 | as written, if the step reaching 100 fails, the next step takes the counter to 101 and keeps the cache |
| Scheduler.AsWrittenNeverResetsPastHundred | drs-scheduler/dqn.py:128-130 | as written, past 100 the cache is never cleared again and the counter only grows |
| Scheduler.MakeStep | drs-scheduler/dqn.py:123-135 | the learner is never touched (`learn` is never called), and a crashed call leaves the memory unchanged |
| Scheduler.MakeStepStores | drs-scheduler/dqn.py:124-130 | a completed call stores exactly the chosen-on observation, the action, the reward and the new observation in the next ring row, and leaves the counter below 100 |
| Scheduler.HundredRecovered | drs-scheduler/dqn.py:128-130 | corrected: from 99 on, the next completed step empties the cache and resets the counter |

## Left out

- Sensor probes: `top`, `/proc/meminfo`, `/proc/net/dev` and `iotop` through `subprocess`, and their awk parsing. Each reading is an input: `None` for a failed command or, for the network, output that does not parse.
- Sockets, the Flask route and its form parsing, and the HTTP POST of the filter plugin. Replies and answers are inputs.
- Threads and `time.sleep`. Each loop iteration, check of the barrier and step is a separate sequential event.
- The torch network, its forward pass, the Adam optimiser and the MSE loss of `learn`. Q-values and trained parameters are inputs.
- Which index `torch.max` returns on equal Q-values. `Policy.ArgMax` takes the first.
- float32 and float64 arithmetic. Every number is a `real`.
- `Numeric.Round2` rounds halves up. Python's `'%.2f'` rounds the binary double to nearest, so results can differ on exact halves.
- `Wire.ParseNumber` accepts a subset of `float()`'s syntax: spaces around an optional sign, digits, an optional point and digits. It rejects exponents, `inf`/`nan`, underscores and whitespace other than spaces. The round-trip lemmas only need plain decimals.
- `Wire.EncodeTuple`: a one-element tuple, which Python writes `(x,)`, is not modelled. The agent always sends six numbers.
- `Wire.Show` writes exactly two decimals, where Python's `repr` may write fewer (`12.5`). Both read back to the same value.
- `MetricAgent.Sampled`: this is the corrected loop, and its own contract states only that the baseline is kept; `SampledTouchesOwnWindow` states its effect on the windows. As written, the net and io loops drop the oldest entry of a full window and then end their thread when the reading raises. The net reading raises on `awk` output that does not parse or at the baseline's timestamp; the io reading raises on a failed iotop run or one with at most one report. `MetricAgent.PairLoopAsWritten` models that behaviour, and the "## Findings" row for monitor.py:140-142 records it.
- The pickle dump in `makeStep`. Once `memory_counter` passes 100, it opens `transition.pkl` in text mode, so `pickle.dump` raises `TypeError` and the step thread ends. This happens after the transition is stored and the episode test has run, so no modelled state depends on it.
- The `reward.log` append in `step`, file output after the modelled state changes.
- The PrettyTable and the log printing.
- `Scheduler.Record`: when the new observation holds `None`, numpy turns it into `nan` rather than raising. The model reports `TypeError` and stores nothing. A step that completes always has its first 24 slots filled, so only the profile slots are affected.
- A missing `podname` form field (`None.find` raises in `choose`). The pod name is a string.
- `Filter`'s `handle` field and the plugin's `Name`, which nothing here reads.

## Findings

| source | as written | input that shows it | evidently intended | confidence | as-written member | corrected member |
|---|---|---|---|---|---|---|
| drs-monitor/monitor.py:45 | a failed probe returns `None`, and the loop puts it in the window | readings 10, 20, then a failed `top` run: the next `getCpuState(2)` sums `None` and raises `TypeError` | skip the failed reading and keep the window as it was | not executed | MetricAgent.ProbeFailurePoisonsAverage | MetricAgent.ProbeFailureSkipped |
| drs-monitor/monitor.py:140-142 | a full io window drops its oldest entry before the probe runs; a failed `iotop` run returns `None`, `r, w = getIORate()` raises `TypeError`, and the thread ends (the net loop does the same at monitor.py:94-96 when `int()` rejects the `awk` output) | a full io window, then one failed iotop run: the window keeps nine entries and is never sampled again | skip the failed reading, keep the window, and keep sampling | not executed | MetricAgent.FailedPairProbeShrinks | MetricAgent.PairProbeFailureSkipped |
| drs-scheduler/dqn.py:147 | `s = env.state` aliases the environment's list, and the step thread stores it after `env.step` has refreshed it | any completed step on the 30-slot state: the stored row's `s` equals its `s_` | store the observation the action was chosen on (a copy) | not executed | Scheduler.AliasedStoreRepeatsState | Scheduler.MakeStepStores |
| drs-scheduler/dqn.py:128 | the episode ends only when `env.count == 100` | the step that raises the counter to 100 fails in `getState`; the next step takes it to 101, and the cache is never cleared again | end the episode once the counter has reached 100 (`>=`, as `step` itself tests) | not executed | Scheduler.HundredSkipped | Scheduler.HundredRecovered |
| scheduler/framework/plugins/dqn/dqn.go:55-62 | on a POST error `resp` is nil, and `resp.Body` is read anyway | agent unreachable, fresh plugin: nil dereference, panic | fall back to "error", so that every node passes | not executed | DqnFilter.TransportErrorPanics | DqnFilter.NoDecisionPassesAll |
