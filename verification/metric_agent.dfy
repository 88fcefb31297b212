/** The per-node monitoring agent (drs-monitor/monitor.py): four sampling
    loops, each the only writer of its own window, a warm-up barrier, the
    snapshot of six averages, and the request loop that answers every
    non-empty read with that snapshot as tuple text.

    Threads are replaced by an explicit interleaving: a `Tick` is one
    iteration of one sampling loop with the probe's result as input, and a
    `Poll` is one check of the warm-up barrier.  Probes that may fail yield
    an `Option`.  The agent here SKIPS a failed probe and keeps its window
    as it was.  As written, the cpu and memory loops push `None` instead
    (`CpuLoopAsWritten`, `AverageAsWritten`), and the net and io loops
    drop the oldest entry of a full window and then end on the exception
    (`PairLoopAsWritten`); both are modelled separately below. */
module MetricAgent {
  import opened Wrappers
  import opened Numeric
  import opened MetricWindow
  import Wire

  /** `avgtime`: every snapshot averages this many newest samples. */
  const AvgTime: nat := 2

  /** Cumulative interface byte counters and the time they were read at. */
  datatype NetCounters = NetCounters(received: int, transmitted: int, time: real)

  /** Bytes per second over an interval, in KiB/s, before rounding. */
  function RawRate(bytes: int, seconds: real): real
    requires seconds != 0.0
  {
    (bytes as real) / seconds / 1024.0
  }

  /** The rate formula recovers the byte count it was computed from. */
  lemma RawRateRecoversBytes(bytes: int, seconds: real)
    requires seconds != 0.0
    ensures RawRate(bytes, seconds) * seconds * 1024.0 == bytes as real
  {
  }

  /** `netQueue`'s two rates against the startup baseline `base`: traffic in
      and out since then, divided by the elapsed seconds and by 1024, each
      rounded to two decimals.  A reading taken at the baseline's own
      timestamp divides by zero. */
  function NetRate(base: NetCounters, now: NetCounters): (r: Result<(real, real), Fault>)
    ensures r.Failure? <==> now.time == base.time
    ensures r.Failure? ==> r.error == ZeroDivisionError
    ensures r.Success? ==>
              r.value.0 == Round2(RawRate(now.received - base.received, now.time - base.time)) &&
              r.value.1 == Round2(RawRate(now.transmitted - base.transmitted, now.time - base.time))
  {
    var dt := now.time - base.time;
    if dt == 0.0 then Failure(ZeroDivisionError)
    else Success((Round2(RawRate(now.received - base.received, dt)),
                  Round2(RawRate(now.transmitted - base.transmitted, dt))))
  }

  lemma RawRateMonotone(a: int, b: int, seconds: real)
    requires seconds > 0.0 && a <= b
    ensures RawRate(a, seconds) <= RawRate(b, seconds)
    ensures a == 0 ==> RawRate(a, seconds) == 0.0
  {
    var x := (a as real) / seconds;
    var y := (b as real) / seconds;
    assert x * seconds == a as real && y * seconds == b as real;
    assert x <= y;
  }

  /** More traffic over the same interval never shows a lower rate, and no
      traffic shows a rate of zero. */
  lemma NetRateMonotone(base: NetCounters, now: NetCounters, more: NetCounters)
    requires now.time > base.time && more.time == now.time
    requires now.received <= more.received && now.transmitted <= more.transmitted
    ensures NetRate(base, now).value.0 <= NetRate(base, more).value.0
    ensures NetRate(base, now).value.1 <= NetRate(base, more).value.1
    ensures now.received == base.received ==> NetRate(base, now).value.0 == 0.0
    ensures now.transmitted == base.transmitted ==> NetRate(base, now).value.1 == 0.0
  {
    var dt := now.time - base.time;
    var a := now.received - base.received;
    var b := more.received - base.received;
    var c := now.transmitted - base.transmitted;
    var d := more.transmitted - base.transmitted;
    RawRateMonotone(a, b, dt);
    RawRateMonotone(c, d, dt);
    Round2Monotone(RawRate(a, dt), RawRate(b, dt));
    Round2Monotone(RawRate(c, dt), RawRate(d, dt));
    Round2OfCents(0.0);
  }

  /** One line of `iotop`'s totals: read rate and unit, write rate and unit. */
  datatype IoLine = IoLine(read: real, readUnit: string, write: real, writeUnit: string)

  /** iotop prints either `K/s` or `M/s`; only `M/s` is scaled up. */
  function ToKiB(v: real, unit: string): (r: real)
    ensures unit == "M/s" ==> r == v * 1024.0
    ensures unit != "M/s" ==> r == v
  {
    if unit == "M/s" then v * 1024.0 else v
  }

  /** The same line with both rates rewritten in `K/s`. */
  function InKiB(l: IoLine): (r: IoLine)
    ensures r.readUnit == "K/s" && r.writeUnit == "K/s"
  {
    IoLine(ToKiB(l.read, l.readUnit), "K/s", ToKiB(l.write, l.writeUnit), "K/s")
  }

  function Reads(rows: seq<IoLine>): (r: seq<real>)
    ensures |r| == |rows|
  {
    seq(|rows|, i requires 0 <= i < |rows| => ToKiB(rows[i].read, rows[i].readUnit))
  }

  function Writes(rows: seq<IoLine>): (r: seq<real>)
    ensures |r| == |rows|
  {
    seq(|rows|, i requires 0 <= i < |rows| => ToKiB(rows[i].write, rows[i].writeUnit))
  }

  /** `getIORate`: iotop's first report (the one since boot) is dropped,
      the remaining reports are normalised to KiB/s and averaged.  With
      nothing left the mean divides by zero. */
  function IoRate(lines: seq<IoLine>): (r: Result<(real, real), Fault>)
    ensures r.Success? <==> |lines| > 1
    ensures r.Failure? ==> r.error == ZeroDivisionError
    ensures r.Success? ==> IsCents(r.value.0) && IsCents(r.value.1)
  {
    if |lines| <= 1 then Failure(ZeroDivisionError)
    else
      var rows := lines[1..];
      Success((Round2(Mean(Reads(rows))), Round2(Mean(Writes(rows)))))
  }

  /** The unit only matters through the normalisation: rewriting every line
      in KiB/s first gives the same rates. */
  lemma IoRateUnitInvariant(lines: seq<IoLine>)
    ensures IoRate(lines) == IoRate(seq(|lines|, i requires 0 <= i < |lines| => InKiB(lines[i])))
  {
    var norm := seq(|lines|, i requires 0 <= i < |lines| => InKiB(lines[i]));
    if |lines| > 1 {
      assert Reads(lines[1..]) == Reads(norm[1..]);
      assert Writes(lines[1..]) == Writes(norm[1..]);
    }
  }

  /** The agent's state: four windows plus the network baseline read once at
      startup (`last_in`, `last_out`, `last_time`, never reassigned). */
  datatype Agent = Agent(
    cpu: Window<real>,
    mem: Window<real>,
    net: Window<(real, real)>,
    io: Window<(real, real)>,
    base: NetCounters)

  /** The agent right after startup: empty windows and the baseline. */
  function Start(base: NetCounters): (a: Agent)
    ensures a.base == base && |a.cpu| == 0 && |a.mem| == 0 && |a.net| == 0 && |a.io| == 0
  {
    Agent([], [], [], [], base)
  }

  /** What one iteration of one sampling loop obtained from its probe. */
  datatype Sample =
    | CpuSample(cpu: Option<real>)
    | MemSample(mem: Option<real>)
    | NetSample(counters: Option<NetCounters>)
    | IoSample(lines: Option<seq<IoLine>>)

  /** One sampling-loop iteration.  A probe that failed (for the network,
      `awk` output that does not parse), a net reading at the baseline's
      timestamp and an iotop run without reports leave the window as it
      was. */
  function Sampled(a: Agent, s: Sample): (r: Agent)
    ensures r.base == a.base
  {
    match s
    case CpuSample(Some(x)) => a.(cpu := Push(a.cpu, x))
    case MemSample(Some(x)) => a.(mem := Push(a.mem, x))
    case NetSample(Some(now)) =>
      (match NetRate(a.base, now)
       case Success(p) => a.(net := Push(a.net, p))
       case Failure(_) => a)
    case IoSample(Some(lines)) =>
      (match IoRate(lines)
       case Success(p) => a.(io := Push(a.io, p))
       case Failure(_) => a)
    case _ => a
  }

  /** A sampling iteration touches only its own loop's window, and only by
      pushing the probe's reading. */
  lemma SampledTouchesOwnWindow(a: Agent, s: Sample)
    ensures var r := Sampled(a, s);
      (r.cpu == a.cpu || (s.CpuSample? && s.cpu.Some? && r.cpu == Push(a.cpu, s.cpu.value))) &&
      (r.mem == a.mem || (s.MemSample? && s.mem.Some? && r.mem == Push(a.mem, s.mem.value))) &&
      (r.net == a.net || (s.NetSample? && s.counters.Some? &&
                          NetRate(a.base, s.counters.value).Success? &&
                          r.net == Push(a.net, NetRate(a.base, s.counters.value).value))) &&
      (r.io == a.io || (s.IoSample? && s.lines.Some? && IoRate(s.lines.value).Success? &&
                        r.io == Push(a.io, IoRate(s.lines.value).value)))
    ensures var r := Sampled(a, s);
      (!s.CpuSample? ==> r.cpu == a.cpu) && (!s.MemSample? ==> r.mem == a.mem) &&
      (!s.NetSample? ==> r.net == a.net) && (!s.IoSample? ==> r.io == a.io)
  {
  }

  /** Sampling never shrinks a window. */
  lemma SampledGrows(a: Agent, s: Sample)
    ensures |Sampled(a, s).cpu| >= |a.cpu| && |Sampled(a, s).mem| >= |a.mem|
    ensures |Sampled(a, s).net| >= |a.net| && |Sampled(a, s).io| >= |a.io|
  {
    SampledTouchesOwnWindow(a, s);
  }

  /** The condition `monitorInit` waits for. */
  predicate Ready(a: Agent)
  {
    |a.cpu| >= AvgTime && |a.mem| >= AvgTime && |a.net| >= AvgTime && |a.io| >= AvgTime
  }

  /** Once warm, always warm: no sample can undo readiness. */
  lemma ReadyStable(a: Agent, s: Sample)
    requires Ready(a)
    ensures Ready(Sampled(a, s))
  {
    SampledGrows(a, s);
  }

  /** The six numbers of `getState`, in the order cpu, mem, net-in, net-out,
      io-read, io-write.  Any empty window divides by zero. */
  function Snapshot(a: Agent): (r: Result<seq<real>, Fault>)
    ensures r.Success? <==> |a.cpu| > 0 && |a.mem| > 0 && |a.net| > 0 && |a.io| > 0
    ensures r.Failure? ==> r.error == ZeroDivisionError
    ensures r.Success? ==> |r.value| == 6
  {
    match Average(a.cpu, AvgTime)
    case Failure(e) => Failure(e)
    case Success(cpu) =>
      match Average(a.mem, AvgTime)
      case Failure(e) => Failure(e)
      case Success(mem) =>
        match PairAverage(a.net, AvgTime)
        case Failure(e) => Failure(e)
        case Success(net) =>
          match PairAverage(a.io, AvgTime)
          case Failure(e) => Failure(e)
          case Success(io) => Success([cpu, mem, net.0, net.1, io.0, io.1])
  }

  /** Mean of the newest two entries of a window that holds at least two. */
  function LastTwo(w: seq<real>): real
    requires |w| >= 2
  {
    (w[|w| - 2] + w[|w| - 1]) / 2.0
  }

  lemma AverageOfLastTwo(w: seq<real>)
    requires |w| >= AvgTime
    ensures Average(w, AvgTime) == Success(Round2(LastTwo(w)))
  {
    var recent := w[|w| - 2..];
    MeanOfTwo(recent);
  }

  /** The snapshot lists the four windows' averages in `getState`'s order. */
  lemma SnapshotOrder(a: Agent)
    requires |a.cpu| > 0 && |a.mem| > 0 && |a.net| > 0 && |a.io| > 0
    ensures Snapshot(a).value == [Average(a.cpu, AvgTime).value, Average(a.mem, AvgTime).value,
                                  PairAverage(a.net, AvgTime).value.0, PairAverage(a.net, AvgTime).value.1,
                                  PairAverage(a.io, AvgTime).value.0, PairAverage(a.io, AvgTime).value.1]
  {
  }

  /** Six two-decimal numbers make a list of two-decimal numbers. */
  lemma SixCents(v: seq<real>, c0: real, c1: real, c2: real, c3: real, c4: real, c5: real)
    requires v == [c0, c1, c2, c3, c4, c5]
    requires IsCents(c0) && IsCents(c1) && IsCents(c2) && IsCents(c3) && IsCents(c4) && IsCents(c5)
    ensures forall i :: 0 <= i < |v| ==> IsCents(v[i])
  {
    forall i | 0 <= i < |v|
      ensures IsCents(v[i])
    {
      if i == 0 {
        assert v[i] == c0;
      } else if i == 1 {
        assert v[i] == c1;
      } else if i == 2 {
        assert v[i] == c2;
      } else if i == 3 {
        assert v[i] == c3;
      } else if i == 4 {
        assert v[i] == c4;
      } else {
        assert v[i] == c5;
      }
    }
  }

  /** Every number of a snapshot has two decimals, so its text is exact. */
  lemma SnapshotCents(a: Agent)
    requires |a.cpu| > 0 && |a.mem| > 0 && |a.net| > 0 && |a.io| > 0
    ensures forall i :: 0 <= i < |Snapshot(a).value| ==> IsCents(Snapshot(a).value[i])
  {
    var cpu := Average(a.cpu, AvgTime).value;
    var mem := Average(a.mem, AvgTime).value;
    var net := PairAverage(a.net, AvgTime).value;
    var io := PairAverage(a.io, AvgTime).value;
    SnapshotOrder(a);
    SixCents(Snapshot(a).value, cpu, mem, net.0, net.1, io.0, io.1);
  }


  lemma PairAverageOfLastTwo(w: seq<(real, real)>)
    requires |w| >= AvgTime
    ensures PairAverage(w, AvgTime).value == (Round2(LastTwo(Firsts(w))), Round2(LastTwo(Seconds(w))))
  {
    PairAverageComponentwise(w, AvgTime);
    AverageOfLastTwo(Firsts(w));
    AverageOfLastTwo(Seconds(w));
  }

  /** After warm-up each of the six numbers is the rounded mean of exactly
      the two newest samples of its window (component by component for the
      paired windows). */
  lemma ReadySnapshotAveragesTwo(a: Agent)
    requires Ready(a)
    ensures Snapshot(a).Success?
    ensures Snapshot(a).value == [Round2(LastTwo(a.cpu)), Round2(LastTwo(a.mem)),
                                  Round2(LastTwo(Firsts(a.net))), Round2(LastTwo(Seconds(a.net))),
                                  Round2(LastTwo(Firsts(a.io))), Round2(LastTwo(Seconds(a.io)))]
  {
    SnapshotOrder(a);
    AverageOfLastTwo(a.cpu);
    AverageOfLastTwo(a.mem);
    PairAverageOfLastTwo(a.net);
    PairAverageOfLastTwo(a.io);
  }

  /** An interleaving of the four sampling loops with the barrier's checks. */
  datatype Event = Tick(sample: Sample) | Poll

  /** The agent after the sampling iterations among `evs`; checks of the
      barrier change nothing, and no iteration touches the baseline. */
  function Replay(a: Agent, evs: seq<Event>): (b: Agent)
    ensures b.base == a.base
  {
    if |evs| == 0 then a
    else
      var b := Replay(a, evs[..|evs| - 1]);
      match evs[|evs| - 1]
      case Tick(s) => Sampled(b, s)
      case Poll => b
  }

  /** Checks of the barrier alone leave the agent as it was. */
  lemma {:induction false} PollsChangeNothing(a: Agent, evs: seq<Event>)
    requires forall i :: 0 <= i < |evs| ==> evs[i] == Poll
    ensures Replay(a, evs) == a
  {
    if |evs| > 0 {
      PollsChangeNothing(a, evs[..|evs| - 1]);
    }
  }

  /** Replaying one more event. */
  lemma ReplayStep(a: Agent, events: seq<Event>, n: nat)
    requires n < |events|
    ensures Replay(a, events[..n + 1]) ==
              if events[n].Tick? then Sampled(Replay(a, events[..n]), events[n].sample)
              else Replay(a, events[..n])
  {
    assert events[..n + 1][..n] == events[..n];
  }

  /** `monitorInit`: consumes events until a check of the barrier finds every
      window holding `AvgTime` samples.  It returns at the FIRST such check;
      when the events run out first, `ready` is false. */
  method AwaitReady(a: Agent, events: seq<Event>) returns (b: Agent, used: nat, ready: bool)
    ensures used <= |events|
    ensures b == Replay(a, events[..used])
    ensures ready ==> used > 0 && events[used - 1] == Poll && Ready(b)
    ensures !ready ==> used == |events|
    ensures forall k :: 0 <= k < used && events[k] == Poll && (k < used - 1 || !ready) ==>
              !Ready(Replay(a, events[..k]))
  {
    b := a;
    used := 0;
    ready := false;
    while used < |events|
      invariant used <= |events|
      invariant b == Replay(a, events[..used])
      invariant forall k :: 0 <= k < used && events[k] == Poll ==> !Ready(Replay(a, events[..k]))
    {
      var e := events[used];
      ReplayStep(a, events, used);
      if e == Poll && Ready(b) {
        used := used + 1;
        ready := true;
        return;
      }
      if e.Tick? {
        b := Sampled(b, e.sample);
      }
      used := used + 1;
    }
    assert events[..used] == events;
  }

  /** Readiness survives any further interleaving. */
  lemma {:induction false} ReplayKeepsReady(a: Agent, evs: seq<Event>)
    requires Ready(a)
    ensures Ready(Replay(a, evs))
  {
    if |evs| > 0 {
      ReplayKeepsReady(a, evs[..|evs| - 1]);
      var b := Replay(a, evs[..|evs| - 1]);
      if evs[|evs| - 1].Tick? {
        ReadyStable(b, evs[|evs| - 1].sample);
      }
    }
  }

  /** One `sock.recv` of the request loop, paired with the agent's windows at
      the moment the request is served. */
  datatype Request = Request(data: string, agent: Agent)

  /** Index of the first empty read: the loop serves the requests before it. */
  function Served(reqs: seq<Request>): (n: nat)
    ensures n <= |reqs|
    ensures forall i :: 0 <= i < n ==> reqs[i].data != ""
    ensures n < |reqs| ==> reqs[n].data == ""
  {
    if |reqs| == 0 || reqs[0].data == "" then 0 else 1 + Served(reqs[1..])
  }

  /** The request loop: every non-empty read before the first empty one gets
      exactly one reply, `str(state)` of the snapshot tuple, and an empty
      read ends the loop.  A snapshot that divides by zero ends the request
      loop (`crashed`) after the replies already sent; the sampling threads
      are not daemons and keep running. */
  method Serve(reqs: seq<Request>) returns (replies: seq<string>, crashed: bool)
    ensures crashed <==> exists i :: 0 <= i < Served(reqs) && Snapshot(reqs[i].agent).Failure?
    ensures !crashed ==> |replies| == Served(reqs)
    ensures crashed ==> |replies| < Served(reqs) && Snapshot(reqs[|replies|].agent).Failure?
    ensures forall i :: 0 <= i < |replies| ==>
              Snapshot(reqs[i].agent).Success? &&
              replies[i] == Wire.EncodeTuple(Snapshot(reqs[i].agent).value)
  {
    replies := [];
    var n := Served(reqs);
    while |replies| < n
      invariant |replies| <= n
      invariant forall i :: 0 <= i < |replies| ==>
                  Snapshot(reqs[i].agent).Success? &&
                  replies[i] == Wire.EncodeTuple(Snapshot(reqs[i].agent).value)
    {
      var snap := Snapshot(reqs[|replies|].agent);
      if snap.Failure? {
        assert |replies| < Served(reqs) && Snapshot(reqs[|replies|].agent).Failure?;
        return replies, true;
      }
      var old_replies := replies;
      replies := replies + [Wire.EncodeTuple(snap.value)];
      forall i | 0 <= i < |replies|
        ensures Snapshot(reqs[i].agent).Success? &&
                replies[i] == Wire.EncodeTuple(Snapshot(reqs[i].agent).value)
      {
        if i < |old_replies| {
          assert replies[i] == old_replies[i];
        } else {
          assert i == |old_replies|;
          assert replies[i] == Wire.EncodeTuple(snap.value);
        }
      }
    }
    crashed := false;
  }

  /** Every reply of a warm agent reads back, field by field, as the six
      numbers of its snapshot, and a warm agent never crashes the loop. */
  lemma WarmRepliesParse(reqs: seq<Request>, replies: seq<string>)
    requires forall i :: 0 <= i < |reqs| ==> Ready(reqs[i].agent)
    requires |replies| <= |reqs|
    requires forall i :: 0 <= i < |replies| ==>
               Snapshot(reqs[i].agent).Success? &&
               replies[i] == Wire.EncodeTuple(Snapshot(reqs[i].agent).value)
    ensures forall i :: 0 <= i < |reqs| ==> Snapshot(reqs[i].agent).Success?
    ensures forall i :: 0 <= i < |replies| ==>
              Wire.ParseReply(replies[i]) == Success(Snapshot(reqs[i].agent).value)
  {
    forall i | 0 <= i < |replies|
      ensures Wire.ParseReply(replies[i]) == Success(Snapshot(reqs[i].agent).value)
    {
      SnapshotCents(reqs[i].agent);
      Wire.ReplyRoundTrip(Snapshot(reqs[i].agent).value);
    }
  }

  // ---- The cpu/mem loops as written: a failed probe pushes `None`. ----

  /** `cpuQueue`/`memQueue` as written: whatever the probe returned, `None`
      included, goes into the window. */
  function CpuLoopAsWritten(w: Window<Option<real>>, probe: Option<real>): (r: Window<Option<real>>)
    ensures |r| > 0 && r[|r| - 1] == probe
    ensures |r| >= |w|
  {
    Push(w, probe)
  }

  /** `getCpuState(num)` over a window that may hold `None`: `sum` raises
      `TypeError` as soon as one of the averaged entries is `None`. */
  function AverageAsWritten(w: seq<Option<real>>, num: nat): (r: Result<real, Fault>)
    ensures |Recent(w, num)| == 0 ==> r == Failure(ZeroDivisionError)
    ensures r.Success? <==> |Recent(w, num)| > 0 && forall i :: 0 <= i < |Recent(w, num)| ==> Recent(w, num)[i].Some?
    ensures (exists i :: 0 <= i < |Recent(w, num)| && Recent(w, num)[i].None?) ==> r == Failure(TypeError)
  {
    var recent := Recent(w, num);
    if |recent| == 0 then Failure(ZeroDivisionError)
    else if exists i :: 0 <= i < |recent| && recent[i].None? then Failure(TypeError)
    else Success(Round2(Mean(seq(|recent|, i requires 0 <= i < |recent| => recent[i].value))))
  }

  /** One failed probe makes the very next snapshot raise, whatever the
      window held before. */
  lemma ProbeFailurePoisonsAverage(w: Window<Option<real>>)
    ensures AverageAsWritten(CpuLoopAsWritten(w, None), AvgTime) == Failure(TypeError)
  {
    var r := CpuLoopAsWritten(w, None);
    var recent := Recent(r, AvgTime);
    assert recent[|recent| - 1] == r[|r| - 1];
  }

  /** A concrete instance: two good readings, then one failed probe. */
  lemma ProbeFailureExample()
    ensures AverageAsWritten([Some(10.0), Some(20.0)], AvgTime) == Success(15.0)
    ensures AverageAsWritten(CpuLoopAsWritten([Some(10.0), Some(20.0)], None), AvgTime) == Failure(TypeError)
  {
    var w: seq<Option<real>> := [Some(10.0), Some(20.0)];
    var vals := seq(2, i requires 0 <= i < 2 => w[i].value);
    assert vals == [10.0, 20.0];
    MeanOfTwo(vals);
    Round2OfCents(15.0);
    ProbeFailurePoisonsAverage([Some(10.0), Some(20.0)]);
  }

  /** The corrected loops: a failed probe (for the network, an `awk`
      output that does not parse) leaves the agent as it was, so a warm
      agent stays warm, a full window stays full, and the snapshot is still
      defined. */
  lemma ProbeFailureSkipped(a: Agent)
    requires Ready(a)
    ensures Sampled(a, CpuSample(None)) == a
    ensures Sampled(a, MemSample(None)) == a
    ensures Sampled(a, NetSample(None)) == a
    ensures Sampled(a, IoSample(None)) == a
    ensures Snapshot(Sampled(a, CpuSample(None))).Success?
  {
  }

  /** The corrected net and io loops: a failed probe costs a full window
      nothing, and sampling goes on as if the failure had not happened. */
  lemma PairProbeFailureSkipped(a: Agent, c: NetCounters, lines: seq<IoLine>)
    ensures Sampled(a, NetSample(None)).net == a.net
    ensures Sampled(a, IoSample(None)).io == a.io
    ensures Sampled(Sampled(a, NetSample(None)), NetSample(Some(c))) == Sampled(a, NetSample(Some(c)))
    ensures Sampled(Sampled(a, IoSample(None)), IoSample(Some(lines))) == Sampled(a, IoSample(Some(lines)))
  {
  }

  // ---- The net/io loops as written: a failed probe ends the thread. ----

  /** `getNetUsage` as written: `awk` output that is not two integers
      (`None`) makes `int()` raise `ValueError`; otherwise the two rates
      against the baseline. */
  function NetReadingAsWritten(base: NetCounters, c: Option<NetCounters>): (r: Result<(real, real), Fault>)
    ensures r.Failure? <==> c.None? || c.value.time == base.time
    ensures c.None? ==> r == Failure(ValueError)
    ensures c.Some? ==> r == NetRate(base, c.value)
  {
    match c
    case None => Failure(ValueError)
    case Some(now) => NetRate(base, now)
  }

  /** `r, w = getIORate()` as written: a failed `iotop` run returns `None`,
      and unpacking it raises `TypeError`; a run without reports divides by
      zero. */
  function IoReadingAsWritten(lines: Option<seq<IoLine>>): (r: Result<(real, real), Fault>)
    ensures r.Failure? <==> lines.None? || |lines.value| <= 1
    ensures lines.None? ==> r == Failure(TypeError)
    ensures lines.Some? ==> r == IoRate(lines.value)
  {
    match lines
    case None => Failure(TypeError)
    case Some(ls) => IoRate(ls)
  }

  /** `netQueue`/`ioQueue` as written, over the readings of successive
      iterations: each iteration first drops the oldest entry of a full
      window and only then takes its reading.  A reading that raises ends
      the thread (the fault is returned), and the later readings are never
      taken.  The thread dies exactly when some reading raises, and it
      leaves behind a window that can never again hold ten entries. */
  function PairLoopAsWritten(w: Window<(real, real)>, rs: seq<Result<(real, real), Fault>>)
    : (r: (Window<(real, real)>, Option<Fault>))
    ensures r.1.None? <==> forall i :: 0 <= i < |rs| ==> rs[i].Success?
    ensures r.1.Some? ==> |r.0| < Capacity
    ensures r.1.Some? ==> exists i :: 0 <= i < |rs| && rs[i] == Failure(r.1.value)
    decreases |rs|
  {
    if |rs| == 0 then (w, None)
    else
      var (b, stop) := PairLoopAsWritten(w, rs[..|rs| - 1]);
      if stop.Some? then (b, stop)
      else
        match rs[|rs| - 1]
        case Success(p) => (Push(b, p), None)
        case Failure(e) => (if |b| == Capacity then b[1..] else b, Some(e))
  }

  /** Readings that all succeed. */
  function Goods(xs: seq<(real, real)>): (rs: seq<Result<(real, real), Fault>>)
    ensures |rs| == |xs| && forall i :: 0 <= i < |xs| ==> rs[i] == Success(xs[i])
  {
    seq(|xs|, i requires 0 <= i < |xs| => Success(xs[i]))
  }

  /** While every reading succeeds, the as-written loop is the ordinary
      window of the newest readings. */
  lemma {:induction false} PairLoopAllGood(w: Window<(real, real)>, xs: seq<(real, real)>)
    ensures PairLoopAsWritten(w, Goods(xs)) == (PushAll(w, xs), None)
    decreases |xs|
  {
    if |xs| > 0 {
      var ys := xs[..|xs| - 1];
      assert Goods(xs)[..|xs| - 1] == Goods(ys);
      PairLoopAllGood(w, ys);
    }
  }

  /** Once a reading has raised, the loop is over: nothing later changes
      the window. */
  lemma {:induction false} PairLoopStaysStopped(w: Window<(real, real)>, rs: seq<Result<(real, real), Fault>>,
                                                later: seq<Result<(real, real), Fault>>)
    requires PairLoopAsWritten(w, rs).1.Some?
    ensures PairLoopAsWritten(w, rs + later) == PairLoopAsWritten(w, rs)
    decreases |later|
  {
    if |later| > 0 {
      var front := later[..|later| - 1];
      assert (rs + later)[..|rs + later| - 1] == rs + front;
      PairLoopStaysStopped(w, rs, front);
    } else {
      assert rs + later == rs;
    }
  }

  /** Finding, as written: a failed probe on a full net or io window costs
      the window its oldest entry before the probe raises, the thread ends,
      and the window stays at nine entries whatever the later probes would
      have read. */
  lemma FailedPairProbeShrinks(w: Window<(real, real)>, e: Fault, later: seq<Result<(real, real), Fault>>)
    requires |w| == Capacity
    ensures PairLoopAsWritten(w, [Failure(e)] + later) == (w[1..], Some(e))
    ensures |PairLoopAsWritten(w, [Failure(e)] + later).0| == Capacity - 1
  {
    var first: seq<Result<(real, real), Fault>> := [Failure(e)];
    assert first[..0] == [];
    PairLoopStaysStopped(w, first, later);
  }

  /** A concrete instance: a full io window and one failed `iotop` run. */
  lemma FailedIoProbeExample(w: Window<(real, real)>, later: seq<Result<(real, real), Fault>>)
    requires |w| == Capacity
    ensures PairLoopAsWritten(w, [IoReadingAsWritten(None)] + later) == (w[1..], Some(TypeError))
  {
    FailedPairProbeShrinks(w, TypeError, later);
  }
}
