/**
  One ping session: the Idle/Running switch, the interval and its floor,
  and one iteration of the worker loop, which sends one ping with a
  timeout derived from the interval and records exactly one sample.

  The worker thread is not modelled: an iteration is one atomic step, and
  the probe it makes (`send_ping` on the backend) is a parameter.
*/
module Session {
  import opened Wrappers
  import Stats
  import Icmp

  const DefaultInterval: real := 1.0
  const MinInterval: real := 0.1
  const TimeoutPerSecond: real := 800.0
  const MinTimeoutMs: int := 100
  const MaxTimeoutMs: int := 5000

  /** A session for one host: whether its worker runs and the current interval in seconds. */
  datatype Session = Session(host: string, running: bool, interval: real)

  /** A new session takes the configured interval, or 1 second when none is configured; it starts idle. */
  function Create(host: string, configured: Option<real>): (s: Session)
    ensures s.host == host && !s.running
    ensures configured.Some? ==> s.interval == configured.value
    ensures configured.None? ==> s.interval == DefaultInterval
  {
    Session(host, false, configured.GetOr(DefaultInterval))
  }

  /** `start`: nothing happens when already running; otherwise the worker starts. */
  function Start(s: Session): (r: Session)
    ensures r.running
    ensures s.running ==> r == s
    ensures r.host == s.host && r.interval == s.interval
  {
    if s.running then s else s.(running := true)
  }

  /** `stop`: the worker is told to end and joined; the session is idle afterwards. */
  function Stop(s: Session): (r: Session)
    ensures !r.running
    ensures r.host == s.host && r.interval == s.interval
  {
    s.(running := false)
  }

  /** `set_interval`: the new interval, but never below 0.1 seconds. */
  function SetInterval(s: Session, seconds: real): (r: Session)
    ensures r.interval >= MinInterval
    ensures r.interval == seconds || r.interval == MinInterval
    ensures seconds >= MinInterval ==> r.interval == seconds
    ensures r.host == s.host && r.running == s.running
  {
    s.(interval := if seconds < MinInterval then MinInterval else seconds)
  }

  /** Start and stop only switch the running flag: starting twice is starting once, a stopped session can start again. */
  lemma StartStopCycle(s: Session)
    ensures Start(Start(s)) == Start(s)
    ensures Stop(Stop(s)) == Stop(s)
    ensures Stop(Start(s)) == Stop(s)
    ensures Start(Stop(Start(s))) == Start(s)
  {
  }

  /** Setting an interval twice keeps only the second; the floor makes it idempotent. */
  lemma SetIntervalLastWins(s: Session, a: real, b: real)
    ensures SetInterval(SetInterval(s, a), b) == SetInterval(s, b)
    ensures SetInterval(SetInterval(s, a), SetInterval(s, a).interval) == SetInterval(s, a)
  {
  }

  /**
    The ping timeout in milliseconds for an interval: 800 ms per second of
    interval, clamped to [100, 5000] and truncated to whole milliseconds.
  */
  function TimeoutMs(interval: real): (t: int)
    ensures MinTimeoutMs <= t <= MaxTimeoutMs
    ensures 100.0 <= interval * TimeoutPerSecond <= 5000.0 ==>
      t as real <= interval * TimeoutPerSecond < t as real + 1.0
    ensures interval * TimeoutPerSecond <= 100.0 ==> t == MinTimeoutMs
    ensures interval * TimeoutPerSecond >= 5000.0 ==> t == MaxTimeoutMs
  {
    var ms := interval * TimeoutPerSecond;
    var clamped := if ms < 100.0 then 100.0 else if ms > 5000.0 then 5000.0 else ms;
    clamped.Floor
  }

  /** A longer interval never gives a shorter timeout. */
  lemma TimeoutMonotone(a: real, b: real)
    requires a <= b
    ensures TimeoutMs(a) <= TimeoutMs(b)
  {
    assert a * TimeoutPerSecond <= b * TimeoutPerSecond;
  }

  /** The `select` timeout of an iteration always lies between 0.1 and 5 seconds. */
  lemma IterationTimeval(interval: real)
    ensures var tv := Icmp.TimevalOf(TimeoutMs(interval));
      0 <= tv.sec <= 5 && 0 <= tv.usec < 1_000_000 &&
      (tv.sec == 0 ==> tv.usec >= 100_000) && (tv.sec == 5 ==> tv.usec == 0)
  {
  }

  /** How the backend call of one iteration ended: a result, or an exception. */
  datatype Probe = Returned(result: Icmp.PingResult) | Raised

  /** The probe made by `send_ping` on a backend model. */
  function ProbeOf(step: Icmp.PingStep): (p: Probe)
    ensures step.result.Err? <==> p == Raised
  {
    match step.result
    case Ok(res) => Returned(res)
    case Err(_) => Raised
  }

  /** The sample an iteration records: the backend's result, or a failure of 0 ms when it threw. */
  function SampleOf(p: Probe): (x: Stats.Sample)
    ensures p.Raised? ==> x == Stats.Sample(0.0, false)
    ensures p.Returned? ==> x.rtt == p.result.rttMs && x.success == p.result.success
  {
    match p
    case Returned(res) => Stats.Sample(res.rttMs, res.success)
    case Raised => Stats.Sample(0.0, false)
  }

  /** The pause after an iteration: the rest of the interval, or none when the iteration took longer. */
  function SleepSeconds(interval: real, elapsed: real): (d: real)
    ensures d >= 0.0
    ensures elapsed + d >= interval
    ensures d > 0.0 ==> elapsed + d == interval
  {
    if interval - elapsed > 0.0 then interval - elapsed else 0.0
  }

  /** What one iteration feeds the backend and the time it took, as outside inputs. */
  datatype Round = Round(probe: int -> Probe, elapsed: real)

  /** The outcome of one iteration: the new store, the timeout used and the pause that follows. */
  datatype Iteration = Iteration(store: Stats.Store, timeoutMs: int, sleep: real)

  /**
    One iteration of the worker loop: the interval is read once, the
    backend is asked with the derived timeout, and exactly one sample is
    recorded for the session's host.
  */
  function Iterate(s: Session, st: Stats.Store, round: Round): (r: Iteration)
    requires Stats.Shaped(st)
    ensures Stats.Shaped(r.store)
    ensures r.timeoutMs == TimeoutMs(s.interval)
    ensures r.store == Stats.AddSample(st, s.host,
      SampleOf(round.probe(r.timeoutMs)).rtt, SampleOf(round.probe(r.timeoutMs)).success)
    ensures r.sleep == SleepSeconds(s.interval, round.elapsed)
  {
    var timeout := TimeoutMs(s.interval);
    var sample := SampleOf(round.probe(timeout));
    Iteration(Stats.AddSample(st, s.host, sample.rtt, sample.success), timeout, SleepSeconds(s.interval, round.elapsed))
  }

  /**
    Each iteration counts exactly one more ping for the host and leaves
    every other host alone; an exception only counts a lost ping.
  */
  lemma IterationRecordsOne(s: Session, st: Stats.Store, round: Round)
    requires Stats.Shaped(st)
    ensures var r := Iterate(s, st, round).store;
      && r.hosts.Keys == st.hosts.Keys + {s.host}
      && r.hosts[s.host].sent == (if s.host in st.hosts then st.hosts[s.host].sent else 0) + 1
      && (forall h :: h in st.hosts && h != s.host ==> r.hosts[h] == st.hosts[h])
      && (round.probe(TimeoutMs(s.interval)).Raised? ==>
            r.hosts[s.host] == Stats.Before(st, s.host).(sent := Stats.Before(st, s.host).sent + 1))
  {
  }

  /** The worker loop over several rounds; nothing happens while the session is stopped. */
  function Loop(s: Session, st: Stats.Store, rounds: seq<Round>): (r: Stats.Store)
    requires Stats.Shaped(st)
    ensures Stats.Shaped(r)
    decreases |rounds|
  {
    if !s.running || rounds == [] then st
    else Loop(s, Iterate(s, st, rounds[0]).store, rounds[1..])
  }

  /**
    The interval is read afresh in every iteration: an interval set
    between two rounds leaves the first round's timeout as it was and
    gives the next round the timeout of the new, floored interval.
  */
  lemma IntervalChangeTakesEffectNextRound(s: Session, seconds: real, st: Stats.Store, first: Round, next: Round)
    requires Stats.Shaped(st)
    ensures var before := Iterate(s, st, first);
      var after := Iterate(SetInterval(s, seconds), before.store, next);
      && before.timeoutMs == TimeoutMs(s.interval)
      && after.timeoutMs == TimeoutMs(if seconds < MinInterval then MinInterval else seconds)
      && after.sleep == SleepSeconds(if seconds < MinInterval then MinInterval else seconds, next.elapsed)
  {
  }

  /** The samples a running loop records, one per round. */
  function Samples(s: Session, rounds: seq<Round>): (xs: seq<Stats.Sample>)
    ensures |xs| == |rounds|
    decreases |rounds|
  {
    if rounds == [] then []
    else [SampleOf(rounds[0].probe(TimeoutMs(s.interval)))] + Samples(s, rounds[1..])
  }

  /**
    A running loop records one sample per round, in order, so its store is
    the one `add_sample` builds from those samples; a stopped session
    records nothing.
  */
  lemma {:induction false} LoopRecordsEachRound(s: Session, st: Stats.Store, rounds: seq<Round>)
    requires Stats.Shaped(st)
    ensures !s.running ==> Loop(s, st, rounds) == st
    ensures s.running ==> Loop(s, st, rounds) == Stats.AddAll(st, s.host, Samples(s, rounds))
    decreases |rounds|
  {
    if s.running && rounds != [] {
      var st1 := Iterate(s, st, rounds[0]).store;
      LoopRecordsEachRound(s, st1, rounds[1..]);
      assert Samples(s, rounds)[0] == SampleOf(rounds[0].probe(TimeoutMs(s.interval)));
      assert Samples(s, rounds)[1..] == Samples(s, rounds[1..]);
    }
  }

  /** Over `n` rounds of a running session the host's sent count grows by exactly `n`. */
  lemma {:induction false} LoopCountsRounds(s: Session, st: Stats.Store, rounds: seq<Round>)
    requires Stats.Shaped(st) && s.running && rounds != []
    ensures s.host in Loop(s, st, rounds).hosts
    ensures Loop(s, st, rounds).hosts[s.host].sent ==
      (if s.host in st.hosts then st.hosts[s.host].sent else 0) + |rounds|
    ensures forall h :: h in st.hosts && h != s.host ==> h in Loop(s, st, rounds).hosts && Loop(s, st, rounds).hosts[h] == st.hosts[h]
    decreases |rounds|
  {
    var st1 := Iterate(s, st, rounds[0]).store;
    IterationRecordsOne(s, st, rounds[0]);
    if |rounds| > 1 {
      LoopCountsRounds(s, st1, rounds[1..]);
    }
  }

  /** The loop keeps the statistics store valid. */
  lemma {:induction false} LoopPreservesValid(s: Session, st: Stats.Store, rounds: seq<Round>)
    requires Stats.ValidStore(st)
    ensures Stats.Shaped(st) && Stats.ValidStore(Loop(s, st, rounds))
    decreases |rounds|
  {
    Stats.ValidIsShaped(st);
    if s.running && rounds != [] {
      var sample := SampleOf(rounds[0].probe(TimeoutMs(s.interval)));
      Stats.AddSamplePreservesValid(st, s.host, sample.rtt, sample.success);
      LoopPreservesValid(s, Iterate(s, st, rounds[0]).store, rounds[1..]);
    }
  }

  /** A backend that is not initialized makes `send_ping` throw, so the iteration records a lost ping. */
  lemma UninitializedBackendLoses(b: Icmp.Backend, io: Icmp.Io)
    requires !b.initialized
    ensures SampleOf(ProbeOf(Icmp.SendPing(b, io))) == Stats.Sample(0.0, false)
  {
  }

  /** A matching reply from the backend is recorded as a success with the measured time. */
  lemma ReplyRecorded(b: Icmp.Backend, io: Icmp.Io)
    requires Icmp.SendPing(b, io).result == Ok(Icmp.PingResult(true, io.elapsedMs))
    ensures SampleOf(ProbeOf(Icmp.SendPing(b, io))) == Stats.Sample(io.elapsedMs, true)
  {
  }
}
