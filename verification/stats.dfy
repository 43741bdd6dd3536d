/**
  The per-host rolling statistics store.

  The store maps a host name to a record of counters, running minimum,
  maximum and sum, a histogram over fixed boundaries, and two bounded FIFO
  buffers of successful round-trip times (one feeding the median, one the
  recent-trend display).  Every operation of the store is modelled as one
  atomic, pure step on an immutable value; the mutex of
  `StatisticsAggregatorImpl` is therefore absent.

  Round-trip times are exact `real`s.  `StatisticsAggregatorImpl` tracks the running
  minimum and maximum with the sentinels +inf and -inf before the first
  success; here the record keeps 0.0 in both fields while `success == 0`,
  and the first success overwrites them, which is what `std::min(inf, x)`
  and `std::max(-inf, x)` compute.
*/
module Stats {

  /** Capacity of the FIFO buffer the median is computed from. */
  const MedianCapacity: nat := 1024
  /** Capacity of the FIFO buffer of recent round-trip times. */
  const RecentCapacity: nat := 256
  /** The bucket boundaries (milliseconds) every host is created with. */
  const DefaultBoundaries: seq<real> := [10.0, 20.0, 50.0, 100.0, 200.0, 500.0]

  /** The rolling statistics of one host. */
  datatype HostStats = HostStats(
    host: string,
    boundaries: seq<real>,
    histogram: seq<nat>,
    sent: nat,
    success: nat,
    minMs: real,
    maxMs: real,
    sumMs: real,
    medianBuffer: seq<real>,
    recentRtts: seq<real>)

  /** The consumer-facing value derived from one record. */
  datatype Snapshot = Snapshot(
    host: string,
    count: nat,
    lossRatio: real,
    minMs: real,
    maxMs: real,
    meanMs: real,
    medianMs: real,
    histogram: seq<(real, real)>,
    recentRtts: seq<real>)

  /** The whole store: one record per host ever sampled. */
  datatype Store = Store(hosts: map<string, HostStats>)

  /** One measurement as handed to `AddSample`. */
  datatype Sample = Sample(rtt: real, success: bool)

  /** The snapshot returned for a host the store has never seen. */
  const EmptySnapshot: Snapshot := Snapshot("", 0, 0.0, 0.0, 0.0, 0.0, 0.0, [], [])

  /** The store before any sample. */
  const EmptyStore: Store := Store(map[])

  // ---------------------------------------------------------------------
  // Small arithmetic and sequence helpers

  function MinR(a: real, b: real): real { if b < a then b else a }
  function MaxR(a: real, b: real): real { if a < b then b else a }
  function MinN(a: nat, b: nat): nat { if a <= b then a else b }

  /** `k` copies of `x` added up, i.e. `k * x` by repeated addition. */
  function Times(k: nat, x: real): real {
    if k == 0 then 0.0 else x + Times(k - 1, x)
  }

  /** Sum of a sequence of counters. */
  function Sum(s: seq<nat>): nat {
    if s == [] then 0 else s[0] + Sum(s[1..])
  }

  /** `n` zero counters. */
  function Zeros(n: nat): (z: seq<nat>)
    ensures |z| == n
    ensures forall i :: 0 <= i < n ==> z[i] == 0
  {
    seq(n, _ => 0)
  }

  /** The last `n` elements of `s` (all of `s` when it is shorter). */
  function LastN<T>(s: seq<T>, n: nat): (r: seq<T>)
    ensures |r| == MinN(|s|, n)
    ensures r == s[|s| - |r|..]
  {
    if |s| <= n then s else s[|s| - n..]
  }

  // ---------------------------------------------------------------------
  // Per-record operations

  /** Negative round-trip times are recorded as zero. */
  function ClampNonNegative(v: real): (r: real)
    ensures r >= 0.0
    ensures v >= 0.0 ==> r == v
    ensures v < 0.0 ==> r == 0.0
  {
    if v < 0.0 then 0.0 else v
  }

  /** A fresh record: zero counters and one zero bucket per boundary plus overflow. */
  function NewHostStats(host: string, bounds: seq<real>): (s: HostStats)
    ensures s.host == host && s.boundaries == bounds
    ensures |s.histogram| == |bounds| + 1 && Sum(s.histogram) == 0
    ensures s.sent == 0 && s.success == 0
    ensures s.medianBuffer == [] && s.recentRtts == []
  {
    SumZeros(|bounds| + 1);
    HostStats(host, bounds, Zeros(|bounds| + 1), 0, 0, 0.0, 0.0, 0.0, [], [])
  }

  /** Appends `x` to a FIFO buffer, first evicting the oldest entry when it is full. */
  function PushBounded(buf: seq<real>, cap: nat, x: real): (r: seq<real>)
    requires 0 < cap && |buf| <= cap
    ensures r == LastN(buf + [x], cap)
    ensures |r| <= cap
  {
    if |buf| >= cap then buf[1..] + [x] else buf + [x]
  }

  /**
    The histogram bucket of a round-trip time: the index of the first
    boundary the time is strictly below, or the overflow index
    `|bounds|` when there is none.
  */
  function BucketIndex(bounds: seq<real>, rtt: real): (b: nat)
    ensures b <= |bounds|
    ensures b < |bounds| ==> rtt < bounds[b]
    ensures forall j :: 0 <= j < b ==> !(rtt < bounds[j])
  {
    BucketFrom(bounds, rtt, 0)
  }

  function BucketFrom(bounds: seq<real>, rtt: real, i: nat): (b: nat)
    requires i <= |bounds|
    requires forall j :: 0 <= j < i ==> !(rtt < bounds[j])
    ensures i <= b <= |bounds|
    ensures b < |bounds| ==> rtt < bounds[b]
    ensures forall j :: 0 <= j < b ==> !(rtt < bounds[j])
    decreases |bounds| - i
  {
    if i == |bounds| then i
    else if rtt < bounds[i] then i
    else BucketFrom(bounds, rtt, i + 1)
  }

  /** The record after one successful sample whose time is already clamped. */
  function RecordSuccess(s: HostStats, rtt: real): (r: HostStats)
    requires |s.histogram| == |s.boundaries| + 1
    requires |s.medianBuffer| <= MedianCapacity && |s.recentRtts| <= RecentCapacity
    ensures r.host == s.host && r.boundaries == s.boundaries && r.sent == s.sent
    ensures r.success == s.success + 1 && r.sumMs == s.sumMs + rtt
    ensures r.histogram == s.histogram[BucketIndex(s.boundaries, rtt) := s.histogram[BucketIndex(s.boundaries, rtt)] + 1]
    ensures r.medianBuffer == LastN(s.medianBuffer + [rtt], MedianCapacity)
    ensures r.recentRtts == LastN(s.recentRtts + [rtt], RecentCapacity)
    ensures s.success == 0 ==> r.minMs == rtt && r.maxMs == rtt
    ensures s.success > 0 ==> r.minMs <= s.minMs && r.minMs <= rtt && (r.minMs == s.minMs || r.minMs == rtt)
    ensures s.success > 0 ==> r.maxMs >= s.maxMs && r.maxMs >= rtt && (r.maxMs == s.maxMs || r.maxMs == rtt)
  {
    var b := BucketIndex(s.boundaries, rtt);
    HostStats(s.host, s.boundaries, s.histogram[b := s.histogram[b] + 1],
              s.sent, s.success + 1,
              if s.success == 0 then rtt else MinR(s.minMs, rtt),
              if s.success == 0 then rtt else MaxR(s.maxMs, rtt),
              s.sumMs + rtt,
              PushBounded(s.medianBuffer, MedianCapacity, rtt),
              PushBounded(s.recentRtts, RecentCapacity, rtt))
  }

  /**
    The record after one sample whose time is already clamped.  Every
    sample counts as sent; only a successful one touches anything else.
    The first success sets the running minimum and maximum to its time;
    a later one keeps the smaller and the larger of the old value and
    its time.
  */
  function RecordSample(s: HostStats, rtt: real, success: bool): (r: HostStats)
    requires |s.histogram| == |s.boundaries| + 1
    requires |s.medianBuffer| <= MedianCapacity && |s.recentRtts| <= RecentCapacity
    ensures r.host == s.host && r.boundaries == s.boundaries
    ensures |r.histogram| == |r.boundaries| + 1
    ensures |r.medianBuffer| <= MedianCapacity && |r.recentRtts| <= RecentCapacity
    ensures r.sent == s.sent + 1
    ensures !success ==> r == s.(sent := s.sent + 1)
    ensures success ==> r.success == s.success + 1 && r.sumMs == s.sumMs + rtt
    ensures success ==> r.histogram == s.histogram[BucketIndex(s.boundaries, rtt) := s.histogram[BucketIndex(s.boundaries, rtt)] + 1]
    ensures success ==> r.medianBuffer == LastN(s.medianBuffer + [rtt], MedianCapacity)
    ensures success ==> r.recentRtts == LastN(s.recentRtts + [rtt], RecentCapacity)
    ensures success && s.success == 0 ==> r.minMs == rtt && r.maxMs == rtt
    ensures success && s.success > 0 ==>
      r.minMs <= s.minMs && r.minMs <= rtt && (r.minMs == s.minMs || r.minMs == rtt)
    ensures success && s.success > 0 ==>
      r.maxMs >= s.maxMs && r.maxMs >= rtt && (r.maxMs == s.maxMs || r.maxMs == rtt)
  {
    var s1 := s.(sent := s.sent + 1);
    if success then RecordSuccess(s1, rtt) else s1
  }

  /** Zeroes counters, sum, buckets and both buffers; keeps host and boundaries. */
  function ResetStats(s: HostStats): (r: HostStats)
    ensures r.host == s.host && r.boundaries == s.boundaries
    ensures |r.histogram| == |s.histogram| && Sum(r.histogram) == 0
    ensures r.sent == 0 && r.success == 0 && r.sumMs == 0.0
    ensures r.medianBuffer == [] && r.recentRtts == []
  {
    SumZeros(|s.histogram|);
    s.(histogram := Zeros(|s.histogram|), sent := 0, success := 0,
       minMs := 0.0, maxMs := 0.0, sumMs := 0.0, medianBuffer := [], recentRtts := [])
  }

  // ---------------------------------------------------------------------
  // Median

  predicate SortedAsc(s: seq<real>) {
    forall i, j :: 0 <= i < j < |s| ==> s[i] <= s[j]
  }

  function Insert(x: real, s: seq<real>): (r: seq<real>)
    requires SortedAsc(s)
    ensures SortedAsc(r)
    ensures multiset(r) == multiset(s) + multiset{x}
    ensures |r| == |s| + 1
    ensures r[0] == x || (s != [] && r[0] == s[0])
  {
    if s == [] then [x]
    else if x <= s[0] then [x] + s
    else
      assert s == [s[0]] + s[1..];
      [s[0]] + Insert(x, s[1..])
  }

  /** The ascending permutation of `s` (the order `nth_element` selects from). */
  function Sort(s: seq<real>): (r: seq<real>)
    ensures SortedAsc(r)
    ensures multiset(r) == multiset(s)
    ensures |r| == |s|
  {
    if s == [] then []
    else
      assert s == [s[0]] + s[1..];
      Insert(s[0], Sort(s[1..]))
  }

  /**
    The median of a buffer: 0 when empty, the middle order statistic for
    an odd length, and the mean of the two middle ones for an even length.
  */
  function ComputeMedian(buf: seq<real>): (m: real)
    ensures buf == [] ==> m == 0.0
    ensures buf != [] ==> exists i :: 0 <= i < |buf| && buf[i] <= m
    ensures buf != [] ==> exists j :: 0 <= j < |buf| && m <= buf[j]
  {
    if buf == [] then 0.0
    else
      var d := Sort(buf);
      var mid := |d| / 2;
      assert d[mid] in multiset(buf);
      assert |d| % 2 == 0 ==> d[mid - 1] in multiset(buf);
      Middle(d)
  }

  /** The middle element of a non-empty sorted buffer, or the mean of the two middle ones. */
  function Middle(d: seq<real>): real
    requires d != []
  {
    var mid := |d| / 2;
    if |d| % 2 == 1 then d[mid] else (d[mid - 1] + d[mid]) / 2.0
  }

  // ---------------------------------------------------------------------
  // Snapshots

  /** The label of histogram pair `i`: its boundary, or the last boundary for the overflow pair. */
  function HistogramLabel(bounds: seq<real>, i: nat): real {
    if bounds == [] then 0.0
    else if i < |bounds| then bounds[i]
    else bounds[|bounds| - 1]
  }

  /** The share of lost pings: 0 before any ping, otherwise lost over sent. */
  function LossRatio(sent: nat, success: nat): (r: real)
    ensures sent == 0 ==> r == 0.0
    ensures sent > 0 ==> r * (sent as real) == (sent - success) as real
    ensures success <= sent ==> 0.0 <= r <= 1.0
  {
    if sent == 0 then 0.0
    else
      assert success <= sent ==> 0.0 <= (sent - success) as real / sent as real <= 1.0 by {
        if success <= sent { LossRatioInUnit(sent, success); }
      }
      (sent - success) as real / sent as real
  }

  /** The mean of `n` values summing to `sum`. */
  function Mean(sum: real, n: nat): (m: real)
    requires n > 0
    ensures m * (n as real) == sum
  {
    sum / n as real
  }

  /** The histogram pairs of a record: each bucket's label and its count as a real. */
  function Pairs(bounds: seq<real>, counts: seq<nat>): (h: seq<(real, real)>)
    ensures |h| == |counts|
    ensures forall i :: 0 <= i < |counts| ==> h[i].1 == counts[i] as real
    ensures forall i :: 0 <= i < |counts| && i < |bounds| ==> h[i].0 == bounds[i]
    ensures forall i :: 0 < |bounds| <= i < |counts| ==> h[i].0 == bounds[|bounds| - 1]
  {
    seq(|counts|, i requires 0 <= i < |counts| => (HistogramLabel(bounds, i), counts[i] as real))
  }

  /** Derives the consumer-facing snapshot of one record. */
  function BuildSnapshot(s: HostStats): (snap: Snapshot)
    ensures snap.host == s.host && snap.count == s.sent
    ensures snap.lossRatio == LossRatio(s.sent, s.success)
    ensures s.success == 0 ==> snap.minMs == 0.0 && snap.maxMs == 0.0 && snap.meanMs == 0.0 && snap.medianMs == 0.0
    ensures s.success > 0 ==> snap.minMs == s.minMs && snap.maxMs == s.maxMs
    ensures s.success > 0 ==> snap.meanMs == Mean(s.sumMs, s.success)
    ensures s.success > 0 ==> snap.medianMs == ComputeMedian(s.medianBuffer)
    ensures |snap.histogram| == |s.histogram|
    ensures forall i :: 0 <= i < |s.histogram| ==> snap.histogram[i].1 == s.histogram[i] as real
    ensures forall i :: 0 <= i < |s.histogram| && i < |s.boundaries| ==> snap.histogram[i].0 == s.boundaries[i]
    ensures forall i :: 0 < |s.boundaries| <= i < |s.histogram| ==> snap.histogram[i].0 == s.boundaries[|s.boundaries| - 1]
    ensures snap.recentRtts == s.recentRtts
  {
    var loss := LossRatio(s.sent, s.success);
    var hist := Pairs(s.boundaries, s.histogram);
    if s.success == 0 then
      Snapshot(s.host, s.sent, loss, 0.0, 0.0, 0.0, 0.0, hist, s.recentRtts)
    else
      Snapshot(s.host, s.sent, loss, s.minMs, s.maxMs, Mean(s.sumMs, s.success),
               ComputeMedian(s.medianBuffer), hist, s.recentRtts)
  }

  // ---------------------------------------------------------------------
  // Store invariants

  /** Structural shape every record has from its creation on. */
  predicate Shaped(st: Store) {
    forall h :: h in st.hosts ==> ShapedRecord(st.hosts[h])
  }

  /** One bucket per boundary plus overflow, and both buffers within capacity. */
  predicate ShapedRecord(s: HostStats) {
    && |s.histogram| == |s.boundaries| + 1
    && |s.medianBuffer| <= MedianCapacity
    && |s.recentRtts| <= RecentCapacity
  }

  /** Replacing one record by a shaped record keeps the store shaped. */
  lemma UpdateShaped(st: Store, host: string, s: HostStats)
    requires Shaped(st) && ShapedRecord(s)
    ensures Shaped(Store(st.hosts[host := s]))
  {
  }

  /** The invariant of one record. */
  predicate ValidStats(s: HostStats) {
    && |s.histogram| == |s.boundaries| + 1
    && Sum(s.histogram) == s.success
    && s.success <= s.sent
    && |s.medianBuffer| == MinN(s.success, MedianCapacity)
    && |s.recentRtts| == MinN(s.success, RecentCapacity)
    && (s.success == 0 ==> s.minMs == 0.0 && s.maxMs == 0.0 && s.sumMs == 0.0)
    && (s.success > 0 ==> 0.0 <= s.minMs <= s.maxMs)
    && Times(s.success, s.minMs) <= s.sumMs <= Times(s.success, s.maxMs)
    && (forall i :: 0 <= i < |s.medianBuffer| ==> s.minMs <= s.medianBuffer[i] <= s.maxMs)
    && (forall i :: 0 <= i < |s.recentRtts| ==> s.minMs <= s.recentRtts[i] <= s.maxMs)
  }

  /** Every record is filed under its own host name. */
  predicate KeyedByHost(st: Store) {
    forall h :: h in st.hosts ==> st.hosts[h].host == h
  }

  /** The invariant of the whole store: each record is keyed by its own host and valid. */
  predicate ValidStore(st: Store) {
    forall h :: h in st.hosts ==> st.hosts[h].host == h && ValidStats(st.hosts[h])
  }

  lemma ValidIsShaped(st: Store)
    requires ValidStore(st)
    ensures Shaped(st)
  {
  }

  // ---------------------------------------------------------------------
  // Store operations

  /** The record of `host`, creating it with the default boundaries on first contact. */
  function EnsureHost(st: Store, host: string): (r: Store)
    ensures host in r.hosts
    ensures host in st.hosts ==> r == st
    ensures host !in st.hosts ==> r.hosts == st.hosts[host := NewHostStats(host, DefaultBoundaries)]
  {
    if host in st.hosts then st
    else Store(st.hosts[host := NewHostStats(host, DefaultBoundaries)])
  }

  /** The record `AddSample` starts from for `host`. */
  function Before(st: Store, host: string): (s: HostStats)
    ensures host in st.hosts ==> s == st.hosts[host]
    ensures host !in st.hosts ==> s == NewHostStats(host, DefaultBoundaries)
    ensures Shaped(st) ==> |s.histogram| == |s.boundaries| + 1
    ensures Shaped(st) ==> |s.medianBuffer| <= MedianCapacity && |s.recentRtts| <= RecentCapacity
  {
    EnsureHost(st, host).hosts[host]
  }

  /**
    Records one measurement for `host`.  The record is created on first
    contact, whatever the outcome; every other record is untouched.
  */
  function AddSample(st: Store, host: string, rttMs: real, success: bool): (r: Store)
    requires Shaped(st)
    ensures Shaped(r)
    ensures r.hosts.Keys == st.hosts.Keys + {host}
    ensures forall h :: h in st.hosts && h != host ==> r.hosts[h] == st.hosts[h]
    ensures r.hosts[host] == RecordSample(Before(st, host), ClampNonNegative(rttMs), success)
    ensures r.hosts[host].sent == (if host in st.hosts then st.hosts[host].sent else 0) + 1
    ensures host !in st.hosts ==> r.hosts[host].boundaries == DefaultBoundaries && |r.hosts[host].histogram| == 7
    ensures !success ==> r.hosts[host] == Before(st, host).(sent := Before(st, host).sent + 1)
  {
    var s := RecordSample(Before(st, host), ClampNonNegative(rttMs), success);
    UpdateShaped(st, host, s);
    Store(st.hosts[host := s])
  }

  /** The snapshot of one host, or `EmptySnapshot` when the host is unknown. */
  function SnapshotOf(st: Store, host: string): (snap: Snapshot)
    ensures host !in st.hosts ==> snap == EmptySnapshot
    ensures host in st.hosts ==> snap == BuildSnapshot(st.hosts[host])
  {
    if host in st.hosts then BuildSnapshot(st.hosts[host]) else EmptySnapshot
  }

  /**
    One snapshot per known host, in an order the store does not define
    (`snapshot_all` iterates an `unordered_map`).
  */
  method SnapshotAll(st: Store) returns (r: seq<Snapshot>)
    ensures |r| == |st.hosts|
    ensures forall h :: h in st.hosts ==> BuildSnapshot(st.hosts[h]) in r
    ensures forall i :: 0 <= i < |r| ==> exists h :: h in st.hosts && r[i] == BuildSnapshot(st.hosts[h])
    ensures KeyedByHost(st) ==> forall i, j :: 0 <= i < j < |r| ==> r[i].host != r[j].host
  {
    var order := Enumerate(st.hosts.Keys);
    r := seq(|order|, i requires 0 <= i < |order| => BuildSnapshot(st.hosts[order[i]]));
    forall h | h in st.hosts
      ensures BuildSnapshot(st.hosts[h]) in r
    {
      var i :| 0 <= i < |order| && order[i] == h;
      assert r[i] == BuildSnapshot(st.hosts[h]);
    }
    forall i | 0 <= i < |r|
      ensures exists h :: h in st.hosts && r[i] == BuildSnapshot(st.hosts[h])
    {
      assert order[i] in st.hosts;
    }
    if KeyedByHost(st) {
      forall i, j | 0 <= i < j < |r|
        ensures r[i].host != r[j].host
      {
        assert r[i].host == order[i] && r[j].host == order[j];
      }
    }
  }

  /** Lists every element of a finite set once, in an order the set does not define. */
  method Enumerate(keys: set<string>) returns (order: seq<string>)
    ensures |order| == |keys|
    ensures forall i :: 0 <= i < |order| ==> order[i] in keys
    ensures forall k :: k in keys ==> exists i :: 0 <= i < |order| && order[i] == k
    ensures forall i, j :: 0 <= i < j < |order| ==> order[i] != order[j]
  {
    var remaining := keys;
    order := [];
    while remaining != {}
      invariant remaining <= keys
      invariant |order| + |remaining| == |keys|
      invariant forall i :: 0 <= i < |order| ==> order[i] in keys && order[i] !in remaining
      invariant forall i, j :: 0 <= i < j < |order| ==> order[i] != order[j]
      invariant forall k :: k in keys && k !in remaining ==> k in order
      decreases remaining
    {
      var k :| k in remaining;
      order := order + [k];
      remaining := remaining - {k};
    }
    forall k | k in keys
      ensures exists i :: 0 <= i < |order| && order[i] == k
    {
      assert k in order;
    }
  }

  /** Resets one host; unknown hosts are left alone (no record is created). */
  function Reset(st: Store, host: string): (r: Store)
    ensures r.hosts.Keys == st.hosts.Keys
    ensures forall h :: h in st.hosts && h != host ==> r.hosts[h] == st.hosts[h]
    ensures host in st.hosts ==> r.hosts[host] == ResetStats(st.hosts[host])
  {
    if host in st.hosts then Store(st.hosts[host := ResetStats(st.hosts[host])]) else st
  }

  /** Resets every known host. */
  function ResetAll(st: Store): (r: Store)
    ensures r.hosts.Keys == st.hosts.Keys
    ensures forall h :: h in st.hosts ==> r.hosts[h] == ResetStats(st.hosts[h])
  {
    Store(map h | h in st.hosts :: ResetStats(st.hosts[h]))
  }

  // ---------------------------------------------------------------------
  // Lemmas: sums

  lemma {:induction false} SumZeros(n: nat)
    ensures Sum(Zeros(n)) == 0
  {
    if n > 0 {
      assert Zeros(n)[1..] == Zeros(n - 1);
      SumZeros(n - 1);
    }
  }

  lemma {:induction false} SumIncrement(s: seq<nat>, k: nat)
    requires k < |s|
    ensures Sum(s[k := s[k] + 1]) == Sum(s) + 1
  {
    if k > 0 {
      assert s[k := s[k] + 1][1..] == s[1..][k - 1 := s[k] + 1];
      SumIncrement(s[1..], k - 1);
    }
  }

  // ---------------------------------------------------------------------
  // Lemmas: the record invariant

  lemma MulMono(k: real, a: real, b: real)
    requires k >= 0.0 && a <= b
    ensures k * a <= k * b
  {
  }

  lemma NewIsValid(host: string, bounds: seq<real>)
    ensures ValidStats(NewHostStats(host, bounds))
  {
  }

  lemma ResetIsValid(s: HostStats)
    requires |s.histogram| == |s.boundaries| + 1
    ensures ValidStats(ResetStats(s))
  {
  }

  lemma {:induction false} TimesMono(k: nat, a: real, b: real)
    requires a <= b
    ensures Times(k, a) <= Times(k, b)
  {
    if k > 0 { TimesMono(k - 1, a, b); }
  }

  lemma {:induction false} TimesIsProduct(k: nat, x: real)
    ensures Times(k, x) == (k as real) * x
  {
    if k > 0 { TimesIsProduct(k - 1, x); }
  }

  lemma RangeStep(k: nat, mn: real, mx: real, sum: real, rtt: real, mn': real, mx': real)
    requires Times(k, mn) <= sum <= Times(k, mx)
    requires mn' <= mn && mx <= mx' && mn' <= rtt <= mx'
    ensures Times(k + 1, mn') <= sum + rtt <= Times(k + 1, mx')
  {
    TimesMono(k, mn', mn);
    TimesMono(k, mx, mx');
  }

  /** The running minimum, maximum and sum still bound each other after a success. */
  lemma SuccessKeepsRange(s: HostStats, rtt: real, r: HostStats)
    requires ValidStats(s) && rtt >= 0.0 && r == RecordSuccess(s, rtt)
    ensures 0.0 <= r.minMs <= r.maxMs
    ensures r.minMs <= s.minMs || s.success == 0
    ensures s.maxMs <= r.maxMs || s.success == 0
    ensures Times(r.success, r.minMs) <= r.sumMs <= Times(r.success, r.maxMs)
    ensures r.minMs <= rtt <= r.maxMs
  {
    if s.success == 0 {
      assert r.minMs == rtt == r.maxMs && r.sumMs == rtt;
      assert Times(1, rtt) == rtt + Times(0, rtt);
    } else {
      assert r.minMs == MinR(s.minMs, rtt) && r.maxMs == MaxR(s.maxMs, rtt);
      RangeStep(s.success, s.minMs, s.maxMs, s.sumMs, rtt, r.minMs, r.maxMs);
    }
  }

  /** Every buffered time lies between the new running minimum and maximum. */
  lemma BufferInRange(buf: seq<real>, cap: nat, rtt: real, lo: real, hi: real, lo': real, hi': real)
    requires forall i :: 0 <= i < |buf| ==> lo <= buf[i] <= hi
    requires lo' <= lo || buf == []
    requires hi <= hi' || buf == []
    requires lo' <= rtt <= hi'
    ensures forall i :: 0 <= i < |LastN(buf + [rtt], cap)| ==> lo' <= LastN(buf + [rtt], cap)[i] <= hi'
  {
    var m := buf + [rtt];
    assert forall i :: 0 <= i < |m| ==> lo' <= m[i] <= hi';
  }

  /** One success keeps the record invariant. */
  lemma SuccessPreservesValid(s: HostStats, rtt: real)
    requires ValidStats(s) && rtt >= 0.0 && s.success < s.sent
    ensures ValidStats(RecordSuccess(s, rtt))
  {
    var r := RecordSuccess(s, rtt);
    SumIncrement(s.histogram, BucketIndex(s.boundaries, rtt));
    SuccessKeepsRange(s, rtt, r);
    BufferInRange(s.medianBuffer, MedianCapacity, rtt, s.minMs, s.maxMs, r.minMs, r.maxMs);
    BufferInRange(s.recentRtts, RecentCapacity, rtt, s.minMs, s.maxMs, r.minMs, r.maxMs);
  }

  /** One sample keeps the record invariant. */
  lemma RecordPreservesValid(s: HostStats, rtt: real, success: bool)
    requires ValidStats(s) && rtt >= 0.0
    ensures ValidStats(RecordSample(s, rtt, success))
  {
    if success {
      SuccessPreservesValid(s.(sent := s.sent + 1), rtt);
    }
  }

  /** `AddSample`, `Reset` and `ResetAll` keep the store invariant. */
  lemma AddSamplePreservesValid(st: Store, host: string, rttMs: real, success: bool)
    requires ValidStore(st)
    ensures Shaped(st) && ValidStore(AddSample(st, host, rttMs, success))
  {
    ValidIsShaped(st);
    NewIsValid(host, DefaultBoundaries);
    RecordPreservesValid(Before(st, host), ClampNonNegative(rttMs), success);
  }

  lemma ResetPreservesValid(st: Store, host: string)
    requires ValidStore(st)
    ensures ValidStore(Reset(st, host))
  {
    if host in st.hosts {
      ResetIsValid(st.hosts[host]);
    }
  }

  lemma ResetAllPreservesValid(st: Store)
    requires ValidStore(st)
    ensures ValidStore(ResetAll(st))
  {
    forall h | h in st.hosts
      ensures ValidStats(ResetStats(st.hosts[h]))
    {
      ResetIsValid(st.hosts[h]);
    }
  }

  // ---------------------------------------------------------------------
  // Lemmas: snapshots

  lemma DivBounds(sum: real, n: nat, lo: real, hi: real)
    requires n > 0 && Times(n, lo) <= sum <= Times(n, hi)
    ensures lo <= sum / (n as real) <= hi
  {
    TimesIsProduct(n, lo);
    TimesIsProduct(n, hi);
    var k := n as real;
    var q := sum / k;
    assert k * q == sum;
    assert k * lo <= sum;
    assert sum <= k * hi;
    MulCancel(k, lo, q);
    MulCancel(k, q, hi);
  }

  lemma MulCancel(k: real, a: real, b: real)
    requires k > 0.0 && k * a <= k * b
    ensures a <= b
  {
  }

  lemma LossRatioInUnit(sent: nat, success: nat)
    requires 0 < sent && success <= sent
    ensures 0.0 <= (sent - success) as real / sent as real <= 1.0
  {
  }

  /**
    The derived values of a valid record: loss lies in [0, 1], and with at
    least one success the mean and the median lie between min and max.
  */
  lemma SnapshotBounds(s: HostStats)
    requires ValidStats(s)
    ensures 0.0 <= BuildSnapshot(s).lossRatio <= 1.0
    ensures s.success > 0 ==> BuildSnapshot(s).minMs <= BuildSnapshot(s).meanMs <= BuildSnapshot(s).maxMs
    ensures s.success > 0 ==> BuildSnapshot(s).minMs <= BuildSnapshot(s).medianMs <= BuildSnapshot(s).maxMs
    ensures Sum(s.histogram) == s.success
  {
    if s.success > 0 {
      DivBounds(s.sumMs, s.success, s.minMs, s.maxMs);
    }
  }

  /** An unknown host reads as the empty snapshot: empty name, zero count, all values zero. */
  lemma UnknownHostSnapshot(st: Store, host: string)
    requires host !in st.hosts
    ensures SnapshotOf(st, host).host == "" && SnapshotOf(st, host).count == 0
    ensures SnapshotOf(st, host).lossRatio == 0.0 && SnapshotOf(st, host).meanMs == 0.0
    ensures SnapshotOf(st, host).minMs == 0.0 && SnapshotOf(st, host).maxMs == 0.0
    ensures SnapshotOf(st, host).medianMs == 0.0
    ensures SnapshotOf(st, host).histogram == [] && SnapshotOf(st, host).recentRtts == []
  {
  }

  /** After `Reset` a known host reads count 0, mean 0 and an all-zero histogram, boundaries kept. */
  lemma ResetSnapshot(st: Store, host: string)
    requires ValidStore(st) && host in st.hosts
    ensures host in Reset(st, host).hosts
    ensures Reset(st, host).hosts[host].boundaries == st.hosts[host].boundaries
    ensures SnapshotOf(Reset(st, host), host).count == 0
    ensures SnapshotOf(Reset(st, host), host).meanMs == 0.0
    ensures forall i :: 0 <= i < |SnapshotOf(Reset(st, host), host).histogram| ==>
              SnapshotOf(Reset(st, host), host).histogram[i].1 == 0.0
    ensures |SnapshotOf(Reset(st, host), host).histogram| == |st.hosts[host].boundaries| + 1
  {
    var z := Reset(st, host).hosts[host];
    assert forall i :: 0 <= i < |z.histogram| ==> z.histogram[i] == 0;
  }

  // ---------------------------------------------------------------------
  // Lemmas: the median

  lemma {:induction false} SortedUnique(a: seq<real>, b: seq<real>)
    requires SortedAsc(a) && SortedAsc(b) && multiset(a) == multiset(b)
    ensures a == b
    decreases |a|
  {
    if a != [] {
      SortedHeads(a, b);
      DropHead(a);
      DropHead(b);
      SortedUnique(a[1..], b[1..]);
      assert a == [a[0]] + a[1..] && b == [b[0]] + b[1..];
    }
  }

  /** Two ascending orders of the same values start with the same (least) value. */
  lemma SortedHeads(a: seq<real>, b: seq<real>)
    requires SortedAsc(a) && SortedAsc(b) && multiset(a) == multiset(b) && a != []
    ensures b != [] && a[0] == b[0]
  {
    assert |a| == |multiset(a)| == |b|;
    assert b[0] in multiset(a) && a[0] in multiset(b);
    var i :| 0 <= i < |a| && a[i] == b[0];
    var j :| 0 <= j < |b| && b[j] == a[0];
    assert a[0] <= a[i] && b[0] <= b[j];
  }

  lemma DropHead(a: seq<real>)
    requires a != []
    ensures multiset(a[1..]) == multiset(a) - multiset{a[0]}
    ensures SortedAsc(a) ==> SortedAsc(a[1..])
  {
    assert a == [a[0]] + a[1..];
  }

  /** The median depends only on the multiset of buffered values, not on arrival order. */
  lemma MedianOrderIndependent(a: seq<real>, b: seq<real>)
    requires multiset(a) == multiset(b)
    ensures ComputeMedian(a) == ComputeMedian(b)
  {
    assert |a| == |multiset(a)| == |b|;
    SortedUnique(Sort(a), Sort(b));
  }

  /** An odd-length buffer's median is the middle order statistic, an even one's the average of the two middle ones. */
  lemma MedianOfSorted(s: seq<real>)
    requires SortedAsc(s) && s != []
    ensures |s| % 2 == 1 ==> ComputeMedian(s) == s[|s| / 2]
    ensures |s| % 2 == 0 ==> ComputeMedian(s) == (s[|s| / 2 - 1] + s[|s| / 2]) / 2.0
  {
    SortedUnique(Sort(s), s);
  }

  // ---------------------------------------------------------------------
  // Lemmas: replaying a sample history

  /** The record after a sequence of samples, applied in order. */
  function ReplayHost(s: HostStats, samples: seq<Sample>): (r: HostStats)
    requires |s.histogram| == |s.boundaries| + 1
    requires |s.medianBuffer| <= MedianCapacity && |s.recentRtts| <= RecentCapacity
    ensures |r.histogram| == |r.boundaries| + 1
    ensures |r.medianBuffer| <= MedianCapacity && |r.recentRtts| <= RecentCapacity
    decreases |samples|
  {
    if samples == [] then s
    else ReplayHost(RecordSample(s, ClampNonNegative(samples[0].rtt), samples[0].success), samples[1..])
  }

  /** The clamped round-trip times of the successful samples, in arrival order. */
  function Accepted(samples: seq<Sample>): seq<real> {
    if samples == [] then []
    else (if samples[0].success then [ClampNonNegative(samples[0].rtt)] else []) + Accepted(samples[1..])
  }

  lemma LastNAppend<T>(a: seq<T>, b: seq<T>, n: nat)
    ensures LastN(LastN(a, n) + b, n) == LastN(a + b, n)
  {
    if |a| > n {
      assert LastN(a, n) + b == (a + b)[|a| - n..];
      LastNOfSuffix(a + b, |a| - n, n);
    }
  }

  /** Dropping a prefix that leaves at least `n` elements does not change the last `n`. */
  lemma LastNOfSuffix<T>(s: seq<T>, m: nat, n: nat)
    requires m <= |s| && |s| - m >= n
    ensures LastN(s[m..], n) == LastN(s, n)
  {
    assert s[m..][|s| - m - n..] == s[|s| - n..];
  }

  /** `Accepted` splits at the first sample. */
  lemma AcceptedCons(samples: seq<Sample>)
    requires samples != []
    ensures Accepted(samples) ==
              (if samples[0].success then [ClampNonNegative(samples[0].rtt)] else []) + Accepted(samples[1..])
  {
  }

  lemma {:induction false} ReplayMedian(s: HostStats, samples: seq<Sample>)
    requires |s.histogram| == |s.boundaries| + 1
    requires |s.medianBuffer| <= MedianCapacity && |s.recentRtts| <= RecentCapacity
    ensures ReplayHost(s, samples).medianBuffer == LastN(s.medianBuffer + Accepted(samples), MedianCapacity)
    decreases |samples|
  {
    if samples == [] {
      assert s.medianBuffer + [] == s.medianBuffer;
    } else {
      var rtt := ClampNonNegative(samples[0].rtt);
      var s1 := RecordSample(s, rtt, samples[0].success);
      assert ReplayHost(s, samples) == ReplayHost(s1, samples[1..]);
      ReplayMedian(s1, samples[1..]);
      var rest := Accepted(samples[1..]);
      AcceptedCons(samples);
      if samples[0].success {
        assert s1.medianBuffer == LastN(s.medianBuffer + [rtt], MedianCapacity);
        LastNAppend(s.medianBuffer + [rtt], rest, MedianCapacity);
        assert s.medianBuffer + [rtt] + rest == s.medianBuffer + Accepted(samples);
      } else {
        assert s1.medianBuffer == s.medianBuffer;
        assert Accepted(samples) == rest;
      }
    }
  }

  lemma {:induction false} ReplayRecent(s: HostStats, samples: seq<Sample>)
    requires |s.histogram| == |s.boundaries| + 1
    requires |s.medianBuffer| <= MedianCapacity && |s.recentRtts| <= RecentCapacity
    ensures ReplayHost(s, samples).recentRtts == LastN(s.recentRtts + Accepted(samples), RecentCapacity)
    decreases |samples|
  {
    if samples == [] {
      assert s.recentRtts + [] == s.recentRtts;
    } else {
      var rtt := ClampNonNegative(samples[0].rtt);
      var s1 := RecordSample(s, rtt, samples[0].success);
      assert ReplayHost(s, samples) == ReplayHost(s1, samples[1..]);
      ReplayRecent(s1, samples[1..]);
      var rest := Accepted(samples[1..]);
      AcceptedCons(samples);
      if samples[0].success {
        assert s1.recentRtts == LastN(s.recentRtts + [rtt], RecentCapacity);
        LastNAppend(s.recentRtts + [rtt], rest, RecentCapacity);
        assert s.recentRtts + [rtt] + rest == s.recentRtts + Accepted(samples);
      } else {
        assert s1.recentRtts == s.recentRtts;
        assert Accepted(samples) == rest;
      }
    }
  }

  lemma {:induction false} ReplayCounts(s: HostStats, samples: seq<Sample>)
    requires |s.histogram| == |s.boundaries| + 1
    requires |s.medianBuffer| <= MedianCapacity && |s.recentRtts| <= RecentCapacity
    ensures ReplayHost(s, samples).sent == s.sent + |samples|
    ensures ReplayHost(s, samples).success == s.success + |Accepted(samples)|
    decreases |samples|
  {
    if samples != [] {
      ReplayCounts(RecordSample(s, ClampNonNegative(samples[0].rtt), samples[0].success), samples[1..]);
      AcceptedCons(samples);
    }
  }

  /**
    After any history, each buffer holds exactly the last `capacity`
    accepted times (earlier buffer content first), in arrival order;
    `sent` grows by the number of samples and `success` by the number of
    successes.
  */
  lemma ReplayBuffers(s: HostStats, samples: seq<Sample>)
    requires |s.histogram| == |s.boundaries| + 1
    requires |s.medianBuffer| <= MedianCapacity && |s.recentRtts| <= RecentCapacity
    ensures ReplayHost(s, samples).medianBuffer == LastN(s.medianBuffer + Accepted(samples), MedianCapacity)
    ensures ReplayHost(s, samples).recentRtts == LastN(s.recentRtts + Accepted(samples), RecentCapacity)
    ensures ReplayHost(s, samples).sent == s.sent + |samples|
    ensures ReplayHost(s, samples).success == s.success + |Accepted(samples)|
  {
    ReplayMedian(s, samples);
    ReplayRecent(s, samples);
    ReplayCounts(s, samples);
  }

  /** Replaying history on a store: the host's record is the replay of its own record. */
  function AddAll(st: Store, host: string, samples: seq<Sample>): (r: Store)
    requires Shaped(st)
    ensures Shaped(r)
    decreases |samples|
  {
    if samples == [] then st
    else AddAll(AddSample(st, host, samples[0].rtt, samples[0].success), host, samples[1..])
  }

  lemma {:induction false} AddAllIsReplay(st: Store, host: string, samples: seq<Sample>)
    requires Shaped(st)
    ensures host in st.hosts ==> host in AddAll(st, host, samples).hosts
    ensures host in st.hosts ==> AddAll(st, host, samples).hosts[host] == ReplayHost(st.hosts[host], samples)
    ensures samples != [] ==> host in AddAll(st, host, samples).hosts
    ensures samples != [] ==> AddAll(st, host, samples).hosts[host] == ReplayHost(Before(st, host), samples)
    decreases |samples|
  {
    if samples != [] {
      var st1 := AddSample(st, host, samples[0].rtt, samples[0].success);
      AddAllIsReplay(st1, host, samples[1..]);
    }
  }

  /**
    Starting from a store that has never seen `host`, the two buffers are
    the last 1024 and the last 256 accepted times; neither exceeds its
    capacity.
  */
  lemma FreshHostBuffers(st: Store, host: string, samples: seq<Sample>)
    requires Shaped(st) && host !in st.hosts && samples != []
    ensures host in AddAll(st, host, samples).hosts
    ensures AddAll(st, host, samples).hosts[host].medianBuffer == LastN(Accepted(samples), MedianCapacity)
    ensures AddAll(st, host, samples).hosts[host].recentRtts == LastN(Accepted(samples), RecentCapacity)
    ensures AddAll(st, host, samples).hosts[host].sent == |samples|
  {
    AddAllIsReplay(st, host, samples);
    ReplayBuffers(Before(st, host), samples);
    assert [] + Accepted(samples) == Accepted(samples);
  }

  /** The sum of a sequence of times. */
  function SumOf(xs: seq<real>): real
    decreases |xs|
  {
    if xs == [] then 0.0 else xs[0] + SumOf(xs[1..])
  }

  /** After any history the running sum has grown by exactly the accepted times. */
  lemma {:induction false} ReplaySum(s: HostStats, samples: seq<Sample>)
    requires |s.histogram| == |s.boundaries| + 1
    requires |s.medianBuffer| <= MedianCapacity && |s.recentRtts| <= RecentCapacity
    ensures ReplayHost(s, samples).sumMs == s.sumMs + SumOf(Accepted(samples))
    decreases |samples|
  {
    if samples != [] {
      var rtt := ClampNonNegative(samples[0].rtt);
      var s1 := RecordSample(s, rtt, samples[0].success);
      assert ReplayHost(s, samples) == ReplayHost(s1, samples[1..]);
      ReplaySum(s1, samples[1..]);
      AcceptedCons(samples);
      var rest := Accepted(samples[1..]);
      if samples[0].success {
        var all := [rtt] + rest;
        assert all[0] == rtt && all[1..] == rest;
      } else {
        assert Accepted(samples) == rest;
      }
    }
  }

  /** `m` is one of `xs` and bounds every element from below; `n` likewise from above. */
  predicate Extremes(xs: seq<real>, m: real, n: real) {
    m in xs && n in xs && forall i :: 0 <= i < |xs| ==> m <= xs[i] <= n
  }

  /**
    The running minimum and maximum are the extremes of every time
    accepted so far: `prefix` holds the times accepted before `s`.
  */
  lemma {:induction false} ReplayMinMaxFrom(s: HostStats, samples: seq<Sample>, prefix: seq<real>)
    requires |s.histogram| == |s.boundaries| + 1
    requires |s.medianBuffer| <= MedianCapacity && |s.recentRtts| <= RecentCapacity
    requires s.success == 0 <==> prefix == []
    requires prefix != [] ==> Extremes(prefix, s.minMs, s.maxMs)
    ensures var r := ReplayHost(s, samples);
      prefix + Accepted(samples) != [] ==> Extremes(prefix + Accepted(samples), r.minMs, r.maxMs)
    decreases |samples|
  {
    if samples == [] {
      assert prefix + Accepted(samples) == prefix;
    } else {
      var rtt := ClampNonNegative(samples[0].rtt);
      var s1 := RecordSample(s, rtt, samples[0].success);
      assert ReplayHost(s, samples) == ReplayHost(s1, samples[1..]);
      AcceptedCons(samples);
      if samples[0].success {
        var p1 := prefix + [rtt];
        assert Extremes(p1, s1.minMs, s1.maxMs) by {
          assert p1[|prefix|] == rtt;
          if prefix != [] {
            forall i | 0 <= i < |p1| ensures s1.minMs <= p1[i] <= s1.maxMs {
              if i < |prefix| { assert p1[i] == prefix[i]; }
            }
            assert s1.minMs == s.minMs ==> s1.minMs in prefix;
            assert s1.maxMs == s.maxMs ==> s1.maxMs in prefix;
          } else {
            assert p1 == [rtt];
          }
        }
        ReplayMinMaxFrom(s1, samples[1..], p1);
        assert p1 + Accepted(samples[1..]) == prefix + Accepted(samples);
      } else {
        ReplayMinMaxFrom(s1, samples[1..], prefix);
        assert Accepted(samples) == Accepted(samples[1..]);
      }
    }
  }

  /**
    Starting from a record without a success, once some sample succeeded
    the running minimum and maximum are the smallest and the largest
    accepted time: each is one of them and bounds them all.
  */
  lemma ReplayMinMax(s: HostStats, samples: seq<Sample>)
    requires |s.histogram| == |s.boundaries| + 1
    requires |s.medianBuffer| <= MedianCapacity && |s.recentRtts| <= RecentCapacity
    requires s.success == 0 && Accepted(samples) != []
    ensures ReplayHost(s, samples).minMs in Accepted(samples)
    ensures ReplayHost(s, samples).maxMs in Accepted(samples)
    ensures forall i :: 0 <= i < |Accepted(samples)| ==>
      ReplayHost(s, samples).minMs <= Accepted(samples)[i] <= ReplayHost(s, samples).maxMs
  {
    ReplayMinMaxFrom(s, samples, []);
    assert [] + Accepted(samples) == Accepted(samples);
  }

  // ---------------------------------------------------------------------
  // The two worked examples of the pingstats aggregator tests

  /** With only successes of non-negative times, the accepted times are the sample times. */
  lemma {:induction false} AcceptedAllSuccess(samples: seq<Sample>)
    requires forall k :: 0 <= k < |samples| ==> samples[k].success && samples[k].rtt >= 0.0
    ensures |Accepted(samples)| == |samples|
    ensures forall k :: 0 <= k < |samples| ==> Accepted(samples)[k] == samples[k].rtt
  {
    if samples != [] {
      AcceptedAllSuccess(samples[1..]);
      AcceptedCons(samples);
    }
  }

  /** How many of `xs` fall into bucket `i`. */
  function BucketCount(bounds: seq<real>, xs: seq<real>, i: nat): nat {
    if xs == [] then 0
    else (if BucketIndex(bounds, xs[0]) == i then 1 else 0) + BucketCount(bounds, xs[1..], i)
  }

  /** After any history, bucket `i` has grown by the number of accepted times that classify into it. */
  lemma {:induction false} ReplayHistogram(s: HostStats, samples: seq<Sample>, i: nat)
    requires |s.histogram| == |s.boundaries| + 1
    requires |s.medianBuffer| <= MedianCapacity && |s.recentRtts| <= RecentCapacity
    requires i < |s.histogram|
    ensures ReplayHost(s, samples).boundaries == s.boundaries
    ensures ReplayHost(s, samples).histogram[i] == s.histogram[i] + BucketCount(s.boundaries, Accepted(samples), i)
    decreases |samples|
  {
    if samples == [] {
    } else {
      var rtt := ClampNonNegative(samples[0].rtt);
      var s1 := RecordSample(s, rtt, samples[0].success);
      assert ReplayHost(s, samples) == ReplayHost(s1, samples[1..]);
      ReplayHistogram(s1, samples[1..], i);
      AcceptedCons(samples);
      var rest := Accepted(samples[1..]);
      if samples[0].success {
        assert Accepted(samples) == [rtt] + rest;
        assert Accepted(samples)[1..] == rest;
      } else {
        assert s1.histogram == s.histogram;
        assert Accepted(samples) == rest;
      }
    }
  }

  const EdgeTimes: seq<real> := [5.0, 10.0, 55.0, 500.0, 800.0]
  const EdgeSamples: seq<Sample> := [Sample(5.0, true), Sample(10.0, true), Sample(55.0, true),
                                     Sample(500.0, true), Sample(800.0, true)]

  lemma EdgeAccepted()
    ensures Accepted(EdgeSamples) == EdgeTimes
  {
    AcceptedAllSuccess(EdgeSamples);
  }

  lemma EdgeCounts(bounds: seq<real>, xs: seq<real>, i: nat)
    requires bounds == DefaultBoundaries && xs == EdgeTimes && i < 7
    ensures BucketCount(bounds, xs, i) == [1, 1, 0, 1, 0, 0, 2][i]
  {
    assert BucketIndex(DefaultBoundaries, 5.0) == 0;
    assert BucketIndex(DefaultBoundaries, 10.0) == 1;
    assert BucketIndex(DefaultBoundaries, 55.0) == 3;
    assert BucketIndex(DefaultBoundaries, 500.0) == 6;
    assert BucketIndex(DefaultBoundaries, 800.0) == 6;
    var b := DefaultBoundaries;
    assert BucketCount(b, [800.0], i) == (if i == 6 then 1 else 0) by {
      assert [800.0][1..] == [];
    }
    assert BucketCount(b, [500.0, 800.0], i) == (if i == 6 then 2 else 0) by {
      assert [500.0, 800.0][1..] == [800.0];
    }
    assert BucketCount(b, [55.0, 500.0, 800.0], i) == [0, 0, 0, 1, 0, 0, 2][i] by {
      assert [55.0, 500.0, 800.0][1..] == [500.0, 800.0];
    }
    assert BucketCount(b, [10.0, 55.0, 500.0, 800.0], i) == [0, 1, 0, 1, 0, 0, 2][i] by {
      assert [10.0, 55.0, 500.0, 800.0][1..] == [55.0, 500.0, 800.0];
    }
    assert EdgeTimes[1..] == [10.0, 55.0, 500.0, 800.0];
  }

  /**
    Successful samples 5, 10, 55, 500 and 800 fill the default buckets
    as [1, 1, 0, 1, 0, 0, 2]: 10 is not below 10 and 500 is not below 500.
  */
  lemma HistogramExample(st: Store, host: string)
    requires Shaped(st) && host !in st.hosts
    ensures host in AddAll(st, host, EdgeSamples).hosts
    ensures AddAll(st, host, EdgeSamples).hosts[host].histogram == [1, 1, 0, 1, 0, 0, 2]
  {
    FreshHostStart(st, host);
    AddAllIsReplay(st, host, EdgeSamples);
    EdgeAccepted();
    EdgeHistogram(Before(st, host), EdgeSamples);
  }

  lemma FreshHostStart(st: Store, host: string)
    requires host !in st.hosts
    ensures Before(st, host).boundaries == DefaultBoundaries
    ensures Before(st, host).histogram == [0, 0, 0, 0, 0, 0, 0]
    ensures Before(st, host).medianBuffer == [] && Before(st, host).recentRtts == []
  {
    var s0 := Before(st, host);
    assert s0 == NewHostStats(host, DefaultBoundaries);
    assert |s0.histogram| == 7;
    assert forall i :: 0 <= i < 7 ==> s0.histogram[i] == 0;
  }

  lemma EdgeHistogram(s0: HostStats, samples: seq<Sample>)
    requires s0.boundaries == DefaultBoundaries && s0.histogram == [0, 0, 0, 0, 0, 0, 0]
    requires |s0.medianBuffer| <= MedianCapacity && |s0.recentRtts| <= RecentCapacity
    requires Accepted(samples) == EdgeTimes
    ensures ReplayHost(s0, samples).histogram == [1, 1, 0, 1, 0, 0, 2]
  {
    var r := ReplayHost(s0, samples);
    var counts := [1, 1, 0, 1, 0, 0, 2];
    EdgeBucket(s0, samples, 0);
    forall i | 0 <= i < 7
      ensures r.histogram[i] == counts[i]
    {
      EdgeBucket(s0, samples, i);
    }
  }

  lemma EdgeBucket(s0: HostStats, samples: seq<Sample>, i: nat)
    requires s0.boundaries == DefaultBoundaries && s0.histogram == [0, 0, 0, 0, 0, 0, 0]
    requires |s0.medianBuffer| <= MedianCapacity && |s0.recentRtts| <= RecentCapacity
    requires Accepted(samples) == EdgeTimes && i < 7
    ensures |ReplayHost(s0, samples).histogram| == 7
    ensures ReplayHost(s0, samples).histogram[i] == [1, 1, 0, 1, 0, 0, 2][i]
  {
    ReplayHistogram(s0, samples, i);
    assert s0.histogram[i] == 0;
    EdgeCounts(s0.boundaries, Accepted(samples), i);
  }

  /**
    Samples 10 ok, 20 ok and one failure on a host not seen before read
    count 3, loss 1/3, min 10, max 20, mean 15 and median 15.
  */
  lemma BasicSnapshotExample(st: Store, host: string)
    requires Shaped(st) && host !in st.hosts
    ensures var snap := SnapshotOf(AddSample(AddSample(AddSample(st, host, 10.0, true), host, 20.0, true), host, 0.0, false), host);
            && snap.count == 3 && snap.lossRatio == 1.0 / 3.0
            && snap.minMs == 10.0 && snap.maxMs == 20.0
            && snap.meanMs == 15.0 && snap.medianMs == 15.0
            && |snap.histogram| == 7 && snap.recentRtts == [10.0, 20.0]
  {
    var st1 := AddSample(st, host, 10.0, true);
    var st2 := AddSample(st1, host, 20.0, true);
    var st3 := AddSample(st2, host, 0.0, false);
    var s0 := Before(st, host);
    assert s0 == NewHostStats(host, DefaultBoundaries);
    assert ClampNonNegative(10.0) == 10.0 && ClampNonNegative(20.0) == 20.0;
    assert st1.hosts[host] == RecordSample(s0, 10.0, true);
    assert Before(st1, host) == st1.hosts[host];
    assert st2.hosts[host] == RecordSample(RecordSample(s0, 10.0, true), 20.0, true);
    assert Before(st2, host) == st2.hosts[host];
    BasicRecords(s0);
    BasicRecordSnapshot(st3.hosts[host]);
  }

  lemma BasicRecords(s0: HostStats)
    requires s0.sent == 0 && s0.success == 0 && s0.sumMs == 0.0
    requires s0.medianBuffer == [] && s0.recentRtts == []
    requires |s0.histogram| == 7 && |s0.boundaries| == 6
    ensures var s2 := RecordSample(RecordSample(s0, 10.0, true), 20.0, true);
            && s2.sent == 2 && s2.success == 2 && s2.minMs == 10.0 && s2.maxMs == 20.0 && s2.sumMs == 30.0
            && s2.medianBuffer == [10.0, 20.0] && s2.recentRtts == [10.0, 20.0] && |s2.histogram| == 7
  {
    var s1 := RecordSample(s0, 10.0, true);
    assert s1.success == 1 && s1.minMs == 10.0 && s1.maxMs == 10.0 && s1.sumMs == 10.0;
    assert s1.medianBuffer == [10.0] && s1.recentRtts == [10.0];
  }

  lemma BasicRecordSnapshot(s: HostStats)
    requires s.sent == 3 && s.success == 2 && s.minMs == 10.0 && s.maxMs == 20.0 && s.sumMs == 30.0
    requires s.medianBuffer == [10.0, 20.0] && s.recentRtts == [10.0, 20.0] && |s.histogram| == 7
    ensures var snap := BuildSnapshot(s);
            && snap.count == 3 && snap.lossRatio == 1.0 / 3.0
            && snap.minMs == 10.0 && snap.maxMs == 20.0
            && snap.meanMs == 15.0 && snap.medianMs == 15.0
            && |snap.histogram| == 7 && snap.recentRtts == [10.0, 20.0]
  {
    MedianOfSorted([10.0, 20.0]);
  }
}
