/** The rule-based detector (`detect_anomalies_threshold`, app.py:65-91). The traffic frame
    is a sequence of flow rows. The detector emits, in this order:

    1. one "high" alert per row whose flow size `packets * bytes` exceeds the threshold,
       in row order;
    2. one "medium" alert per source address that occurs in more than 8 rows, in the order
       in which `value_counts()` lists the sources.

    `value_counts()` belongs to pandas: the model takes the order it yields as a parameter
    and relies only on what it guarantees, that every source occurring in the frame is
    listed once and that counts do not increase along the list. The clock reading stamped
    on the k-th listed source is `clock(k)`. */
module ThresholdDetector {
  import opened Dicts
  import opened Model

  /** One row of the simulated NetFlow frame, as far as the detector reads it. */
  datatype FlowRow = FlowRow(time: int, srcIp: string, dstPort: int, packets: int, bytes: int)

  const SpikeKind: string := "Large Flow Spike"
  const RepeatKind: string := "Repeated Connections (possible brute force)"
  /** A source is reported once it occurs in more rows than this. */
  const RepeatLimit: int := 8

  /** The `flow_size` column. */
  function FlowSize(r: FlowRow): int {
    r.packets * r.bytes
  }

  predicate IsSpike(r: FlowRow, threshold: int) {
    FlowSize(r) > threshold
  }

  /** The alert for a spike row: its time, source, port, packets and bytes, no "requests". */
  function SpikeAlert(r: FlowRow): (a: Alert)
    ensures a.severity == "high" && a.kind == SpikeKind && a.time == r.time
    ensures a.srcIp == Some(r.srcIp) && a.dstPort == Some(r.dstPort)
    ensures a.packets == Some(r.packets) && a.bytes == Some(r.bytes) && a.requests == None
  {
    Alert(r.time, SpikeKind, Some(r.srcIp), "high", Some(r.dstPort), Some(r.packets),
          Some(r.bytes), None)
  }

  /** The alert for a frequent source: stamped by the clock, the count as "requests",
      and no port, packets or bytes. */
  function RepeatAlert(ip: string, count: int, stamp: int): (a: Alert)
    ensures a.severity == "medium" && a.kind == RepeatKind && a.time == stamp
    ensures a.srcIp == Some(ip) && a.requests == Some(count)
    ensures a.dstPort == None && a.packets == None && a.bytes == None
  {
    Alert(stamp, RepeatKind, Some(ip), "medium", None, None, None, Some(count))
  }

  /** The spike alerts for `rows[..i]`, in row order. */
  function SpikesTo(rows: seq<FlowRow>, threshold: int, i: nat): seq<Alert>
    requires i <= |rows|
  {
    if i == 0 then []
    else SpikesTo(rows, threshold, i - 1)
         + if IsSpike(rows[i - 1], threshold) then [SpikeAlert(rows[i - 1])] else []
  }

  /** The number of rows of `rows[..i]` whose source is `ip`. */
  function CountTo(rows: seq<FlowRow>, ip: string, i: nat): nat
    requires i <= |rows|
  {
    if i == 0 then 0 else CountTo(rows, ip, i - 1) + if rows[i - 1].srcIp == ip then 1 else 0
  }

  /** `value_counts()[ip]`, zero for a source that does not occur. */
  function Count(rows: seq<FlowRow>, ip: string): nat {
    CountTo(rows, ip, |rows|)
  }

  /** What `value_counts().items()` guarantees about the order it lists the sources in. */
  ghost predicate IsCountOrder(rows: seq<FlowRow>, order: seq<string>) {
    && Distinct(order)
    && (forall ip :: ip in order <==> Count(rows, ip) > 0)
    && forall a, b :: 0 <= a < b < |order| ==> Count(rows, order[a]) >= Count(rows, order[b])
  }

  /** The repeated-connection alerts for the first `k` listed sources. */
  function RepeatsTo(rows: seq<FlowRow>, order: seq<string>, clock: nat -> int, k: nat)
    : seq<Alert>
    requires k <= |order|
  {
    if k == 0 then []
    else
      var ip := order[k - 1];
      RepeatsTo(rows, order, clock, k - 1)
      + if Count(rows, ip) > RepeatLimit then [RepeatAlert(ip, Count(rows, ip), clock(k - 1))] else []
  }

  function Spikes(rows: seq<FlowRow>, threshold: int): seq<Alert> {
    SpikesTo(rows, threshold, |rows|)
  }

  function Repeats(rows: seq<FlowRow>, order: seq<string>, clock: nat -> int): seq<Alert> {
    RepeatsTo(rows, order, clock, |order|)
  }

  /** The alert list `detect_anomalies_threshold` returns. */
  function ThresholdAlerts(rows: seq<FlowRow>, threshold: int, order: seq<string>,
                           clock: nat -> int): seq<Alert>
  {
    Spikes(rows, threshold) + Repeats(rows, order, clock)
  }

  // ---------------------------------------------------------------------------------
  // The detector

  /** `detect_anomalies_threshold(df, packet_threshold)`: the loop over the spike rows,
      then the loop over the counted sources. */
  method DetectThreshold(rows: seq<FlowRow>, threshold: int, order: seq<string>,
                         clock: nat -> int)
    returns (alerts: seq<Alert>)
    requires IsCountOrder(rows, order)
    ensures alerts == ThresholdAlerts(rows, threshold, order, clock)
  {
    alerts := [];
    for i := 0 to |rows|
      invariant alerts == SpikesTo(rows, threshold, i)
    {
      var r := rows[i];
      if r.packets * r.bytes > threshold {
        alerts := alerts + [SpikeAlert(r)];
      }
    }
    var counts := ValueCounts(rows);
    ghost var spikes := alerts;
    for k := 0 to |order|
      invariant alerts == spikes + RepeatsTo(rows, order, clock, k)
    {
      var ip := order[k];
      assert ip in order;
      var cnt := counts[ip];
      if cnt > RepeatLimit {
        alerts := alerts + [RepeatAlert(ip, cnt, clock(k))];
      }
    }
  }

  /** `df['src_ip'].value_counts()`, without its order: the number of rows per source
      that occurs. */
  method ValueCounts(rows: seq<FlowRow>) returns (counts: map<string, nat>)
    ensures forall ip :: ip in counts <==> Count(rows, ip) > 0
    ensures forall ip :: ip in counts ==> counts[ip] == Count(rows, ip)
  {
    counts := map[];
    for i := 0 to |rows|
      invariant forall ip :: ip in counts <==> CountTo(rows, ip, i) > 0
      invariant forall ip :: ip in counts ==> counts[ip] == CountTo(rows, ip, i)
    {
      var ip := rows[i].srcIp;
      if ip in counts {
        counts := counts[ip := counts[ip] + 1];
      } else {
        counts := counts[ip := 1];
      }
    }
  }

  // ---------------------------------------------------------------------------------
  // Properties

  /** The rows of `rows[..i]` that are spikes. */
  function SpikeRowsTo(rows: seq<FlowRow>, threshold: int, i: nat): set<nat> {
    set m: nat | m < i && m < |rows| && IsSpike(rows[m], threshold)
  }

  lemma SpikeRowsStep(rows: seq<FlowRow>, threshold: int, i: nat)
    requires 0 < i <= |rows|
    ensures |SpikeRowsTo(rows, threshold, i)| == |SpikeRowsTo(rows, threshold, i - 1)|
                                                 + if IsSpike(rows[i - 1], threshold) then 1 else 0
  {
    var earlier := SpikeRowsTo(rows, threshold, i - 1);
    if IsSpike(rows[i - 1], threshold) {
      assert SpikeRowsTo(rows, threshold, i) == earlier + {i - 1};
    } else {
      assert SpikeRowsTo(rows, threshold, i) == earlier;
    }
  }

  lemma {:induction false} SpikesToExact(rows: seq<FlowRow>, threshold: int, i: nat)
    requires i <= |rows|
    ensures |SpikesTo(rows, threshold, i)| == |SpikeRowsTo(rows, threshold, i)|
    ensures forall a :: a in SpikesTo(rows, threshold, i) <==>
              exists m :: 0 <= m < i && IsSpike(rows[m], threshold) && a == SpikeAlert(rows[m])
  {
    if i > 0 {
      SpikesToExact(rows, threshold, i - 1);
      SpikeRowsStep(rows, threshold, i);
    }
  }

  /** The alert of spike row `m` sits at the position given by the number of spike rows
      before `m`. */
  lemma {:induction false} SpikesToAt(rows: seq<FlowRow>, threshold: int, i: nat)
    requires i <= |rows|
    ensures forall m :: 0 <= m < i && IsSpike(rows[m], threshold) ==>
              |SpikeRowsTo(rows, threshold, m)| < |SpikesTo(rows, threshold, i)|
              && SpikesTo(rows, threshold, i)[|SpikeRowsTo(rows, threshold, m)|] == SpikeAlert(rows[m])
  {
    if i > 0 {
      var before := SpikesTo(rows, threshold, i - 1);
      var now := SpikesTo(rows, threshold, i);
      SpikesToAt(rows, threshold, i - 1);
      SpikesToExact(rows, threshold, i - 1);
      forall m | 0 <= m < i && IsSpike(rows[m], threshold)
        ensures |SpikeRowsTo(rows, threshold, m)| < |now|
                && now[|SpikeRowsTo(rows, threshold, m)|] == SpikeAlert(rows[m])
      {
        if m < i - 1 {
          assert now[|SpikeRowsTo(rows, threshold, m)|] == before[|SpikeRowsTo(rows, threshold, m)|];
        } else {
          assert now == before + [SpikeAlert(rows[i - 1])];
        }
      }
    }
  }

  /** One "high" alert per row whose flow size exceeds the threshold, in row order, and no
      other. */
  lemma SpikesExact(rows: seq<FlowRow>, threshold: int)
    ensures |Spikes(rows, threshold)| == |SpikeRowsTo(rows, threshold, |rows|)|
    ensures forall a :: a in Spikes(rows, threshold) <==>
              exists m :: 0 <= m < |rows| && IsSpike(rows[m], threshold) && a == SpikeAlert(rows[m])
    ensures forall a :: a in Spikes(rows, threshold) ==>
              a.severity == "high" && a.kind == SpikeKind && a.requests.None?
    ensures forall m :: 0 <= m < |rows| && IsSpike(rows[m], threshold) ==>
              |SpikeRowsTo(rows, threshold, m)| < |Spikes(rows, threshold)|
              && Spikes(rows, threshold)[|SpikeRowsTo(rows, threshold, m)|] == SpikeAlert(rows[m])
  {
    SpikesToExact(rows, threshold, |rows|);
    SpikesToAt(rows, threshold, |rows|);
  }

  lemma {:induction false} RepeatsToShape(rows: seq<FlowRow>, order: seq<string>,
                                          clock: nat -> int, k: nat)
    requires k <= |order|
    ensures forall n :: 0 <= n < |RepeatsTo(rows, order, clock, k)| ==>
              var a := RepeatsTo(rows, order, clock, k)[n];
              a.severity == "medium" && a.kind == RepeatKind && a.srcIp.Some?
              && a.srcIp.value in order[..k]
              && Count(rows, a.srcIp.value) > RepeatLimit
              && a.requests == Some(Count(rows, a.srcIp.value))
  {
    if k > 0 {
      RepeatsToShape(rows, order, clock, k - 1);
      assert order[..k] == order[..k - 1] + [order[k - 1]];
    }
  }

  lemma {:induction false} RepeatsToComplete(rows: seq<FlowRow>, order: seq<string>,
                                             clock: nat -> int, k: nat, ip: string)
    requires k <= |order| && ip in order[..k] && Count(rows, ip) > RepeatLimit
    ensures exists n :: 0 <= n < |RepeatsTo(rows, order, clock, k)|
                        && RepeatsTo(rows, order, clock, k)[n].srcIp == Some(ip)
  {
    assert order[..k] == order[..k - 1] + [order[k - 1]];
    var before := RepeatsTo(rows, order, clock, k - 1);
    if ip == order[k - 1] {
      assert RepeatsTo(rows, order, clock, k)[|before|].srcIp == Some(ip);
    } else {
      RepeatsToComplete(rows, order, clock, k - 1, ip);
      var n :| 0 <= n < |before| && before[n].srcIp == Some(ip);
      assert RepeatsTo(rows, order, clock, k)[n] == before[n];
    }
  }

  lemma {:induction false} RepeatsToDistinct(rows: seq<FlowRow>, order: seq<string>,
                                             clock: nat -> int, k: nat)
    requires k <= |order| && Distinct(order)
    ensures forall n1, n2 :: 0 <= n1 < n2 < |RepeatsTo(rows, order, clock, k)| ==>
              RepeatsTo(rows, order, clock, k)[n1].srcIp != RepeatsTo(rows, order, clock, k)[n2].srcIp
  {
    if k > 0 {
      RepeatsToDistinct(rows, order, clock, k - 1);
      RepeatsToShape(rows, order, clock, k - 1);
      assert order[k - 1] !in order[..k - 1] by {
        forall m | 0 <= m < k - 1 ensures order[m] != order[k - 1] { }
      }
    }
  }

  /** One "medium" alert for each source that occurs in more than 8 rows, with its count
      as "requests", and none for any other source; no source is reported twice. */
  lemma RepeatsExact(rows: seq<FlowRow>, order: seq<string>, clock: nat -> int)
    requires IsCountOrder(rows, order)
    ensures var r := Repeats(rows, order, clock);
            forall ip :: (exists n :: 0 <= n < |r| && r[n].srcIp == Some(ip))
                         <==> Count(rows, ip) > RepeatLimit
    ensures var r := Repeats(rows, order, clock);
            forall n :: 0 <= n < |r| ==>
              r[n].severity == "medium" && r[n].kind == RepeatKind && r[n].srcIp.Some?
              && r[n].requests == Some(Count(rows, r[n].srcIp.value))
    ensures var r := Repeats(rows, order, clock);
            forall n1, n2 :: 0 <= n1 < n2 < |r| ==> r[n1].srcIp != r[n2].srcIp
  {
    var r := Repeats(rows, order, clock);
    assert order[..|order|] == order;
    RepeatsToShape(rows, order, clock, |order|);
    RepeatsToDistinct(rows, order, clock, |order|);
    forall ip | Count(rows, ip) > RepeatLimit
      ensures exists n :: 0 <= n < |r| && r[n].srcIp == Some(ip)
    {
      RepeatsToComplete(rows, order, clock, |order|, ip);
    }
  }

  /** Each repeated-connection alert for the first `k` listed sources names one of them. */
  lemma {:induction false} RepeatsToSources(rows: seq<FlowRow>, order: seq<string>,
                                            clock: nat -> int, k: nat)
    requires k <= |order|
    ensures forall n :: 0 <= n < |RepeatsTo(rows, order, clock, k)| ==>
              exists m :: 0 <= m < k && RepeatsTo(rows, order, clock, k)[n].srcIp == Some(order[m])
  {
    if k > 0 {
      var before := RepeatsTo(rows, order, clock, k - 1);
      var r := RepeatsTo(rows, order, clock, k);
      RepeatsToSources(rows, order, clock, k - 1);
      forall n | 0 <= n < |r|
        ensures exists m :: 0 <= m < k && r[n].srcIp == Some(order[m])
      {
        if n < |before| {
          var m :| 0 <= m < k - 1 && before[n].srcIp == Some(order[m]);
          assert r[n] == before[n];
        } else {
          assert r[n].srcIp == Some(order[k - 1]);
        }
      }
    } else {
      assert RepeatsTo(rows, order, clock, k) == [];
    }
  }

  lemma {:induction false} RepeatsToOrdered(rows: seq<FlowRow>, order: seq<string>,
                                            clock: nat -> int, k: nat)
    requires k <= |order| && IsCountOrder(rows, order)
    ensures forall n1, n2 :: 0 <= n1 < n2 < |RepeatsTo(rows, order, clock, k)| ==>
              RepeatsTo(rows, order, clock, k)[n1].requests.GetOr(0)
              >= RepeatsTo(rows, order, clock, k)[n2].requests.GetOr(0)
  {
    if k > 0 {
      var before := RepeatsTo(rows, order, clock, k - 1);
      var r := RepeatsTo(rows, order, clock, k);
      RepeatsToOrdered(rows, order, clock, k - 1);
      RepeatsToSources(rows, order, clock, k - 1);
      RepeatsToShape(rows, order, clock, k - 1);
      if |r| > |before| {
        forall n | 0 <= n < |before|
          ensures r[n].requests.GetOr(0) >= r[|before|].requests.GetOr(0)
        {
          var m :| 0 <= m < k - 1 && before[n].srcIp == Some(order[m]);
          assert r[n] == before[n];
          assert Count(rows, order[m]) >= Count(rows, order[k - 1]);
        }
      }
    }
  }

  /** The "requests" counts of the repeated-connection alerts never increase along the list. */
  lemma RepeatsByCount(rows: seq<FlowRow>, order: seq<string>, clock: nat -> int)
    requires IsCountOrder(rows, order)
    ensures var r := Repeats(rows, order, clock);
            forall n1, n2 :: 0 <= n1 < n2 < |r| ==> r[n1].requests.GetOr(0) >= r[n2].requests.GetOr(0)
  {
    RepeatsToOrdered(rows, order, clock, |order|);
  }

  /** Every "high" alert comes before every "medium" one. */
  lemma HighBeforeMedium(rows: seq<FlowRow>, threshold: int, order: seq<string>, clock: nat -> int)
    requires IsCountOrder(rows, order)
    ensures var alerts := ThresholdAlerts(rows, threshold, order, clock);
            forall n :: 0 <= n < |alerts| ==>
              (alerts[n].severity == "high" <==> n < |Spikes(rows, threshold)|)
  {
    SpikesToExact(rows, threshold, |rows|);
    RepeatsExact(rows, order, clock);
    var s := Spikes(rows, threshold);
    var alerts := ThresholdAlerts(rows, threshold, order, clock);
    forall n | 0 <= n < |alerts|
      ensures alerts[n].severity == "high" <==> n < |s|
    {
      if n < |s| {
        assert alerts[n] == s[n] && s[n] in s;
        var row :| 0 <= row < |rows| && IsSpike(rows[row], threshold) && s[n] == SpikeAlert(rows[row]);
      } else {
        assert alerts[n] == Repeats(rows, order, clock)[n - |s|];
      }
    }
  }
}
