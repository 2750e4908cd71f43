/** The dashboard's session state and one press of "Run Simulation" (app.py:173-195): the
    detector's alerts replace the shown alerts, the rules engine updates the rules table,
    and the change list is appended to the history only when it is non-empty. */
module Session {
  import opened Dicts
  import opened Model
  import opened RulesEngine
  import opened ThresholdDetector

  /** One history entry: the clock reading after the run, and the run's change list. */
  datatype HistoryEntry = HistoryEntry(time: int, changes: seq<Change>)

  /** Every change of the history, oldest first. */
  function AllChanges(history: seq<HistoryEntry>): seq<Change>
    decreases |history|
  {
    if history == [] then []
    else AllChanges(history[..|history| - 1]) + history[|history| - 1].changes
  }

  lemma AllChangesSnoc(history: seq<HistoryEntry>, e: HistoryEntry)
    ensures AllChanges(history + [e]) == AllChanges(history) + e.changes
  {
  }

  /** The history after a run whose change list is `changes`. */
  function Recorded(history: seq<HistoryEntry>, stamp: int, changes: seq<Change>)
    : (h: seq<HistoryEntry>)
    ensures changes == [] ==> h == history
    ensures changes != [] ==> |h| == |history| + 1 && h[|history|] == HistoryEntry(stamp, changes)
    ensures h[..|history|] == history
  {
    if changes != [] then history + [HistoryEntry(stamp, changes)] else history
  }

  /** `st.session_state`, without the last traffic frame. */
  class Dashboard {
    var rules: RuleTable
    var history: seq<HistoryEntry>
    var alerts: seq<Alert>

    /** The rules table is well formed and keyed by target address, no history entry is
        empty, and the history is a complete audit: replaying it on the empty table
        yields the current rules. */
    ghost predicate Valid()
      reads this
    {
      && rules.Valid()
      && KeysMatch(rules)
      && (forall n :: 0 <= n < |history| ==> history[n].changes != [])
      && Replay(Empty(), AllChanges(history)) == rules
    }

    /** The first run of the script: rules `{}`, history `[]`, alerts `[]`. */
    constructor ()
      ensures Valid()
      ensures rules == Empty() && history == [] && alerts == []
    {
      rules := Empty();
      history := [];
      alerts := [];
    }

    /** One run with the alerts the chosen detector produced; `clock` and `now` are the
        engine's clock readings and `stamp` the one taken for the history entry. */
    method RunSimulation(newAlerts: seq<Alert>, clock: nat -> int, now: int, stamp: int)
      requires Valid()
      modifies this
      ensures Valid()
      ensures alerts == newAlerts
      ensures rules == EngineRules(old(rules), newAlerts, clock, now)
      ensures history == Recorded(old(history), stamp, EngineChanges(old(rules), newAlerts, clock, now))
    {
      alerts := newAlerts;
      ghost var past := AllChanges(history);
      EngineKeepsKeysMatch(rules, newAlerts, clock, now);
      ReplayEngineChanges(rules, newAlerts, clock, now);
      var changes;
      rules, changes := AdaptiveRulesEngine(newAlerts, rules, clock, now);
      ReplayConcat(Empty(), past, changes);
      if changes != [] {
        AllChangesSnoc(history, HistoryEntry(stamp, changes));
        history := history + [HistoryEntry(stamp, changes)];
      }
    }
  }

  // ---------------------------------------------------------------------------------
  // The threshold detector feeding the engine

  /** For a source seen in more than 8 rows, the last alert naming it is its
      repeated-connection alert. */
  lemma RepeatAlertIsLast(rows: seq<FlowRow>, threshold: int, order: seq<string>,
                          dclock: nat -> int, ip: string) returns (j: nat)
    requires IsCountOrder(rows, order) && ip != "" && Count(rows, ip) > RepeatLimit
    ensures var alerts := ThresholdAlerts(rows, threshold, order, dclock);
            j < |alerts| && Targets(alerts[j], ip) && alerts[j].severity == "medium"
            && forall k :: j < k < |alerts| ==> !Targets(alerts[k], ip)
  {
    var s := Spikes(rows, threshold);
    var r := Repeats(rows, order, dclock);
    var alerts := ThresholdAlerts(rows, threshold, order, dclock);
    RepeatsExact(rows, order, dclock);
    var n :| 0 <= n < |r| && r[n].srcIp == Some(ip);
    j := |s| + n;
    assert alerts[j] == r[n];
    forall k | j < k < |alerts| ensures !Targets(alerts[k], ip) {
      assert alerts[k] == r[k - |s|];
    }
  }

  /** A source seen in more than 8 rows ends up rate limited, even when some of its rows
      were spikes: its repeated-connection alert comes after every spike alert. The rule
      survives the run's sweep when `now` is within 60 minutes of the clock readings
      taken for that source's alerts. */
  lemma RepeatedSourceEndsRateLimited(t: RuleTable, rows: seq<FlowRow>, threshold: int,
                                      order: seq<string>, dclock: nat -> int,
                                      clock: nat -> int, now: int, ip: string)
    requires t.Valid() && IsCountOrder(rows, order) && ip != "" && Count(rows, ip) > RepeatLimit
    requires var alerts := ThresholdAlerts(rows, threshold, order, dclock);
             forall j :: 0 <= j < |alerts| && Targets(alerts[j], ip) ==>
               now <= clock(j) + RateLimitExpireMin * MicrosPerMinute
    ensures var final := EngineRules(t, ThresholdAlerts(rows, threshold, order, dclock), clock, now);
            ip in final.values
            && final.values[ip].action == RateLimit
            && final.values[ip].params == Params(Some(50), Some(60))
  {
    var alerts := ThresholdAlerts(rows, threshold, order, dclock);
    var j := RepeatAlertIsLast(rows, threshold, order, dclock, ip);
    LastWriteWins(t, alerts, clock, ip, j);
    assert now <= clock(j) + RateLimitExpireMin * MicrosPerMinute;
    UnexpiredSurvives(t, alerts, clock, now, ip);
  }

  /** For a source seen in at most 8 rows, one of them a spike, some alert names it and
      every alert naming it is a spike alert. */
  lemma SpikeAlertsOnly(rows: seq<FlowRow>, threshold: int, order: seq<string>,
                        dclock: nat -> int, ip: string, m: nat)
    requires IsCountOrder(rows, order) && ip != "" && Count(rows, ip) <= RepeatLimit
    requires m < |rows| && rows[m].srcIp == ip && IsSpike(rows[m], threshold)
    ensures var alerts := ThresholdAlerts(rows, threshold, order, dclock);
            (exists j :: 0 <= j < |alerts| && Targets(alerts[j], ip))
            && forall j :: 0 <= j < |alerts| && Targets(alerts[j], ip) ==> alerts[j].severity == "high"
  {
    var s := Spikes(rows, threshold);
    var r := Repeats(rows, order, dclock);
    var alerts := ThresholdAlerts(rows, threshold, order, dclock);
    SpikesToExact(rows, threshold, |rows|);
    RepeatsExact(rows, order, dclock);
    assert SpikeAlert(rows[m]) in s;
    var i :| 0 <= i < |s| && s[i] == SpikeAlert(rows[m]);
    assert alerts[i] == s[i];
    forall k | |s| <= k < |alerts| ensures !Targets(alerts[k], ip) {
      assert alerts[k] == r[k - |s|];
    }
    forall j | 0 <= j < |alerts| && Targets(alerts[j], ip) ensures alerts[j].severity == "high" {
      assert alerts[j] == s[j] && s[j] in s;
      var row :| 0 <= row < |rows| && IsSpike(rows[row], threshold) && s[j] == SpikeAlert(rows[row]);
    }
  }

  /** A source seen in at most 8 rows, one of them a spike, ends up blocked, provided the
      run's sweep comes within 30 minutes of the clock readings taken for its alerts. */
  lemma SpikySourceEndsBlocked(t: RuleTable, rows: seq<FlowRow>, threshold: int,
                               order: seq<string>, dclock: nat -> int, clock: nat -> int,
                               now: int, ip: string, m: nat)
    requires t.Valid() && IsCountOrder(rows, order) && ip != "" && Count(rows, ip) <= RepeatLimit
    requires m < |rows| && rows[m].srcIp == ip && IsSpike(rows[m], threshold)
    requires var alerts := ThresholdAlerts(rows, threshold, order, dclock);
             forall j :: 0 <= j < |alerts| && Targets(alerts[j], ip) ==>
               now <= clock(j) + BlockExpireMin * MicrosPerMinute
    ensures var final := EngineRules(t, ThresholdAlerts(rows, threshold, order, dclock), clock, now);
            ip in final.values
            && final.values[ip].action == Block
            && final.values[ip].params == Params(None, Some(30))
  {
    var alerts := ThresholdAlerts(rows, threshold, order, dclock);
    SpikeAlertsOnly(rows, threshold, order, dclock, ip, m);
    TargetedTo(t, alerts, clock, ip, |alerts|);
    var j :| 0 <= j < |alerts| && Targets(alerts[j], ip)
             && ApplyAll(t, alerts, clock).values[ip] == Synthesize(alerts[j], clock(j)).value;
    assert now <= clock(j) + BlockExpireMin * MicrosPerMinute;
    UnexpiredSurvives(t, alerts, clock, now, ip);
  }

  // ---------------------------------------------------------------------------------
  // A replaced rule keeps the lifetime of its replacement

  /** A run on one alert that yields rule `r` sets `r` at its address and logs it once. */
  lemma SingleAlertRun(t: RuleTable, a: Alert, clock: nat -> int, r: Rule)
    requires Synthesize(a, clock(0)) == Some(r)
    ensures ApplyAll(t, [a], clock) == t.Set(r.targetIp, r)
    ensures ApplyLog([a], clock) == [ChangeFor(r)]
  {
    assert ApplyTo(t, [a], clock, 0) == t;
    assert LogTo([a], clock, 1) == [] + Logged(a, clock(0));
  }

  /** Sweeping a table of one rule keeps it while it is live and deletes and reports it
      once it has expired. */
  lemma SingleRuleSweep(ip: string, r: Rule, now: int)
    ensures var t := Dict([ip], map[ip := r]);
            (!IsExpired(r, now) ==> Sweep(t, now) == t && ExpiredKeys(t, now) == [])
            && (IsExpired(r, now) ==> Sweep(t, now).values == map[] && ExpiredKeys(t, now) == [ip])
  {
    var t := Dict([ip], map[ip := r]);
    assert SweepTo(t, t.keys, t.values, now, 0) == t;
    assert ExpiredTo(t.keys, t.values, now, 0) == [];
    assert [] + [ip] == [ip];
  }

  /** A block for 9.9.9.9 at T, replaced by a rate limit at T+5m, is not swept at T+31m:
      the rate limit lives 60 minutes from T+5m, and only a sweep after T+65m removes
      it, logging one expiry. `c1` and `c2` are the clocks of the first two runs. */
  lemma ReplacedRuleOutlivesBlock(T: int, kind: string, c1: nat -> int, c2: nat -> int)
    requires c1(0) == T && c2(0) == T + 5 * MicrosPerMinute
    ensures var ip := "9.9.9.9";
            var M := MicrosPerMinute;
            var high := Alert(T, kind, Some(ip), "high", None, None, None, None);
            var medium := Alert(T + 5 * M, kind, Some(ip), "medium", None, None, None, None);
            var block := Rule(Block, ip, Params(None, Some(30)), kind, T);
            var limit := Rule(RateLimit, ip, Params(Some(50), Some(60)), kind, T + 5 * M);
            var t1 := EngineRules(Empty(), [high], c1, T);
            var t2 := EngineRules(t1, [medium], c2, T + 5 * M);
            && t1.values == map[ip := block]
            && EngineChanges(Empty(), [high], c1, T) == [AddBlock(block)]
            && t2.values == map[ip := limit]
            && EngineChanges(t1, [medium], c2, T + 5 * M) == [AddRateLimit(limit)]
            && EngineRules(t2, [], c1, T + 31 * M) == t2
            && EngineChanges(t2, [], c1, T + 31 * M) == []
            && EngineRules(t2, [], c1, T + 66 * M).values == map[]
            && EngineChanges(t2, [], c1, T + 66 * M) == [Expire(ip)]
  {
    var ip := "9.9.9.9";
    var M := MicrosPerMinute;
    var high := Alert(T, kind, Some(ip), "high", None, None, None, None);
    var medium := Alert(T + 5 * M, kind, Some(ip), "medium", None, None, None, None);
    var block := Rule(Block, ip, Params(None, Some(30)), kind, T);
    var limit := Rule(RateLimit, ip, Params(Some(50), Some(60)), kind, T + 5 * M);
    var t1 := Dict([ip], map[ip := block]);
    var t2 := Dict([ip], map[ip := limit]);
    SingleAlertRun(Empty(), high, c1, block);
    assert Empty<string, Rule>().Set(ip, block) == t1;
    SingleRuleSweep(ip, block, T);
    SingleAlertRun(t1, medium, c2, limit);
    assert t1.Set(ip, limit) == t2;
    SingleRuleSweep(ip, limit, T + 5 * M);
    assert ApplyAll(t2, [], c1) == t2 && ApplyLog([], c1) == [];
    SingleRuleSweep(ip, limit, T + 31 * M);
    SingleRuleSweep(ip, limit, T + 66 * M);
    assert Expiries([]) == [] && Expiries([ip]) == [Expire(ip)];
  }
}
