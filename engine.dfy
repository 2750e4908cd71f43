/** The adaptive rules engine (`adaptive_rules_engine`, app.py:127-153). One call does two
    passes over the rules table, a dictionary from source address to the one rule for it:

    1. the apply pass: every alert with a source address and severity "high" or "medium"
       installs a rule for that address, overwriting whatever rule the address had;
    2. the sweep: walking a snapshot of the table's items in order, every rule whose
       `applied_at + expire_min` lies before `now` is deleted.

    Every change is appended to one list: the apply changes in alert order, then the
    expiries in the order of the snapshot.

    The wall clock becomes parameters: `clock(i)` is the reading taken while alert `i` is
    processed (the rule's `applied_at`), `now` is the reading taken before the sweep.

    The specification functions describe a prefix of each loop's input (`ApplyTo(.., i)` is
    the table once `alerts[..i]` is handled), so that each loop's invariant reads "the state
    so far is the specification of the part already done". */
module RulesEngine {
  import opened Dicts
  import opened Model

  /** The rules table: source address to rule, keys in insertion order. */
  type RuleTable = Dict<string, Rule>

  const BlockExpireMin: int := 30
  const RateLimitExpireMin: int := 60
  const RateLimitRps: int := 50
  /** The sweep's fallback when a rule's params carry no "expire_min". */
  const DefaultExpireMin: int := 60

  // ---------------------------------------------------------------------------------
  // The apply pass

  /** The engine acts on an alert that names a non-empty source address and whose
      severity is "high" or "medium"; it skips every other alert without complaint. */
  predicate Qualifies(a: Alert) {
    a.srcIp.Some? && a.srcIp.value != "" && (a.severity == "high" || a.severity == "medium")
  }

  /** The alert installs a rule for `ip`. */
  predicate Targets(a: Alert, ip: string) {
    Qualifies(a) && a.srcIp.value == ip
  }

  /** The rule an alert installs, if any, with the clock reading `stamp` as `applied_at`. */
  function Synthesize(a: Alert, stamp: int): (r: Option<Rule>)
    ensures r.Some? <==> Qualifies(a)
    ensures r.Some? ==> r.value.targetIp == a.srcIp.value && r.value.reason == a.kind
                        && r.value.appliedAt == stamp
    ensures r.Some? && a.severity == "high" ==>
              r.value.action == Block && r.value.params == Params(None, Some(BlockExpireMin))
    ensures r.Some? && a.severity == "medium" ==>
              r.value.action == RateLimit
              && r.value.params == Params(Some(RateLimitRps), Some(RateLimitExpireMin))
  {
    match a.srcIp
    case None => None
    case Some(ip) =>
      if ip == "" then None
      else if a.severity == "high" then
        Some(Rule(Block, ip, Params(None, Some(BlockExpireMin)), a.kind, stamp))
      else if a.severity == "medium" then
        Some(Rule(RateLimit, ip, Params(Some(RateLimitRps), Some(RateLimitExpireMin)), a.kind, stamp))
      else None
  }

  /** The change logged for an installed rule; an addition and a replacement look alike. */
  function ChangeFor(r: Rule): Change {
    if r.action == Block then AddBlock(r) else AddRateLimit(r)
  }

  /** The table after one alert. */
  function Upsert(t: RuleTable, a: Alert, stamp: int): RuleTable {
    match Synthesize(a, stamp)
    case None => t
    case Some(r) => t.Set(r.targetIp, r)
  }

  /** The changes one alert logs: none, or one. */
  function Logged(a: Alert, stamp: int): seq<Change> {
    match Synthesize(a, stamp)
    case None => []
    case Some(r) => [ChangeFor(r)]
  }

  /** The table after the apply pass has handled `alerts[..i]`, starting from `t`. */
  function ApplyTo(t: RuleTable, alerts: seq<Alert>, clock: nat -> int, i: nat): RuleTable
    requires i <= |alerts|
  {
    if i == 0 then t else Upsert(ApplyTo(t, alerts, clock, i - 1), alerts[i - 1], clock(i - 1))
  }

  /** The changes the apply pass has logged after `alerts[..i]`, in alert order. */
  function LogTo(alerts: seq<Alert>, clock: nat -> int, i: nat): seq<Change>
    requires i <= |alerts|
  {
    if i == 0 then [] else LogTo(alerts, clock, i - 1) + Logged(alerts[i - 1], clock(i - 1))
  }

  function ApplyAll(t: RuleTable, alerts: seq<Alert>, clock: nat -> int): RuleTable {
    ApplyTo(t, alerts, clock, |alerts|)
  }

  function ApplyLog(alerts: seq<Alert>, clock: nat -> int): seq<Change> {
    LogTo(alerts, clock, |alerts|)
  }

  /** The positions below `i` of the alerts the engine acts on. */
  function QualifyingTo(alerts: seq<Alert>, i: nat): set<nat> {
    set m: nat | m < i && m < |alerts| && Qualifies(alerts[m])
  }

  // ---------------------------------------------------------------------------------
  // The sweep

  /** `r['params'].get('expire_min', 60)` */
  function ExpireMinutes(r: Rule): (m: int)
    ensures r.params.expireMin.Some? ==> m == r.params.expireMin.value
    ensures r.params.expireMin.None? ==> m == DefaultExpireMin
  {
    r.params.expireMin.GetOr(DefaultExpireMin)
  }

  /** `now > applied + timedelta(minutes = expire_min)` */
  predicate IsExpired(r: Rule, now: int) {
    now > r.appliedAt + ExpireMinutes(r) * MicrosPerMinute
  }

  /** A rule is still live at the very end of its lifetime and expired one microsecond
      later; once expired, it stays expired. */
  lemma ExpiryIsStrict(r: Rule, now: int, later: int)
    ensures !IsExpired(r, r.appliedAt + ExpireMinutes(r) * MicrosPerMinute)
    ensures IsExpired(r, r.appliedAt + ExpireMinutes(r) * MicrosPerMinute + 1)
    ensures IsExpired(r, now) && now <= later ==> IsExpired(r, later)
  {
  }

  predicate ExpiredIn(vals: map<string, Rule>, k: string, now: int) {
    k in vals && IsExpired(vals[k], now)
  }

  /** Visiting key `k` of the snapshot whose rules are `vals`: `del rules[k]` if the
      snapshot's rule for `k` is expired. */
  function Visit(t: RuleTable, k: string, vals: map<string, Rule>, now: int): RuleTable {
    if ExpiredIn(vals, k, now) && k in t.values then t.Remove(k) else t
  }

  /** The table after the sweep has visited `ks[..j]`. */
  function SweepTo(t: RuleTable, ks: seq<string>, vals: map<string, Rule>, now: int, j: nat)
    : RuleTable
    requires j <= |ks|
  {
    if j == 0 then t else Visit(SweepTo(t, ks, vals, now, j - 1), ks[j - 1], vals, now)
  }

  /** The table after the sweep: the snapshot is the table's own items, in key order. */
  function Sweep(t: RuleTable, now: int): RuleTable {
    SweepTo(t, t.keys, t.values, now, |t.keys|)
  }

  /** The keys of `ks[..j]`, in order, whose snapshot rule is expired at `now`. */
  function ExpiredTo(ks: seq<string>, vals: map<string, Rule>, now: int, j: nat): seq<string>
    requires j <= |ks|
  {
    if j == 0 then []
    else ExpiredTo(ks, vals, now, j - 1) + if ExpiredIn(vals, ks[j - 1], now) then [ks[j - 1]] else []
  }

  /** The keys the sweep deletes, in the order it visits them. */
  function ExpiredKeys(t: RuleTable, now: int): seq<string> {
    ExpiredTo(t.keys, t.values, now, |t.keys|)
  }

  /** One ("expire", {"target_ip": ip}) change per key, in order. */
  function Expiries(ks: seq<string>): (log: seq<Change>)
    ensures |log| == |ks|
  {
    seq(|ks|, i requires 0 <= i < |ks| => Expire(ks[i]))
  }

  lemma ExpiriesSnoc(ks: seq<string>, k: string)
    ensures Expiries(ks + [k]) == Expiries(ks) + [Expire(k)]
  {
  }

  /** Visiting `ks[j]` appends its expiry, if any, to a change list. */
  lemma ExpiryStep(ks: seq<string>, vals: map<string, Rule>, now: int, j: nat, log: seq<Change>)
    requires j < |ks|
    ensures log + Expiries(ExpiredTo(ks, vals, now, j + 1))
            == log + Expiries(ExpiredTo(ks, vals, now, j))
               + if ExpiredIn(vals, ks[j], now) then [Expire(ks[j])] else []
  {
  }

  /** The table `adaptive_rules_engine` returns. */
  function EngineRules(t: RuleTable, alerts: seq<Alert>, clock: nat -> int, now: int): RuleTable {
    Sweep(ApplyAll(t, alerts, clock), now)
  }

  /** The change list `adaptive_rules_engine` returns. */
  function EngineChanges(t: RuleTable, alerts: seq<Alert>, clock: nat -> int, now: int)
    : seq<Change>
  {
    ApplyLog(alerts, clock) + Expiries(ExpiredKeys(ApplyAll(t, alerts, clock), now))
  }

  // ---------------------------------------------------------------------------------
  // Replaying a change list

  /** The effect of one logged change on a table. */
  function ReplayOne(t: RuleTable, c: Change): RuleTable {
    match c
    case AddBlock(r) => t.Set(r.targetIp, r)
    case AddRateLimit(r) => t.Set(r.targetIp, r)
    case Expire(ip) => if ip in t.values then t.Remove(ip) else t
  }

  /** The table obtained by applying the changes of `log` to `t`, in order. */
  function Replay(t: RuleTable, log: seq<Change>): RuleTable
    decreases |log|
  {
    if log == [] then t else Replay(ReplayOne(t, log[0]), log[1..])
  }

  // ---------------------------------------------------------------------------------
  // The engine itself

  /** `adaptive_rules_engine(alerts, rules)`: the apply pass, then the sweep, both
      appending to one change list. */
  method AdaptiveRulesEngine(alerts: seq<Alert>, rules: RuleTable, clock: nat -> int, now: int)
    returns (updated: RuleTable, changes: seq<Change>)
    requires rules.Valid()
    ensures updated.Valid()
    ensures updated == EngineRules(rules, alerts, clock, now)
    ensures changes == EngineChanges(rules, alerts, clock, now)
  {
    updated, changes := ApplyAlerts(alerts, rules, clock);
    ApplyToValid(rules, alerts, clock, |alerts|);
    updated, changes := SweepExpired(updated, now, changes);
    SweepDeletesExactlyExpired(ApplyAll(rules, alerts, clock), now);
  }

  /** The loop over the alerts (app.py:129-142). */
  method ApplyAlerts(alerts: seq<Alert>, rules: RuleTable, clock: nat -> int)
    returns (updated: RuleTable, changes: seq<Change>)
    ensures updated == ApplyAll(rules, alerts, clock)
    ensures changes == ApplyLog(alerts, clock)
  {
    updated := rules;
    changes := [];
    for i := 0 to |alerts|
      invariant updated == ApplyTo(rules, alerts, clock, i)
      invariant changes == LogTo(alerts, clock, i)
    {
      var a := alerts[i];
      if a.srcIp.Some? && a.srcIp.value != "" {
        var ip := a.srcIp.value;
        if a.severity == "high" {
          var rule := Rule(Block, ip, Params(None, Some(BlockExpireMin)), a.kind, clock(i));
          updated := updated.Set(ip, rule);
          changes := changes + [AddBlock(rule)];
        } else if a.severity == "medium" {
          var rule := Rule(RateLimit, ip, Params(Some(RateLimitRps), Some(RateLimitExpireMin)),
                           a.kind, clock(i));
          updated := updated.Set(ip, rule);
          changes := changes + [AddRateLimit(rule)];
        }
      }
    }
  }

  /** The sweep over a snapshot of `rules.items()` (app.py:144-152), appending one expiry
      per deleted key to `changesIn`. */
  method SweepExpired(rules: RuleTable, now: int, changesIn: seq<Change>)
    returns (updated: RuleTable, changes: seq<Change>)
    requires rules.Valid()
    ensures updated == Sweep(rules, now)
    ensures changes == changesIn + Expiries(ExpiredKeys(rules, now))
  {
    updated := rules;
    changes := changesIn;
    var items := rules.keys;
    var vals := rules.values;
    for j := 0 to |items|
      invariant updated == SweepTo(rules, items, vals, now, j)
      invariant changes == changesIn + Expiries(ExpiredTo(items, vals, now, j))
    {
      var ip := items[j];
      var r := vals[ip];
      UnvisitedPresent(rules, now, j);
      ExpiryStep(items, vals, now, j, changesIn);
      var expireMin := r.params.expireMin.GetOr(DefaultExpireMin);
      if now > r.appliedAt + expireMin * MicrosPerMinute {
        updated := updated.Remove(ip);
        changes := changes + [Expire(ip)];
      }
    }
  }

  // ---------------------------------------------------------------------------------
  // Properties of one alert

  /** An alert without a source address, or with an empty one, installs nothing and logs
      nothing, whatever its severity. */
  lemma UnattributedAlertIgnored(t: RuleTable, alerts: seq<Alert>, clock: nat -> int, i: nat)
    requires i < |alerts| && (alerts[i].srcIp == None || alerts[i].srcIp == Some(""))
    ensures ApplyTo(t, alerts, clock, i + 1) == ApplyTo(t, alerts, clock, i)
    ensures LogTo(alerts, clock, i + 1) == LogTo(alerts, clock, i)
  {
    assert LogTo(alerts, clock, i) + [] == LogTo(alerts, clock, i);
  }

  /** A "high" alert for `ip` sets `rules[ip]` to a 30-minute block stamped with the
      clock reading, and logs ("add_block", rule) once. */
  lemma HighAlertBlocks(t: RuleTable, alerts: seq<Alert>, clock: nat -> int, i: nat, ip: string)
    requires i < |alerts| && alerts[i].srcIp == Some(ip) && ip != ""
    requires alerts[i].severity == "high"
    ensures var rule := Rule(Block, ip, Params(None, Some(30)), alerts[i].kind, clock(i));
            ApplyTo(t, alerts, clock, i + 1).values == ApplyTo(t, alerts, clock, i).values[ip := rule]
            && LogTo(alerts, clock, i + 1) == LogTo(alerts, clock, i) + [AddBlock(rule)]
  {
  }

  /** A "medium" alert for `ip` sets `rules[ip]` to a 60-minute rate limit of 50 requests
      per second stamped with the clock reading, and logs ("add_rate_limit", rule) once. */
  lemma MediumAlertRateLimits(t: RuleTable, alerts: seq<Alert>, clock: nat -> int, i: nat,
                              ip: string)
    requires i < |alerts| && alerts[i].srcIp == Some(ip) && ip != ""
    requires alerts[i].severity == "medium"
    ensures var rule := Rule(RateLimit, ip, Params(Some(50), Some(60)), alerts[i].kind, clock(i));
            ApplyTo(t, alerts, clock, i + 1).values == ApplyTo(t, alerts, clock, i).values[ip := rule]
            && LogTo(alerts, clock, i + 1) == LogTo(alerts, clock, i) + [AddRateLimit(rule)]
  {
  }

  /** An alert of any other severity changes nothing: there is no error path. */
  lemma OtherSeverityIgnored(t: RuleTable, alerts: seq<Alert>, clock: nat -> int, i: nat)
    requires i < |alerts| && alerts[i].severity != "high" && alerts[i].severity != "medium"
    ensures ApplyTo(t, alerts, clock, i + 1) == ApplyTo(t, alerts, clock, i)
    ensures LogTo(alerts, clock, i + 1) == LogTo(alerts, clock, i)
  {
    assert LogTo(alerts, clock, i) + [] == LogTo(alerts, clock, i);
  }

  /** The apply pass keeps the table well formed: every key once in the key order. */
  lemma {:induction false} ApplyToValid(t: RuleTable, alerts: seq<Alert>, clock: nat -> int, i: nat)
    requires i <= |alerts| && t.Valid()
    ensures ApplyTo(t, alerts, clock, i).Valid()
  {
    if i > 0 {
      ApplyToValid(t, alerts, clock, i - 1);
    }
  }

  // ---------------------------------------------------------------------------------
  // Last write wins

  /** An address no alert of `alerts[..i]` targets keeps its rule, or stays absent. */
  lemma {:induction false} UntargetedTo(t: RuleTable, alerts: seq<Alert>, clock: nat -> int,
                                        ip: string, i: nat)
    requires i <= |alerts|
    requires forall k :: 0 <= k < i ==> !Targets(alerts[k], ip)
    ensures ip in ApplyTo(t, alerts, clock, i).values <==> ip in t.values
    ensures ip in t.values ==> ApplyTo(t, alerts, clock, i).values[ip] == t.values[ip]
  {
    if i > 0 {
      UntargetedTo(t, alerts, clock, ip, i - 1);
    }
  }

  /** An address no alert targets keeps its rule, or stays absent. */
  lemma UntargetedUnchanged(t: RuleTable, alerts: seq<Alert>, clock: nat -> int, ip: string)
    requires forall k :: 0 <= k < |alerts| ==> !Targets(alerts[k], ip)
    ensures ip in ApplyAll(t, alerts, clock).values <==> ip in t.values
    ensures ip in t.values ==> ApplyAll(t, alerts, clock).values[ip] == t.values[ip]
  {
    UntargetedTo(t, alerts, clock, ip, |alerts|);
  }

  lemma {:induction false} LastWriteWinsTo(t: RuleTable, alerts: seq<Alert>, clock: nat -> int,
                                           ip: string, i: nat, j: nat)
    requires j < i <= |alerts| && Targets(alerts[j], ip)
    requires forall k :: j < k < i ==> !Targets(alerts[k], ip)
    ensures ip in ApplyTo(t, alerts, clock, i).values
    ensures ApplyTo(t, alerts, clock, i).values[ip] == Synthesize(alerts[j], clock(j)).value
  {
    if i > j + 1 {
      LastWriteWinsTo(t, alerts, clock, ip, i - 1, j);
    }
  }

  /** After the apply pass, an address maps to the rule built from the last alert that
      targets it, whatever the table held before and whatever earlier alerts said. */
  lemma LastWriteWins(t: RuleTable, alerts: seq<Alert>, clock: nat -> int, ip: string, j: nat)
    requires j < |alerts| && Targets(alerts[j], ip)
    requires forall k :: j < k < |alerts| ==> !Targets(alerts[k], ip)
    ensures ip in ApplyAll(t, alerts, clock).values
    ensures ApplyAll(t, alerts, clock).values[ip] == Synthesize(alerts[j], clock(j)).value
  {
    LastWriteWinsTo(t, alerts, clock, ip, |alerts|, j);
  }

  /** An address some alert of `alerts[..i]` targets ends up with a rule one of them built. */
  lemma {:induction false} TargetedTo(t: RuleTable, alerts: seq<Alert>, clock: nat -> int,
                                      ip: string, i: nat)
    requires i <= |alerts|
    requires exists j :: 0 <= j < i && Targets(alerts[j], ip)
    ensures ip in ApplyTo(t, alerts, clock, i).values
    ensures exists j :: 0 <= j < i && Targets(alerts[j], ip)
                        && ApplyTo(t, alerts, clock, i).values[ip]
                           == Synthesize(alerts[j], clock(j)).value
  {
    if !Targets(alerts[i - 1], ip) {
      TargetedTo(t, alerts, clock, ip, i - 1);
      var j :| 0 <= j < i - 1 && Targets(alerts[j], ip)
               && ApplyTo(t, alerts, clock, i - 1).values[ip] == Synthesize(alerts[j], clock(j)).value;
      assert ApplyTo(t, alerts, clock, i).values[ip] == ApplyTo(t, alerts, clock, i - 1).values[ip];
    }
  }

  /** Every key names the address its rule targets. */
  ghost predicate KeysMatch(t: RuleTable) {
    forall k :: k in t.values ==> t.values[k].targetIp == k
  }

  lemma {:induction false} ApplyToKeepsKeysMatch(t: RuleTable, alerts: seq<Alert>,
                                                 clock: nat -> int, i: nat)
    requires i <= |alerts| && KeysMatch(t)
    ensures KeysMatch(ApplyTo(t, alerts, clock, i))
  {
    if i > 0 {
      ApplyToKeepsKeysMatch(t, alerts, clock, i - 1);
    }
  }

  /** The whole engine keeps keys and target addresses in step. */
  lemma EngineKeepsKeysMatch(t: RuleTable, alerts: seq<Alert>, clock: nat -> int, now: int)
    requires t.Valid() && KeysMatch(t)
    ensures KeysMatch(EngineRules(t, alerts, clock, now))
  {
    ApplyToKeepsKeysMatch(t, alerts, clock, |alerts|);
    ApplyToValid(t, alerts, clock, |alerts|);
    SweepDeletesExactlyExpired(ApplyAll(t, alerts, clock), now);
  }

  // ---------------------------------------------------------------------------------
  // The sweep

  /** Visiting `ks[..j]` deletes exactly the keys there whose snapshot rule is expired,
      and touches no other entry. */
  lemma {:induction false} SweepToExact(t: RuleTable, ks: seq<string>, vals: map<string, Rule>,
                                        now: int, j: nat)
    requires j <= |ks|
    ensures forall k :: k in SweepTo(t, ks, vals, now, j).values
                        <==> k in t.values && !(k in ks[..j] && ExpiredIn(vals, k, now))
    ensures forall k :: k in SweepTo(t, ks, vals, now, j).values
                        ==> SweepTo(t, ks, vals, now, j).values[k] == t.values[k]
  {
    if j > 0 {
      SweepToExact(t, ks, vals, now, j - 1);
      assert ks[..j] == ks[..j - 1] + [ks[j - 1]];
    }
  }

  /** The expired keys of `ks[..j]` are exactly those whose snapshot rule is expired, each
      once when the snapshot keys are distinct. */
  lemma {:induction false} ExpiredToExact(ks: seq<string>, vals: map<string, Rule>, now: int,
                                          j: nat)
    requires j <= |ks|
    ensures forall k :: k in ExpiredTo(ks, vals, now, j) <==> k in ks[..j] && ExpiredIn(vals, k, now)
    ensures Distinct(ks) ==> Distinct(ExpiredTo(ks, vals, now, j))
  {
    if j > 0 {
      ExpiredToExact(ks, vals, now, j - 1);
      assert ks[..j] == ks[..j - 1] + [ks[j - 1]];
      var before := ExpiredTo(ks, vals, now, j - 1);
      if Distinct(ks) && ExpiredIn(vals, ks[j - 1], now) {
        assert ks[j - 1] !in ks[..j - 1] by {
          forall m | 0 <= m < j - 1 ensures ks[m] != ks[j - 1] { }
        }
        DistinctSnoc(before, ks[j - 1]);
      }
    }
  }

  /** The sweep keeps the table well formed. */
  lemma {:induction false} SweepToValid(t: RuleTable, ks: seq<string>, vals: map<string, Rule>,
                                        now: int, j: nat)
    requires j <= |ks| && t.Valid()
    ensures SweepTo(t, ks, vals, now, j).Valid()
  {
    if j > 0 {
      SweepToValid(t, ks, vals, now, j - 1);
    }
  }

  /** The key the sweep visits next is still in the table. */
  lemma UnvisitedPresent(t: RuleTable, now: int, j: nat)
    requires t.Valid() && j < |t.keys|
    ensures t.keys[j] in SweepTo(t, t.keys, t.values, now, j).values
  {
    SweepToExact(t, t.keys, t.values, now, j);
    assert t.keys[j] !in t.keys[..j] by {
      forall m | 0 <= m < j ensures t.keys[m] != t.keys[j] { }
    }
  }

  /** When the snapshot keys are distinct and all present, each deletion shrinks the key
      order by one. */
  lemma {:induction false} SweepToSize(t: RuleTable, ks: seq<string>, vals: map<string, Rule>,
                                       now: int, j: nat)
    requires j <= |ks| && Distinct(ks) && t.Valid()
    requires forall m :: 0 <= m < |ks| ==> ks[m] in t.values
    ensures |SweepTo(t, ks, vals, now, j).keys| + |ExpiredTo(ks, vals, now, j)| == |t.keys|
  {
    if j > 0 {
      SweepToSize(t, ks, vals, now, j - 1);
      SweepToExact(t, ks, vals, now, j - 1);
      SweepToValid(t, ks, vals, now, j - 1);
      assert ks[j - 1] !in ks[..j - 1] by {
        forall m | 0 <= m < j - 1 ensures ks[m] != ks[j - 1] { }
      }
    }
  }

  /** The sweep keeps exactly the rules not expired at `now`, unchanged, and reports each
      deleted key once; kept and reported keys add up to the keys there were. */
  lemma SweepDeletesExactlyExpired(t: RuleTable, now: int)
    requires t.Valid()
    ensures forall k :: k in Sweep(t, now).values <==> k in t.values && !IsExpired(t.values[k], now)
    ensures forall k :: k in Sweep(t, now).values ==> Sweep(t, now).values[k] == t.values[k]
    ensures forall k :: k in ExpiredKeys(t, now) <==> k in t.values && IsExpired(t.values[k], now)
    ensures Distinct(ExpiredKeys(t, now))
    ensures |ExpiredKeys(t, now)| + |Sweep(t, now).keys| == |t.keys|
    ensures Sweep(t, now).Valid()
  {
    assert t.keys[..|t.keys|] == t.keys;
    SweepToValid(t, t.keys, t.values, now, |t.keys|);
    SweepToExact(t, t.keys, t.values, now, |t.keys|);
    ExpiredToExact(t.keys, t.values, now, |t.keys|);
    SweepToSize(t, t.keys, t.values, now, |t.keys|);
  }

  lemma {:induction false} SweepToNoneExpired(t: RuleTable, ks: seq<string>,
                                              vals: map<string, Rule>, now: int, j: nat)
    requires j <= |ks|
    requires forall m :: 0 <= m < j ==> !ExpiredIn(vals, ks[m], now)
    ensures SweepTo(t, ks, vals, now, j) == t
    ensures ExpiredTo(ks, vals, now, j) == []
  {
    if j > 0 {
      SweepToNoneExpired(t, ks, vals, now, j - 1);
    }
  }

  /** After a sweep no rule is expired at `now`, so a second sweep at the same `now`
      deletes nothing and logs nothing. */
  lemma SweepIdempotent(t: RuleTable, now: int)
    requires t.Valid()
    ensures forall k :: k in Sweep(t, now).values ==> !IsExpired(Sweep(t, now).values[k], now)
    ensures ExpiredKeys(Sweep(t, now), now) == []
    ensures Sweep(Sweep(t, now), now) == Sweep(t, now)
  {
    var s := Sweep(t, now);
    SweepDeletesExactlyExpired(t, now);
    SweepToNoneExpired(s, s.keys, s.values, now, |s.keys|);
  }

  /** A rule the apply pass leaves in place that is not expired at `now` is what the
      call returns for its address. */
  lemma UnexpiredSurvives(t: RuleTable, alerts: seq<Alert>, clock: nat -> int, now: int,
                          ip: string)
    requires t.Valid() && ip in ApplyAll(t, alerts, clock).values
    requires !IsExpired(ApplyAll(t, alerts, clock).values[ip], now)
    ensures ip in EngineRules(t, alerts, clock, now).values
    ensures EngineRules(t, alerts, clock, now).values[ip] == ApplyAll(t, alerts, clock).values[ip]
  {
    ApplyToValid(t, alerts, clock, |alerts|);
    SweepDeletesExactlyExpired(ApplyAll(t, alerts, clock), now);
  }

  /** A rule installed in this call survives the call's own sweep, provided the call ends
      within 30 minutes (the shortest lifetime) of each clock reading it took. */
  lemma FreshRulesSurvive(t: RuleTable, alerts: seq<Alert>, clock: nat -> int, now: int,
                          ip: string)
    requires t.Valid()
    requires exists j :: 0 <= j < |alerts| && Targets(alerts[j], ip)
    requires forall j :: 0 <= j < |alerts| && Qualifies(alerts[j]) ==>
               now <= clock(j) + BlockExpireMin * MicrosPerMinute
    ensures ip in ApplyAll(t, alerts, clock).values
    ensures ip in EngineRules(t, alerts, clock, now).values
    ensures EngineRules(t, alerts, clock, now).values[ip] == ApplyAll(t, alerts, clock).values[ip]
  {
    TargetedTo(t, alerts, clock, ip, |alerts|);
    ApplyToValid(t, alerts, clock, |alerts|);
    var j :| 0 <= j < |alerts| && Targets(alerts[j], ip)
             && ApplyAll(t, alerts, clock).values[ip] == Synthesize(alerts[j], clock(j)).value;
    var r := ApplyAll(t, alerts, clock).values[ip];
    assert now <= clock(j) + BlockExpireMin * MicrosPerMinute;
    assert ExpireMinutes(r) >= BlockExpireMin;
    SweepDeletesExactlyExpired(ApplyAll(t, alerts, clock), now);
  }

  // ---------------------------------------------------------------------------------
  // The change list

  lemma QualifyingStep(alerts: seq<Alert>, i: nat)
    requires 0 < i <= |alerts|
    ensures |QualifyingTo(alerts, i)|
            == |QualifyingTo(alerts, i - 1)| + if Qualifies(alerts[i - 1]) then 1 else 0
  {
    var earlier := QualifyingTo(alerts, i - 1);
    if Qualifies(alerts[i - 1]) {
      assert QualifyingTo(alerts, i) == earlier + {i - 1};
    } else {
      assert QualifyingTo(alerts, i) == earlier;
    }
  }

  lemma {:induction false} LogToLength(alerts: seq<Alert>, clock: nat -> int, i: nat)
    requires i <= |alerts|
    ensures |LogTo(alerts, clock, i)| == |QualifyingTo(alerts, i)|
  {
    if i > 0 {
      LogToLength(alerts, clock, i - 1);
      QualifyingStep(alerts, i);
    }
  }

  /** The apply pass logs additions only, each tagged by its rule's action. */
  lemma {:induction false} LogToAdditions(alerts: seq<Alert>, clock: nat -> int, i: nat)
    requires i <= |alerts|
    ensures forall k :: 0 <= k < |LogTo(alerts, clock, i)| ==>
              var c := LogTo(alerts, clock, i)[k];
              !c.Expire? && (c.AddBlock? <==> c.rule.action == Block)
  {
    if i > 0 {
      LogToAdditions(alerts, clock, i - 1);
    }
  }

  /** The change list holds one entry per alert the engine acts on plus one per expired
      key; the apply entries come first, and everything after them is an expiry. */
  lemma ChangeCount(t: RuleTable, alerts: seq<Alert>, clock: nat -> int, now: int)
    ensures var changes := EngineChanges(t, alerts, clock, now);
            var qualifying := |QualifyingTo(alerts, |alerts|)|;
            |changes| == qualifying + |ExpiredKeys(ApplyAll(t, alerts, clock), now)|
            && forall i :: 0 <= i < |changes| ==> (changes[i].Expire? <==> i >= qualifying)
  {
    LogToLength(alerts, clock, |alerts|);
    LogToAdditions(alerts, clock, |alerts|);
  }

  lemma {:induction false} ReplayConcat(t: RuleTable, a: seq<Change>, b: seq<Change>)
    ensures Replay(t, a + b) == Replay(Replay(t, a), b)
    decreases |a|
  {
    if a == [] {
      assert a + b == b;
    } else {
      assert (a + b)[0] == a[0] && (a + b)[1..] == a[1..] + b;
      ReplayConcat(ReplayOne(t, a[0]), a[1..], b);
    }
  }

  lemma ReplayLogged(t: RuleTable, a: Alert, stamp: int)
    ensures Replay(t, Logged(a, stamp)) == Upsert(t, a, stamp)
  {
  }

  lemma {:induction false} ReplayLogTo(t: RuleTable, alerts: seq<Alert>, clock: nat -> int,
                                       i: nat)
    requires i <= |alerts|
    ensures Replay(t, LogTo(alerts, clock, i)) == ApplyTo(t, alerts, clock, i)
  {
    if i > 0 {
      var before := LogTo(alerts, clock, i - 1);
      var one := Logged(alerts[i - 1], clock(i - 1));
      var mid := ApplyTo(t, alerts, clock, i - 1);
      ReplayLogTo(t, alerts, clock, i - 1);
      assert Replay(t, before) == mid;
      ReplayConcat(t, before, one);
      ReplayLogged(mid, alerts[i - 1], clock(i - 1));
    }
  }

  /** Replaying the apply pass's log on the old table rebuilds the new one: an update to
      an address already in the table is logged exactly like a new one, and nothing the
      pass does to the table goes unlogged. */
  lemma ReplayApplyLog(t: RuleTable, alerts: seq<Alert>, clock: nat -> int)
    ensures Replay(t, ApplyLog(alerts, clock)) == ApplyAll(t, alerts, clock)
  {
    ReplayLogTo(t, alerts, clock, |alerts|);
  }

  lemma {:induction false} ReplayExpiries(t: RuleTable, ks: seq<string>, vals: map<string, Rule>,
                                          now: int, j: nat)
    requires j <= |ks|
    ensures Replay(t, Expiries(ExpiredTo(ks, vals, now, j))) == SweepTo(t, ks, vals, now, j)
  {
    if j > 0 {
      var before := ExpiredTo(ks, vals, now, j - 1);
      ReplayExpiries(t, ks, vals, now, j - 1);
      if ExpiredIn(vals, ks[j - 1], now) {
        ExpiriesSnoc(before, ks[j - 1]);
        ReplayConcat(t, Expiries(before), [Expire(ks[j - 1])]);
        assert [Expire(ks[j - 1])][1..] == [];
      } else {
        assert ExpiredTo(ks, vals, now, j) == before;
      }
    }
  }

  /** The change list is a complete audit: replaying it on the table the engine was given
      yields the table it returns. */
  lemma ReplayEngineChanges(t: RuleTable, alerts: seq<Alert>, clock: nat -> int, now: int)
    ensures Replay(t, EngineChanges(t, alerts, clock, now)) == EngineRules(t, alerts, clock, now)
  {
    var a := ApplyAll(t, alerts, clock);
    ReplayConcat(t, ApplyLog(alerts, clock), Expiries(ExpiredKeys(a, now)));
    ReplayApplyLog(t, alerts, clock);
    ReplayExpiries(a, a.keys, a.values, now, |a.keys|);
  }
}
