# Adaptive firewall dashboard: rules engine, threshold detector and session state

This project models the logic at the centre of the adaptive cloud firewall demo
dashboard (`app.py`). The model covers four parts:

- **The adaptive rules engine** (`adaptive_rules_engine`). It keeps a dictionary from
  source address to the single active rule for that address. One call makes two passes.
  - The apply pass: every alert that names a non-empty source address installs a rule for
    it. A "high" alert installs a 30-minute block. A "medium" alert installs a 60-minute
    rate limit of 50 requests per second. The new rule overwrites the address's old one.
  - The sweep: walking a snapshot of the dictionary's items, it deletes every rule whose
    `applied_at + expire_min` lies before `now`. A rule without `expire_min` counts as 60
    minutes.
  - Every change is appended to one change list: first the apply changes in alert order,
    then the expiries in snapshot order.
- **The threshold detector** (`detect_anomalies_threshold`). Its output comes in two parts:
  - one "high" alert per flow row whose `packets * bytes` exceeds the threshold;
  - then one "medium" alert per source address seen in more than 8 rows.
- **The session state**: the rules table, the change history and the alerts shown.
- **One press of "Run Simulation"**: the detector's alerts replace the shown alerts, and the
  engine updates the rules. The run's change list becomes a new history entry, but only
  when it is non-empty.

Modelling choices:

- **Dictionary.** The rules dictionary is a `Dict`: a map plus the key insertion order. The
  order matters because the sweep walks `list(rules.items())`, and that walk fixes the order
  of the expiry entries.
- **Time.** Time is an integer number of microseconds, the resolution of Python's
  `datetime`. The engine's clock readings are parameters:
  - `clock(i)` is the `applied_at` stamp taken while alert `i` is handled;
  - `now` is the reading the sweep uses;
  - `stamp` is the history entry's time;
  - the detector's `clock(k)` stamps the k-th repeated-connection alert.
- **Imperative code stays imperative.** The engine's two loops and the detector's loops are
  methods with loop invariants. Each is proved equal to a specification function. The
  properties are then lemmas about those functions. The session state is a class whose
  `RunSimulation` method updates its fields.

Behaviour of the code that one might expect to be otherwise, and that the model states as
the code has it:

- One might expect an error for an unknown severity. The code has no `else` branch: an
  alert with a severity other than "high" or "medium" is skipped silently
  (`OtherSeverityIgnored`).
- One might expect a replacement to be logged differently from an addition. It is not: a
  replaced rule is logged as `add_block` or `add_rate_limit`, exactly like a new one.
- One might expect a block installed at T to be gone after a sweep at T+31m even when a
  rate limit replaced it at T+5m. The table then holds the rate limit, which lives until
  T+65m, so the sweep at T+31m leaves it; only a later sweep deletes it
  (`ReplacedRuleOutlivesBlock`).
- One might expect applying before sweeping to keep every new rule alive for at least one
  run. A rule installed during a call is deleted by that call's own sweep when `now` falls
  more than its lifetime after the rule's stamp. `FreshRulesSurvive` therefore requires
  `now` to be within 30 minutes of every stamp the call took.
- One might expect deletion of an absent rule to be a no-op. `del rules[ip]` would raise on
  a missing key; the sweep only deletes keys of a snapshot of the table itself, so that
  never happens, and `Dict.Remove` demands it.
- The history is a plain list that runs append to. No "most recent entries" query exists.

## Model

| member | source | states |
|---|---|---|
| Dicts.Dict.Set | app.py:136 | `rules[ip] = rule`: the map is updated at `ip`. A present key keeps its place and a new key goes last. The table stays well formed and grows by one exactly when the key is new |
| Dicts.Dict.Remove | app.py:151 | `del rules[ip]`: the key leaves the map, the new key order is the old one with that key dropped (`Without`), every other key stays, and the table shrinks by one |
| Dicts.Without | app.py:151 | dropping a key from the key order keeps every other key, keeps them distinct, and shortens the order by one when the key was there |
| Dicts.WithoutKeepsOrder | app.py:151 | dropping a key that sits at position `i` of a duplicate-free order leaves exactly the keys before `i` followed by the keys after it, in their old relative order |
| Dicts.Empty | app.py:175 | `{}` is a well-formed empty table |
| RulesEngine.Synthesize | app.py:130-142 | a rule is built exactly when the alert has a non-empty source and severity "high" or "medium". It targets the source, has the alert's type as reason and the clock reading as `applied_at`. A high alert gives a block with `expire_min` 30; a medium alert gives a rate limit with `rps` 50 and `expire_min` 60 |
| RulesEngine.AdaptiveRulesEngine | app.py:127-153 | returns the table and change list of the apply pass followed by the sweep, and the returned table is well formed |
| RulesEngine.ApplyAlerts | app.py:128-142 | the loop over the alerts yields the apply pass's table and its change list, in alert order |
| RulesEngine.SweepExpired | app.py:144-152 | the loop over the snapshot yields the swept table, and appends one expiry per deleted key, in snapshot order |
| RulesEngine.UnattributedAlertIgnored | app.py:130-132 | an alert whose source is missing or empty leaves the table as it is and logs nothing |
| RulesEngine.HighAlertBlocks | app.py:133-137 | a high alert for `ip` sets `rules[ip]` to a 30-minute block stamped with its clock reading, and logs one `add_block` with that rule |
| RulesEngine.MediumAlertRateLimits | app.py:138-142 | a medium alert for `ip` sets `rules[ip]` to a 60-minute, 50 rps rate limit and logs one `add_rate_limit` with that rule |
| RulesEngine.OtherSeverityIgnored | app.py:133-142 | an alert of any other severity changes neither the table nor the log |
| RulesEngine.ApplyToValid | app.py:129-142 | the apply pass keeps the table well formed: one entry per key, each key once in the order |
| RulesEngine.UntargetedUnchanged | app.py:129-142 | an address that no qualifying alert names keeps its rule, or stays absent |
| RulesEngine.LastWriteWins | app.py:129-142 | after the apply pass, an address maps to the rule built from the last qualifying alert that names it |
| RulesEngine.TargetedTo | app.py:129-142 | an address named by some qualifying alert ends up with a rule built from one of those alerts |
| RulesEngine.EngineKeepsKeysMatch | app.py:127-153 | if every key equals its rule's `target_ip` before a call, the same holds after it |
| RulesEngine.ExpireMinutes | app.py:148 | a rule's lifetime is its `expire_min` when present and 60 minutes otherwise |
| RulesEngine.ExpiryIsStrict | app.py:149 | the comparison is strict: a rule is still live at exactly `applied_at + expire_min` and expired one microsecond later, and once expired it stays expired at every later `now` |
| RulesEngine.SweepDeletesExactlyExpired | app.py:144-152 | the sweep keeps exactly the rules with `now <= applied_at + expire_min` (60 when absent), unchanged. The deleted keys are exactly the expired ones, each once, and kept plus deleted equals the original size |
| RulesEngine.SweepIdempotent | app.py:144-152 | after a sweep no rule is expired at `now`, and a second sweep at the same `now` deletes and logs nothing |
| RulesEngine.UnexpiredSurvives | app.py:144-153 | a rule present after the apply pass and not expired at `now` is the rule the call returns for its address |
| RulesEngine.FreshRulesSurvive | app.py:129-152 | a rule installed in a call survives that call's sweep unchanged, when `now` is within 30 minutes of each stamp taken for an alert the engine acts on |
| RulesEngine.ChangeCount | app.py:128-152 | the change list's length is the number of qualifying alerts plus the number of expired keys. Its first entries are the additions and every later entry is an expiry |
| RulesEngine.ReplayApplyLog | app.py:129-142 | replaying the apply changes on the old table rebuilds the new one, so a replacement is logged exactly like an addition |
| RulesEngine.ReplayEngineChanges | app.py:127-153 | every mutation is logged: replaying the change list on the given table yields the returned table |
| ThresholdDetector.DetectThreshold | app.py:65-91 | the two loops return the spike alerts in row order, followed by the repeated-connection alerts in count order |
| ThresholdDetector.ValueCounts | app.py:80 | counts every occurring source address by its number of rows, and holds no other address |
| ThresholdDetector.SpikeAlert | app.py:70-78 | a spike row's alert is "high", of type "Large Flow Spike", and carries the row's time, source, port, packets and bytes, with no "requests" |
| ThresholdDetector.RepeatAlert | app.py:83-90 | a frequent source's alert is "medium", of type "Repeated Connections (possible brute force)", stamped by the clock, with the count as "requests" and no port, packets or bytes |
| ThresholdDetector.SpikesExact | app.py:67-78 | the high alerts are exactly the "Large Flow Spike" alerts of the rows with `packets * bytes > threshold`: one per such row, in row order, since the alert of spike row `m` sits at the position given by the number of spike rows before `m` |
| ThresholdDetector.RepeatsExact | app.py:80-90 | a medium alert exists for an address exactly when it occurs in more than 8 rows. Each carries its count as `requests`, and no address is reported twice |
| ThresholdDetector.RepeatsByCount | app.py:80-90 | the `requests` counts of the repeated-connection alerts never increase along the list |
| ThresholdDetector.HighBeforeMedium | app.py:65-91 | an alert is "high" exactly when it lies among the first `|spikes|` positions, so every high alert precedes every medium one |
| Session.Recorded | app.py:194-195 | an empty change list leaves the history as it is. Otherwise exactly one entry with that list and the stamp is appended, and earlier entries are untouched |
| Session.Dashboard.constructor | app.py:173-179 | the session starts with no rules, no history and no alerts, in a valid state |
| Session.Dashboard.RunSimulation | app.py:191-195 | stores the alerts, sets the rules to the engine's result, and records its change list. It keeps the rules well formed with keys matching targets, no empty entries in the history, and the history replaying to the current rules |
| Session.RepeatAlertIsLast | app.py:65-91 | for a source seen in more than 8 rows, the last alert naming it is its "medium" repeated-connection alert |
| Session.SpikeAlertsOnly | app.py:65-91 | for a source seen in at most 8 rows, one of them a spike, some alert names it and every alert naming it is "high" |
| Session.RepeatedSourceEndsRateLimited | app.py:187-193 | with the threshold detector, a source seen in more than 8 rows is rate limited (50 rps, 60 minutes) in the table the run stores, after the sweep, even if some of its rows were spikes, when `now` is within 60 minutes of the stamps of its alerts |
| Session.SpikySourceEndsBlocked | app.py:187-193 | a source seen in at most 8 rows, one of them a spike, is blocked for 30 minutes in the table the run stores, after the sweep, when `now` is within 30 minutes of the stamps of its alerts |
| Session.ReplacedRuleOutlivesBlock | app.py:133-152 | after a block at T is replaced by a rate limit at T+5m, the rate limit survives a sweep at T+31m; a sweep at T+66m deletes it and logs one expiry |

## Left out

- The Streamlit UI, widgets, charts and tables are presentation code. The `last_df` frame
  kept in the session is not modelled either.
- `simulate_netflow` and `gen_ip` are left out: they draw random numbers (Poisson, normal and
  exponential samples). The detector instead takes the frame as a sequence of rows.
- `detect_anomalies_iforest` is a call into scikit-learn's IsolationForest and is left out.
  `RunSimulation` accepts the alerts of either detector as a parameter.
- The "Apply to Cloud" mock only records a status string, and the CSV and JSON exports are
  I/O. All three are left out.
- `datetime.utcnow()` calls become parameters, and the ISO-8601 strings become integer
  microsecond timestamps. Formatting and parsing those strings is not modelled.
- The `flow_size` column the detector adds to the caller's frame is not modelled. Only its
  values, `FlowSize`, are.
- The engine's `expired` list is never read after the loop, so it is not modelled.
- ThresholdDetector.DetectThreshold: pandas fixes the order `value_counts()` lists sources
  in. The model takes that order as a parameter and assumes only that it lists each occurring
  source once, with counts non-increasing. The order among equal counts is therefore not
  pinned down.
- The detector's default `packet_threshold=2000` is not modelled: the threshold is always
  a parameter, as at the only call site (`app.py:188`), which passes the sidebar's value.
- ThresholdDetector.FlowSize: pandas multiplies `packets * bytes` in 64-bit integers. The
  model multiplies unbounded integers, so it does not model wrap-around. The simulated
  frames stay far below the 64-bit range.
- A missing "severity" or "type" key in an alert would raise KeyError. The model's alerts
  always carry both, as both detectors build them.
- Python passes `rules` by reference and mutates it in place. The model's engine returns the
  new table as a value, and the caller stores it back, as `app.py:193` does. Aliasing of the
  dictionary is not modelled.
