/** The records the dashboard passes around as dictionaries: flow rows, alerts, rules and
    the entries of the change list. Timestamps are integers counted in microseconds, the
    resolution of Python's `datetime`; `timedelta(minutes = m)` is `m * MicrosPerMinute`. */
module Model {

  datatype Option<+T> = None | Some(value: T) {
    /** `dict.get(key, default)` */
    function GetOr(default: T): T {
      match this
      case Some(v) => v
      case None => default
    }
  }

  const MicrosPerMinute: int := 60_000_000

  /** An alert as the detectors build it. The engine reads only `srcIp`, `severity` and
      `kind` (the dictionary's "type" key); the other keys are carried for the alert table.
      Severity stays a string because the engine compares it against "high" and "medium"
      and ignores every other value. `srcIp` is `None` when the key is missing. */
  datatype Alert = Alert(
    time: int,
    kind: string,
    srcIp: Option<string>,
    severity: string,
    dstPort: Option<int>,
    packets: Option<int>,
    bytes: Option<int>,
    requests: Option<int>)

  datatype Action = Block | RateLimit

  /** The rule's "params" dictionary: "rps" and "expire_min", either of which may be absent. */
  datatype Params = Params(rps: Option<int>, expireMin: Option<int>)

  /** A rule as stored in the rules table, keyed by its target address. */
  datatype Rule = Rule(action: Action, targetIp: string, params: Params, reason: string, appliedAt: int)

  /** One entry of the change list: ("add_block", rule), ("add_rate_limit", rule) or
      ("expire", {"target_ip": ip}). */
  datatype Change = AddBlock(rule: Rule) | AddRateLimit(rule: Rule) | Expire(targetIp: string)
}
