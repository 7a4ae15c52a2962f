/** What one (element, contributor) key of the coalescer does, on values. */
module CoalescerSteps {
  import opened Wrappers
  import opened Model
  import opened LifecyclePolicy

  /** The five cells of a key that has seen something; a forgotten key has none. */
  datatype Tracking = Tracking(latest: Contribution, lastForwarded: int, lastSeen: int, pending: bool, timer: int)

  function Older(s: Option<Tracking>, c: Contribution): bool {
    s.Some? && c.observedAt < s.value.latest.observedAt
  }

  /** Whether an accepted report goes out at once: it is new, it changed, or its refresh is due. */
  predicate Forwards(interval: int, s: Option<Tracking>, c: Contribution, now: int) {
    s.None? || c.element != s.value.latest.element || now >= s.value.lastForwarded + interval
  }

  function Forwarded(c: Contribution, now: int, ttl: int): Tracking {
    Tracking(c, now, now, false, now + ttl * MILLIS_PER_SECOND)
  }

  /** None when an edge endpoint has no type, which is an exception in the source. */
  function Receive(policy: Policy, interval: int, s: Option<Tracking>, c: Contribution, now: int):
    Option<(Option<Tracking>, Option<Contribution>)>
  {
    if Older(s, c) then Some((s, None))
    else if Forwards(interval, s, c, now) then
      match policy.TtlSeconds(c.element)
      case None => None
      case Some(ttl) => Some((Some(Forwarded(c, now, ttl)), Some(c)))
    else
      Some((Some(Tracking(c, s.value.lastForwarded, now, true, s.value.lastForwarded + interval)), None))
  }

  /** A timer callback either delivers the pending refresh or forgets the key. */
  function Fire(policy: Policy, s: Option<Tracking>, timestamp: int): (Option<Tracking>, Option<Contribution>)
    requires s.Some? ==> policy.TtlSeconds(s.value.latest.element).Some?
  {
    if s.None? || s.value.timer != timestamp then (s, None)
    else
      var deadline := s.value.lastSeen + policy.TtlSeconds(s.value.latest.element).value * MILLIS_PER_SECOND;
      if s.value.pending then
        (Some(s.value.(lastForwarded := timestamp, pending := false, timer := deadline)), Some(s.value.latest))
      else if timestamp >= deadline then (None, None)
      else (Some(s.value.(timer := deadline)), None)
  }
}
