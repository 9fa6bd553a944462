/** One rate-threshold match: post once and record once, whatever happens. */
module RateDispatch {
  import opened Options
  import opened Redaction
  import opened AlertDispatch
  import RateAlerts

  datatype RateRow = RateRow(subscription: int, matchCount: int, delivered: bool, lastError: Option<string>, at: int)

  const I32_MAX: nat := 0x7FFF_FFFF

  /** `as i32`: the low 32 bits, read as a signed number. */
  function AsI32(n: int): int {
    var low := n % 0x1_0000_0000;
    if low > I32_MAX then low - 0x1_0000_0000 else low
  }

  class RateLedger {
    var rows: seq<RateRow>

    constructor ()
      ensures rows == []
    {
      rows := [];
    }

    method RecordRateAlertDispatch(
        subscription: int, matchCount: int, delivered: bool, lastError: Option<string>, now: int)
      modifies this
      ensures rows == old(rows) + [RateRow(subscription, matchCount, delivered, lastError, now)]
    {
      rows := rows + [RateRow(subscription, matchCount, delivered, lastError, now)];
    }

    /** Check the URL, decode the secret, post, record: there is no claim, so nothing is ever skipped. */
    method DispatchRateItem(subscription: int, matchCount: int, env: Environment) returns (outcome: Outcome)
      modifies this
      ensures outcome == Verdict(env).0
      ensures rows == old(rows) + [RateRow(subscription, AsI32(matchCount), outcome.DeliveredOk?, Verdict(env).1,
          env.recordAt)]
    {
      if env.unsafeReason.Some? {
        RecordRateAlertDispatch(subscription, AsI32(matchCount), false, Some(UNSAFE_URL + env.unsafeReason.value),
            env.recordAt);
        return UnsafeUrl;
      }
      if !env.secretIsHex {
        RecordRateAlertDispatch(subscription, AsI32(matchCount), false, Some(CORRUPT_SECRET), env.recordAt);
        return DeliveryFailed;
      }
      match env.postError
      case None =>
        RecordRateAlertDispatch(subscription, AsI32(matchCount), true, None, env.recordAt);
        outcome := DeliveredOk;
      case Some(e) =>
        var redacted := RedactUrls(e);
        RecordRateAlertDispatch(subscription, AsI32(matchCount), false, Some(Truncate(redacted, ERROR_MESSAGE_CAP)),
            env.recordAt);
        outcome := DeliveryFailed;
    }
  }

  /** The subscription's records, as the debounce sees them; the table does not say who wrote them. */
  function DispatchesOf(rows: seq<RateRow>, subscription: int): seq<RateAlerts.Dispatch> {
    if rows == [] then []
    else
      var n := |rows| - 1;
      var before := DispatchesOf(rows[..n], subscription);
      if rows[n].subscription == subscription then before + [RateAlerts.Dispatch(0, rows[n].at)] else before
  }

  /**
   * One more row silences its own subscription until `debounce` seconds after it, delivered or
   * not, and leaves every other subscription's scan as it was.
   */
  lemma RecordDebounces(
      rows: seq<RateRow>, row: RateRow, sub: RateAlerts.RateSubscription, active: bool, failures: seq<int>, now: int)
    ensures var before := RateAlerts.PendingRate(sub, active, failures, DispatchesOf(rows, row.subscription), now);
            RateAlerts.PendingRate(sub, active, failures, DispatchesOf(rows + [row], row.subscription), now)
              == if now < row.at + sub.debounceSecs then None else before
    ensures forall other :: other != row.subscription ==> DispatchesOf(rows + [row], other) == DispatchesOf(rows, other)
  {
    assert (rows + [row])[..|rows|] == rows;
    var ds, d := DispatchesOf(rows, row.subscription), RateAlerts.Dispatch(0, row.at);
    assert DispatchesOf(rows + [row], row.subscription) == ds + [d];
    DebouncedByOneMore(ds, d, now, sub.debounceSecs);
  }

  lemma DebouncedByOneMore(ds: seq<RateAlerts.Dispatch>, d: RateAlerts.Dispatch, now: int, debounce: nat)
    ensures RateAlerts.Debounced(ds + [d], now, debounce)
        <==> RateAlerts.Debounced(ds, now, debounce) || d.at > now - debounce
  {
    var more := ds + [d];
    assert more[|ds|] == d;
    assert forall i :: 0 <= i < |ds| ==> more[i] == ds[i];
  }

  /** The stored match count is the counted one exactly below 2^31; above, it wraps around. */
  lemma StoredCountIsExactIff(n: nat)
    ensures AsI32(n) == n <==> n <= I32_MAX
    ensures -0x8000_0000 <= AsI32(n) <= I32_MAX && (n - AsI32(n)) % 0x1_0000_0000 == 0
  {
  }
}
