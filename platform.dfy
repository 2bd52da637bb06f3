/**
 * The platform's poll and backoff controller and its stove actions.
 *
 * Each poll takes the snapshot `readStatus` delivered, or nothing when it returned null or
 * threw. Each client action takes the boolean the client answered. Timers are fields naming
 * the delay they were armed with; they never fire by themselves here.
 */
module Platform {
  import opened Wrappers
  import opened Status
  import Protocol

  /** Delays, in seconds, of the extra retry after the first, second, third and later failures. */
  const BackoffSteps: seq<nat> := [5, 10, 30, 60]
  /** The `stato` of a blocked stove. */
  const Blocked: int := 9

  function Min(a: int, b: int): int {
    if a < b then a else b
  }

  /** The delay armed after the `failures`-th consecutive failure. */
  function BackoffDelay(failures: nat): (r: nat)
    requires failures >= 1
    ensures failures <= |BackoffSteps| ==> r == BackoffSteps[failures - 1]
    ensures failures >= |BackoffSteps| ==> r == 60
  {
    BackoffSteps[Min(failures - 1, |BackoffSteps| - 1)]
  }

  /** More failures never shorten the delay. */
  lemma BackoffMonotone(n: nat, m: nat)
    requires 1 <= n <= m
    ensures 5 <= BackoffDelay(n) <= BackoffDelay(m) <= 60
  {
  }

  // ---------------------------------------------------------------- the controller as a value

  /** The fields poll and handlePollFailure change. `backoffTimer` is the pending extra retry. */
  datatype Control = Control(deviceState: Option<DeviceState>, consecutiveFailures: nat, backoffTimer: Option<nat>)

  /** handlePollFailure: one more failure and a backoff timer armed in place of any pending one. */
  function AfterFailure(c: Control): (r: Control)
    ensures r.consecutiveFailures == c.consecutiveFailures + 1 && r.deviceState == c.deviceState
    ensures r.backoffTimer == Some(BackoffDelay(r.consecutiveFailures))
    ensures r.backoffTimer.Some? && 5 <= r.backoffTimer.value <= 60
  {
    var failures := c.consecutiveFailures + 1;
    BackoffMonotone(failures, failures);
    Control(c.deviceState, failures, Some(BackoffDelay(failures)))
  }

  /** poll: a snapshot replaces the state wholesale and clears the failure count; no snapshot is a failure. */
  function AfterPoll(c: Control, result: Option<DeviceState>): (r: Control)
    ensures result.Some? ==> r.deviceState == result && r.consecutiveFailures == 0
    ensures result.Some? ==> r.backoffTimer == c.backoffTimer
    ensures result.None? ==> r == AfterFailure(c)
  {
    if result.Some? then c.(deviceState := result, consecutiveFailures := 0) else AfterFailure(c)
  }

  /** A run of polls. */
  function AfterPolls(c: Control, results: seq<Option<DeviceState>>): Control
    decreases |results|
  {
    if |results| == 0 then c else AfterPoll(AfterPolls(c, results[..|results| - 1]), results[|results| - 1])
  }

  /**
   * After a run of polls the failure count is the number of failures since the last success,
   * the state is that success's snapshot, and a failure since then has armed the delay for
   * that count.
   */
  lemma {:induction false} LastSuccessCounts(c: Control, results: seq<Option<DeviceState>>, j: nat)
    requires j < |results| && results[j].Some?
    requires forall k :: j < k < |results| ==> results[k].None?
    ensures var r := AfterPolls(c, results);
      r.consecutiveFailures == |results| - 1 - j && r.deviceState == results[j]
      && (j < |results| - 1 ==> r.backoffTimer == Some(BackoffDelay(|results| - 1 - j)))
    decreases |results|
  {
    var n := |results| - 1;
    if j < n {
      forall k | j < k < n
        ensures results[..n][k].None?
      {
        assert results[..n][k] == results[k];
      }
      assert results[..n][j] == results[j];
      LastSuccessCounts(c, results[..n], j);
      assert results[n].None?;
    }
  }

  /** Without a success, each poll adds one failure and the state stays as it was. */
  lemma {:induction false} OnlyFailures(c: Control, results: seq<Option<DeviceState>>)
    requires forall k :: 0 <= k < |results| ==> results[k].None?
    ensures var r := AfterPolls(c, results);
      r.consecutiveFailures == c.consecutiveFailures + |results| && r.deviceState == c.deviceState
      && (|results| > 0 ==> r.backoffTimer == Some(BackoffDelay(r.consecutiveFailures)))
    decreases |results|
  {
    if |results| > 0 {
      var n := |results| - 1;
      forall k | 0 <= k < n
        ensures results[..n][k].None?
      {
        assert results[..n][k] == results[k];
      }
      OnlyFailures(c, results[..n]);
    }
  }

  /** Whether the snapshot shows a blocked stove; no snapshot is not blocked. */
  predicate IsBlocked(c: Control)
    ensures IsBlocked(c) <==> c.deviceState.Some? && c.deviceState.value.stato == 9
  {
    c.deviceState.Some? && c.deviceState.value.stato == Blocked
  }

  /**
   * The blocked test as turnOn writes it: the state table has no BLOCK entry, so the
   * comparison is with `undefined`, which a number never equals; only a missing snapshot
   * passes it.
   */
  predicate IsBlockedAsWritten(c: Control)
    ensures IsBlockedAsWritten(c) <==> forall st :: c.deviceState != Some(st)
  {
    c.deviceState.None?
  }

  /**
   * The two tests never agree on a blocked stove: a stove in state 9 is not blocked as
   * written, and a platform without a snapshot is. On any other snapshot both say no.
   */
  lemma BlockCheckAsWritten(c: Control)
    ensures IsBlockedAsWritten(c) ==> !IsBlocked(c)
    ensures c.deviceState.Some? && c.deviceState.value.stato == Blocked ==> IsBlocked(c) && !IsBlockedAsWritten(c)
    ensures c.deviceState.None? ==> IsBlockedAsWritten(c) && !IsBlocked(c)
    ensures c.deviceState.Some? && c.deviceState.value.stato != Blocked ==> !IsBlocked(c) && !IsBlockedAsWritten(c)
  {
  }

  // ---------------------------------------------------------------- the platform object

  class FourHeatPlatform {
    var deviceState: Option<DeviceState>
    var consecutiveFailures: nat
    /** The pending backoff retry, by its delay in seconds. */
    var backoffTimer: Option<nat>
    /** The regular polling interval, in seconds, once armed. */
    var pollingTimer: Option<nat>
    /** How many polls have run. */
    var polls: nat

    function Snapshot(): Control
      reads this
    {
      Control(deviceState, consecutiveFailures, backoffTimer)
    }

    constructor()
      ensures Snapshot() == Control(None, 0, None) && pollingTimer == None && polls == 0
    {
      deviceState := None;
      consecutiveFailures := 0;
      backoffTimer := None;
      pollingTimer := None;
      polls := 0;
    }

    /** handlePollFailure: counts the failure and re-arms the single backoff timer. */
    method HandlePollFailure()
      modifies this
      ensures Snapshot() == AfterFailure(old(Snapshot()))
      ensures consecutiveFailures == old(consecutiveFailures) + 1
      ensures backoffTimer == Some(BackoffDelay(consecutiveFailures))
      ensures pollingTimer == old(pollingTimer) && polls == old(polls)
    {
      consecutiveFailures := consecutiveFailures + 1;
      var backoffIndex := Min(consecutiveFailures - 1, |BackoffSteps| - 1);
      var backoffSeconds := BackoffSteps[backoffIndex];
      // clearTimeout on the pending timer, then a new one
      backoffTimer := None;
      backoffTimer := Some(backoffSeconds);
    }

    /** poll, given what readStatus delivered (None for null or an exception). */
    method Poll(result: Option<DeviceState>)
      modifies this
      ensures Snapshot() == AfterPoll(old(Snapshot()), result)
      ensures pollingTimer == old(pollingTimer) && polls == old(polls) + 1
    {
      polls := polls + 1;
      if result.Some? {
        consecutiveFailures := 0;
        deviceState := result;
      } else {
        HandlePollFailure();
      }
    }

    /**
     * writeParameter: without a snapshot holding the parameter, false and nothing sent;
     * otherwise the write command for that parameter's record, and a refresh poll iff the
     * client reported success.
     */
    method WriteParameter(paramId: int, value: int, clientOk: bool, refresh: Option<DeviceState>)
      returns (success: bool, sent: Option<string>)
      modifies this
      ensures var ds := old(deviceState);
        !(ds.Some? && paramId in ds.value.parameters) ==>
          !success && sent.None? && Snapshot() == old(Snapshot()) && polls == old(polls)
      ensures var ds := old(deviceState);
        ds.Some? && paramId in ds.value.parameters ==>
          sent == Some(Protocol.Build2WCCommand(ds.value.parameters[paramId].originalHex, value))
          && success == clientOk
          && Snapshot() == (if success then AfterPoll(old(Snapshot()), refresh) else old(Snapshot()))
          && polls == old(polls) + (if success then 1 else 0)
      ensures pollingTimer == old(pollingTimer)
    {
      if deviceState.None? || paramId !in deviceState.value.parameters {
        return false, None;
      }
      var param := deviceState.value.parameters[paramId];
      sent := Some(Protocol.Build2WCCommand(param.originalHex, value));
      success := clientOk;
      if success {
        Poll(refresh);
      }
    }

    /**
     * turnOn: a blocked stove is first reset and polled (`afterReset` is that poll's result);
     * if it is still blocked, false without the on command. Otherwise the on command, and a
     * refresh poll iff it succeeded. The reset's own outcome is not consulted.
     */
    method TurnOn(afterReset: Option<DeviceState>, clientOk: bool, refresh: Option<DeviceState>)
      returns (success: bool, sentReset: bool, sentOn: bool)
      modifies this
      ensures sentReset <==> IsBlocked(old(Snapshot()))
      ensures var mid := if sentReset then AfterPoll(old(Snapshot()), afterReset) else old(Snapshot());
        (sentOn <==> !IsBlocked(mid))
        && (!sentOn ==> !success && Snapshot() == mid)
        && (sentOn ==> success == clientOk
                       && Snapshot() == (if success then AfterPoll(mid, refresh) else mid))
      ensures polls == old(polls) + (if sentReset then 1 else 0) + (if success then 1 else 0)
      ensures pollingTimer == old(pollingTimer)
    {
      sentReset := false;
      sentOn := false;
      if deviceState.Some? && deviceState.value.stato == Blocked {
        sentReset := true;
        Poll(afterReset);
        if deviceState.Some? && deviceState.value.stato == Blocked {
          return false, sentReset, sentOn;
        }
      }
      sentOn := true;
      success := clientOk;
      if success {
        Poll(refresh);
      }
    }

    /** turnOff: the client's answer, with a refresh poll iff it succeeded. */
    method TurnOff(clientOk: bool, refresh: Option<DeviceState>) returns (success: bool)
      modifies this
      ensures success == clientOk
      ensures Snapshot() == (if success then AfterPoll(old(Snapshot()), refresh) else old(Snapshot()))
      ensures polls == old(polls) + (if success then 1 else 0) && pollingTimer == old(pollingTimer)
    {
      success := clientOk;
      if success {
        Poll(refresh);
      }
    }

    /** resetError: the client's answer, with a refresh poll iff it succeeded. */
    method ResetError(clientOk: bool, refresh: Option<DeviceState>) returns (success: bool)
      modifies this
      ensures success == clientOk
      ensures Snapshot() == (if success then AfterPoll(old(Snapshot()), refresh) else old(Snapshot()))
      ensures polls == old(polls) + (if success then 1 else 0) && pollingTimer == old(pollingTimer)
    {
      success := clientOk;
      if success {
        Poll(refresh);
      }
    }
  }
}
