/** The bounded retry of `getProvider`: up to three liveness probes of the
    RPC endpoint, retrying only while the endpoint reports itself busy. */
module RpcRetry {

  datatype Option<T> = None | Some(value: T)

  /** An error thrown by a probe: its `code` and, when it wraps a JSON-RPC
      error object carrying a code, that inner code. */
  datatype RpcError = RpcError(code: string, inner: Option<int>)

  /** What one `getBlockNumber` probe does. */
  datatype Probe = Reached | Threw(error: RpcError)

  /** How `getProvider` ends: the provider returned after the probe with
      0-based index `attempt` succeeded, a non-busy error rethrown, or the
      terminal error 'All RPC retries failed'. */
  datatype Outcome = Connected(attempt: nat) | Rethrown(error: RpcError) | Exhausted

  const MaxAttempts: nat := 3
  const BusyPauseMs: nat := 2000

  /** The busy signal: code 'UNKNOWN_ERROR' wrapping a JSON-RPC error -32603. */
  predicate IsBusy(e: RpcError) {
    e.code == "UNKNOWN_ERROR" && e.inner == Some(-32603)
  }

  predicate BusyProbe(p: Probe) {
    p.Threw? && IsBusy(p.error)
  }

  /** `probe(k)` is the result of the k-th probe (0-based). Returns the
      outcome, the number of probes made and the number of 2-second pauses
      taken (one per busy probe, each logged as a retry line). */
  method GetProvider(probe: nat -> Probe) returns (r: Outcome, attempts: nat, pauses: nat)
    ensures 1 <= attempts <= MaxAttempts
    ensures forall j :: 0 <= j < attempts - 1 ==> BusyProbe(probe(j))
    ensures r.Connected? <==> probe(attempts - 1).Reached?
    ensures r.Connected? ==> r.attempt == attempts - 1 && pauses == attempts - 1
    ensures r.Rethrown? <==> probe(attempts - 1).Threw? && !IsBusy(probe(attempts - 1).error)
    ensures r.Rethrown? ==> r.error == probe(attempts - 1).error && pauses == attempts - 1
    ensures r.Exhausted? <==> forall j :: 0 <= j < MaxAttempts ==> BusyProbe(probe(j))
    ensures r.Exhausted? ==> attempts == MaxAttempts && pauses == MaxAttempts
  {
    attempts, pauses := 0, 0;
    for i := 0 to MaxAttempts
      invariant attempts == i && pauses == i
      invariant forall j :: 0 <= j < i ==> BusyProbe(probe(j))
    {
      attempts := attempts + 1;
      match probe(i)
      case Reached =>
        return Connected(i), attempts, pauses;
      case Threw(e) =>
        if !IsBusy(e) {
          return Rethrown(e), attempts, pauses;
        }
        pauses := pauses + 1;
    }
    r := Exhausted;
  }

  /** A probe sequence that is busy twice and then reaches the endpoint. */
  function BusyTwiceThenReached(k: nat): Probe {
    if k < 2 then Threw(RpcError("UNKNOWN_ERROR", Some(-32603))) else Reached
  }

  /** Two busy replies are retried and the third probe connects. */
  method RetriesThroughBusy() returns (r: Outcome, attempts: nat, pauses: nat)
    ensures r == Connected(2) && attempts == 3 && pauses == 2
  {
    r, attempts, pauses := GetProvider(BusyTwiceThenReached);
  }

  /** An 'UNKNOWN_ERROR' without the inner -32603 on every probe. */
  function NeverBusy(k: nat): Probe {
    Threw(RpcError("UNKNOWN_ERROR", None))
  }

  /** An 'UNKNOWN_ERROR' without the inner -32603 is not the busy signal:
      it is rethrown after a single probe. */
  method RethrowsOtherError() returns (r: Outcome, attempts: nat, pauses: nat)
    ensures r == Rethrown(RpcError("UNKNOWN_ERROR", None)) && attempts == 1 && pauses == 0
  {
    r, attempts, pauses := GetProvider(NeverBusy);
    assert !BusyProbe(NeverBusy(0));
  }
}
