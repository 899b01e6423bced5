/** The startup sequence of the bot and its first cycle: reach the RPC
    endpoint, load the wallet keys, stop with exit code 1 when there are
    none, and otherwise run the wallets once. */
module Bot {
  import PrivateKeys
  import RpcRetry
  import BatchRunner

  /** How the run ends: `getProvider` threw (the unhandled rejection ends
      the script before any key is read), the process exited with `code`,
      `parseUnits` rejected one of the three amounts (the script ends
      before any wallet), or one cycle of the wallet loop completed. */
  datatype Status = ProviderFailed | Exited(code: int) | AmountRejected | CycleCompleted

  /** `counts` stands for the numbers the operator typed and `parseInt`
      read; `amountsParse` says whether all three amounts the operator
      typed were accepted by `parseUnits`. */
  method Launch(env: PrivateKeys.Env, probe: nat -> RpcRetry.Probe, counts: BatchRunner.Counts,
                amountsParse: bool, oracle: BatchRunner.Oracle)
    returns (status: Status, provider: RpcRetry.Outcome, keys: seq<string>, events: seq<BatchRunner.Event>)
    ensures provider.Connected? ==>
      provider.attempt < RpcRetry.MaxAttempts && probe(provider.attempt).Reached?
      && forall j :: 0 <= j < provider.attempt ==> RpcRetry.BusyProbe(probe(j))
    ensures provider.Rethrown? ==>
      exists a :: 0 <= a < RpcRetry.MaxAttempts && probe(a) == RpcRetry.Threw(provider.error)
        && !RpcRetry.IsBusy(provider.error) && forall j :: 0 <= j < a ==> RpcRetry.BusyProbe(probe(j))
    ensures provider.Exhausted? <==> forall j :: 0 <= j < RpcRetry.MaxAttempts ==> RpcRetry.BusyProbe(probe(j))
    ensures status == ProviderFailed <==> !provider.Connected?
    ensures status == ProviderFailed ==> keys == [] && events == []
    ensures status.Exited? <==> provider.Connected? && keys == []
    ensures status.Exited? ==> status.code == 1 && events == []
    ensures status == AmountRejected <==> provider.Connected? && keys != [] && !amountsParse
    ensures status == AmountRejected ==> events == []
    ensures status == CycleCompleted <==> provider.Connected? && keys != [] && amountsParse
    ensures status == CycleCompleted ==> events == BatchRunner.CycleEvents(keys, counts, oracle)
    ensures provider.Connected? ==>
      exists stop :: (PrivateKeys.StopsAt(env, stop)
        && keys == PrivateKeys.ValuesAt(env, PrivateKeys.Selected(env, 1, stop, true)))
  {
    var attempts, pauses;
    provider, attempts, pauses := RpcRetry.GetProvider(probe);
    if provider.Rethrown? {
      assert probe(attempts - 1) == RpcRetry.Threw(provider.error);
    }
    if !provider.Connected? {
      return ProviderFailed, provider, [], [];
    }
    var skipped, stop;
    keys, skipped, stop := PrivateKeys.LoadPrivateKeys(env);
    if |keys| == 0 {
      return Exited(1), provider, keys, [];
    }
    if !amountsParse {
      return AmountRejected, provider, keys, [];
    }
    events := BatchRunner.RunCycle(keys, counts, oracle);
    status := CycleCompleted;
  }
}
