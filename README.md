# Pharos testnet batch bot: the sequential core, modelled in Dafny

The bot is a single Node.js script (`index.js`). At start-up it connects to an RPC endpoint, retrying while the endpoint says it is busy. It loads the wallet keys `PRIVATE_KEY_1, PRIVATE_KEY_2, …` from the environment. It exits with code 1 when no valid key is left. Otherwise it loops forever:

- For each wallet, it runs up to `numberOfSwaps` swaps, then up to `numberOfLP` liquidity additions.
- It pauses between items and between wallets.
- It counts down to the next day and starts again.

This project models the four pieces of sequential logic in that script, and the start-up flow that connects them. The chain calls, the prompts and real time are replaced by abstract inputs.

| file | module | models |
|---|---|---|
| `keys.dfy` | `PrivateKeys` | `loadPrivateKeys`. The environment is a `map<int, string>` from suffix index to value. The scan returns the kept keys, the skipped indices (one per warning line) and the index where it stopped. |
| `retry.dfy` | `RpcRetry` | The retry loop of `getProvider`. The probe results are a function `nat -> Probe`. The result is `Connected(attempt)`, `Rethrown(error)` or `Exhausted`, together with the number of probes made and pauses taken. |
| `batch.dfy` | `BatchRunner` | One pass of the wallet loop, which writes a log of `Event`s. Whether a wallet can be built from a key, and whether each swap or liquidity addition succeeds, come from an `Oracle`. The imperative loops (`RunPhase`, `ProcessWallet`, `RunCycle`) are proved equal to reference functions (`PhaseEvents`, `WalletEvents`, `CycleEvents`). Views of the log (attempt numbers, pause counts, wallets visited, skip warnings) state what one cycle does. |
| `countdown.dfy` | `Countdown` | The hours/minutes/seconds arithmetic of `showCountdown`, with JavaScript's truncating `%` written out as `JsRem`. The `setInterval` loop is modelled on an abstract clock. |
| `bot.dfy` | `Bot` | The start-up sequence: provider, then keys, then exit 1 on an empty key list, then the amounts, then one cycle. |

Three behaviours of the code worth stating:

- When every probe is busy, the code throws the fixed message `'All RPC retries failed'`, which does not carry the attempt count. The code also pauses after the third busy probe, so an exhausted retry takes 3 pauses.
- A wallet that cannot be built from its key does not end the process. The wallet loop's `catch` logs it (`WalletError`) and moves on to the next wallet.
- A count that is NaN or not positive is not fatal. It only skips its phase, and the warning is written only for the first wallet.

## Model

| member | source | states |
|---|---|---|
| PrivateKeys.Present | index.js:137 | The loop guard's truthiness test: `PRIVATE_KEY_<i>` is set and not the empty string. It has no contract of its own; `LoadPrivateKeys` (through `StopsAt`) and `OnlyPrefixExamined` state what the scan does with it. |
| PrivateKeys.WellFormed | index.js:139 | The key test: the value starts with "0x" and is 66 characters long. It has no contract of its own; `SelectedExactly`, `KeptOrSkipped` and `KeptAreWellFormed` state how it splits the scanned indices. |
| PrivateKeys.LoadPrivateKeys | index.js:134-147 | The scan stops at the first index whose variable is unset or empty, and every earlier index is present. The keys are the values at the well-formed indices, in index order. The skipped list is exactly the malformed indices, in index order. |
| PrivateKeys.Selected | index.js:139-143 | Every selected index lies in the scanned range, and its value's well-formedness (`"0x"` prefix, length 66) matches the list being built. |
| PrivateKeys.ValuesAt | index.js:140 | The kept keys line up one-to-one with the kept indices: same length, and position k holds the value at the k-th kept index. |
| PrivateKeys.SelectedExactly | index.js:137-145 | An index is in a list if and only if it was scanned and its value has that list's well-formedness. Both lists are strictly increasing, so each holds every index at most once and in scan order. |
| PrivateKeys.KeptOrSkipped | index.js:139-143 | Every scanned index is either kept or skipped, never both. Nothing outside the scanned range is in either list. |
| PrivateKeys.KeptAreWellFormed | index.js:139-140 | Every returned key starts with "0x" and is 66 characters long. |
| PrivateKeys.SelectedPartition | index.js:139-144 | The number of kept keys plus the number of warnings equals the number of indices scanned. |
| PrivateKeys.OnlyPrefixExamined | index.js:136-146 | Another environment that agrees on indices 1 .. stop-1 and also lacks `stop` gives the same stop, the same keys and the same warnings, so no index beyond `stop` is read. |
| PrivateKeys.SelectedAgree | index.js:137-143 | The selection depends only on the values at the scanned indices. |
| RpcRetry.IsBusy | index.js:37 | The busy test: code 'UNKNOWN_ERROR' wrapping a JSON-RPC error whose code is -32603. It has no contract of its own; `GetProvider` states that only this error is retried, and `RethrowsOtherError` that the code alone is not enough. |
| RpcRetry.GetProvider | index.js:31-46 | At most 3 probes, and every probe before the last was busy. Connected if and only if the last probe reached the endpoint, with no further probe. Rethrown if and only if the last probe threw an error that is not code 'UNKNOWN_ERROR' with inner code -32603, and then that same error is rethrown at once. Exhausted if and only if all 3 probes were busy, and then after exactly 3 probes and 3 pauses. |
| RpcRetry.RetriesThroughBusy | index.js:37-40 | Two busy replies followed by a reached endpoint connect on the third probe, after two pauses. |
| RpcRetry.RethrowsOtherError | index.js:37-42 | An 'UNKNOWN_ERROR' without the inner -32603 is rethrown after a single probe and no pause. |
| BatchRunner.Runs | index.js:191-209 | The phase guard `!isNaN(n) && n > 0` on the parsed count, at index.js:191 and index.js:209. It has no contract of its own; `PhaseAttempts`, `PhasePauses` and `PhaseQuiet` state what a phase does with it. |
| BatchRunner.PhaseEvents | index.js:191-225 | The log of one phase as a value: items 1 .. n, each an attempt followed by its failure line when it fails, with the phase's pause after every item but the last and a completion line; for a count that does not run, the skip warning for wallet index 0 and nothing otherwise. No contract of its own; `RunPhase` is proved equal to it and the Prefix* and Phase* lemmas state its properties. |
| BatchRunner.WalletEvents | index.js:185-231 | The log of one wallet as a value: the error line alone when the wallet cannot be built, otherwise its start, the swap phase, the liquidity phase and its completion. No contract of its own; `ProcessWallet` is proved equal to it and the Wallet* lemmas and `SwapsBeforeLiquidity` state its properties. |
| BatchRunner.CycleEvents | index.js:184-239 | The log of one cycle as a value: every wallet's log in key order, the 10-second pause after every wallet but the last, then the cycle line. No contract of its own; `RunCycle` is proved equal to it and the Cycle* lemmas state its properties. |
| BatchRunner.RunPhase | index.js:191-225 | The swap (or liquidity) loop writes exactly the reference log `PhaseEvents` of that phase. |
| BatchRunner.ProcessWallet | index.js:185-231 | The body of the wallet loop writes exactly `WalletEvents`. Building the wallet is the only step that can escape to the wallet's `catch`. |
| BatchRunner.RunCycle | index.js:184-239 | One pass over the wallets writes exactly `CycleEvents`. |
| BatchRunner.PrefixAttempts | index.js:192-198 | After items 1 .. i of a phase, the attempts logged are exactly 1 .. i in order, whatever each item's outcome. |
| BatchRunner.PrefixPauses | index.js:199-202 | Items 1 .. i of an n-item phase hold i pauses of the phase's own length (n - 1 when i = n) and none of any other length. |
| BatchRunner.PhaseAttempts | index.js:191-203 | For a count n that is a number greater than 0, exactly items 1 .. n are attempted, in order, and a failing item does not stop the next. For a NaN or non-positive count, none are attempted. |
| BatchRunner.PhasePauses | index.js:199-202 | A running phase of n items takes exactly n - 1 pauses of its own length (2000 ms swaps, 5000 ms liquidity) and none of any other length. A skipped phase takes none. |
| BatchRunner.PhaseQuiet | index.js:205-207 | A phase names no wallet. Its skip warning appears exactly once when the phase is skipped for wallet index 0, and never otherwise. |
| BatchRunner.PrefixPausesSeparate | index.js:192-203 | In items 1 .. i, the first event is attempt #1, and every pause except a trailing one is followed by the next attempt of the same kind. The prefix ends in a pause exactly when more items follow. |
| BatchRunner.PhasePausesSeparate | index.js:199-221 | A running phase opens with attempt #1, and every pause in it is immediately followed by an attempt of the same kind. So pauses fall only between consecutive items, never after the last. |
| BatchRunner.WalletAttempts | index.js:185-225 | A wallet that builds attempts swaps 1 .. numberOfSwaps and liquidity additions 1 .. numberOfLP, for the counts that run. A wallet that fails to build attempts nothing. |
| BatchRunner.SwapsBeforeLiquidity | index.js:191-225 | Within one wallet, every swap attempt comes before every liquidity attempt. |
| BatchRunner.WalletVisits | index.js:184-231 | A wallet's events name that wallet once, whether it was built or failed. |
| BatchRunner.WalletHasNoWalletPause | index.js:185-231 | The 10-second pause never occurs inside a wallet's own events. |
| BatchRunner.WalletSkips | index.js:205-225 | A wallet warns about a skipped phase only if it is wallet index 0 and it was built. |
| BatchRunner.WalletBounds | index.js:186-230 | A wallet's events open with its start or its error, and close with its completion or its error. |
| BatchRunner.WalletOpensWithoutPause | index.js:186-236 | A wallet's events are non-empty, open the wallet, and contain no 10-second pause. |
| BatchRunner.CyclePrefixVisits | index.js:184-231 | After w wallets, exactly wallets 0 .. w-1 have been visited, in order, even when earlier ones failed. |
| BatchRunner.CyclePrefixPauses | index.js:233-236 | After w wallets there are w 10-second pauses when more wallets follow, and w - 1 when w is the last. |
| BatchRunner.CyclePrefixSkips | index.js:205-225 | After w wallets, a skip warning for a phase has appeared once if wallet 0 was built and that phase's count does not run, and never otherwise. |
| BatchRunner.CycleViews | index.js:184-239 | Over one cycle, every wallet is visited exactly once and in order, even after another wallet's error. There are exactly N - 1 10-second pauses for N wallets. Each skip warning appears at most once, for wallet index 0. |
| BatchRunner.CyclePrefixPausesSeparate | index.js:233-236 | In the first w wallets, every 10-second pause except a trailing one is followed by the next wallet's start or error. The prefix ends in that pause exactly when more wallets follow. |
| BatchRunner.CyclePausesBetweenWallets | index.js:233-239 | In a whole cycle, every 10-second pause is immediately followed by the next wallet's start or error, so none comes after the last wallet. |
| Countdown.FloorDiv | index.js:253-255 | `Math.floor(a / b)` for a positive divisor: the largest q with b*q <= a. |
| Countdown.JsRem | index.js:254-255 | JavaScript's `%`: the remainder lies strictly between -b and b and takes the dividend's sign, and a equals b times the quotient truncated toward zero plus the remainder. For a non-negative dividend it equals the mathematical remainder. |
| Countdown.DisplayAsWritten | index.js:253-255 | Hours, minutes and seconds exactly as the three expressions compute them, with `Math.floor` as `FloorDiv` and JavaScript's `%` as `JsRem`, nested as in the source. It has no contract of its own; its properties are `DisplayAsWrittenSplits` and `LastTickAsWrittenIsNegative`. |
| Countdown.DisplayAsWrittenSplits | index.js:252-255 | For remaining time r >= 0 ms: hours >= 0, 0 <= minutes < 60 and 0 <= seconds < 60. Also h*3600000 + m*60000 + s*1000 <= r < h*3600000 + m*60000 + s*1000 + 1000. |
| Countdown.LastTickAsWrittenIsNegative | index.js:252-256 | As written, a remaining time between -999 and -1 ms displays -1h -1m -1s. |
| Countdown.DisplaySplits | index.js:252-256 | The display with remaining time clamped at 0 is always a proper split. It agrees with the code whenever time is left, and reads 0h 0m 0s once none is. |
| Countdown.AwaitNextCycle | index.js:250-263 | The wait resolves on the first tick at which remaining <= 0, and every earlier tick had time left. Every tick writes its line as the code computes it, so the last line may be negative; every earlier line equals the clamped display. The number of ticks is bounded by the time to the target. |
| Countdown.LateLastTick | index.js:250-263 | With one second to go and ticks half a second late, the loop makes one tick and writes -1h -1m -1s. |
| Bot.Launch | index.js:158-239 | The provider outcome is the one `getProvider` gives for the probes: connected on the first probe that reached the endpoint after busy ones, the non-busy error rethrown, or exhausted exactly when all 3 probes were busy. A failed `getProvider` ends the run before any key is read. A connected run with no valid key exits with code 1 before any wallet is processed. One with keys but an amount `parseUnits` rejects ends before any wallet. Otherwise its keys are exactly those loaded and its log is exactly one cycle's `CycleEvents`. |

## Left out

- The `ethers` calls are not modelled: `approveToken`, `executeSwap`, `addLiquidity`, `Wallet`, `JsonRpcProvider` and `getBlockNumber` are library and network I/O. Building a wallet and each item's outcome come from `Oracle`, and each probe's outcome from a function parameter. Every such call is assumed to settle: in the source, an `await` that never settles (for example `tx.wait()` at index.js:104 and 125) stalls the whole loop, so no later item or wallet runs, and the model does not capture that.
- `ethers.parseUnits` and `formatUnits` are library decimal conversions, so the amounts are not modelled.
- Bot.Launch: whether `parseUnits` accepts the three amounts is an input (`amountsParse`), not a parse of the typed strings; its rejection is modelled only as ending the run before any wallet.
- The `readline` prompts, `dotenv` loading and the unused `axios` import are I/O. The two counts enter as `Counts`: already parsed, either a number or NaN.
- `parseInt` itself is not modelled, only its result. A digit string long enough to parse to `Infinity` would make a phase loop forever; the model's counts are finite integers.
- Real time is not modelled. The wallet loop's `setTimeout` waits (index.js:201, 219, 235) appear only as `Pause(ms)` events; the retry wait of `getProvider` (index.js:39) is `GetProvider`'s `pauses` count. The local-time "next midnight" computation depends on the host calendar and time zone, so the target is a parameter. The ticks of `setInterval` are a clock function: tick k fires at least k+1 seconds after the countdown starts. Nothing is assumed about the gap between two consecutive ticks.
- The `while (true)` cycle never ends, so one cycle is modelled. The countdown that follows it is modelled separately by `Countdown.AwaitNextCycle`.
- Console output and ANSI colours are not modelled. Only the wallet loop's own lines are events: wallet start, attempt, item failure, phase done, skip warning, wallet done, wallet error and cycle done. Each "Waiting…" line is folded into the `Pause` event it precedes. The "RPC busy" lines are counted as `GetProvider`'s pauses, and the countdown lines are `AwaitNextCycle`'s `shown`. These have no counterpart: the banner, the separator lines, "wallet(s) loaded", the no-key error message, and the lines written inside `executeSwap`, `addLiquidity` and `approveToken`. The wallet address in log lines is not modelled.
- Only the first URL in the RPC list is ever used, and the model has no URL list.
- PrivateKeys.LoadPrivateKeys: key length is counted in Dafny characters, while JavaScript's `length` counts UTF-16 code units. The two agree for keys made of ASCII hex digits.
- `index (1).js`, a second variant of the bot (a different router and token set), is not part of this model.

## Findings

| source | as written | input that shows it | evidently intended | confidence | as-written member | corrected member |
|---|---|---|---|---|---|---|
| index.js:252-257 | the countdown line is computed and written before the `remaining <= 0` test, with `Math.floor` and JavaScript's `%` on a negative `remaining` | a last tick that fires 1 to 999 ms after midnight (remaining between -999 and -1) shows "Next cycle in -1h -1m -1s" | the final line reads 0h 0m 0s | not executed | Countdown.LastTickAsWrittenIsNegative | Countdown.DisplaySplits |
