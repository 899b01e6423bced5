/** One cycle of the per-wallet batch: for each wallet, up to `numberOfSwaps`
    swaps and then up to `numberOfLP` liquidity additions, each item's
    failure caught, with pauses between items and between wallets. The
    swaps and liquidity additions themselves are abstract outcomes. */
module BatchRunner {

  /** The result of `parseInt` on an operator's answer. */
  datatype Count = NaN | Int(value: int)

  /** A phase runs when its count is a number greater than zero. */
  predicate Runs(c: Count) {
    c.Int? && c.value > 0
  }

  datatype Kind = Swap | Liquidity

  /** The pause between two consecutive items of a phase. */
  function PauseMs(kind: Kind): nat {
    match kind
    case Swap => 2000
    case Liquidity => 5000
  }

  /** The pause between two consecutive wallets. */
  const WalletPauseMs: nat := 10000

  /** The counts the operator entered. */
  datatype Counts = Counts(swaps: Count, liquidity: Count)

  function CountOf(counts: Counts, kind: Kind): Count {
    match kind
    case Swap => counts.swaps
    case Liquidity => counts.liquidity
  }

  /** What the outside world does: whether a wallet can be built from a key,
      and whether item `number` (1-based) of a phase succeeds for wallet `w`. */
  datatype Oracle = Oracle(builds: string -> bool, succeeds: (Kind, nat, nat) -> bool)

  /** The log lines of the loop, in the order they are written. */
  datatype Event =
    | WalletStart(wallet: nat)             // "Processing Wallet w+1/N"
    | Attempt(kind: Kind, number: nat)     // "Starting Swap #i of n"
    | ItemFailed(kind: Kind, number: nat)  // "Swap #i failed"
    | Pause(ms: nat)
    | PhaseDone(kind: Kind)                // "... operations completed for this wallet!"
    | SkipWarn(kind: Kind)                 // "Invalid ... count, skipping"
    | WalletDone(wallet: nat)              // "All tasks finished for wallet"
    | WalletError(wallet: nat)             // "A critical error occurred while processing wallet"
    | CycleDone                            // "All wallets have been processed for this cycle."

  /** lo, lo+1, ..., hi-1. */
  function Range(lo: nat, hi: nat): (r: seq<nat>)
    ensures |r| == if lo <= hi then hi - lo else 0
    ensures forall k :: 0 <= k < |r| ==> r[k] == lo + k
    decreases hi - lo
  {
    if hi <= lo then [] else Range(lo, hi - 1) + [hi - 1]
  }

  lemma RangeSnoc(lo: nat, hi: nat)
    requires lo <= hi
    ensures Range(lo, hi + 1) == Range(lo, hi) + [hi]
  {
  }

  // ---------------------------------------------------------------------
  // The reference definition of the log of one cycle

  /** The events of item `i` of a phase for wallet `w`. */
  function ItemEvents(kind: Kind, w: nat, i: nat, oracle: Oracle): seq<Event> {
    [Attempt(kind, i)] + (if oracle.succeeds(kind, w, i) then [] else [ItemFailed(kind, i)])
  }

  /** The pause that follows item `i` of a phase of `n` items: none after the last. */
  function PauseAfter(kind: Kind, n: nat, i: nat): seq<Event> {
    if i < n then [Pause(PauseMs(kind))] else []
  }

  /** The events of items 1 .. i of a phase of `n` items: every item but
      the n-th is followed by a pause. */
  function PhasePrefix(kind: Kind, w: nat, n: nat, oracle: Oracle, i: nat): seq<Event>
    decreases i
  {
    if i == 0 then []
    else
      PhasePrefix(kind, w, n, oracle, i - 1) + ItemEvents(kind, w, i, oracle) + PauseAfter(kind, n, i)
  }

  /** The events of one phase of wallet `w`; the skip warning is written
      for the first wallet only. */
  function PhaseEvents(kind: Kind, w: nat, c: Count, oracle: Oracle): seq<Event> {
    if Runs(c) then PhasePrefix(kind, w, c.value, oracle, c.value) + [PhaseDone(kind)]
    else if w == 0 then [SkipWarn(kind)]
    else []
  }

  /** The events of wallet `w`: building the wallet is the only step that
      can throw past the per-item handlers. */
  function WalletEvents(keys: seq<string>, w: nat, counts: Counts, oracle: Oracle): seq<Event>
    requires w < |keys|
  {
    if !oracle.builds(keys[w]) then [WalletError(w)]
    else
      [WalletStart(w)] + PhaseEvents(Swap, w, counts.swaps, oracle)
      + PhaseEvents(Liquidity, w, counts.liquidity, oracle) + [WalletDone(w)]
  }

  /** The pause that follows wallet number `w` (1-based) of `total`: none after the last. */
  function WalletPauseAfter(total: nat, w: nat): seq<Event> {
    if w < total then [Pause(WalletPauseMs)] else []
  }

  /** The events of wallets 0 .. w-1: every wallet but the last is followed
      by the 10-second pause. */
  function CyclePrefix(keys: seq<string>, counts: Counts, oracle: Oracle, w: nat): seq<Event>
    requires w <= |keys|
  {
    if w == 0 then []
    else
      CyclePrefix(keys, counts, oracle, w - 1) + WalletEvents(keys, w - 1, counts, oracle)
      + WalletPauseAfter(|keys|, w)
  }

  function CycleEvents(keys: seq<string>, counts: Counts, oracle: Oracle): seq<Event> {
    CyclePrefix(keys, counts, oracle, |keys|) + [CycleDone]
  }

  // ---------------------------------------------------------------------
  // The loops

  /** One phase of one wallet (the swap loop and the liquidity loop of
      index.js have this same shape; they differ in the pause length). */
  method RunPhase(kind: Kind, w: nat, c: Count, oracle: Oracle) returns (events: seq<Event>)
    ensures events == PhaseEvents(kind, w, c, oracle)
  {
    if Runs(c) {
      var n: nat := c.value;
      events := [];
      for i := 0 to n
        invariant events == PhasePrefix(kind, w, n, oracle, i)
      {
        events := events + [Attempt(kind, i + 1)];
        if !oracle.succeeds(kind, w, i + 1) {
          events := events + [ItemFailed(kind, i + 1)];
        }
        if i < n - 1 {
          events := events + [Pause(PauseMs(kind))];
        }
      }
      events := events + [PhaseDone(kind)];
    } else if w == 0 {
      events := [SkipWarn(kind)];
    } else {
      events := [];
    }
  }

  /** The body of the wallet loop, inside its try/catch. */
  method ProcessWallet(keys: seq<string>, w: nat, counts: Counts, oracle: Oracle) returns (events: seq<Event>)
    requires w < |keys|
    ensures events == WalletEvents(keys, w, counts, oracle)
  {
    if !oracle.builds(keys[w]) {
      return [WalletError(w)];
    }
    events := [WalletStart(w)];
    var swaps := RunPhase(Swap, w, counts.swaps, oracle);
    events := events + swaps;
    var liquidity := RunPhase(Liquidity, w, counts.liquidity, oracle);
    events := events + liquidity + [WalletDone(w)];
  }

  /** One pass of the `while (true)` loop up to the countdown. */
  method RunCycle(keys: seq<string>, counts: Counts, oracle: Oracle) returns (events: seq<Event>)
    ensures events == CycleEvents(keys, counts, oracle)
  {
    events := [];
    for w := 0 to |keys|
      invariant events == CyclePrefix(keys, counts, oracle, w)
    {
      var wallet := ProcessWallet(keys, w, counts, oracle);
      events := events + wallet;
      if w < |keys| - 1 {
        events := events + [Pause(WalletPauseMs)];
      }
    }
    events := events + [CycleDone];
  }

  // ---------------------------------------------------------------------
  // Views of a log

  /** The number of an attempt of `kind`, if `e` is one. */
  function AttemptOf(kind: Kind, e: Event): seq<nat> {
    if e.Attempt? && e.kind == kind then [e.number] else []
  }

  /** The numbers of the attempts of one kind, in log order. */
  function AttemptNumbers(kind: Kind, t: seq<Event>): seq<nat> {
    if t == [] then [] else AttemptOf(kind, t[0]) + AttemptNumbers(kind, t[1..])
  }

  /** How many pauses of `ms` milliseconds the log holds. */
  function PauseCount(ms: nat, t: seq<Event>): nat {
    if t == [] then 0 else (if t[0] == Pause(ms) then 1 else 0) + PauseCount(ms, t[1..])
  }

  /** The wallet whose processing `e` opens, if it opens one. */
  function VisitOf(e: Event): seq<nat> {
    if e.WalletStart? || e.WalletError? then [e.wallet] else []
  }

  /** The wallets whose processing began (built or failed), in log order. */
  function WalletsVisited(t: seq<Event>): seq<nat> {
    if t == [] then [] else VisitOf(t[0]) + WalletsVisited(t[1..])
  }

  /** How many skip warnings of one kind the log holds. */
  function SkipCount(kind: Kind, t: seq<Event>): nat {
    if t == [] then 0 else (if t[0] == SkipWarn(kind) then 1 else 0) + SkipCount(kind, t[1..])
  }

  lemma {:induction false} AttemptNumbersAppend(kind: Kind, a: seq<Event>, b: seq<Event>)
    ensures AttemptNumbers(kind, a + b) == AttemptNumbers(kind, a) + AttemptNumbers(kind, b)
  {
    if a == [] {
      assert a + b == b;
    } else {
      assert (a + b)[0] == a[0] && (a + b)[1..] == a[1..] + b;
      AttemptNumbersAppend(kind, a[1..], b);
    }
  }

  lemma {:induction false} PauseCountAppend(ms: nat, a: seq<Event>, b: seq<Event>)
    ensures PauseCount(ms, a + b) == PauseCount(ms, a) + PauseCount(ms, b)
  {
    if a == [] {
      assert a + b == b;
    } else {
      assert (a + b)[0] == a[0] && (a + b)[1..] == a[1..] + b;
      PauseCountAppend(ms, a[1..], b);
    }
  }

  lemma {:induction false} WalletsVisitedAppend(a: seq<Event>, b: seq<Event>)
    ensures WalletsVisited(a + b) == WalletsVisited(a) + WalletsVisited(b)
  {
    if a == [] {
      assert a + b == b;
    } else {
      assert (a + b)[0] == a[0] && (a + b)[1..] == a[1..] + b;
      WalletsVisitedAppend(a[1..], b);
    }
  }

  lemma {:induction false} SkipCountAppend(kind: Kind, a: seq<Event>, b: seq<Event>)
    ensures SkipCount(kind, a + b) == SkipCount(kind, a) + SkipCount(kind, b)
  {
    if a == [] {
      assert a + b == b;
    } else {
      assert (a + b)[0] == a[0] && (a + b)[1..] == a[1..] + b;
      SkipCountAppend(kind, a[1..], b);
    }
  }

  /** An attempt of `kind` appears nowhere in a log that numbers none. */
  lemma {:induction false} AttemptAbsent(kind: Kind, t: seq<Event>)
    requires AttemptNumbers(kind, t) == []
    ensures forall p :: 0 <= p < |t| ==> !(t[p].Attempt? && t[p].kind == kind)
  {
    if t != [] {
      AttemptAbsent(kind, t[1..]);
      assert forall p :: 1 <= p < |t| ==> t[p] == t[1..][p - 1];
    }
  }

  /** A pause of `ms` appears nowhere in a log that counts none. */
  lemma {:induction false} PauseAbsent(ms: nat, t: seq<Event>)
    requires PauseCount(ms, t) == 0
    ensures forall p :: 0 <= p < |t| ==> t[p] != Pause(ms)
  {
    if t != [] {
      PauseAbsent(ms, t[1..]);
      assert forall p :: 1 <= p < |t| ==> t[p] == t[1..][p - 1];
    }
  }

  /** What each view sees of a single event. */
  lemma OneAttempt(k: Kind, e: Event)
    ensures AttemptNumbers(k, [e]) == AttemptOf(k, e)
  {
    assert [e][1..] == [];
  }

  lemma OnePause(ms: nat, e: Event)
    ensures PauseCount(ms, [e]) == if e == Pause(ms) then 1 else 0
  {
    assert [e][1..] == [];
  }

  lemma OneVisit(e: Event)
    ensures WalletsVisited([e]) == VisitOf(e)
  {
    assert [e][1..] == [];
  }

  lemma OneSkip(k: Kind, e: Event)
    ensures SkipCount(k, [e]) == if e == SkipWarn(k) then 1 else 0
  {
    assert [e][1..] == [];
  }

  // ---------------------------------------------------------------------
  // Properties of one phase

  /** One item holds its own attempt and nothing else the views count. */
  lemma ItemAttempts(kind: Kind, w: nat, i: nat, oracle: Oracle, k: Kind)
    ensures AttemptNumbers(k, ItemEvents(kind, w, i, oracle)) == if k == kind then [i] else []
  {
    OneAttempt(k, Attempt(kind, i));
    if !oracle.succeeds(kind, w, i) {
      OneAttempt(k, ItemFailed(kind, i));
      AttemptNumbersAppend(k, [Attempt(kind, i)], [ItemFailed(kind, i)]);
    }
  }

  lemma ItemPauses(kind: Kind, w: nat, i: nat, oracle: Oracle, ms: nat)
    ensures PauseCount(ms, ItemEvents(kind, w, i, oracle)) == 0
  {
    OnePause(ms, Attempt(kind, i));
    if !oracle.succeeds(kind, w, i) {
      OnePause(ms, ItemFailed(kind, i));
      PauseCountAppend(ms, [Attempt(kind, i)], [ItemFailed(kind, i)]);
    }
  }

  lemma ItemVisits(kind: Kind, w: nat, i: nat, oracle: Oracle)
    ensures WalletsVisited(ItemEvents(kind, w, i, oracle)) == []
  {
    OneVisit(Attempt(kind, i));
    if !oracle.succeeds(kind, w, i) {
      OneVisit(ItemFailed(kind, i));
      WalletsVisitedAppend([Attempt(kind, i)], [ItemFailed(kind, i)]);
    }
  }

  lemma ItemSkips(kind: Kind, w: nat, i: nat, oracle: Oracle, k: Kind)
    ensures SkipCount(k, ItemEvents(kind, w, i, oracle)) == 0
  {
    OneSkip(k, Attempt(kind, i));
    if !oracle.succeeds(kind, w, i) {
      OneSkip(k, ItemFailed(kind, i));
      SkipCountAppend(k, [Attempt(kind, i)], [ItemFailed(kind, i)]);
    }
  }

  /** Items 1 .. i are attempted in that order whatever the earlier items did. */
  lemma {:induction false} PrefixAttempts(kind: Kind, w: nat, n: nat, oracle: Oracle, i: nat, k: Kind)
    ensures AttemptNumbers(k, PhasePrefix(kind, w, n, oracle, i)) == if k == kind then Range(1, i + 1) else []
    decreases i
  {
    if i > 0 {
      var before := PhasePrefix(kind, w, n, oracle, i - 1);
      var item := ItemEvents(kind, w, i, oracle);
      var tail := PauseAfter(kind, n, i);
      PrefixAttempts(kind, w, n, oracle, i - 1, k);
      ItemAttempts(kind, w, i, oracle, k);
      RangeSnoc(1, i);
      if tail != [] { OneAttempt(k, tail[0]); }
      AttemptNumbersAppend(k, before, item);
      AttemptNumbersAppend(k, before + item, tail);
    }
  }

  /** A prefix of items 1 .. i holds a pause of the phase's own length
      after each item but the n-th, and no pause of any other length. */
  lemma {:induction false} PrefixPauses(kind: Kind, w: nat, n: nat, oracle: Oracle, i: nat, ms: nat)
    requires i <= n
    ensures PauseCount(ms, PhasePrefix(kind, w, n, oracle, i)) ==
      if ms != PauseMs(kind) then 0 else if i == n && n > 0 then n - 1 else i
    decreases i
  {
    if i > 0 {
      var before := PhasePrefix(kind, w, n, oracle, i - 1);
      var item := ItemEvents(kind, w, i, oracle);
      var tail := PauseAfter(kind, n, i);
      PrefixPauses(kind, w, n, oracle, i - 1, ms);
      ItemPauses(kind, w, i, oracle, ms);
      if tail != [] { OnePause(ms, tail[0]); }
      PauseCountAppend(ms, before, item);
      PauseCountAppend(ms, before + item, tail);
    }
  }

  /** A prefix of a phase names no wallet. */
  lemma {:induction false} PrefixVisits(kind: Kind, w: nat, n: nat, oracle: Oracle, i: nat)
    ensures WalletsVisited(PhasePrefix(kind, w, n, oracle, i)) == []
    decreases i
  {
    if i > 0 {
      var before := PhasePrefix(kind, w, n, oracle, i - 1);
      var item := ItemEvents(kind, w, i, oracle);
      var tail := PauseAfter(kind, n, i);
      PrefixVisits(kind, w, n, oracle, i - 1);
      ItemVisits(kind, w, i, oracle);
      if tail != [] { OneVisit(tail[0]); }
      WalletsVisitedAppend(before, item);
      WalletsVisitedAppend(before + item, tail);
    }
  }

  /** A prefix of a phase warns about no skip. */
  lemma {:induction false} PrefixSkips(kind: Kind, w: nat, n: nat, oracle: Oracle, i: nat, k: Kind)
    ensures SkipCount(k, PhasePrefix(kind, w, n, oracle, i)) == 0
    decreases i
  {
    if i > 0 {
      var before := PhasePrefix(kind, w, n, oracle, i - 1);
      var item := ItemEvents(kind, w, i, oracle);
      var tail := PauseAfter(kind, n, i);
      PrefixSkips(kind, w, n, oracle, i - 1, k);
      ItemSkips(kind, w, i, oracle, k);
      if tail != [] { OneSkip(k, tail[0]); }
      SkipCountAppend(k, before, item);
      SkipCountAppend(k, before + item, tail);
    }
  }

  /** A phase whose count n is a positive number attempts items 1 .. n in
      order, whatever each item's outcome; any other count attempts none. */
  lemma PhaseAttempts(kind: Kind, w: nat, c: Count, oracle: Oracle, k: Kind)
    ensures AttemptNumbers(k, PhaseEvents(kind, w, c, oracle)) ==
      if k == kind && Runs(c) then Range(1, c.value + 1) else []
  {
    if Runs(c) {
      PrefixAttempts(kind, w, c.value, oracle, c.value, k);
      OneAttempt(k, PhaseDone(kind));
      AttemptNumbersAppend(k, PhasePrefix(kind, w, c.value, oracle, c.value), [PhaseDone(kind)]);
    } else {
      OneAttempt(k, SkipWarn(kind));
    }
  }

  /** A running phase of n items holds n - 1 pauses of its own length and
      none of any other; a skipped phase holds none. */
  lemma PhasePauses(kind: Kind, w: nat, c: Count, oracle: Oracle, ms: nat)
    ensures PauseCount(ms, PhaseEvents(kind, w, c, oracle)) ==
      if ms == PauseMs(kind) && Runs(c) then c.value - 1 else 0
  {
    if Runs(c) {
      PrefixPauses(kind, w, c.value, oracle, c.value, ms);
      OnePause(ms, PhaseDone(kind));
      PauseCountAppend(ms, PhasePrefix(kind, w, c.value, oracle, c.value), [PhaseDone(kind)]);
    } else {
      OnePause(ms, SkipWarn(kind));
    }
  }

  /** A phase names no wallet, and warns about being skipped only when it
      is skipped for the first wallet. */
  lemma PhaseQuiet(kind: Kind, w: nat, c: Count, oracle: Oracle, k: Kind)
    ensures WalletsVisited(PhaseEvents(kind, w, c, oracle)) == []
    ensures SkipCount(k, PhaseEvents(kind, w, c, oracle)) ==
      if k == kind && !Runs(c) && w == 0 then 1 else 0
  {
    if Runs(c) {
      PrefixVisits(kind, w, c.value, oracle, c.value);
      PrefixSkips(kind, w, c.value, oracle, c.value, k);
      OneVisit(PhaseDone(kind));
      OneSkip(k, PhaseDone(kind));
      WalletsVisitedAppend(PhasePrefix(kind, w, c.value, oracle, c.value), [PhaseDone(kind)]);
      SkipCountAppend(k, PhasePrefix(kind, w, c.value, oracle, c.value), [PhaseDone(kind)]);
    } else {
      OneVisit(SkipWarn(kind));
      OneSkip(k, SkipWarn(kind));
    }
  }

  /** In items 1 .. i of a phase the first event is attempt #1, every pause
      but a trailing one is followed by an attempt of the same kind, and
      the prefix ends in a pause exactly when more items follow. */
  lemma {:induction false} PrefixPausesSeparate(kind: Kind, w: nat, n: nat, oracle: Oracle, i: nat)
    requires 1 <= i <= n
    ensures var t := PhasePrefix(kind, w, n, oracle, i);
      && |t| > 0
      && t[0] == Attempt(kind, 1)
      && (t[|t| - 1].Pause? <==> i < n)
      && forall p :: 0 <= p < |t| - 1 && t[p].Pause? ==> t[p + 1].Attempt? && t[p + 1].kind == kind
    decreases i
  {
    var t := PhasePrefix(kind, w, n, oracle, i);
    var item := ItemEvents(kind, w, i, oracle);
    var tail := PauseAfter(kind, n, i);
    if i == 1 {
      assert t == item + tail;
    } else {
      var before := PhasePrefix(kind, w, n, oracle, i - 1);
      PrefixPausesSeparate(kind, w, n, oracle, i - 1);
      assert t == before + item + tail;
      forall p | 0 <= p < |t| - 1 && t[p].Pause?
        ensures t[p + 1].Attempt? && t[p + 1].kind == kind
      {
        if p < |before| - 1 {
          assert t[p] == before[p] && t[p + 1] == before[p + 1];
        } else if p == |before| - 1 {
          assert t[p] == before[p] && t[p + 1] == item[0];
        }
      }
    }
  }

  /** Pauses of a running phase fall only between consecutive items: the
      phase opens with attempt #1 and every pause is immediately followed
      by an attempt of the same kind, so none comes after the last item. */
  lemma PhasePausesSeparate(kind: Kind, w: nat, c: Count, oracle: Oracle)
    requires Runs(c)
    ensures var t := PhaseEvents(kind, w, c, oracle);
      && |t| > 0
      && t[0] == Attempt(kind, 1)
      && forall p :: 0 <= p < |t| && t[p].Pause? ==> p + 1 < |t| && t[p + 1].Attempt? && t[p + 1].kind == kind
  {
    var body := PhasePrefix(kind, w, c.value, oracle, c.value);
    PrefixPausesSeparate(kind, w, c.value, oracle, c.value);
    var t := body + [PhaseDone(kind)];
    assert PhaseEvents(kind, w, c, oracle) == t;
    forall p | 0 <= p < |t| && t[p].Pause?
      ensures p + 1 < |t| && t[p + 1].Attempt? && t[p + 1].kind == kind
    {
      assert p < |body| && t[p] == body[p];
      assert p != |body| - 1;
      assert t[p + 1] == body[p + 1];
    }
  }

  // ---------------------------------------------------------------------
  // Properties of one wallet

  /** The events of a wallet that builds, as its four parts. */
  lemma BuiltWalletParts(keys: seq<string>, w: nat, counts: Counts, oracle: Oracle)
    requires w < |keys| && oracle.builds(keys[w])
    ensures WalletEvents(keys, w, counts, oracle) ==
      [WalletStart(w)] + PhaseEvents(Swap, w, counts.swaps, oracle)
      + PhaseEvents(Liquidity, w, counts.liquidity, oracle) + [WalletDone(w)]
  {
  }

  /** The attempts of a wallet that builds are those of its two phases. */
  lemma BuiltWalletAttempts(keys: seq<string>, w: nat, counts: Counts, oracle: Oracle, k: Kind)
    requires w < |keys| && oracle.builds(keys[w])
    ensures AttemptNumbers(k, WalletEvents(keys, w, counts, oracle)) ==
      AttemptNumbers(k, PhaseEvents(Swap, w, counts.swaps, oracle))
      + AttemptNumbers(k, PhaseEvents(Liquidity, w, counts.liquidity, oracle))
  {
    var head := [WalletStart(w)];
    var s := PhaseEvents(Swap, w, counts.swaps, oracle);
    var l := PhaseEvents(Liquidity, w, counts.liquidity, oracle);
    var last := [WalletDone(w)];
    BuiltWalletParts(keys, w, counts, oracle);
    OneAttempt(k, WalletStart(w));
    OneAttempt(k, WalletDone(w));
    AttemptNumbersAppend(k, head, s);
    AttemptNumbersAppend(k, head + s, l);
    AttemptNumbersAppend(k, head + s + l, last);
  }

  /** A wallet that builds attempts swaps 1 .. numberOfSwaps and liquidity
      additions 1 .. numberOfLP (for the counts that are positive numbers);
      a wallet that fails to build attempts nothing. */
  lemma WalletAttempts(keys: seq<string>, w: nat, counts: Counts, oracle: Oracle, k: Kind)
    requires w < |keys|
    ensures AttemptNumbers(k, WalletEvents(keys, w, counts, oracle)) ==
      if oracle.builds(keys[w]) && Runs(CountOf(counts, k)) then Range(1, CountOf(counts, k).value + 1) else []
  {
    if oracle.builds(keys[w]) {
      BuiltWalletAttempts(keys, w, counts, oracle, k);
      PhaseAttempts(Swap, w, counts.swaps, oracle, k);
      PhaseAttempts(Liquidity, w, counts.liquidity, oracle, k);
    } else {
      OneAttempt(k, WalletError(w));
    }
  }

  /** Each wallet is visited exactly once. */
  lemma WalletVisits(keys: seq<string>, w: nat, counts: Counts, oracle: Oracle)
    requires w < |keys|
    ensures WalletsVisited(WalletEvents(keys, w, counts, oracle)) == [w]
  {
    if oracle.builds(keys[w]) {
      var head := [WalletStart(w)];
      var s := PhaseEvents(Swap, w, counts.swaps, oracle);
      var l := PhaseEvents(Liquidity, w, counts.liquidity, oracle);
      var last := [WalletDone(w)];
      BuiltWalletParts(keys, w, counts, oracle);
      OneVisit(WalletStart(w));
      OneVisit(WalletDone(w));
      PhaseQuiet(Swap, w, counts.swaps, oracle, Swap);
      PhaseQuiet(Liquidity, w, counts.liquidity, oracle, Swap);
      WalletsVisitedAppend(head, s);
      WalletsVisitedAppend(head + s, l);
      WalletsVisitedAppend(head + s + l, last);
    } else {
      OneVisit(WalletError(w));
    }
  }

  /** A wallet's own events hold no 10-second pause. */
  lemma WalletHasNoWalletPause(keys: seq<string>, w: nat, counts: Counts, oracle: Oracle)
    requires w < |keys|
    ensures PauseCount(WalletPauseMs, WalletEvents(keys, w, counts, oracle)) == 0
  {
    if oracle.builds(keys[w]) {
      var head := [WalletStart(w)];
      var s := PhaseEvents(Swap, w, counts.swaps, oracle);
      var l := PhaseEvents(Liquidity, w, counts.liquidity, oracle);
      var last := [WalletDone(w)];
      BuiltWalletParts(keys, w, counts, oracle);
      OnePause(WalletPauseMs, WalletStart(w));
      OnePause(WalletPauseMs, WalletDone(w));
      PhasePauses(Swap, w, counts.swaps, oracle, WalletPauseMs);
      PhasePauses(Liquidity, w, counts.liquidity, oracle, WalletPauseMs);
      PauseCountAppend(WalletPauseMs, head, s);
      PauseCountAppend(WalletPauseMs, head + s, l);
      PauseCountAppend(WalletPauseMs, head + s + l, last);
    } else {
      OnePause(WalletPauseMs, WalletError(w));
    }
  }

  /** A wallet warns about a skipped phase only as the first wallet, and
      only when it builds. */
  lemma WalletSkips(keys: seq<string>, w: nat, counts: Counts, oracle: Oracle, k: Kind)
    requires w < |keys|
    ensures SkipCount(k, WalletEvents(keys, w, counts, oracle)) ==
      if oracle.builds(keys[w]) && w == 0 && !Runs(CountOf(counts, k)) then 1 else 0
  {
    if oracle.builds(keys[w]) {
      var head := [WalletStart(w)];
      var s := PhaseEvents(Swap, w, counts.swaps, oracle);
      var l := PhaseEvents(Liquidity, w, counts.liquidity, oracle);
      var last := [WalletDone(w)];
      BuiltWalletParts(keys, w, counts, oracle);
      OneSkip(k, WalletStart(w));
      OneSkip(k, WalletDone(w));
      PhaseQuiet(Swap, w, counts.swaps, oracle, k);
      PhaseQuiet(Liquidity, w, counts.liquidity, oracle, k);
      SkipCountAppend(k, head, s);
      SkipCountAppend(k, head + s, l);
      SkipCountAppend(k, head + s + l, last);
    } else {
      OneSkip(k, WalletError(w));
    }
  }

  /** In a log split into a part with no liquidity attempt and a part with
      no swap attempt, every swap attempt comes before every liquidity one. */
  lemma AttemptsOrdered(a: seq<Event>, b: seq<Event>)
    requires AttemptNumbers(Liquidity, a) == [] && AttemptNumbers(Swap, b) == []
    ensures var t := a + b;
      forall p, q :: (0 <= p < |t| && 0 <= q < |t| && t[p].Attempt? && t[p].kind == Swap
        && t[q].Attempt? && t[q].kind == Liquidity) ==> p < q
  {
    AttemptAbsent(Liquidity, a);
    AttemptAbsent(Swap, b);
  }

  /** Within one wallet every swap is attempted before any liquidity addition. */
  lemma SwapsBeforeLiquidity(keys: seq<string>, w: nat, counts: Counts, oracle: Oracle)
    requires w < |keys|
    ensures var t := WalletEvents(keys, w, counts, oracle);
      forall p, q :: (0 <= p < |t| && 0 <= q < |t| && t[p].Attempt? && t[p].kind == Swap
        && t[q].Attempt? && t[q].kind == Liquidity) ==> p < q
  {
    if oracle.builds(keys[w]) {
      var head := [WalletStart(w)] + PhaseEvents(Swap, w, counts.swaps, oracle);
      var rest := PhaseEvents(Liquidity, w, counts.liquidity, oracle) + [WalletDone(w)];
      SwapPartHasNoLiquidity(w, counts, oracle);
      LiquidityPartHasNoSwap(w, counts, oracle);
      BuiltWalletParts(keys, w, counts, oracle);
      assert WalletEvents(keys, w, counts, oracle) == head + rest;
      AttemptsOrdered(head, rest);
    } else {
      AttemptAbsent(Swap, WalletEvents(keys, w, counts, oracle));
    }
  }

  lemma SwapPartHasNoLiquidity(w: nat, counts: Counts, oracle: Oracle)
    ensures AttemptNumbers(Liquidity, [WalletStart(w)] + PhaseEvents(Swap, w, counts.swaps, oracle)) == []
  {
    PhaseAttempts(Swap, w, counts.swaps, oracle, Liquidity);
    OneAttempt(Liquidity, WalletStart(w));
    AttemptNumbersAppend(Liquidity, [WalletStart(w)], PhaseEvents(Swap, w, counts.swaps, oracle));
  }

  lemma LiquidityPartHasNoSwap(w: nat, counts: Counts, oracle: Oracle)
    ensures AttemptNumbers(Swap, PhaseEvents(Liquidity, w, counts.liquidity, oracle) + [WalletDone(w)]) == []
  {
    PhaseAttempts(Liquidity, w, counts.liquidity, oracle, Swap);
    OneAttempt(Swap, WalletDone(w));
    AttemptNumbersAppend(Swap, PhaseEvents(Liquidity, w, counts.liquidity, oracle), [WalletDone(w)]);
  }

  /** A wallet's events open with its start or its error and close with
      its completion or its error. */
  lemma WalletBounds(keys: seq<string>, w: nat, counts: Counts, oracle: Oracle)
    requires w < |keys|
    ensures var t := WalletEvents(keys, w, counts, oracle);
      && |t| > 0
      && (t[0].WalletStart? || t[0].WalletError?)
      && (t[|t| - 1].WalletDone? || t[|t| - 1].WalletError?)
  {
  }

  // ---------------------------------------------------------------------
  // Properties of the cycle

  /** Wallets 0 .. w-1 are each visited once, in order, whatever earlier
      wallets did. */
  lemma {:induction false} CyclePrefixVisits(keys: seq<string>, counts: Counts, oracle: Oracle, w: nat)
    requires w <= |keys|
    ensures WalletsVisited(CyclePrefix(keys, counts, oracle, w)) == Range(0, w)
    decreases w
  {
    if w > 0 {
      var before := CyclePrefix(keys, counts, oracle, w - 1);
      var wallet := WalletEvents(keys, w - 1, counts, oracle);
      var tail := WalletPauseAfter(|keys|, w);
      CyclePrefixVisits(keys, counts, oracle, w - 1);
      WalletVisits(keys, w - 1, counts, oracle);
      if tail != [] { OneVisit(tail[0]); }
      WalletsVisitedAppend(before, wallet);
      WalletsVisitedAppend(before + wallet, tail);
    }
  }

  /** Wallets 0 .. w-1 are separated by one 10-second pause each, with
      none after the last wallet. */
  lemma {:induction false} CyclePrefixPauses(keys: seq<string>, counts: Counts, oracle: Oracle, w: nat)
    requires w <= |keys|
    ensures PauseCount(WalletPauseMs, CyclePrefix(keys, counts, oracle, w)) ==
      if w == |keys| && w > 0 then w - 1 else w
    decreases w
  {
    if w > 0 {
      var before := CyclePrefix(keys, counts, oracle, w - 1);
      var wallet := WalletEvents(keys, w - 1, counts, oracle);
      var tail := WalletPauseAfter(|keys|, w);
      CyclePrefixPauses(keys, counts, oracle, w - 1);
      WalletHasNoWalletPause(keys, w - 1, counts, oracle);
      if tail != [] { OnePause(WalletPauseMs, tail[0]); }
      PauseCountAppend(WalletPauseMs, before, wallet);
      PauseCountAppend(WalletPauseMs, before + wallet, tail);
    }
  }

  /** Among wallets 0 .. w-1 only the first can warn about a skipped phase. */
  lemma {:induction false} CyclePrefixSkips(keys: seq<string>, counts: Counts, oracle: Oracle, w: nat, k: Kind)
    requires w <= |keys|
    ensures SkipCount(k, CyclePrefix(keys, counts, oracle, w)) ==
      if w > 0 && oracle.builds(keys[0]) && !Runs(CountOf(counts, k)) then 1 else 0
    decreases w
  {
    if w > 0 {
      var before := CyclePrefix(keys, counts, oracle, w - 1);
      var wallet := WalletEvents(keys, w - 1, counts, oracle);
      var tail := WalletPauseAfter(|keys|, w);
      CyclePrefixSkips(keys, counts, oracle, w - 1, k);
      WalletSkips(keys, w - 1, counts, oracle, k);
      if tail != [] { OneSkip(k, tail[0]); }
      SkipCountAppend(k, before, wallet);
      SkipCountAppend(k, before + wallet, tail);
    }
  }

  /** Over a whole cycle every wallet is visited exactly once and in order
      (an error in one wallet does not stop the next), there are exactly
      |keys| - 1 pauses of 10 seconds, and a skipped phase is warned about
      once, for the first wallet, when that wallet builds. */
  lemma CycleViews(keys: seq<string>, counts: Counts, oracle: Oracle, k: Kind)
    ensures WalletsVisited(CycleEvents(keys, counts, oracle)) == Range(0, |keys|)
    ensures PauseCount(WalletPauseMs, CycleEvents(keys, counts, oracle)) ==
      if |keys| > 0 then |keys| - 1 else 0
    ensures SkipCount(k, CycleEvents(keys, counts, oracle)) ==
      if |keys| > 0 && oracle.builds(keys[0]) && !Runs(CountOf(counts, k)) then 1 else 0
  {
    var body := CyclePrefix(keys, counts, oracle, |keys|);
    CyclePrefixVisits(keys, counts, oracle, |keys|);
    CyclePrefixPauses(keys, counts, oracle, |keys|);
    CyclePrefixSkips(keys, counts, oracle, |keys|, k);
    OneVisit(CycleDone);
    OnePause(WalletPauseMs, CycleDone);
    OneSkip(k, CycleDone);
    WalletsVisitedAppend(body, [CycleDone]);
    PauseCountAppend(WalletPauseMs, body, [CycleDone]);
    SkipCountAppend(k, body, [CycleDone]);
  }

  /** An event that opens a wallet's part of the log. */
  predicate Opens(e: Event) {
    e.WalletStart? || e.WalletError?
  }

  /** Every 10-second pause of `t`, except possibly its last event, is
      followed by the opening of a wallet. */
  predicate PausesOpenWallets(t: seq<Event>) {
    forall p :: 0 <= p < |t| - 1 && t[p] == Pause(WalletPauseMs) ==> Opens(t[p + 1])
  }

  /** Appending one wallet and its optional pause to a log that ends in a
      pause (or is empty) keeps every pause followed by a wallet. */
  lemma ExtendByWallet(before: seq<Event>, wallet: seq<Event>, tail: seq<Event>)
    requires PausesOpenWallets(before)
    requires before == [] || before[|before| - 1] == Pause(WalletPauseMs)
    requires |wallet| > 0 && Opens(wallet[0])
    requires forall p :: 0 <= p < |wallet| ==> wallet[p] != Pause(WalletPauseMs)
    requires tail == [] || tail == [Pause(WalletPauseMs)]
    ensures PausesOpenWallets(before + wallet + tail)
    ensures (before + wallet + tail)[|before + wallet + tail| - 1] == Pause(WalletPauseMs) <==> tail != []
  {
    var t := before + wallet + tail;
    forall p | 0 <= p < |t| - 1 && t[p] == Pause(WalletPauseMs)
      ensures Opens(t[p + 1])
    {
      if p < |before| - 1 {
        assert t[p] == before[p] && t[p + 1] == before[p + 1];
      } else if p == |before| - 1 {
        assert t[p + 1] == wallet[0];
      }
    }
  }

  /** A wallet's events open it and hold no 10-second pause. */
  lemma WalletOpensWithoutPause(keys: seq<string>, w: nat, counts: Counts, oracle: Oracle)
    requires w < |keys|
    ensures var t := WalletEvents(keys, w, counts, oracle);
      |t| > 0 && Opens(t[0]) && forall p :: 0 <= p < |t| ==> t[p] != Pause(WalletPauseMs)
  {
    WalletBounds(keys, w, counts, oracle);
    WalletHasNoWalletPause(keys, w, counts, oracle);
    PauseAbsent(WalletPauseMs, WalletEvents(keys, w, counts, oracle));
  }

  /** In wallets 0 .. w-1 every 10-second pause but a trailing one is
      followed by the start (or the error) of the next wallet, and the
      prefix ends in that pause exactly when more wallets follow. */
  lemma {:induction false} CyclePrefixPausesSeparate(keys: seq<string>, counts: Counts, oracle: Oracle, w: nat)
    requires w <= |keys|
    ensures var t := CyclePrefix(keys, counts, oracle, w);
      && PausesOpenWallets(t)
      && (w > 0 ==> |t| > 0 && (t[|t| - 1] == Pause(WalletPauseMs) <==> w < |keys|))
      && (w == 0 ==> t == [])
    decreases w
  {
    if w > 0 {
      var before := CyclePrefix(keys, counts, oracle, w - 1);
      var wallet := WalletEvents(keys, w - 1, counts, oracle);
      var tail := WalletPauseAfter(|keys|, w);
      CyclePrefixPausesSeparate(keys, counts, oracle, w - 1);
      WalletOpensWithoutPause(keys, w - 1, counts, oracle);
      assert CyclePrefix(keys, counts, oracle, w) == before + wallet + tail;
      ExtendByWallet(before, wallet, tail);
    }
  }

  /** The 10-second pause falls only between wallets: each one is
      immediately followed by the next wallet's start or error, so none
      comes after the last wallet. */
  lemma CyclePausesBetweenWallets(keys: seq<string>, counts: Counts, oracle: Oracle)
    ensures var t := CycleEvents(keys, counts, oracle);
      forall p :: 0 <= p < |t| && t[p] == Pause(WalletPauseMs) ==> p + 1 < |t| && Opens(t[p + 1])
  {
    var body := CyclePrefix(keys, counts, oracle, |keys|);
    var t := body + [CycleDone];
    assert CycleEvents(keys, counts, oracle) == t;
    CyclePrefixPausesSeparate(keys, counts, oracle, |keys|);
    forall p | 0 <= p < |t| && t[p] == Pause(WalletPauseMs)
      ensures p + 1 < |t| && Opens(t[p + 1])
    {
      assert p < |body| && t[p] == body[p];
      assert p != |body| - 1;
      assert t[p + 1] == body[p + 1];
    }
  }
}
