/** Loading of the numbered wallet keys PRIVATE_KEY_1, PRIVATE_KEY_2, ...
    from the process environment. */
module PrivateKeys {

  /** The environment, restricted to the variables PRIVATE_KEY_<i>:
      suffix index i maps to the variable's value. */
  type Env = map<int, string>

  /** Index i is present when PRIVATE_KEY_<i> is set to a non-empty string;
      an unset or empty variable is falsy and ends the scan. */
  predicate Present(env: Env, i: int) {
    i in env && env[i] != ""
  }

  /** A value is kept when it starts with "0x" and is 66 characters long. */
  predicate WellFormed(pk: string) {
    |pk| == 66 && pk[0] == '0' && pk[1] == 'x'
  }

  /** The scan stops at `stop`: indices 1 .. stop-1 are present and `stop` is not.
      Presence is spelled out inside the quantifier so that its `j in env`
      matches the precondition of `Selected`. */
  predicate StopsAt(env: Env, stop: int) {
    1 <= stop && !Present(env, stop) && forall j :: 1 <= j < stop ==> j in env && env[j] != ""
  }

  /** The indices j in lo .. hi-1, in increasing order, whose value is
      well-formed (when `wellFormed` holds) or malformed (when it does not). */
  function Selected(env: Env, lo: int, hi: int, wellFormed: bool): (r: seq<int>)
    requires forall j :: lo <= j < hi ==> j in env
    ensures forall k :: 0 <= k < |r| ==> lo <= r[k] < hi && WellFormed(env[r[k]]) == wellFormed
    decreases hi - lo
  {
    if lo >= hi then []
    else
      var rest := Selected(env, lo, hi - 1, wellFormed);
      if WellFormed(env[hi - 1]) == wellFormed then rest + [hi - 1] else rest
  }

  /** The values stored at the given indices, in the same order. */
  function ValuesAt(env: Env, idx: seq<int>): (r: seq<string>)
    requires forall k :: 0 <= k < |idx| ==> idx[k] in env
    ensures |r| == |idx|
    ensures forall k :: 0 <= k < |r| ==> r[k] == env[idx[k]]
  {
    if idx == [] then []
    else ValuesAt(env, idx[..|idx| - 1]) + [env[idx[|idx| - 1]]]
  }

  /** Appending an index appends its value. */
  lemma ValuesAtSnoc(env: Env, idx: seq<int>, x: int)
    requires forall k :: 0 <= k < |idx| ==> idx[k] in env
    requires x in env
    ensures ValuesAt(env, idx + [x]) == ValuesAt(env, idx) + [env[x]]
  {
    assert (idx + [x])[..|idx|] == idx;
  }

  /** Scanning one more index extends the kept (or the skipped) indices by it. */
  lemma SelectedStep(env: Env, i: int, wellFormed: bool)
    requires forall j :: 1 <= j <= i ==> j in env
    requires 1 <= i
    ensures Selected(env, 1, i + 1, wellFormed) ==
      if WellFormed(env[i]) == wellFormed then Selected(env, 1, i, wellFormed) + [i]
      else Selected(env, 1, i, wellFormed)
  {
  }

  /** One step of the scan: index i is present, and its value joins the
      keys or its index joins the skipped ones. */
  lemma ScanStep(env: Env, i: int, keys: seq<string>, skipped: seq<int>)
    requires 1 <= i && forall j :: 1 <= j <= i ==> j in env
    requires keys == ValuesAt(env, Selected(env, 1, i, true))
    requires skipped == Selected(env, 1, i, false)
    ensures ValuesAt(env, Selected(env, 1, i + 1, true)) ==
      keys + (if WellFormed(env[i]) then [env[i]] else [])
    ensures Selected(env, 1, i + 1, false) == skipped + (if WellFormed(env[i]) then [] else [i])
  {
    SelectedStep(env, i, true);
    SelectedStep(env, i, false);
    if WellFormed(env[i]) {
      ValuesAtSnoc(env, Selected(env, 1, i, true), i);
    }
  }

  /** The indices from i on that the environment holds: the ones the scan
      may still visit. */
  function Unscanned(env: Env, i: int): (r: set<int>)
    ensures forall j :: j in r <==> j in env && i <= j
  {
    set j | j in env.Keys && i <= j
  }

  /** Visiting a present index leaves fewer to visit. */
  lemma UnscannedShrinks(env: Env, i: int)
    requires i in env
    ensures |Unscanned(env, i + 1)| < |Unscanned(env, i)|
  {
    var rest := Unscanned(env, i + 1);
    assert Unscanned(env, i) == rest + {i};
    assert i !in rest;
  }

  /** The scan of index.js: walks i = 1, 2, ... while PRIVATE_KEY_<i> is
      present, keeping the well-formed values and reporting the index of
      every malformed one (each such index stands for one warning line).
      `stop` is the index at which the scan ended. */
  method LoadPrivateKeys(env: Env) returns (keys: seq<string>, skipped: seq<int>, stop: int)
    ensures StopsAt(env, stop)
    ensures keys == ValuesAt(env, Selected(env, 1, stop, true))
    ensures skipped == Selected(env, 1, stop, false)
  {
    keys, skipped := [], [];
    var i := 1;
    while Present(env, i)
      invariant 1 <= i
      invariant forall j :: 1 <= j < i ==> j in env && env[j] != ""
      invariant keys == ValuesAt(env, Selected(env, 1, i, true))
      invariant skipped == Selected(env, 1, i, false)
      decreases |Unscanned(env, i)|
    {
      var pk := env[i];
      ScanStep(env, i, keys, skipped);
      if WellFormed(pk) {
        keys := keys + [pk];
      } else {
        skipped := skipped + [i];
      }
      UnscannedShrinks(env, i);
      i := i + 1;
    }
    stop := i;
  }

  /** Every returned key is well-formed. */
  lemma KeptAreWellFormed(env: Env, stop: int)
    requires StopsAt(env, stop)
    ensures forall k :: 0 <= k < |ValuesAt(env, Selected(env, 1, stop, true))| ==>
      WellFormed(ValuesAt(env, Selected(env, 1, stop, true))[k])
  {
  }

  /** Each scanned index is either kept or skipped, never both, and the
      two lists are in strictly increasing index order. */
  lemma {:induction false} SelectedExactly(env: Env, lo: int, hi: int, wellFormed: bool)
    requires forall j :: lo <= j < hi ==> j in env
    ensures forall j :: j in Selected(env, lo, hi, wellFormed) <==>
      lo <= j < hi && WellFormed(env[j]) == wellFormed
    ensures forall a, b :: 0 <= a < b < |Selected(env, lo, hi, wellFormed)| ==>
      Selected(env, lo, hi, wellFormed)[a] < Selected(env, lo, hi, wellFormed)[b]
    decreases hi - lo
  {
    if lo < hi {
      SelectedExactly(env, lo, hi - 1, wellFormed);
    }
  }

  /** Every scanned index lands in exactly one of the two lists. */
  lemma KeptOrSkipped(env: Env, stop: int)
    requires StopsAt(env, stop)
    ensures forall j :: 1 <= j < stop ==>
      (j in Selected(env, 1, stop, true) <==> j !in Selected(env, 1, stop, false))
    ensures forall j :: (j in Selected(env, 1, stop, true) || j in Selected(env, 1, stop, false)) ==> 1 <= j < stop
  {
    SelectedExactly(env, 1, stop, true);
    SelectedExactly(env, 1, stop, false);
  }

  /** Kept and skipped indices together account for every scanned index. */
  lemma {:induction false} SelectedPartition(env: Env, lo: int, hi: int)
    requires lo <= hi
    requires forall j :: lo <= j < hi ==> j in env
    ensures |Selected(env, lo, hi, true)| + |Selected(env, lo, hi, false)| == hi - lo
    decreases hi - lo
  {
    if lo < hi {
      SelectedPartition(env, lo, hi - 1);
    }
  }

  /** The outcome of a scan that stopped at `stop` depends only on
      indices 1 .. stop: any environment that agrees on them stops at
      the same index and yields the same kept and skipped lists, so no
      index beyond `stop` is examined. */
  lemma OnlyPrefixExamined(env: Env, env': Env, stop: int)
    requires StopsAt(env, stop)
    requires forall j :: 1 <= j < stop ==> j in env' && env'[j] == env[j]
    requires !Present(env', stop)
    ensures StopsAt(env', stop)
    ensures Selected(env', 1, stop, true) == Selected(env, 1, stop, true)
    ensures Selected(env', 1, stop, false) == Selected(env, 1, stop, false)
    ensures ValuesAt(env', Selected(env', 1, stop, true)) == ValuesAt(env, Selected(env, 1, stop, true))
  {
    SelectedAgree(env, env', 1, stop);
  }

  /** Two environments that agree on lo .. hi-1 select the same indices. */
  lemma {:induction false} SelectedAgree(env: Env, env': Env, lo: int, hi: int)
    requires forall j :: lo <= j < hi ==> j in env && j in env' && env'[j] == env[j]
    ensures Selected(env', lo, hi, true) == Selected(env, lo, hi, true)
    ensures Selected(env', lo, hi, false) == Selected(env, lo, hi, false)
    decreases hi - lo
  {
    if lo < hi {
      SelectedAgree(env, env', lo, hi - 1);
    }
  }
}
