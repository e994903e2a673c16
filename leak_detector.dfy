/** The edge-triggered leak detector: the global `last_leak` of app.py and the
    update the main loop applies to it on every poll. */
module LeakDetector {
  import opened Wrappers

  // ---------------------------------------------------------------------------
  // Reference definition of one step
  // ---------------------------------------------------------------------------

  /** Whether a step from remembered state `last` on observation `obs` calls the
      webhook: only on a rising edge from a known `false` to `true`. */
  predicate Fires(last: Option<bool>, obs: Option<bool>)
    ensures Fires(last, obs) <==> last.Some? && Next(last, obs) != last && Next(last, obs) == Some(true)
  {
    match last
    case None => false
    case Some(known) => !known && obs == Some(true)
  }

  /** The remembered state after a step: a `None` observation is ignored, any
      other observation becomes the new state. */
  function Next(last: Option<bool>, obs: Option<bool>): (r: Option<bool>)
    ensures r == last || r == obs
    ensures obs.None? ==> r == last
    ensures r.Some? <==> last.Some? || obs.Some?
  {
    if obs.None? then last else obs
  }

  /** The process-wide `last_leak`, `None` until the first known observation. */
  class LeakTracker {
    var lastLeak: Option<bool>

    /** `last_leak = None` at start-up. */
    constructor ()
      ensures lastLeak == None
    {
      lastLeak := None;
    }

    /** One iteration of the main loop after the status read: `fired` is whether
        the webhook is called. The state follows the observation whether or not
        the webhook call succeeds, so that outcome plays no part here. */
    method Step(leak: Option<bool>) returns (fired: bool)
      modifies this
      ensures fired == Fires(old(lastLeak), leak)
      ensures lastLeak == Next(old(lastLeak), leak)
      ensures leak.None? ==> !fired && lastLeak == old(lastLeak)
      ensures old(lastLeak).None? ==> !fired
      ensures leak.Some? ==> lastLeak == leak
    {
      fired := false;
      if leak.None? {
        // nothing found in the device status: the state is left alone
      } else {
        if lastLeak.None? {
          lastLeak := leak;
        }
        if leak.value && !lastLeak.value {
          fired := true;
        }
        lastLeak := leak;
      }
    }
  }

  // ---------------------------------------------------------------------------
  // Runs of steps over a finite sequence of observations
  // ---------------------------------------------------------------------------

  /** The state after feeding `obs` to a detector that starts in `last`. */
  function Final(last: Option<bool>, obs: seq<Option<bool>>): (r: Option<bool>)
    ensures last.Some? ==> r.Some?
    decreases |obs|
  {
    if obs == [] then last else Final(Next(last, obs[0]), obs[1..])
  }

  /** The `fired` outputs, one per observation, of feeding `obs` from `last`. */
  function FiredFlags(last: Option<bool>, obs: seq<Option<bool>>): (r: seq<bool>)
    ensures |r| == |obs|
    decreases |obs|
  {
    if obs == [] then [] else [Fires(last, obs[0])] + FiredFlags(Next(last, obs[0]), obs[1..])
  }

  /** The number of webhook calls made while feeding `obs` from `last`. */
  function Triggers(last: Option<bool>, obs: seq<Option<bool>>): (r: nat)
    ensures r <= |obs|
    ensures (forall i :: 0 <= i < |obs| ==> obs[i] != Some(true)) ==> r == 0
    decreases |obs|
  {
    if obs == [] then 0
    else (if Fires(last, obs[0]) then 1 else 0) + Triggers(Next(last, obs[0]), obs[1..])
  }

  /** The known (non-`None`) observations, in order. */
  function Known(obs: seq<Option<bool>>): (r: seq<bool>)
    ensures |r| <= |obs|
  {
    if obs == [] then []
    else if obs[0].None? then Known(obs[1..])
    else [obs[0].value] + Known(obs[1..])
  }

  /** The number of `false` immediately followed by `true` in `bs`. */
  function RisingEdges(bs: seq<bool>): nat
  {
    if |bs| < 2 then 0
    else (if !bs[0] && bs[1] then 1 else 0) + RisingEdges(bs[1..])
  }

  /** The remembered state as a (possibly empty) prefix of known observations. */
  function Seed(last: Option<bool>): (r: seq<bool>)
    ensures |r| <= 1
  {
    if last.None? then [] else [last.value]
  }

  /** Counting triggers: from any start state, the webhook is called once per
      `false` to `true` transition between consecutive known observations,
      the remembered state counting as the observation before the first. */
  lemma {:induction false} TriggersAreRisingEdgesFrom(last: Option<bool>, obs: seq<Option<bool>>)
    ensures Triggers(last, obs) == RisingEdges(Seed(last) + Known(obs))
    decreases |obs|
  {
    if obs != [] {
      var rest := obs[1..];
      TriggersAreRisingEdgesFrom(Next(last, obs[0]), rest);
      if obs[0].Some? {
        var b := obs[0].value;
        assert Known(obs) == [b] + Known(rest);
        if last.Some? {
          var s := [last.value, b] + Known(rest);
          assert Seed(last) + Known(obs) == s;
          assert s[1..] == [b] + Known(rest);
        } else {
          assert Seed(last) + Known(obs) == [b] + Known(rest);
        }
      }
    }
  }

  /** From start-up, the number of triggers equals the number of `false` to
      `true` transitions among consecutive known observations; the first known
      observation only sets the baseline. */
  lemma TriggersAreRisingEdges(obs: seq<Option<bool>>)
    ensures Triggers(None, obs) == RisingEdges(Known(obs))
  {
    TriggersAreRisingEdgesFrom(None, obs);
    assert Seed(None) + Known(obs) == Known(obs);
  }

  /** The number of `true` values in `bs`. */
  function CountTrue(bs: seq<bool>): nat
  {
    if bs == [] then 0 else (if bs[0] then 1 else 0) + CountTrue(bs[1..])
  }

  /** The number of triggers is the number of steps whose `fired` output is true. */
  lemma {:induction false} TriggersCountFiredFlags(last: Option<bool>, obs: seq<Option<bool>>)
    ensures Triggers(last, obs) == CountTrue(FiredFlags(last, obs))
    decreases |obs|
  {
    if obs != [] {
      TriggersCountFiredFlags(Next(last, obs[0]), obs[1..]);
      assert FiredFlags(last, obs)[1..] == FiredFlags(Next(last, obs[0]), obs[1..]);
    }
  }

  /** The state after a run is the last known observation, or the start state
      when every observation was `None`. */
  lemma {:induction false} FinalIsLastKnown(last: Option<bool>, obs: seq<Option<bool>>)
    ensures Final(last, obs) == if Known(obs) == [] then last else Some(Known(obs)[|Known(obs)| - 1])
    decreases |obs|
  {
    if obs != [] {
      FinalIsLastKnown(Next(last, obs[0]), obs[1..]);
      if obs[0].Some? {
        var k := Known(obs[1..]);
        assert Known(obs) == [obs[0].value] + k;
        if k != [] {
          assert Known(obs)[|Known(obs)| - 1] == k[|k| - 1];
        }
      }
    }
  }

  /** `None` observations are no-ops: dropping them changes neither the count
      of triggers nor the final state. */
  lemma {:induction false} NoneObservationsIgnored(last: Option<bool>, obs: seq<Option<bool>>, k: nat)
    requires k <= |obs|
    ensures Triggers(last, obs[..k] + [None] + obs[k..]) == Triggers(last, obs)
    ensures Final(last, obs[..k] + [None] + obs[k..]) == Final(last, obs)
    decreases |obs|
  {
    var ins := obs[..k] + [None] + obs[k..];
    if k == 0 {
      assert ins[0] == None && ins[1..] == obs;
    } else {
      assert ins[0] == obs[0];
      assert ins[1..] == obs[1..][..k - 1] + [None] + obs[1..][k - 1..];
      NoneObservationsIgnored(Next(last, obs[0]), obs[1..], k - 1);
    }
  }

  // ---------------------------------------------------------------------------
  // Edge triggering
  // ---------------------------------------------------------------------------

  /** The run of `obs` split at any point is the run of the first part followed
      by the run of the rest from the state the first part leaves. */
  lemma {:induction false} RunSplits(last: Option<bool>, obs: seq<Option<bool>>, k: nat)
    requires k <= |obs|
    ensures Final(last, obs) == Final(Final(last, obs[..k]), obs[k..])
    ensures FiredFlags(last, obs) == FiredFlags(last, obs[..k]) + FiredFlags(Final(last, obs[..k]), obs[k..])
    ensures Triggers(last, obs) == Triggers(last, obs[..k]) + Triggers(Final(last, obs[..k]), obs[k..])
    decreases |obs|
  {
    if k > 0 {
      RunSplits(Next(last, obs[0]), obs[1..], k - 1);
      assert obs[..k][0] == obs[0];
      assert obs[..k][1..] == obs[1..][..k - 1];
      assert obs[1..][k - 1..] == obs[k..];
    } else {
      assert obs[..k] == [];
      assert obs[k..] == obs;
    }
  }

  /** Extending a run by one observation appends one step to it. */
  lemma RunExtends(last: Option<bool>, obs: seq<Option<bool>>, i: nat)
    requires i < |obs|
    ensures Final(last, obs[..i + 1]) == Next(Final(last, obs[..i]), obs[i])
    ensures FiredFlags(last, obs[..i + 1]) == FiredFlags(last, obs[..i]) + [Fires(Final(last, obs[..i]), obs[i])]
  {
    RunSplits(last, obs[..i + 1], i);
    assert obs[..i + 1][..i] == obs[..i];
    assert obs[..i + 1][i..] == [obs[i]];
  }

  /** A run that ends in a known `false` from a start state other than `false`
      contains a `false` observation. */
  lemma {:induction false} ReachingFalseNeedsFalse(last: Option<bool>, obs: seq<Option<bool>>)
    requires last != Some(false) && Final(last, obs) == Some(false)
    ensures exists k :: 0 <= k < |obs| && obs[k] == Some(false)
    decreases |obs|
  {
    if obs[0] == Some(false) {
      assert obs[0] == Some(false);
    } else {
      ReachingFalseNeedsFalse(Next(last, obs[0]), obs[1..]);
      var k :| 0 <= k < |obs[1..]| && obs[1..][k] == Some(false);
      assert obs[k + 1] == Some(false);
    }
  }

  /** Edge triggering, one trigger per onset: a step fires only on a `true`
      observation that follows a known `false`, and between any two triggers
      the run observes a `false`. */
  lemma OneTriggerPerOnset(last: Option<bool>, obs: seq<Option<bool>>, i: nat, j: nat)
    requires i < j < |obs|
    requires FiredFlags(last, obs)[i] && FiredFlags(last, obs)[j]
    ensures obs[i] == Some(true) && obs[j] == Some(true)
    ensures exists k :: i < k < j && obs[k] == Some(false)
  {
    FiredAt(last, obs, i);
    FiredAt(last, obs, j);
    var mid := Final(last, obs[..i + 1]);
    RunSplits(last, obs[..j], i + 1);
    assert obs[..j][..i + 1] == obs[..i + 1];
    RunSplits(last, obs[..i + 1], i);
    assert obs[..i + 1][..i] == obs[..i];
    assert obs[..i + 1][i..] == [obs[i]];
    assert mid == Some(true);
    ReachingFalseNeedsFalse(mid, obs[..j][i + 1..]);
    var k :| 0 <= k < |obs[..j][i + 1..]| && obs[..j][i + 1..][k] == Some(false);
    assert obs[i + 1 + k] == Some(false);
  }

  /** The flag of step `i` is `Fires` applied to the state the first `i`
      observations leave and the `i`-th observation. */
  lemma FiredAt(last: Option<bool>, obs: seq<Option<bool>>, i: nat)
    requires i < |obs|
    ensures FiredFlags(last, obs)[i] == Fires(Final(last, obs[..i]), obs[i])
  {
    RunSplits(last, obs, i);
    assert obs[i..][0] == obs[i];
  }

  /** A detector already in the leak state ignores any number of repeated leak
      reports; from a known `false` they fire exactly once. */
  lemma {:induction false} RepeatedLeakFiresAtMostOnce(last: Option<bool>, n: nat)
    ensures Triggers(last, seq(n, _ => Some(true))) == if last == Some(false) && n > 0 then 1 else 0
    decreases n
  {
    if n > 0 {
      var obs := seq(n, _ => Some(true));
      assert obs[1..] == seq(n - 1, _ => Some(true));
      RepeatedLeakFiresAtMostOnce(Some(true), n - 1);
    }
  }

  /** The sequence `false, true, true, false, true` fires exactly twice. */
  lemma TwoOnsetsFireTwice()
    ensures Triggers(None, [Some(false), Some(true), Some(true), Some(false), Some(true)]) == 2
  {
  }

  /** Polls reporting leak, leak, no leak, leak from start-up fire only on the
      fourth. */
  lemma LeakAtStartupThenOnset()
    ensures FiredFlags(None, [Some(true), Some(true), Some(false), Some(true)]) == [false, false, false, true]
  {
  }
}
