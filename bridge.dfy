/** The main loop of app.py, cut down to finitely many iterations: each
    iteration reads the device status and feeds the signal to the detector. */
module Bridge {
  import opened Wrappers
  import opened PyValue
  import opened LeakStatus
  import opened LeakDetector

  /** The signals the successive responses yield. */
  function Signals(responses: seq<Option<Response>>): (r: seq<Option<bool>>)
    ensures |r| == |responses|
    ensures forall i :: 0 <= i < |r| ==> r[i] == Signal(responses[i])
  {
    if responses == [] then [] else [Signal(responses[0])] + Signals(responses[1..])
  }

  /** One iteration of `while True`: read the status, then step the detector;
      `fired` says whether the webhook is called. */
  method PollOnce(tracker: LeakTracker, res: Option<Response>) returns (fired: bool)
    modifies tracker
    ensures fired == Fires(old(tracker.lastLeak), Signal(res))
    ensures tracker.lastLeak == Next(old(tracker.lastLeak), Signal(res))
  {
    var leak := ReadLeakStatus(res);
    fired := tracker.Step(leak);
  }

  /** The loop over a finite sequence of responses; `fired[i]` says whether
      iteration `i` calls the webhook. */
  method PollLoop(tracker: LeakTracker, responses: seq<Option<Response>>) returns (fired: seq<bool>)
    modifies tracker
    ensures fired == FiredFlags(old(tracker.lastLeak), Signals(responses))
    ensures tracker.lastLeak == Final(old(tracker.lastLeak), Signals(responses))
  {
    ghost var start := tracker.lastLeak;
    ghost var obs := Signals(responses);
    fired := [];
    var i := 0;
    while i < |responses|
      invariant 0 <= i <= |responses|
      invariant fired == FiredFlags(start, obs[..i])
      invariant tracker.lastLeak == Final(start, obs[..i])
    {
      var f := PollOnce(tracker, responses[i]);
      RunExtends(start, obs, i);
      fired := fired + [f];
      i := i + 1;
    }
    assert obs[..i] == obs;
  }

  /** A status response reporting `water_leak` with the given value. */
  function WaterLeak(leak: bool): Option<Response>
  {
    Some(Response(Bool(true), [Entry(Str("water_leak"), Bool(leak))]))
  }

  /** End to end from start-up: polls reporting leak, leak, no leak, leak give
      exactly one webhook call, on the fourth poll. */
  lemma LeakTwiceClearThenLeakDispatchesOnce()
    ensures FiredFlags(None, Signals([WaterLeak(true), WaterLeak(true), WaterLeak(false), WaterLeak(true)]))
              == [false, false, false, true]
  {
    var rs := [WaterLeak(true), WaterLeak(true), WaterLeak(false), WaterLeak(true)];
    assert Signals(rs) == [Some(true), Some(true), Some(false), Some(true)];
    LeakAtStartupThenOnset();
  }
}
