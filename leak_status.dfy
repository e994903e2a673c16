/** Extraction of the leak signal from one device-status response
    (`read_leak_status` in app.py), with the network request taken as an input. */
module LeakStatus {
  import opened Wrappers
  import opened PyValue

  /** One status entry `{'code': ..., 'value': ...}`; a missing key reads as `Null`. */
  datatype Entry = Entry(code: Value, value: Value)

  /** A status response: its `success` field (missing reads as `Null`) and its
      `result` list (missing reads as the empty list). */
  datatype Response = Response(success: Value, result: seq<Entry>)

  /** The status codes that water sensors report a leak under, in the order app.py
      lists them. */
  const LeakCodes: seq<string> := ["water_leak", "watersensor_state", "alarm", "flood"]

  /** `code in ("water_leak", "watersensor_state", "alarm", "flood")`: an exact,
      case-sensitive match against a string; a code of any other type never matches. */
  predicate IsLeakCode(code: Value)
    ensures IsLeakCode(code) <==>
              code in [Str("water_leak"), Str("watersensor_state"), Str("alarm"), Str("flood")]
  {
    code.Str? && code.s in LeakCodes
  }

  /** The reference definition of the scan: the truthiness of the value of the
      first entry with a leak code, or `None` when there is none. */
  function FirstLeak(es: seq<Entry>): (r: Option<bool>)
    ensures r.None? <==> forall i :: 0 <= i < |es| ==> !IsLeakCode(es[i].code)
  {
    if es == [] then None
    else if IsLeakCode(es[0].code) then Some(Truthy(es[0].value))
    else FirstLeak(es[1..])
  }

  /** The signal that `read_leak_status` returns for a response: `None` for a
      missing or unsuccessful response, otherwise the scan of its entries. */
  function Signal(res: Option<Response>): (r: Option<bool>)
    ensures r.None? <==>
              res.None? || !Truthy(res.value.success)
              || forall i :: 0 <= i < |res.value.result| ==> !IsLeakCode(res.value.result[i].code)
    ensures r.Some? ==> exists i :: 0 <= i < |res.value.result| && IsLeakCode(res.value.result[i].code)
                                     && r.value == Truthy(res.value.result[i].value)
  {
    if res.None? || !Truthy(res.value.success) then None
    else if FirstLeak(res.value.result).None? then None
    else
      SignalComesFromFirstLeakEntry(res.value.result);
      FirstLeak(res.value.result)
  }

  /** `read_leak_status` after the request: the early return on a bad response,
      then the `for` loop that stops at the first entry with a leak code. */
  method ReadLeakStatus(res: Option<Response>) returns (leak: Option<bool>)
    ensures leak == Signal(res)
  {
    if res.None? || !Truthy(res.value.success) {
      return None;
    }
    var statuses := res.value.result;
    leak := None;
    var i := 0;
    while i < |statuses|
      invariant 0 <= i <= |statuses|
      invariant leak == None
      invariant FirstLeak(statuses) == FirstLeak(statuses[i..])
    {
      var code := statuses[i].code;
      var value := statuses[i].value;
      if IsLeakCode(code) {
        leak := Some(Truthy(value));
        break;
      }
      assert statuses[i..][1..] == statuses[i + 1..];
      i := i + 1;
    }
  }

  // ---------------------------------------------------------------------------
  // Properties of the extraction
  // ---------------------------------------------------------------------------

  /** A missing response, or one whose `success` is falsy, yields no signal. */
  lemma BadResponseHasNoSignal(res: Option<Response>)
    requires res.None? || !Truthy(res.value.success)
    ensures Signal(res) == None
  {
  }

  /** A successful response yields no signal exactly when none of its entries
      carries a leak code. */
  lemma NoLeakCodeIffNoSignal(res: Response)
    requires Truthy(res.success)
    ensures Signal(Some(res)) == None <==>
              forall i :: 0 <= i < |res.result| ==> !IsLeakCode(res.result[i].code)
  {
  }

  /** When entry `k` is the first one with a leak code, the signal is the
      truthiness of its value, whatever the entries after it hold. */
  lemma {:induction false} FirstLeakCodeWins(es: seq<Entry>, k: nat)
    requires k < |es| && IsLeakCode(es[k].code)
    requires forall j :: 0 <= j < k ==> !IsLeakCode(es[j].code)
    ensures FirstLeak(es) == Some(Truthy(es[k].value))
  {
    if k > 0 {
      FirstLeakCodeWins(es[1..], k - 1);
    }
  }

  /** A found signal always comes from the first entry with a leak code. */
  lemma {:induction false} SignalComesFromFirstLeakEntry(es: seq<Entry>)
    requires FirstLeak(es).Some?
    ensures exists k :: 0 <= k < |es| && IsLeakCode(es[k].code)
              && (forall j :: 0 <= j < k ==> !IsLeakCode(es[j].code))
              && FirstLeak(es) == Some(Truthy(es[k].value))
  {
    if IsLeakCode(es[0].code) {
      assert IsLeakCode(es[0].code) && FirstLeak(es) == Some(Truthy(es[0].value));
    } else {
      SignalComesFromFirstLeakEntry(es[1..]);
      var k :| 0 <= k < |es[1..]| && IsLeakCode(es[1..][k].code)
              && (forall j :: 0 <= j < k ==> !IsLeakCode(es[1..][j].code))
              && FirstLeak(es[1..]) == Some(Truthy(es[1..][k].value));
      assert forall j :: 0 <= j < k + 1 ==> !IsLeakCode(es[j].code) by {
        forall j | 0 <= j < k + 1 ensures !IsLeakCode(es[j].code) {
          if j > 0 { assert es[j] == es[1..][j - 1]; }
        }
      }
      assert es[k + 1] == es[1..][k];
    }
  }

  /** Entries appended after a found leak entry do not change the signal; when
      no leak entry was found, the appended entries decide it alone. */
  lemma {:induction false} FirstLeakAppend(es: seq<Entry>, more: seq<Entry>)
    ensures FirstLeak(es + more) == if FirstLeak(es).Some? then FirstLeak(es) else FirstLeak(more)
  {
    if es == [] {
      assert es + more == more;
    } else {
      assert (es + more)[0] == es[0];
      assert (es + more)[1..] == es[1..] + more;
      FirstLeakAppend(es[1..], more);
    }
  }

  /** The entries with a leak code, in their original order. */
  function LeakEntries(es: seq<Entry>): (r: seq<Entry>)
    ensures forall i :: 0 <= i < |r| ==> IsLeakCode(r[i].code)
    ensures forall e :: e in r <==> e in es && IsLeakCode(e.code)
    ensures r == [] <==> forall i :: 0 <= i < |es| ==> !IsLeakCode(es[i].code)
    ensures |r| <= |es|
  {
    if es == [] then []
    else if IsLeakCode(es[0].code) then [es[0]] + LeakEntries(es[1..])
    else LeakEntries(es[1..])
  }

  /** Entries with unrecognised codes never influence the result: dropping them
      all leaves the signal unchanged. */
  lemma {:induction false} UnrecognisedEntriesIrrelevant(es: seq<Entry>)
    ensures FirstLeak(LeakEntries(es)) == FirstLeak(es)
  {
    if es != [] {
      UnrecognisedEntriesIrrelevant(es[1..]);
      if IsLeakCode(es[0].code) {
        assert ([es[0]] + LeakEntries(es[1..]))[0] == es[0];
      }
    }
  }

  /** Inserting one entry with an unrecognised code anywhere leaves the signal
      unchanged. */
  lemma InsertUnrecognisedEntry(es: seq<Entry>, k: nat, e: Entry)
    requires k <= |es| && !IsLeakCode(e.code)
    ensures FirstLeak(es[..k] + [e] + es[k..]) == FirstLeak(es)
  {
    FirstLeakAppend(es[..k], [e] + es[k..]);
    FirstLeakAppend(es[..k], es[k..]);
    assert es[..k] + [e] + es[k..] == es[..k] + ([e] + es[k..]);
    assert ([e] + es[k..])[1..] == es[k..];
    assert es[..k] + es[k..] == es;
  }

  /** The signal is the Python truthiness of the value, not its meaning: a
      non-empty string such as `"normal"` reads as a leak, `""` as no leak. */
  lemma StringValuesReadByLength(code: string, state: string)
    requires code in LeakCodes
    ensures Signal(Some(Response(Bool(true), [Entry(Str(code), Str(state))]))) == Some(|state| > 0)
  {
  }
}
