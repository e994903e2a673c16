# Leak bridge core: status extraction and edge-triggered detection

This project is a Dafny model of the decision logic in `app.py` of the Tuya
water-leak listener. The listener polls a Tuya device's status and calls a
voice-assistant webhook when a water leak starts. The model has two parts:

- **Leak-signal extraction** (`read_leak_status`, module `LeakStatus`). The
  network request is replaced by its response, passed in as an input value. A
  missing response, or one whose `success` field is falsy, gives `None`.
  Otherwise the result list is scanned in order. The result is Python's
  `bool(value)` of the first entry whose `code` is exactly one of
  `water_leak`, `watersensor_state`, `alarm` or `flood`. When no entry has
  such a code, the result is `None`.
- **Edge-triggered detector** (the global `last_leak` and the body of the main
  loop, module `LeakDetector`). The class `LeakTracker` holds `lastLeak`, and
  `Step` applies one loop iteration to it. A `None` observation changes
  nothing. The first known observation silently sets the baseline. After that,
  the webhook fires exactly on a `false` to `true` change. The state always
  becomes the observation, whether or not the webhook call succeeded.
- Module `Bridge` puts the two together for one poll (`PollOnce`) and for a
  finite run of polls (`PollLoop`).

Python values are modelled by `PyValue.Value` (`None`, booleans, integers,
strings), with `Truthy` standing for `bool()`. A missing dictionary key reads
as `Null`, and a missing `result` list reads as the empty sequence.

Runs of steps have reference functions: `Final`, `FiredFlags` and `Triggers`.
These are tied to an independent count, `RisingEdges` over the known
observations, and `PollLoop` is proved against them.

The scan takes `bool(value)` of the first recognised entry and stops there
(`break`, app.py:42-47). It never combines several recognised entries.
`FirstLeakAppend` proves that later entries, recognised or not, cannot change
the result.

The model also exposes one consequence of using `bool(value)` (app.py:46) as
the signal. Any non-empty string counts as a leak, so a sensor that reports a
state string such as `"normal"` reads as leaking (`StringValuesReadByLength`).
The model keeps this behaviour as written.

## Model

| member | source | states |
|---|---|---|
| PyValue.Truthy | app.py:46 | Python `bool()` on a status value: false exactly for `None`, `False`, `0` and `""` |
| LeakStatus.IsLeakCode | app.py:45 | a code is recognised exactly when it is one of the strings `water_leak`, `watersensor_state`, `alarm`, `flood` (the constant `LeakCodes`); the match is exact, and a code that is not a string never matches |
| LeakStatus.Signal | app.py:35-49 | the reference for `read_leak_status` after the request: `None` exactly when the response is missing, its `success` is falsy, or no entry has a recognised code; otherwise the truthiness of the value of some recognised entry (which one is fixed by `FirstLeakCodeWins`) |
| LeakStatus.FirstLeak | app.py:40-49 | the scan finds no signal exactly when no entry carries one of the four leak codes |
| LeakStatus.ReadLeakStatus | app.py:35-49 | the early return plus the `for`/`break` loop compute the reference signal `Signal(res)` |
| LeakStatus.BadResponseHasNoSignal | app.py:35-37 | a missing response or a falsy `success` gives `None` |
| LeakStatus.NoLeakCodeIffNoSignal | app.py:40-49 | for a successful response: no signal if and only if no entry has a recognised code |
| LeakStatus.FirstLeakCodeWins | app.py:42-47 | if entry k is the first with a leak code, the signal is `bool` of its value |
| LeakStatus.SignalComesFromFirstLeakEntry | app.py:42-47 | a found signal always comes from the first entry with a leak code (converse of the above) |
| LeakStatus.FirstLeakAppend | app.py:42-47 | entries after a found leak entry do not matter; otherwise the appended entries decide alone |
| LeakStatus.LeakEntries | app.py:45 | the recognised entries, in order: it keeps exactly the entries with a recognised code, and is empty exactly when no entry has one |
| LeakStatus.UnrecognisedEntriesIrrelevant | app.py:45 | removing every entry with an unrecognised code leaves the signal unchanged |
| LeakStatus.InsertUnrecognisedEntry | app.py:45 | inserting an unrecognised entry at any position leaves the signal unchanged |
| LeakStatus.StringValuesReadByLength | app.py:46 | a string value under a leak code reads as a leak exactly when it is non-empty |
| LeakDetector.Fires | app.py:57-60 | the webhook fires exactly when the state was already known and becomes `true` by changing |
| LeakDetector.Next | app.py:54-58 | the state either stays or becomes the observation; `None` leaves it unchanged; it is known once the state or the observation is known (app.py:68 runs on every non-`None` step) |
| LeakDetector.Final | app.py:51-68 | the state after a finite run of the loop; once known it stays known (`FinalIsLastKnown` gives its value) |
| LeakDetector.FiredFlags | app.py:51-68 | one fired output per loop iteration of a finite run; `FiredAt` states what each output is |
| LeakDetector.Triggers | app.py:51-68 | the number of webhook calls in a finite run: at most one per observation, and none when no observation is `true` |
| LeakDetector.RunExtends | app.py:51-68 | one more loop iteration appends one `Fires` output and applies one `Next` to the state |
| LeakDetector.LeakTracker.constructor | app.py:25 | the detector starts with no known state |
| LeakDetector.LeakTracker.Step | app.py:54-68 | fires only from known `false` on `true`; `None` changes nothing; the first known value is a silent baseline; otherwise the state becomes the observation |
| LeakDetector.TriggersAreRisingEdgesFrom | app.py:57-68 | from any start state, triggers equal the false-to-true transitions in the start state followed by the known observations |
| LeakDetector.TriggersAreRisingEdges | app.py:25-68 | from start-up, triggers equal the false-to-true transitions between consecutive known observations |
| LeakDetector.TriggersCountFiredFlags | app.py:60-63 | the trigger count equals the number of steps that fire |
| LeakDetector.FinalIsLastKnown | app.py:54-68 | after a run the state is the last known observation, or the start state if every observation was `None` |
| LeakDetector.NoneObservationsIgnored | app.py:54-55 | inserting a `None` observation anywhere changes neither the trigger count nor the final state |
| LeakDetector.RunSplits | app.py:51-68 | a run split at any point is the first part followed by the rest, started from the state the first part leaves |
| LeakDetector.FiredAt | app.py:60 | step i fires exactly when the state before it is known `false` and observation i is `true` |
| LeakDetector.OneTriggerPerOnset | app.py:60-68 | two triggers are both on `true` observations, with a `false` observation somewhere between them |
| LeakDetector.RepeatedLeakFiresAtMostOnce | app.py:60-68 | n repeated `true` observations fire once from known `false` (n > 0), and never from any other state |
| LeakDetector.TwoOnsetsFireTwice | app.py:57-68 | `false, true, true, false, true` from start-up fires exactly twice |
| LeakDetector.LeakAtStartupThenOnset | app.py:57-68 | `true, true, false, true` from start-up fires only on the fourth step |
| Bridge.Signals | app.py:53 | the signal sequence of a run of responses, element by element |
| Bridge.PollOnce | app.py:53-68 | one iteration: the step fed with the extracted signal of the response |
| Bridge.PollLoop | app.py:51-68 | a finite run of iterations outputs the reference fired flags and leaves the reference final state |
| Bridge.LeakTwiceClearThenLeakDispatchesOnce | app.py:51-68 | responses `water_leak` true, true, false, true dispatch once, on the fourth poll |

## Left out

- Environment-variable loading and the start-up check for required variables (app.py:8-17): configuration only.
- Building and connecting the `TuyaOpenAPI` client and the `openapi.get` request (app.py:20-22, 32-33): a vendor SDK and network I/O. The response is an input to the model.
- The webhook call `requests.get(VSH_URL, timeout=10)` and its exception handler (app.py:62-66): network I/O. It appears only as the `fired` output of a step. Its success or failure does not affect the state, because app.py:68 runs either way.
- `print`, `time.sleep`, the non-terminating `while True` and the outer `except` (app.py:36, 51, 55, 61, 70-74): console output, the clock and non-termination. The model covers one step and finite runs of steps. An exception raised while reading the status skips the rest of that iteration, which leaves `last_leak` unchanged and fires nothing. That is the same effect as a `None` observation, which `NoneObservationsIgnored` covers.
- Responses that make the scan raise (a `result` that is not a list, an entry that is not a dictionary) and the dictionary's own truthiness in `not res`: the model has only well-formed responses. An empty dictionary has no `success` key, so it already gives `None`.
- PyValue.Truthy: floating-point numbers and nested lists or objects as status values are not modelled.
- Credential signing, broker subscription and connection retry with backoff: this source has none of them.
