/** Joining a network. `tryConnectToSsid` calls `WiFi.begin` and then polls
    `WiFi.status()` every 500 ms until a status settles the attempt;
    `tryConnect` tries the stored credentials in key order until one joins.
    The radio is an input here: for each credential, the finite sequence of
    statuses it reports after `WiFi.begin` with that credential. */
module Join {
  import Lex
  import opened Store

  /** The `wl_status_t` values the switch names, and every other one. */
  datatype Status =
    | Connected          // WL_CONNECTED
    | NoShield           // WL_NO_SHIELD
    | NoSsidAvail        // WL_NO_SSID_AVAIL
    | ConnectFailed      // WL_CONNECT_FAILED
    | ConnectionLost     // WL_CONNECTION_LOST
    | Disconnected       // WL_DISCONNECTED
    | OtherStatus        // any value the switch does not name, e.g. WL_IDLE_STATUS

  /** The outcome of polling: joined, failed, or still waiting for a
      status that settles it. */
  datatype Verdict = Joined | Failed | Waiting

  /** The statuses the radio reports after `WiFi.begin` with a credential. */
  type Radio = Credential -> seq<Status>

  /** The switch in `tryConnectToSsid`. */
  function Classify(s: Status): Verdict
  {
    match s
    case Connected => Joined
    case NoShield | NoSsidAvail | ConnectFailed | ConnectionLost => Failed
    case Disconnected | OtherStatus => Waiting
  }

  /** The verdict of the first status that settles the attempt; `Waiting`
      when the trace ends before one does. */
  function FirstVerdict(trace: seq<Status>): Verdict
  {
    if trace == [] then Waiting
    else if Classify(trace[0]) != Waiting then Classify(trace[0])
    else FirstVerdict(trace[1..])
  }

  /** The first settling status decides the attempt. */
  lemma {:induction false} FirstVerdictAt(trace: seq<Status>, i: nat)
    requires i < |trace| && Classify(trace[i]) != Waiting
    requires forall j :: 0 <= j < i ==> Classify(trace[j]) == Waiting
    ensures FirstVerdict(trace) == Classify(trace[i])
  {
    if i > 0 {
      assert Classify(trace[0]) == Waiting;
      FirstVerdictAt(trace[1..], i - 1);
    }
  }

  /** An attempt is still waiting exactly when no status in the trace
      settles it. */
  lemma {:induction false} FirstVerdictWaiting(trace: seq<Status>)
    ensures FirstVerdict(trace) == Waiting <==>
      forall i :: 0 <= i < |trace| ==> Classify(trace[i]) == Waiting
  {
    if trace != [] {
      FirstVerdictWaiting(trace[1..]);
      assert forall i :: 1 <= i < |trace| ==> trace[i] == trace[1..][i - 1];
    }
  }

  /** Once a status settles the attempt, later statuses are never looked at. */
  lemma {:induction false} FirstVerdictSettled(trace: seq<Status>, later: seq<Status>)
    requires FirstVerdict(trace) != Waiting
    ensures FirstVerdict(trace + later) == FirstVerdict(trace)
  {
    assert (trace + later)[0] == trace[0];
    if Classify(trace[0]) == Waiting {
      assert (trace + later)[1..] == trace[1..] + later;
      FirstVerdictSettled(trace[1..], later);
    }
  }

  /** The SSIDs `tryConnect` hands to `WiFi.begin`, in order, and how the
      last of those attempts ended. */
  datatype Outcome = Outcome(tried: seq<string>, verdict: Verdict)

  /** `tryConnect` over the store in iteration order: the first credential
      whose attempt joins ends the search; a waiting attempt never returns,
      so no later credential is tried; an empty or exhausted store fails. */
  function Attempt(creds: seq<Credential>, radio: Radio): Outcome
  {
    if creds == [] then Outcome([], Failed)
    else
      var v := FirstVerdict(radio(creds[0]));
      if v == Failed then
        var rest := Attempt(creds[1..], radio);
        Outcome([creds[0].ssid] + rest.tried, rest.verdict)
      else Outcome([creds[0].ssid], v)
  }

  /** If the credential at index k is the first one that does not fail, the
      attempts are exactly the keys up to and including k, and k decides. */
  lemma {:induction false} AttemptStopsAt(creds: seq<Credential>, radio: Radio, k: nat)
    requires k < |creds| && FirstVerdict(radio(creds[k])) != Failed
    requires forall j :: 0 <= j < k ==> FirstVerdict(radio(creds[j])) == Failed
    ensures Attempt(creds, radio) == Outcome(Keys(creds[..k + 1]), FirstVerdict(radio(creds[k])))
  {
    if k > 0 {
      assert FirstVerdict(radio(creds[0])) == Failed;
      forall j | 0 <= j < k - 1 ensures FirstVerdict(radio(creds[1..][j])) == Failed {
        assert creds[1..][j] == creds[j + 1];
      }
      AttemptStopsAt(creds[1..], radio, k - 1);
      assert creds[1..][..k] == creds[..k + 1][1..];
      assert Keys(creds[..k + 1]) == [creds[0].ssid] + Keys(creds[..k + 1][1..]);
    } else {
      assert Keys(creds[..1]) == [creds[0].ssid];
    }
  }

  /** `tryConnect` returns false exactly when every stored credential fails
      (in particular when there is none), and then it has tried them all. */
  lemma {:induction false} AttemptFails(creds: seq<Credential>, radio: Radio)
    ensures Attempt(creds, radio).verdict == Failed <==>
      forall j :: 0 <= j < |creds| ==> FirstVerdict(radio(creds[j])) == Failed
    ensures Attempt(creds, radio).verdict == Failed ==>
      Attempt(creds, radio).tried == Keys(creds)
  {
    if creds != [] {
      AttemptFails(creds[1..], radio);
      assert forall j :: 1 <= j < |creds| ==> creds[j] == creds[1..][j - 1];
      assert Keys(creds) == [creds[0].ssid] + Keys(creds[1..]);
    }
  }

  /** Every attempt but the last failed, and the attempts follow the store's
      key order from its first entry. */
  lemma {:induction false} AttemptPrefix(creds: seq<Credential>, radio: Radio)
    ensures var o := Attempt(creds, radio);
      |o.tried| <= |creds| && o.tried == Keys(creds[..|o.tried|])
      && (creds != [] ==> |o.tried| >= 1)
      && forall j :: 0 <= j < |o.tried| - 1 ==> FirstVerdict(radio(creds[j])) == Failed
  {
    if creds != [] && FirstVerdict(radio(creds[0])) == Failed {
      AttemptPrefix(creds[1..], radio);
      var rest := Attempt(creds[1..], radio);
      var n := |rest.tried|;
      assert creds[1..][..n] == creds[..n + 1][1..];
      assert Keys(creds[..n + 1]) == [creds[0].ssid] + Keys(creds[..n + 1][1..]);
      assert forall j :: 1 <= j < n + 1 ==> creds[j] == creds[1..][j - 1];
    } else if creds != [] {
      assert Keys(creds[..1]) == [creds[0].ssid];
    }
  }

  /** The attempts are made in strictly ascending SSID order. */
  lemma AttemptAscending(creds: seq<Credential>, radio: Radio)
    requires Sorted(creds)
    ensures var t := Attempt(creds, radio).tried;
      forall i, j :: 0 <= i < j < |t| ==> Lex.Below(t[i], t[j])
  {
    AttemptPrefix(creds, radio);
  }
}
