/** The `WiFiPicker` object: the AP configuration set by `init`, the
    credential map `_ssids`, and the credential file on flash, which every
    change to the map rewrites. */
module Picker {
  import opened Ap
  import opened Store
  import opened Record
  import opened Join

  /** Where `start` leaves the device: joined to a stored network, serving
      the portal from an AP started with these arguments, or still polling
      the radio for one attempt (the trace ran out before it settled). */
  datatype Boot = Online | Portal(ap: SoftAp) | StillPolling

  class WiFiPicker {
    var apSsid: string            // _ssid
    var apPass: string            // _pass
    var apHidden: bool            // _hidden
    var ssids: seq<Credential>    // _ssids, in key order
    var flash: Flash              // the file /WiFiPicker

    /** The AP configuration is normalised: an SSID, and a passphrase that
        is empty or at least 8 bytes long. */
    ghost predicate ApValid()
      reads this`apSsid, this`apPass
    {
      apSsid != "" && (apPass == "" || Utf8Length(apPass) >= 8)
    }

    /** The AP configuration is normalised and the map is in key order. */
    ghost predicate Valid()
      reads this
    {
      Sorted(ssids) && ApValid()
    }

    /** The credential map. */
    function Networks(): map<string, string>
      reads this
    {
      View(ssids)
    }

    /** `init`, reached from every constructor (the shorter ones pass "" for
        a missing SSID or passphrase and false for hidden). */
    constructor (ssid: string, pass: string, hidden: bool, chipId: ChipId, file: Flash)
      ensures Valid()
      ensures apSsid == ApSsid(ssid, chipId) && apPass == ApPass(pass) && apHidden == hidden
      ensures ssids == [] && flash == file
    {
      apSsid := ApSsid(ssid, chipId);
      apPass := ApPass(pass);
      apHidden := hidden;
      ssids := [];
      flash := file;
    }

    /** `readConfig`: replace the map by what the file holds. */
    method ReadConfig()
      requires Valid()
      modifies this`ssids
      ensures Valid() && ssids == Load(flash)
    {
      ssids := [];
      if flash.Missing? {
        return;
      }
      var rest := flash.content;
      while |rest| > 0
        invariant Sorted(ssids)
        invariant Build(ssids, Records(rest)) == Parse(flash.content)
        decreases |rest|
      {
        var (ssidLine, afterSsid) := Split(rest);
        var (passLine, afterPass) := Split(afterSsid);
        var entry := Credential(DropLast(ssidLine), DropLast(passLine));
        assert Records(rest) == [entry] + Records(afterPass);
        assert ([entry] + Records(afterPass))[1..] == Records(afterPass);
        ssids := Insert(ssids, entry);
        rest := afterPass;
      }
    }

    /** `writeConfig`: overwrite the file with every entry, in key order. */
    method WriteConfig()
      modifies this`flash
      ensures flash == Stored(Serialize(ssids))
      ensures Sorted(ssids) && NewlineFree(ssids) ==> Load(flash) == ssids
    {
      var out := "";
      var i := 0;
      while i < |ssids|
        invariant 0 <= i <= |ssids|
        invariant out == Serialize(ssids[..i])
      {
        SerializeAppend(ssids[..i], [ssids[i]]);
        assert ssids[..i + 1] == ssids[..i] + [ssids[i]];
        out := out + Line(ssids[i].ssid) + Line(ssids[i].pass);
        i := i + 1;
      }
      assert ssids[..i] == ssids;
      flash := Stored(out);
      if Sorted(ssids) && NewlineFree(ssids) {
        ParseSerialize(ssids);
      }
    }

    /** `tryConnectToSsid`: poll the statuses the radio reports after
        `WiFi.begin` until one settles the attempt. */
    method TryConnectToSsid(trace: seq<Status>) returns (v: Verdict)
      ensures v == FirstVerdict(trace)
    {
      var i := 0;
      while i < |trace|
        invariant 0 <= i <= |trace|
        invariant FirstVerdict(trace[i..]) == FirstVerdict(trace)
      {
        assert trace[i..][0] == trace[i] && trace[i..][1..] == trace[i + 1..];
        var verdict := Classify(trace[i]);
        if verdict != Waiting {
          return verdict;
        }
        i := i + 1;
      }
      return Waiting;
    }

    /** `tryConnect`: read the file, then try each credential in key order
        until one joins. */
    method TryConnect(radio: Radio) returns (v: Verdict, tried: seq<string>)
      requires Valid()
      modifies this`ssids
      ensures Valid() && ssids == Load(flash)
      ensures Outcome(tried, v) == Attempt(ssids, radio)
    {
      ReadConfig();
      tried := [];
      var i := 0;
      while i < |ssids|
        invariant 0 <= i <= |ssids|
        invariant Valid() && ssids == Load(flash)
        invariant Attempt(ssids, radio)
          == var o := Attempt(ssids[i..], radio); Outcome(tried + o.tried, o.verdict)
      {
        var entry := ssids[i];
        assert ssids[i..][0] == entry && ssids[i..][1..] == ssids[i + 1..];
        tried := tried + [entry.ssid];
        v := TryConnectToSsid(radio(entry));
        if v != Failed {
          return;
        }
        i := i + 1;
      }
      assert ssids[i..] == [];
      v := Failed;
    }

    /** `start`: join a stored network, or else start the portal's AP. */
    method Start(radio: Radio) returns (boot: Boot)
      requires Valid()
      modifies this`ssids
      ensures Valid() && ssids == Load(flash)
      ensures boot == Online <==> Attempt(ssids, radio).verdict == Joined
      ensures boot.Portal? <==> Attempt(ssids, radio).verdict == Failed
      ensures boot.Portal? ==> boot.ap == ApSetup(apSsid, apPass, apHidden)
    {
      var v, tried := TryConnect(radio);
      match v
      case Joined => boot := Online;
      case Failed => boot := Portal(ApSetup(apSsid, apPass, apHidden));
      case Waiting => boot := StillPolling;
    }

    /** `reset`: delete the file and empty the map. */
    method Reset()
      requires Valid()
      modifies this`ssids, this`flash
      ensures Valid() && ssids == [] && Networks() == map[] && flash == Missing
    {
      flash := Missing;
      ssids := [];
    }

    /** `addSsid(ssid, pass)`: store the passphrase verbatim under the SSID
        and rewrite the file. */
    method AddSsid(ssid: string, pass: string)
      requires Valid()
      modifies this`ssids, this`flash
      ensures Valid() && ssids == Insert(old(ssids), Credential(ssid, pass))
      ensures Networks() == old(Networks())[ssid := pass]
      ensures flash == Stored(Serialize(ssids))
    {
      ssids := Insert(ssids, Credential(ssid, pass));
      WriteConfig();
    }

    /** `addSsid(ssid)`: an open network, stored with an empty passphrase. */
    method AddOpenSsid(ssid: string)
      requires Valid()
      modifies this`ssids, this`flash
      ensures Valid() && ssids == Insert(old(ssids), Credential(ssid, ""))
      ensures Networks() == old(Networks())[ssid := ""]
      ensures flash == Stored(Serialize(ssids))
    {
      AddSsid(ssid, "");
    }

    /** `removeSsid`: erase the entry only when both the SSID and the stored
        passphrase match, and rewrite the file only then. */
    method RemoveSsid(ssid: string, pass: string)
      requires Valid()
      modifies this`ssids, this`flash
      ensures Valid() && ssids == Erase(old(ssids), ssid, pass)
      ensures Networks() ==
        if Holds(old(Networks()), ssid, pass) then old(Networks()) - {ssid} else old(Networks())
      ensures Holds(old(Networks()), ssid, pass) ==> flash == Stored(Serialize(ssids))
      ensures !Holds(old(Networks()), ssid, pass) ==> ssids == old(ssids) && flash == old(flash)
    {
      EraseView(ssids, ssid, pass);
      HoldsIn(ssids, ssid, pass);
      var i := 0;
      while i < |ssids|
        invariant 0 <= i <= |ssids| && ssids == old(ssids)
        invariant forall j :: 0 <= j < i ==> ssids[j] != Credential(ssid, pass)
      {
        if ssids[i].ssid == ssid && ssids[i].pass == pass {
          EraseAt(ssids, i, ssid, pass);
          ssids := ssids[..i] + ssids[i + 1..];
          WriteConfig();
          return;
        }
        i := i + 1;
      }
      assert Credential(ssid, pass) !in ssids;
    }
  }
}
