/** Picking the network to join: the strongest scanned one that some known access point entry fits. */
module Multi {
  import opened Wrappers
  import opened Scan

  const INT_MIN := -0x8000_0000

  datatype AccessPoint = AccessPoint(ssid: string, passphrase: Option<string>)

  /** What to connect to. */
  datatype Choice = Choice(ssid: string, passphrase: Option<string>, bssid: seq<Byte>, channel: int)

  datatype ScanAnswer = Running | Failed | Found(networks: seq<ApRecord>)

  /** What a run goes on to do after the scan. */
  datatype Decision = WaitForScan | StartScan | Connect(choice: Choice) | NoMatch

  /** The scan's answer as it reaches `run`, squeezed through `int16_t` into an `int8_t`. */
  function ScanResult(answer: ScanAnswer): int {
    match answer
    case Running => SCAN_RUNNING
    case Failed => SCAN_FAILED
    case Found(networks) => ToInt8(ToInt16(|networks|))
  }

  /** The networks that are looked at. */
  function Considered(networks: seq<ApRecord>): seq<ApRecord> {
    var n := ToInt8(ToInt16(|networks|));
    if 0 <= n <= |networks| then networks[..n] else []
  }

  lemma ConsideredCount(networks: seq<ApRecord>)
    ensures var n := ToInt8(ToInt16(|networks|));
            && (0 <= n ==> n <= |networks|)
            && n == (if |networks| % 256 < 128 then |networks| % 256 else |networks| % 256 - 256)
  {
    NarrowTwice(|networks|);
  }

  lemma ModShift(y: int, k: int)
    ensures (y - 256 * k) % 256 == y % 256
  {
  }

  lemma NarrowTwice(x: nat)
    ensures ToInt8(ToInt16(x)) == if x % 256 < 128 then x % 256 else x % 256 - 256
  {
    var q := (x + 0x8000) / TWO_TO_THE_16;
    assert ToInt16(x) == x - TWO_TO_THE_16 * q;
    ModShift(x + 128, 256 * q);
    NarrowOnce(x);
  }

  lemma NarrowOnce(x: nat)
    ensures ToInt8(x) == if x % 256 < 128 then x % 256 else x % 256 - 256
  {
    assert x == 256 * (x / 256) + x % 256;
    ModShift(x + 128, x / 256);
  }

  // ----- What the choice should be --------------------------------------------------------

  /** The entry added last for a network name; earlier ones are never looked at. */
  function LastEntry(aps: seq<AccessPoint>, ssid: string): Option<AccessPoint> {
    if aps == [] then None
    else if aps[|aps| - 1].ssid == ssid then Some(aps[|aps| - 1])
    else LastEntry(aps[..|aps| - 1], ssid)
  }

  predicate Eligible(aps: seq<AccessPoint>, network: ApRecord) {
    var entry := LastEntry(aps, network.ssid);
    entry.Some? && (network.isOpen || entry.value.passphrase.Some?)
  }

  /** The earliest of the strongest eligible networks. */
  ghost predicate IsBest(aps: seq<AccessPoint>, networks: seq<ApRecord>, i: nat) {
    && i < |networks| && Eligible(aps, networks[i])
    && forall j | 0 <= j < |networks| && Eligible(aps, networks[j]) ::
         networks[j].rssi <= networks[i].rssi && (j < i ==> networks[j].rssi < networks[i].rssi)
  }

  function ChoiceOf(aps: seq<AccessPoint>, network: ApRecord): Choice
    requires Eligible(aps, network)
  {
    var entry := LastEntry(aps, network.ssid).value;
    Choice(entry.ssid, entry.passphrase, network.bssid, network.channel)
  }

  ghost predicate RightDecision(aps: seq<AccessPoint>, answer: ScanAnswer, decision: Decision) {
    if ScanResult(answer) == SCAN_RUNNING then decision == WaitForScan
    else if ScanResult(answer) < 0 then decision == StartScan
    else
      var networks := Considered(answer.networks);
      if forall i | 0 <= i < |networks| :: !Eligible(aps, networks[i]) then decision == NoMatch
      else exists i: nat :: IsBest(aps, networks, i) && decision == Connect(ChoiceOf(aps, networks[i]))
  }

  // ----- The list and the search --------------------------------------------------------------

  class WiFiMulti {
    var apList: seq<AccessPoint>

    constructor ()
      ensures apList == []
    {
      apList := [];
    }

    /** An empty passphrase is stored as none; the two flags say whether copying the strings succeeds. */
    method AddAP(ssid: Option<string>, passphrase: Option<string>, ssidCopied: bool, passphraseCopied: bool)
      returns (ok: bool)
      modifies this
      ensures ok <==> && ssid.Some? && 1 <= |ssid.value| <= 31
                      && (passphrase.Some? ==> |passphrase.value| <= 64)
                      && ssidCopied && (passphrase.Some? && passphrase.value != "" ==> passphraseCopied)
      ensures !ok ==> apList == old(apList)
      ensures ok ==> apList == old(apList) + [AccessPoint(ssid.value, if passphrase == Some("") then None else passphrase)]
    {
      if ssid.None? || |ssid.value| == 0 || |ssid.value| > 31 {
        return false;
      }
      if passphrase.Some? && |passphrase.value| > 64 {
        return false;
      }
      if !ssidCopied {
        return false;
      }
      var stored: Option<string> := None;
      if passphrase.Some? && |passphrase.value| != 0 {
        if !passphraseCopied {
          return false;
        }
        stored := passphrase;
      }
      apList := apList + [AccessPoint(ssid.value, stored)];
      return true;
    }

    /** Whether an entry matches, found by walking the list from its end. */
    method FindLast(ssid: string) returns (entry: Option<AccessPoint>)
      ensures entry == LastEntry(apList, ssid)
    {
      entry := None;
      var x: nat := |apList|;
      assert apList[..x] == apList;
      while x > 0
        invariant x <= |apList| && LastEntry(apList, ssid) == LastEntry(apList[..x], ssid)
      {
        assert apList[..x][..x - 1] == apList[..x - 1];
        if ssid == apList[x - 1].ssid {
          return Some(apList[x - 1]);
        }
        x := x - 1;
      }
    }

    method Decide(answer: ScanAnswer) returns (decision: Decision)
      ensures RightDecision(apList, answer, decision) && DecidedExactly(apList, answer, decision)
    {
      decision := Choose(answer);
      RightExactly(apList, answer, decision);
    }

    /** The analysis of the scan's answer. */
    method Choose(answer: ScanAnswer) returns (decision: Decision)
      ensures RightDecision(apList, answer, decision)
    {
      var scanResult := ScanResult(answer);
      if scanResult == SCAN_RUNNING {
        return WaitForScan;
      }
      if scanResult < 0 {
        return StartScan;
      }
      var networks := answer.networks;
      ConsideredCount(networks);
      ghost var considered := Considered(networks);
      var bestNetwork: Option<AccessPoint> := None;
      var bestNetworkDb := INT_MIN;
      var bestBSSID: seq<Byte> := [];
      var bestChannel := 0;
      ghost var best: nat := 0;
      for i := 0 to scanResult
        invariant bestNetwork.None? ==> bestNetworkDb == INT_MIN && forall j | 0 <= j < i :: !Eligible(apList, considered[j])
        invariant bestNetwork.Some? ==> IsBest(apList, considered[..i], best)
        invariant bestNetwork.Some? ==>
                    && bestNetworkDb == considered[best].rssi
                    && Choice(bestNetwork.value.ssid, bestNetwork.value.passphrase, bestBSSID, bestChannel)
                       == ChoiceOf(apList, considered[best])
      {
        var network := networks[i];
        assert network == considered[i] && considered[..i + 1] == considered[..i] + [network];
        var entry := FindLast(network.ssid);
        if entry.Some? && network.rssi > bestNetworkDb && (network.isOpen || entry.value.passphrase.Some?) {
          bestNetworkDb := network.rssi;
          bestChannel := network.channel;
          bestNetwork := entry;
          bestBSSID := network.bssid;
          best := i;
        }
      }
      assert considered[..scanResult] == considered;
      if bestNetwork.Some? {
        return Connect(Choice(bestNetwork.value.ssid, bestNetwork.value.passphrase, bestBSSID, bestChannel));
      }
      return NoMatch;
    }
  }

  // ----- The decision is determined ---------------------------------------------------------------

  lemma BestIsUnique(aps: seq<AccessPoint>, networks: seq<ApRecord>, i: nat, j: nat)
    requires IsBest(aps, networks, i) && IsBest(aps, networks, j)
    ensures i == j
  {
  }

  lemma {:induction false} BestExists(aps: seq<AccessPoint>, networks: seq<ApRecord>)
    ensures (exists i: nat :: IsBest(aps, networks, i)) <==> (exists j :: 0 <= j < |networks| && Eligible(aps, networks[j]))
  {
    if networks != [] {
      var n := |networks| - 1;
      var before := networks[..n];
      BestExists(aps, before);
      if exists i: nat :: IsBest(aps, before, i) {
        var i: nat :| IsBest(aps, before, i);
        assert before[i] == networks[i];
        if Eligible(aps, networks[n]) && networks[n].rssi > networks[i].rssi {
          assert IsBest(aps, networks, n);
        } else {
          assert IsBest(aps, networks, i);
        }
      } else {
        assert forall j | 0 <= j < n :: before[j] == networks[j] && !Eligible(aps, before[j]);
        if Eligible(aps, networks[n]) {
          assert IsBest(aps, networks, n);
        }
      }
    }
  }

  /** One decision is right, and only one. */
  lemma DecisionIsUnique(aps: seq<AccessPoint>, answer: ScanAnswer, d1: Decision, d2: Decision)
    requires RightDecision(aps, answer, d1) && RightDecision(aps, answer, d2)
    ensures d1 == d2
  {
    if ScanResult(answer) >= 0 {
      var networks := Considered(answer.networks);
      if exists i :: 0 <= i < |networks| && Eligible(aps, networks[i]) {
        var i: nat :| IsBest(aps, networks, i) && d1 == Connect(ChoiceOf(aps, networks[i]));
        var j: nat :| IsBest(aps, networks, j) && d2 == Connect(ChoiceOf(aps, networks[j]));
        BestIsUnique(aps, networks, i, j);
      }
    }
  }

  /** There always is one: the specification asks for nothing impossible. */
  lemma DecisionExists(aps: seq<AccessPoint>, answer: ScanAnswer) returns (decision: Decision)
    ensures RightDecision(aps, answer, decision)
  {
    if ScanResult(answer) == SCAN_RUNNING {
      decision := WaitForScan;
    } else if ScanResult(answer) < 0 {
      decision := StartScan;
    } else {
      var networks := Considered(answer.networks);
      BestExists(aps, networks);
      if i: nat :| IsBest(aps, networks, i) {
        decision := Connect(ChoiceOf(aps, networks[i]));
      } else {
        decision := NoMatch;
      }
    }
  }

  // ----- The decision, told from the list and the scan alone ---------------------------------------

  /** Entry k is the last of its name in the list. */
  ghost predicate IsLastOf(aps: seq<AccessPoint>, ssid: string, k: nat) {
    k < |aps| && aps[k].ssid == ssid && forall j | k < j < |aps| :: aps[j].ssid != ssid
  }

  /** The search finds exactly the last entry of the name, and nothing for a name no entry has. */
  lemma {:induction false} LastEntryExactly(aps: seq<AccessPoint>, ssid: string, entry: AccessPoint)
    ensures LastEntry(aps, ssid) == Some(entry) <==> exists k: nat :: IsLastOf(aps, ssid, k) && aps[k] == entry
  {
    if aps != [] {
      var n := |aps| - 1;
      LastEntryExactly(aps[..n], ssid, entry);
      if aps[n].ssid == ssid {
        assert IsLastOf(aps, ssid, n);
      } else {
        forall k: nat
          ensures IsLastOf(aps, ssid, k) <==> IsLastOf(aps[..n], ssid, k)
        {
          SameLastOf(aps, ssid, k);
        }
      }
    }
  }

  lemma SameLastOf(aps: seq<AccessPoint>, ssid: string, k: nat)
    requires aps != [] && aps[|aps| - 1].ssid != ssid
    ensures IsLastOf(aps, ssid, k) <==> IsLastOf(aps[..|aps| - 1], ssid, k)
  {
  }

  /** Network i can be joined with entry k: the last of its name, with a passphrase unless the network is open. */
  ghost predicate Joinable(aps: seq<AccessPoint>, networks: seq<ApRecord>, i: nat, k: nat) {
    && i < |networks| && IsLastOf(aps, networks[i].ssid, k)
    && (networks[i].isOpen || aps[k].passphrase.Some?)
  }

  lemma EligibleExactly(aps: seq<AccessPoint>, networks: seq<ApRecord>, i: nat)
    requires i < |networks|
    ensures Eligible(aps, networks[i]) <==> exists k: nat :: Joinable(aps, networks, i, k)
  {
    var ssid := networks[i].ssid;
    var found := LastEntry(aps, ssid);
    if found.Some? {
      LastEntryExactly(aps, ssid, found.value);
      var k: nat :| IsLastOf(aps, ssid, k) && aps[k] == found.value;
      assert forall m: nat | IsLastOf(aps, ssid, m) :: m == k;
      assert Eligible(aps, networks[i]) ==> Joinable(aps, networks, i, k);
    } else if k: nat :| Joinable(aps, networks, i, k) {
      LastEntryExactly(aps, ssid, aps[k]);
      assert false;
    }
  }

  /** No joinable network is stronger than network i, and none before it is as strong. */
  ghost predicate Strongest(aps: seq<AccessPoint>, networks: seq<ApRecord>, i: nat)
    requires i < |networks|
  {
    forall j: nat, k: nat | Joinable(aps, networks, j, k) ::
      networks[j].rssi <= networks[i].rssi && (j < i ==> networks[j].rssi < networks[i].rssi)
  }

  /** The first of the strongest joinable networks, by its own address and channel, with the entry for its name; or none. */
  ghost predicate ChosenRight(aps: seq<AccessPoint>, networks: seq<ApRecord>, decision: Decision) {
    if exists i: nat, k: nat :: Joinable(aps, networks, i, k) then
      exists i: nat, k: nat ::
        && Joinable(aps, networks, i, k) && Strongest(aps, networks, i)
        && decision == Connect(Choice(aps[k].ssid, aps[k].passphrase, networks[i].bssid, networks[i].channel))
    else decision == NoMatch
  }

  lemma BestIsStrongest(aps: seq<AccessPoint>, networks: seq<ApRecord>, i: nat) returns (k: nat)
    requires IsBest(aps, networks, i)
    ensures Joinable(aps, networks, i, k) && Strongest(aps, networks, i)
    ensures ChoiceOf(aps, networks[i]) == Choice(aps[k].ssid, aps[k].passphrase, networks[i].bssid, networks[i].channel)
  {
    EligibleExactly(aps, networks, i);
    k :| Joinable(aps, networks, i, k);
    LastEntryExactly(aps, networks[i].ssid, aps[k]);
    forall j: nat, m: nat | Joinable(aps, networks, j, m)
      ensures networks[j].rssi <= networks[i].rssi && (j < i ==> networks[j].rssi < networks[i].rssi)
    {
      EligibleExactly(aps, networks, j);
    }
  }

  lemma RightIsChosen(aps: seq<AccessPoint>, networks: seq<ApRecord>, decision: Decision)
    requires if forall i | 0 <= i < |networks| :: !Eligible(aps, networks[i]) then decision == NoMatch
             else exists i: nat :: IsBest(aps, networks, i) && decision == Connect(ChoiceOf(aps, networks[i]))
    ensures ChosenRight(aps, networks, decision)
  {
    if forall i | 0 <= i < |networks| :: !Eligible(aps, networks[i]) {
      forall i: nat, k: nat
        ensures !Joinable(aps, networks, i, k)
      {
        if Joinable(aps, networks, i, k) {
          EligibleExactly(aps, networks, i);
          assert false;
        }
      }
    } else {
      var i: nat :| IsBest(aps, networks, i) && decision == Connect(ChoiceOf(aps, networks[i]));
      var k := BestIsStrongest(aps, networks, i);
    }
  }

  /** What a right decision is for every scan answer, the wrapped counts included: 255 networks read as a running scan. */
  ghost predicate DecidedExactly(aps: seq<AccessPoint>, answer: ScanAnswer, decision: Decision) {
    match answer
    case Running => decision == WaitForScan
    case Failed => decision == StartScan
    case Found(networks) =>
      var n := |networks| % 256;
      if n < 128 then ChosenRight(aps, networks[..n], decision)
      else decision == if n == 255 then WaitForScan else StartScan
  }

  lemma RightExactly(aps: seq<AccessPoint>, answer: ScanAnswer, decision: Decision)
    requires RightDecision(aps, answer, decision)
    ensures DecidedExactly(aps, answer, decision)
  {
    if answer.Found? {
      ConsideredCount(answer.networks);
      if |answer.networks| % 256 < 128 {
        RightIsChosen(aps, Considered(answer.networks), decision);
      }
    }
  }

  /** Up to 127 scan results, all are looked at, and a network is chosen exactly when one is joinable. */
  lemma ChoosesAmongAll(aps: seq<AccessPoint>, networks: seq<ApRecord>, decision: Decision)
    requires |networks| <= 127 && RightDecision(aps, Found(networks), decision)
    ensures ChosenRight(aps, networks, decision)
    ensures decision.Connect? <==> exists i: nat, k: nat :: Joinable(aps, networks, i, k)
  {
    AllConsideredIff(networks);
    RightIsChosen(aps, networks, decision);
    ChosenIsConnect(aps, networks, decision);
  }

  lemma ChosenIsConnect(aps: seq<AccessPoint>, networks: seq<ApRecord>, decision: Decision)
    requires ChosenRight(aps, networks, decision)
    ensures decision.Connect? <==> exists i: nat, k: nat :: Joinable(aps, networks, i, k)
  {
  }

  /** The count wraps: all results are looked at exactly up to 127; 128 to 255 pass for no answer at all. */
  lemma AllConsideredIff(networks: seq<ApRecord>)
    ensures ScanResult(Found(networks)) >= 0 && Considered(networks) == networks <==> |networks| <= 127
    ensures 128 <= |networks| <= 255 ==> ScanResult(Found(networks)) < 0
  {
  }

  /** Adding an entry decides for its own name, hiding an earlier one with a passphrase, and for no other name. */
  lemma LaterEntryShadows(aps: seq<AccessPoint>, network: ApRecord, entry: AccessPoint)
    ensures Eligible(aps + [entry], network) <==>
            if entry.ssid == network.ssid then network.isOpen || entry.passphrase.Some? else Eligible(aps, network)
  {
    assert (aps + [entry])[..|aps|] == aps;
  }
}
