/** What each system event does to the status bits, the station status and the reconnect logic. */
module StationEvents {
  import opened Status

  datatype WlStatus =
    | NoShield | IdleStatus | NoSsidAvail | ScanCompleted | Connected | ConnectFailed | ConnectionLost | Disconnected

  /** Disconnect reasons by name; `ReasonZero` is the raw value 0. */
  datatype Reason =
    | ReasonZero | Unspecified | AuthExpire | FourWayHandshakeTimeout | GroupKeyUpdateTimeout | Auth8021xFailed
    | HandshakeTimeout | AuthLeave | AssocExpire | AssocTooMany | NotAuthed | NotAssoced | AssocNotAuthed | MicFailure
    | IeIn4WayDiffers | InvalidPmkid | BeaconTimeout | NoApFound | AssocFail | ConnectionFail | ApTsfReset | Roaming
    | AssocLeave | AuthFail | OtherReason(code: nat)

  datatype Event =
    | ScanFinished
    | StationStart | StationStop | StationConnected | StationDisconnected(reason: Reason)
    | StationGotIp | StationLostIp | StationGotIp6
    | AccessPointStart | AccessPointStop | AccessPointGotIp6
    | ClientConnected | ClientDisconnected(listOk: bool, clients: nat)
    | EthernetStart | EthernetStop | EthernetConnected | EthernetDisconnected | EthernetGotIp | EthernetGotIp6
    | OtherEvent(id: nat)

  function Normalized(reason: Reason): Reason {
    if reason == ReasonZero then Unspecified else reason
  }

  predicate IsReconnectable(reason: Reason) {
    match reason
    case Unspecified | AuthExpire | FourWayHandshakeTimeout | GroupKeyUpdateTimeout | Auth8021xFailed | HandshakeTimeout => true
    case AuthLeave | AssocExpire | AssocTooMany | NotAuthed | NotAssoced | AssocNotAuthed | MicFailure => true
    case IeIn4WayDiffers | InvalidPmkid | BeaconTimeout | NoApFound | AssocFail | ConnectionFail | ApTsfReset | Roaming => true
    case _ => false
  }

  // ----- The effects, one quantity at a time ------------------------------------------

  function BitsSet(e: Event): StatusBits {
    match e
    case ScanFinished => {ScanDone}
    case StationStart => {StaStarted}
    case StationConnected => {StaConnected}
    case StationGotIp => {StaHasIp, StaConnected}
    case StationGotIp6 => {StaConnected, StaHasIp6}
    case AccessPointStart => {ApStarted}
    case ClientConnected => {ApHasClient}
    case AccessPointGotIp6 => {ApHasIp6}
    case EthernetStart => {EthStarted}
    case EthernetConnected => {EthConnected}
    case EthernetGotIp => {EthConnected, EthHasIp}
    case EthernetGotIp6 => {EthConnected, EthHasIp6}
    case _ => {}
  }

  function BitsCleared(e: Event): StatusBits {
    match e
    case ScanFinished => {Scanning}
    case StationStop => {StaStarted, StaConnected, StaHasIp, StaHasIp6}
    case StationDisconnected(_) => {StaConnected, StaHasIp, StaHasIp6}
    case StationLostIp => {StaHasIp}
    case AccessPointStop => {ApStarted, ApHasClient}
    case ClientDisconnected(listOk, clients) => if !listOk || clients == 0 then {ApHasClient} else {}
    case EthernetStop => {EthStarted, EthConnected, EthHasIp, EthHasIp6}
    case EthernetDisconnected => {EthConnected, EthHasIp, EthHasIp6}
    case _ => {}
  }

  /** A disconnect that was not asked for. */
  predicate Involuntary(e: Event) {
    e.StationDisconnected? && e.reason != AssocLeave
  }

  /** Whether the handler starts a reconnect: always for the first involuntary disconnect, later if allowed and sensible. */
  predicate StartsReconnect(e: Event, firstConnect: bool, autoReconnect: bool) {
    Involuntary(e) && (firstConnect || (autoReconnect && IsReconnectable(Normalized(e.reason))))
  }

  function StatusAfterDisconnect(reason: Reason, wl: WlStatus, firstConnect: bool, autoReconnect: bool): WlStatus {
    match reason
    case NoApFound => NoSsidAvail
    case AuthFail => if firstConnect then Disconnected else ConnectFailed
    case BeaconTimeout | HandshakeTimeout => ConnectionLost
    case AuthExpire => wl
    case AssocFail => if firstConnect || autoReconnect then Disconnected else ConnectFailed
    case _ => Disconnected
  }

  function StatusAfter(e: Event, wl: WlStatus, firstConnect: bool, autoReconnect: bool): WlStatus {
    match e
    case StationStart => Disconnected
    case StationStop => NoShield
    case StationConnected => IdleStatus
    case StationDisconnected(reason) => StatusAfterDisconnect(Normalized(reason), wl, firstConnect, autoReconnect)
    case StationGotIp => Connected
    case StationLostIp => IdleStatus
    case _ => wl
  }

  datatype Station = Station(bits: StatusBits, wl: WlStatus, firstConnect: bool, autoReconnect: bool, reconnects: nat)

  function Handle(s: Station, e: Event): Station {
    Station((s.bits + BitsSet(e)) - BitsCleared(e),
            StatusAfter(e, s.wl, s.firstConnect, s.autoReconnect),
            s.firstConnect && !Involuntary(e),
            s.autoReconnect,
            s.reconnects + if StartsReconnect(e, s.firstConnect, s.autoReconnect) then 1 else 0)
  }

  // ----- The handler in place ------------------------------------------------------------

  class EventTask {
    var bits: StatusBits
    var wl: WlStatus
    var firstConnect: bool
    var autoReconnect: bool
    var reconnects: nat

    ghost function Value(): Station
      reads this
    {
      Station(bits, wl, firstConnect, autoReconnect, reconnects)
    }

    constructor ()
      ensures Value() == Initial()
    {
      bits, wl, firstConnect, autoReconnect, reconnects := {}, NoShield, true, true, 0;
    }

    method SetStatusBits(b: StatusBits)
      modifies this`bits
      ensures bits == old(bits) + b
    {
      bits := bits + b;
    }

    method ClearStatusBits(b: StatusBits)
      modifies this`bits
      ensures bits == old(bits) - b
    {
      bits := bits - b;
    }

    method OnDisconnected(rawReason: Reason)
      modifies this
      ensures bits == old(bits) - {StaConnected, StaHasIp, StaHasIp6}
      ensures wl == StatusAfterDisconnect(Normalized(rawReason), old(wl), old(firstConnect), autoReconnect)
      ensures firstConnect == (old(firstConnect) && rawReason == AssocLeave)
      ensures autoReconnect == old(autoReconnect)
      ensures reconnects == old(reconnects)
                            + if StartsReconnect(StationDisconnected(rawReason), old(firstConnect), autoReconnect) then 1 else 0
    {
      var reason := rawReason;
      if reason == ReasonZero {
        reason := Unspecified;
      }
      if reason == NoApFound {
        wl := NoSsidAvail;
      } else if reason == AuthFail && !firstConnect {
        wl := ConnectFailed;
      } else if reason == BeaconTimeout || reason == HandshakeTimeout {
        wl := ConnectionLost;
      } else if reason == AuthExpire {
      } else {
        wl := Disconnected;
      }
      ClearStatusBits({StaConnected, StaHasIp, StaHasIp6});
      var doReconnect := false;
      if reason == AssocLeave {
      } else if firstConnect {
        firstConnect := false;
        doReconnect := true;
      } else if autoReconnect && IsReconnectable(reason) {
        doReconnect := true;
      } else if reason == AssocFail {
        wl := ConnectFailed;
      }
      if doReconnect {
        reconnects := reconnects + 1;
      }
    }

    method EventCallback(event: Event)
      modifies this
      ensures Value() == Handle(old(Value()), event)
    {
      match event
      case ScanFinished =>
        SetStatusBits({ScanDone});
        ClearStatusBits({Scanning});
      case StationStart =>
        wl := Disconnected;
        SetStatusBits({StaStarted});
      case StationStop =>
        wl := NoShield;
        ClearStatusBits({StaStarted, StaConnected, StaHasIp, StaHasIp6});
      case StationConnected =>
        wl := IdleStatus;
        SetStatusBits({StaConnected});
      case StationDisconnected(reason) =>
        OnDisconnected(reason);
      case StationGotIp =>
        wl := Connected;
        SetStatusBits({StaHasIp, StaConnected});
      case StationLostIp =>
        wl := IdleStatus;
        ClearStatusBits({StaHasIp});
      case AccessPointStart =>
        SetStatusBits({ApStarted});
      case AccessPointStop =>
        ClearStatusBits({ApStarted, ApHasClient});
      case ClientConnected =>
        SetStatusBits({ApHasClient});
      case ClientDisconnected(listOk, clients) =>
        if !listOk || clients == 0 {
          ClearStatusBits({ApHasClient});
        }
      case EthernetStart =>
        SetStatusBits({EthStarted});
      case EthernetStop =>
        ClearStatusBits({EthStarted, EthConnected, EthHasIp, EthHasIp6});
      case EthernetConnected =>
        SetStatusBits({EthConnected});
      case EthernetDisconnected =>
        ClearStatusBits({EthConnected, EthHasIp, EthHasIp6});
      case EthernetGotIp =>
        SetStatusBits({EthConnected, EthHasIp});
      case StationGotIp6 =>
        SetStatusBits({StaConnected, StaHasIp6});
      case AccessPointGotIp6 =>
        SetStatusBits({ApHasIp6});
      case EthernetGotIp6 =>
        SetStatusBits({EthConnected, EthHasIp6});
      case OtherEvent(_) =>
    }

    method SetAutoReconnect(autoReconnect: bool)
      modifies this`autoReconnect
      ensures this.autoReconnect == autoReconnect
    {
      this.autoReconnect := autoReconnect;
    }
  }

  // ----- Whole runs ------------------------------------------------------------------------

  datatype Op = Arrives(event: Event) | SetAuto(on: bool)

  function Initial(): Station {
    Station({}, NoShield, true, true, 0)
  }

  function Step(s: Station, op: Op): Station {
    match op
    case Arrives(e) => Handle(s, e)
    case SetAuto(on) => s.(autoReconnect := on)
  }

  function Run(ops: seq<Op>): Station {
    if ops == [] then Initial() else Step(Run(ops[..|ops| - 1]), ops[|ops| - 1])
  }

  /** An address implies a connection, on both interfaces, after any events in any order. */
  lemma {:induction false} AddressImpliesConnection(ops: seq<Op>)
    ensures var bits := Run(ops).bits;
            && (StaHasIp in bits || StaHasIp6 in bits ==> StaConnected in bits)
            && (EthHasIp in bits || EthHasIp6 in bits ==> EthConnected in bits)
  {
    if ops != [] {
      AddressImpliesConnection(ops[..|ops| - 1]);
    }
  }

  /** Reason 0 is handled as UNSPECIFIED. */
  lemma ZeroReasonIsUnspecified(s: Station)
    ensures Handle(s, StationDisconnected(ReasonZero)) == Handle(s, StationDisconnected(Unspecified))
    ensures StartsReconnect(StationDisconnected(ReasonZero), s.firstConnect, s.autoReconnect)
       <==> s.firstConnect || s.autoReconnect
  {
  }

  /** Every reason leads to a retry but a deliberate leave, a refused authentication, and reasons not listed. */
  lemma ReconnectableExactly(reason: Reason)
    ensures IsReconnectable(Normalized(reason)) <==> reason != AssocLeave && reason != AuthFail && !reason.OtherReason?
  {
  }

  // ----- Every bit, from the history ----------------------------------------------------------

  /** The events that set a bit. */
  predicate Sets(e: Event, b: StatusBit) {
    match b
    case ApStarted => e == AccessPointStart
    case ApHasIp6 => e == AccessPointGotIp6
    case ApHasClient => e == ClientConnected
    case StaStarted => e == StationStart
    case StaConnected => e == StationConnected || e == StationGotIp || e == StationGotIp6
    case StaHasIp => e == StationGotIp
    case StaHasIp6 => e == StationGotIp6
    case EthStarted => e == EthernetStart
    case EthConnected => e == EthernetConnected || e == EthernetGotIp || e == EthernetGotIp6
    case EthHasIp => e == EthernetGotIp
    case EthHasIp6 => e == EthernetGotIp6
    case ScanDone => e == ScanFinished
    case Scanning | DnsIdle | DnsDone => false
  }

  /** The events that clear it. */
  predicate Clears(e: Event, b: StatusBit) {
    match b
    case ApStarted => e == AccessPointStop
    case ApHasClient => e == AccessPointStop || (e.ClientDisconnected? && (!e.listOk || e.clients == 0))
    case StaStarted => e == StationStop
    case StaConnected | StaHasIp6 => e == StationStop || e.StationDisconnected?
    case StaHasIp => e == StationStop || e.StationDisconnected? || e == StationLostIp
    case EthStarted => e == EthernetStop
    case EthConnected | EthHasIp | EthHasIp6 => e == EthernetStop || e == EthernetDisconnected
    case Scanning => e == ScanFinished
    case ApHasIp6 | ScanDone | DnsIdle | DnsDone => false
  }

  lemma SetsByEvent(e: Event, b: StatusBit)
    ensures b in BitsSet(e) <==> Sets(e, b)
  {
    match e
    case ScanFinished | StationStart | StationStop | StationConnected | StationDisconnected(_) | StationGotIp =>
    case StationLostIp | StationGotIp6 | AccessPointStart | AccessPointStop | AccessPointGotIp6 =>
    case ClientConnected | ClientDisconnected(_, _) | EthernetStart | EthernetStop | EthernetConnected =>
    case EthernetDisconnected | EthernetGotIp | EthernetGotIp6 | OtherEvent(_) =>
  }

  lemma ClearsByEvent(e: Event, b: StatusBit)
    ensures b in BitsCleared(e) <==> Clears(e, b)
  {
    match e
    case ScanFinished | StationStart | StationStop | StationConnected | StationDisconnected(_) | StationGotIp =>
    case StationLostIp | StationGotIp6 | AccessPointStart | AccessPointStop | AccessPointGotIp6 =>
    case ClientConnected | ClientDisconnected(_, _) | EthernetStart | EthernetStop | EthernetConnected =>
    case EthernetDisconnected | EthernetGotIp | EthernetGotIp6 | OtherEvent(_) =>
  }

  lemma NeverBoth(e: Event, b: StatusBit)
    ensures !(Sets(e, b) && Clears(e, b))
  {
  }

  lemma BitAfterEvent(s: Station, e: Event, b: StatusBit)
    ensures b in Handle(s, e).bits <==> Sets(e, b) || (b in s.bits && !Clears(e, b))
  {
    SetsByEvent(e, b);
    ClearsByEvent(e, b);
    NeverBoth(e, b);
  }

  /** Op i set the bit, and none has cleared it since. */
  ghost predicate SetAndKept(ops: seq<Op>, b: StatusBit, i: nat) {
    && i < |ops| && ops[i].Arrives? && Sets(ops[i].event, b)
    && forall j | i < j < |ops| :: !(ops[j].Arrives? && Clears(ops[j].event, b))
  }

  /** Each of the bits is on exactly if some event set it and no later one cleared it. */
  lemma {:induction false} BitsExactly(ops: seq<Op>, b: StatusBit)
    ensures b in Run(ops).bits <==> exists i: nat :: SetAndKept(ops, b, i)
  {
    if ops != [] {
      var n := |ops| - 1;
      BitsExactly(ops[..n], b);
      if ops[n].Arrives? {
        BitAfterEvent(Run(ops[..n]), ops[n].event, b);
      }
      forall i: nat | i < n
        ensures SetAndKept(ops, b, i) <==> SetAndKept(ops[..n], b, i) && !(ops[n].Arrives? && Clears(ops[n].event, b))
      {
        KeptSnoc(ops, b, i);
      }
      assert SetAndKept(ops, b, n) <==> ops[n].Arrives? && Sets(ops[n].event, b);
      assert b in Run(ops[..n]).bits ==> exists i: nat :: i < n && SetAndKept(ops[..n], b, i);
    }
  }

  lemma KeptSnoc(ops: seq<Op>, b: StatusBit, i: nat)
    requires i < |ops| - 1
    ensures var n := |ops| - 1;
            SetAndKept(ops, b, i) <==> SetAndKept(ops[..n], b, i) && !(ops[n].Arrives? && Clears(ops[n].event, b))
  {
    var n := |ops| - 1;
    assert forall j | 0 <= j < n :: ops[..n][j] == ops[j];
  }

  // ----- The status, from the history -----------------------------------------------------------

  /** Events that write the status, to whatever value. */
  predicate WritesStatus(op: Op) {
    IsGotIp(op) || WritesOtherStatus(op)
  }

  /** Op i wrote the status, and none has since. */
  ghost predicate LastWrite(ops: seq<Op>, i: nat) {
    i < |ops| && WritesStatus(ops[i]) && forall j | i < j < |ops| :: !WritesStatus(ops[j])
  }

  /** The status is the one the last event to write it calls for, given whether a first reconnect was made before. */
  ghost predicate StatusTold(wl: WlStatus, e: Event, retried: bool, auto: bool) {
    && (wl == Connected <==> e == StationGotIp)
    && (wl == IdleStatus <==> e == StationConnected || e == StationLostIp)
    && (wl == NoShield <==> e == StationStop)
    && (wl == NoSsidAvail <==> e == StationDisconnected(NoApFound))
    && (wl == ConnectionLost <==> e == StationDisconnected(BeaconTimeout) || e == StationDisconnected(HandshakeTimeout))
    && (wl == ConnectFailed <==> || (e == StationDisconnected(AuthFail) && retried)
                                 || (e == StationDisconnected(AssocFail) && retried && !auto))
    && wl != ScanCompleted
  }

  lemma StatusAfterWrite(s: Station, op: Op)
    requires WritesStatus(op)
    ensures StatusTold(Step(s, op).wl, op.event, !s.firstConnect, s.autoReconnect)
  {
  }

  lemma StatusKept(s: Station, op: Op)
    requires !WritesStatus(op)
    ensures Step(s, op).wl == s.wl
  {
  }

  /** After any run the status tells the last event that wrote it. */
  lemma {:induction false} StatusExactly(ops: seq<Op>, i: nat)
    requires LastWrite(ops, i)
    ensures StatusTold(Run(ops).wl, ops[i].event, HadInvoluntary(ops[..i]), AutoReconnect(ops[..i]))
  {
    var n := |ops| - 1;
    if i == n {
      FlagsOfRun(ops[..n]);
      StatusAfterWrite(Run(ops[..n]), ops[n]);
    } else {
      WrittenBefore(ops, i);
      StatusExactly(ops[..n], i);
      StatusKept(Run(ops[..n]), ops[n]);
    }
  }

  lemma WrittenBefore(ops: seq<Op>, i: nat)
    requires LastWrite(ops, i) && i < |ops| - 1
    ensures var n := |ops| - 1;
            LastWrite(ops[..n], i) && ops[..n][..i] == ops[..i] && ops[..n][i] == ops[i] && !WritesStatus(ops[n])
  {
  }

  /** Before any such event it is NO_SHIELD. */
  lemma {:induction false} StatusAtFirst(ops: seq<Op>)
    requires forall op | op in ops :: !WritesStatus(op)
    ensures Run(ops).wl == NoShield
  {
    if ops != [] {
      StatusAtFirst(ops[..|ops| - 1]);
      StatusKept(Run(ops[..|ops| - 1]), ops[|ops| - 1]);
    }
  }

  // ----- When the reported status and the address agree ---------------------------------------

  predicate IsExpiry(op: Op) {
    op.Arrives? && op.event == StationDisconnected(AuthExpire)
  }

  /** Events that write the status other than to "connected". */
  predicate WritesOtherStatus(op: Op) {
    && op.Arrives?
    && match op.event {
         case StationStart | StationStop | StationConnected | StationLostIp => true
         case StationDisconnected(reason) => reason != AuthExpire
         case _ => false
       }
  }

  predicate IsGotIp(op: Op) {
    op.Arrives? && op.event == StationGotIp
  }

  /** The last event that wrote the status was GOT_IP. */
  predicate ReportedConnected(ops: seq<Op>) {
    if ops == [] then false
    else
      var last := ops[|ops| - 1];
      IsGotIp(last) || (!WritesOtherStatus(last) && ReportedConnected(ops[..|ops| - 1]))
  }

  /** An AUTH_EXPIRE disconnect came after the last GOT_IP. */
  predicate ExpiredSince(ops: seq<Op>) {
    if ops == [] then false
    else
      var last := ops[|ops| - 1];
      IsExpiry(last) || (!IsGotIp(last) && ExpiredSince(ops[..|ops| - 1]))
  }

  /** Exactly when the station reports "connected", and exactly when it then really holds an address. */
  lemma {:induction false} ConnectedExactly(ops: seq<Op>)
    ensures Run(ops).wl == Connected <==> ReportedConnected(ops)
    ensures ReportedConnected(ops) ==> (StaHasIp in Run(ops).bits <==> !ExpiredSince(ops))
  {
    if ops != [] {
      var before, last := ops[..|ops| - 1], ops[|ops| - 1];
      ConnectedExactly(before);
      match last
      case SetAuto(_) =>
      case Arrives(e) =>
        assert Run(ops) == Handle(Run(before), e);
    }
  }

  lemma {:induction false} NoExpiryNeverExpired(ops: seq<Op>)
    requires forall op | op in ops :: !IsExpiry(op)
    ensures !ExpiredSince(ops)
  {
    if ops != [] {
      NoExpiryNeverExpired(ops[..|ops| - 1]);
    }
  }

  lemma ConnectedMeansAddress(ops: seq<Op>)
    requires forall op | op in ops :: !IsExpiry(op)
    ensures Run(ops).wl == Connected ==> StaHasIp in Run(ops).bits
  {
    ConnectedExactly(ops);
    NoExpiryNeverExpired(ops);
  }

  /** Without that condition the claim fails: an expired authentication leaves the status at "connected". */
  lemma ExpiryLeavesConnected()
    ensures var s := Run([Arrives(StationGotIp), Arrives(StationDisconnected(AuthExpire))]);
            s.wl == Connected && StaHasIp !in s.bits
  {
    var ops := [Arrives(StationGotIp), Arrives(StationDisconnected(AuthExpire))];
    assert ops[..1] == [Arrives(StationGotIp)] && ops[..1][..0] == [];
    assert Run(ops[..1]) == Step(Run([]), Arrives(StationGotIp));
  }

  /** Events that take the address away. */
  predicate DropsAddress(op: Op) {
    op.Arrives? && (op.event == StationStop || op.event == StationLostIp || op.event.StationDisconnected?)
  }

  predicate Restarts(op: Op) {
    op.Arrives? && (op.event == StationStart || op.event == StationConnected)
  }

  predicate HoldsAddress(ops: seq<Op>) {
    if ops == [] then false
    else
      var last := ops[|ops| - 1];
      IsGotIp(last) || (!DropsAddress(last) && HoldsAddress(ops[..|ops| - 1]))
  }

  /** STA_START or STA_CONNECTED came after the last GOT_IP. */
  predicate RestartedSince(ops: seq<Op>) {
    if ops == [] then false
    else
      var last := ops[|ops| - 1];
      Restarts(last) || (!IsGotIp(last) && RestartedSince(ops[..|ops| - 1]))
  }

  /** Exactly when the station holds an address, and exactly when it then also reports "connected". */
  lemma {:induction false} AddressExactly(ops: seq<Op>)
    ensures StaHasIp in Run(ops).bits <==> HoldsAddress(ops)
    ensures HoldsAddress(ops) ==> (Run(ops).wl == Connected <==> !RestartedSince(ops))
  {
    if ops != [] {
      var before, last := ops[..|ops| - 1], ops[|ops| - 1];
      AddressExactly(before);
      match last
      case SetAuto(_) =>
      case Arrives(e) =>
        assert Run(ops) == Handle(Run(before), e);
    }
  }

  /** STA_START and STA_CONNECTED arrive only while no address is held. */
  ghost predicate RestartsOnlyWithoutAddress(ops: seq<Op>) {
    forall i | 0 <= i < |ops| :: Restarts(ops[i]) ==> StaHasIp !in Run(ops[..i]).bits
  }

  lemma {:induction false} AddressMeansConnected(ops: seq<Op>)
    requires RestartsOnlyWithoutAddress(ops)
    ensures StaHasIp in Run(ops).bits ==> Run(ops).wl == Connected
  {
    if ops != [] {
      var before := ops[..|ops| - 1];
      forall i | 0 <= i < |before|
        ensures Restarts(before[i]) ==> StaHasIp !in Run(before[..i]).bits
      {
        assert before[..i] == ops[..i];
      }
      AddressMeansConnected(before);
    }
  }

  // ----- Counting reconnects -------------------------------------------------------------------

  /** A disconnect that was not asked for arrives. */
  predicate IsInvoluntary(op: Op) {
    op.Arrives? && op.event.StationDisconnected? && op.event.reason != AssocLeave
  }

  ghost predicate HadInvoluntary(ops: seq<Op>) {
    exists op :: op in ops && IsInvoluntary(op)
  }

  function AutoReconnect(ops: seq<Op>): bool {
    if ops == [] then true
    else if ops[|ops| - 1].SetAuto? then ops[|ops| - 1].on
    else AutoReconnect(ops[..|ops| - 1])
  }

  /** A later involuntary disconnect that qualifies: auto-reconnect on, no refused authentication, and a known reason. */
  ghost predicate Retries(before: seq<Op>, op: Op) {
    && IsInvoluntary(op) && HadInvoluntary(before) && AutoReconnect(before)
    && op.event.reason != AuthFail && !op.event.reason.OtherReason?
  }

  /** The positions at which that happens. */
  ghost function RetriedLater(ops: seq<Op>): set<nat> {
    set i: nat | i < |ops| && Retries(ops[..i], ops[i])
  }

  lemma RetriedSnoc(before: seq<Op>, op: Op)
    ensures RetriedLater(before + [op]) == RetriedLater(before) + if Retries(before, op) then {|before|} else {}
  {
    var ops := before + [op];
    assert ops[..|before|] == before;
    forall i: nat | i < |before|
      ensures i in RetriedLater(ops) <==> i in RetriedLater(before)
    {
      assert ops[..i] == before[..i];
    }
  }

  lemma InvoluntarySnoc(before: seq<Op>, op: Op)
    ensures HadInvoluntary(before + [op]) <==> HadInvoluntary(before) || IsInvoluntary(op)
  {
  }

  lemma {:induction false} FlagsOfRun(ops: seq<Op>)
    ensures Run(ops).firstConnect <==> !HadInvoluntary(ops)
    ensures Run(ops).autoReconnect == AutoReconnect(ops)
  {
    if ops != [] {
      var before, last := ops[..|ops| - 1], ops[|ops| - 1];
      FlagsOfRun(before);
      InvoluntarySnoc(before, last);
      assert ops == before + [last];
    }
  }

  /** One reconnect for the first involuntary disconnect, and one for each later one that qualifies. */
  lemma {:induction false} ReconnectAccounting(ops: seq<Op>)
    ensures Run(ops).reconnects == (if HadInvoluntary(ops) then 1 else 0) + |RetriedLater(ops)|
  {
    if ops != [] {
      var before, last := ops[..|ops| - 1], ops[|ops| - 1];
      ReconnectAccounting(before);
      FlagsOfRun(before);
      InvoluntarySnoc(before, last);
      RetriedSnoc(before, last);
      if IsInvoluntary(last) {
        ReconnectableExactly(last.event.reason);
      }
      assert ops == before + [last];
    }
  }

  lemma {:induction false} NeverAuto(ops: seq<Op>)
    requires ops != [] && ops[0] == SetAuto(false) && SetAuto(true) !in ops
    ensures !AutoReconnect(ops)
  {
    if |ops| > 1 {
      NeverAuto(ops[..|ops| - 1]);
    }
  }

  /** With auto-reconnect off from the start, at most one reconnect is ever made. */
  lemma AtMostOneWithoutAuto(ops: seq<Op>)
    requires ops != [] && ops[0] == SetAuto(false) && SetAuto(true) !in ops
    ensures Run(ops).reconnects <= 1
  {
    ReconnectAccounting(ops);
    if RetriedLater(ops) != {} {
      var i :| i in RetriedLater(ops);
      NeverAuto(ops[..i]);
      assert false;
    }
  }
}
