/** Switching the Wi-Fi mode: low-level init, start, stop, and the calls the driver may refuse on the way. */
module WifiMode {

  /** `wifi_mode_t`: one bit per interface. */
  type Mode = bv2

  const MODE_NULL: Mode := 0
  const MODE_STA: Mode := 1
  const MODE_AP: Mode := 2

  datatype Call =
    | TcpipInit | WifiInit | SetStorage | SetHostname | SetMode(m: Mode) | LongRangeSta | LongRangeAp
    | WifiStart | WifiStop | WifiDeinit

  /** The driver's answers to one request: which calls and mode queries succeed, and the mode it comes up in. */
  datatype Driver = Driver(accepts: Call -> bool, firstQuery: bool, secondQuery: bool, bootMode: Mode)

  datatype Wifi = Wifi(lowLevelInitDone: bool, started: bool, driverMode: Mode, persistent: bool, longRange: bool)

  function Initial(): Wifi {
    Wifi(false, false, MODE_NULL, true, false)
  }

  /** The mode in force, which `getMode` reports when its query succeeds. */
  function RealMode(w: Wifi): Mode {
    if w.lowLevelInitDone && w.started then w.driverMode else MODE_NULL
  }

  function QueriedMode(w: Wifi, query: bool): Mode {
    if query then RealMode(w) else MODE_NULL
  }

  // ----- The reference: a plan of driver calls, carried out up to the first refusal ---------

  /** A call made only under a condition. */
  function When(condition: bool, call: Call): seq<Call> {
    if condition then [call] else []
  }

  function InitCalls(w: Wifi): seq<Call> {
    When(!w.lowLevelInitDone, TcpipInit)
    + (When(!w.lowLevelInitDone, WifiInit) + When(!w.lowLevelInitDone && !w.persistent, SetStorage))
  }

  function SetUpCalls(w: Wifi, m: Mode): seq<Call> {
    When(m & MODE_STA != 0, SetHostname) + ([SetMode(m)] + LateCalls(w, m))
  }

  function LateCalls(w: Wifi, m: Mode): seq<Call> {
    When(w.longRange && m & MODE_STA != 0, LongRangeSta)
    + (When(w.longRange && m & MODE_AP != 0, LongRangeAp) + When(!w.started, WifiStart))
  }

  function StopCalls(w: Wifi): seq<Call> {
    When(w.started, WifiStop) + When(w.started && w.lowLevelInitDone, WifiDeinit)
  }

  function Plan(w: Wifi, current: Mode, m: Mode): seq<Call> {
    if current == m then []
    else if m == MODE_NULL then StopCalls(w)
    else if current == MODE_NULL then InitCalls(w) + SetUpCalls(w, m)
    else SetUpCalls(w, m)
  }

  function Effect(w: Wifi, call: Call, driver: Driver): Wifi {
    var ok := driver.accepts(call);
    match call
    case WifiInit => if ok then w.(lowLevelInitDone := true, driverMode := driver.bootMode) else w
    case SetStorage => w.(lowLevelInitDone := ok)
    case SetMode(m) => if ok then w.(driverMode := m) else w
    case WifiStart => w.(started := ok)
    case WifiStop => w.(started := !ok)
    case WifiDeinit => w.(lowLevelInitDone := !ok)
    case _ => w
  }

  datatype Outcome = Outcome(wifi: Wifi, ok: bool)

  function Execute(w: Wifi, calls: seq<Call>, driver: Driver): Outcome
    decreases |calls|
  {
    if calls == [] then Outcome(w, true)
    else if driver.accepts(calls[0]) then Execute(Effect(w, calls[0], driver), calls[1..], driver)
    else Outcome(Effect(w, calls[0], driver), false)
  }

  function SetModeOp(w: Wifi, m: Mode, driver: Driver): Outcome {
    Execute(w, Plan(w, QueriedMode(w, driver.secondQuery), m), driver)
  }

  function WithBit(m: Mode, bit: Mode, on: bool): Mode {
    if on then m | bit else m & !bit
  }

  predicate HasBit(m: Mode, bit: Mode) {
    m & bit != 0
  }

  function EnableOp(w: Wifi, bit: Mode, on: bool, driver: Driver): Outcome {
    var current := QueriedMode(w, driver.firstQuery);
    if HasBit(current, bit) == on then Outcome(w, true) else SetModeOp(w, WithBit(current, bit, on), driver)
  }

  lemma {:induction false} ExecuteSplits(w: Wifi, first: seq<Call>, second: seq<Call>, driver: Driver)
    ensures Execute(w, first + second, driver) ==
            var r := Execute(w, first, driver); if r.ok then Execute(r.wifi, second, driver) else r
    decreases |first|
  {
    if first == [] {
      assert first + second == second;
    } else {
      assert (first + second)[1..] == first[1..] + second;
      ExecuteSplits(Effect(w, first[0], driver), first[1..], second, driver);
    }
  }

  lemma ExecuteWhen(w: Wifi, condition: bool, call: Call, rest: seq<Call>, driver: Driver)
    ensures Execute(w, When(condition, call) + rest, driver) ==
            if !condition then Execute(w, rest, driver)
            else if driver.accepts(call) then Execute(Effect(w, call, driver), rest, driver)
            else Outcome(Effect(w, call, driver), false)
  {
    if condition {
      assert ([call] + rest)[1..] == rest;
    } else {
      assert [] + rest == rest;
    }
  }

  lemma ExecuteLast(w: Wifi, condition: bool, call: Call, driver: Driver)
    ensures Execute(w, When(condition, call), driver) ==
            if condition then Outcome(Effect(w, call, driver), driver.accepts(call)) else Outcome(w, true)
  {
  }

  /** What the low-level init calls amount to. */
  lemma InitCallsOutcome(w: Wifi, driver: Driver)
    ensures Execute(w, InitCalls(w), driver) ==
            if w.lowLevelInitDone then Outcome(w, true)
            else if !driver.accepts(TcpipInit) || !driver.accepts(WifiInit) then Outcome(w, false)
            else
              var ok := w.persistent || driver.accepts(SetStorage);
              Outcome(w.(lowLevelInitDone := ok, driverMode := driver.bootMode), ok)
  {
    var storage := When(!w.lowLevelInitDone && !w.persistent, SetStorage);
    ExecuteWhen(w, !w.lowLevelInitDone, TcpipInit, When(!w.lowLevelInitDone, WifiInit) + storage, driver);
    ExecuteWhen(w, !w.lowLevelInitDone, WifiInit, storage, driver);
    var booted := w.(lowLevelInitDone := true, driverMode := driver.bootMode);
    ExecuteLast(booted, !w.lowLevelInitDone && !w.persistent, SetStorage, driver);
    ExecuteLast(w, !w.lowLevelInitDone && !w.persistent, SetStorage, driver);
  }

  /** What stopping amounts to. */
  lemma StopCallsOutcome(w: Wifi, driver: Driver)
    ensures Execute(w, StopCalls(w), driver) ==
            if !w.started then Outcome(w, true)
            else if !driver.accepts(WifiStop) then Outcome(w, false)
            else
              var ok := !w.lowLevelInitDone || driver.accepts(WifiDeinit);
              Outcome(w.(started := false, lowLevelInitDone := w.lowLevelInitDone && !driver.accepts(WifiDeinit)), ok)
  {
    ExecuteWhen(w, w.started, WifiStop, When(w.started && w.lowLevelInitDone, WifiDeinit), driver);
    ExecuteLast(w.(started := false), w.started && w.lowLevelInitDone, WifiDeinit, driver);
    ExecuteLast(w, w.started && w.lowLevelInitDone, WifiDeinit, driver);
  }

  /** What the calls after the mode was set amount to. */
  lemma LateCallsOutcome(w: Wifi, m: Mode, driver: Driver)
    ensures Execute(w, LateCalls(w, m), driver) ==
            if w.longRange && m & MODE_STA != 0 && !driver.accepts(LongRangeSta) then Outcome(w, false)
            else if w.longRange && m & MODE_AP != 0 && !driver.accepts(LongRangeAp) then Outcome(w, false)
            else if w.started then Outcome(w, true)
            else Outcome(w.(started := driver.accepts(WifiStart)), driver.accepts(WifiStart))
  {
    var start := When(!w.started, WifiStart);
    var ap := w.longRange && m & MODE_AP != 0;
    ExecuteWhen(w, w.longRange && m & MODE_STA != 0, LongRangeSta, When(ap, LongRangeAp) + start, driver);
    ExecuteWhen(w, ap, LongRangeAp, start, driver);
    ExecuteLast(w, !w.started, WifiStart, driver);
  }

  lemma SetUpCallsOutcome(w: Wifi, m: Mode, driver: Driver)
    ensures Execute(w, SetUpCalls(w, m), driver) ==
            if m & MODE_STA != 0 && !driver.accepts(SetHostname) then Outcome(w, false)
            else if !driver.accepts(SetMode(m)) then Outcome(w, false)
            else Execute(w.(driverMode := m), LateCalls(w, m), driver)
  {
    ExecuteWhen(w, m & MODE_STA != 0, SetHostname, [SetMode(m)] + LateCalls(w, m), driver);
    ExecuteWhen(w, true, SetMode(m), LateCalls(w, m), driver);
  }

  lemma SameSetUp(w: Wifi, w': Wifi, m: Mode)
    requires w.longRange == w'.longRange && w.started == w'.started
    ensures SetUpCalls(w, m) == SetUpCalls(w', m)
  {
  }

  // ----- In place ----------------------------------------------------------------------------

  class WiFiGeneric {
    var lowLevelInitDone: bool
    var started: bool
    var driverMode: Mode
    var persistent: bool
    var longRange: bool

    ghost function Value(): Wifi
      reads this
    {
      Wifi(lowLevelInitDone, started, driverMode, persistent, longRange)
    }

    constructor ()
      ensures Value() == Initial()
    {
      lowLevelInitDone, started, driverMode, persistent, longRange := false, false, MODE_NULL, true, false;
    }

    method GetMode(query: bool) returns (m: Mode)
      ensures m == QueriedMode(Value(), query)
    {
      if !lowLevelInitDone || !started {
        return MODE_NULL;
      }
      if !query {
        return MODE_NULL;
      }
      return driverMode;
    }

    method WifiLowLevelInit(driver: Driver) returns (ok: bool)
      modifies this
      ensures Outcome(Value(), ok) == Execute(old(Value()), InitCalls(old(Value())), driver)
    {
      InitCallsOutcome(Value(), driver);
      if !lowLevelInitDone {
        lowLevelInitDone := true;
        if !driver.accepts(TcpipInit) {
          lowLevelInitDone := false;
          return lowLevelInitDone;
        }
        if !driver.accepts(WifiInit) {
          lowLevelInitDone := false;
          return lowLevelInitDone;
        }
        driverMode := driver.bootMode;
        if !persistent {
          lowLevelInitDone := driver.accepts(SetStorage);
        }
      }
      return lowLevelInitDone;
    }

    method WifiLowLevelDeinit(driver: Driver) returns (ok: bool)
      modifies this
      ensures Outcome(Value(), ok)
           == Execute(old(Value()), When(old(lowLevelInitDone), WifiDeinit), driver)
    {
      ExecuteLast(Value(), lowLevelInitDone, WifiDeinit, driver);
      if lowLevelInitDone {
        lowLevelInitDone := !driver.accepts(WifiDeinit);
      }
      return !lowLevelInitDone;
    }

    method EspWiFiStart(driver: Driver) returns (ok: bool)
      modifies this
      ensures Outcome(Value(), ok) == Execute(old(Value()), When(!old(started), WifiStart), driver)
    {
      ExecuteLast(Value(), !started, WifiStart, driver);
      if started {
        return true;
      }
      started := true;
      if !driver.accepts(WifiStart) {
        started := false;
        return started;
      }
      return started;
    }

    method EspWiFiStop(driver: Driver) returns (ok: bool)
      modifies this
      ensures Outcome(Value(), ok) == Execute(old(Value()), StopCalls(old(Value())), driver)
    {
      StopCallsOutcome(Value(), driver);
      ExecuteLast(Value().(started := false), lowLevelInitDone, WifiDeinit, driver);
      if !started {
        return true;
      }
      started := false;
      if !driver.accepts(WifiStop) {
        started := true;
        return false;
      }
      ok := WifiLowLevelDeinit(driver);
    }

    /** Hostname, mode, long range, start, in that order. */
    method SetUp(m: Mode, driver: Driver) returns (ok: bool)
      modifies this
      ensures Outcome(Value(), ok) == Execute(old(Value()), SetUpCalls(old(Value()), m), driver)
    {
      ghost var w := Value();
      SetUpCallsOutcome(w, m, driver);
      LateCallsOutcome(w.(driverMode := m), m, driver);
      ExecuteLast(w.(driverMode := m), !started, WifiStart, driver);
      if m & MODE_STA != 0 {
        if !driver.accepts(SetHostname) {
          return false;
        }
      }
      if !driver.accepts(SetMode(m)) {
        return false;
      }
      driverMode := m;
      if longRange {
        if m & MODE_STA != 0 {
          if !driver.accepts(LongRangeSta) {
            return false;
          }
        }
        if m & MODE_AP != 0 {
          if !driver.accepts(LongRangeAp) {
            return false;
          }
        }
      }
      ok := EspWiFiStart(driver);
    }

    method ChangeMode(m: Mode, driver: Driver) returns (ok: bool)
      modifies this
      ensures Outcome(Value(), ok) == SetModeOp(old(Value()), m, driver)
    {
      var cm := GetMode(driver.secondQuery);
      if cm == m {
        return true;
      }
      ghost var w := Value();
      if cm == MODE_NULL && m != MODE_NULL {
        ExecuteSplits(w, InitCalls(w), SetUpCalls(w, m), driver);
        InitCallsOutcome(w, driver);
        var initialized := WifiLowLevelInit(driver);
        SameSetUp(w, Value(), m);
        if !initialized {
          return false;
        }
      } else if cm != MODE_NULL && m == MODE_NULL {
        ok := EspWiFiStop(driver);
        return;
      }
      ok := SetUp(m, driver);
    }

    method EnableSTA(enable: bool, driver: Driver) returns (ok: bool)
      modifies this
      ensures Outcome(Value(), ok) == EnableOp(old(Value()), MODE_STA, enable, driver)
    {
      var currentMode := GetMode(driver.firstQuery);
      var isEnabled := currentMode & MODE_STA != 0;
      if isEnabled != enable {
        if enable {
          ok := ChangeMode(currentMode | MODE_STA, driver);
          return;
        }
        ok := ChangeMode(currentMode & !MODE_STA, driver);
        return;
      }
      return true;
    }

    method EnableAP(enable: bool, driver: Driver) returns (ok: bool)
      modifies this
      ensures Outcome(Value(), ok) == EnableOp(old(Value()), MODE_AP, enable, driver)
    {
      var currentMode := GetMode(driver.firstQuery);
      var isEnabled := currentMode & MODE_AP != 0;
      if isEnabled != enable {
        if enable {
          ok := ChangeMode(currentMode | MODE_AP, driver);
          return;
        }
        ok := ChangeMode(currentMode & !MODE_AP, driver);
        return;
      }
      return true;
    }
  }

  // ----- Started means initialized, whatever the driver does -------------------------------------

  predicate Coherent(w: Wifi) {
    w.started ==> w.lowLevelInitDone && w.driverMode != MODE_NULL
  }

  lemma SetUpOutcome(w: Wifi, m: Mode, driver: Driver)
    requires w.lowLevelInitDone
    ensures var r := Execute(w, SetUpCalls(w, m), driver);
            && r.wifi.lowLevelInitDone && (Coherent(w) && m != MODE_NULL ==> Coherent(r.wifi))
            && (r.ok ==> r.wifi.started && r.wifi.driverMode == m)
  {
    SetUpCallsOutcome(w, m, driver);
    LateCallsOutcome(w.(driverMode := m), m, driver);
  }

  /** What a mode change amounts to: only a plan that ran to its end has the new mode in force. */
  lemma ChangeOutcome(w: Wifi, m: Mode, driver: Driver)
    requires Coherent(w)
    ensures var r := SetModeOp(w, m, driver); var current := QueriedMode(w, driver.secondQuery);
            && Coherent(r.wifi)
            && (current == m ==> r == Outcome(w, true))
            && (current != m && r.ok ==> RealMode(r.wifi) == m)
            && (r.ok && m != MODE_NULL ==> r.wifi.lowLevelInitDone && r.wifi.started && r.wifi.driverMode == m)
            && (r.ok && m == MODE_NULL && driver.secondQuery ==> !r.wifi.started)
  {
    var current := QueriedMode(w, driver.secondQuery);
    if current == m {
    } else if m == MODE_NULL {
      StopCallsOutcome(w, driver);
    } else if current == MODE_NULL {
      InitCallsOutcome(w, driver);
      ExecuteSplits(w, InitCalls(w), SetUpCalls(w, m), driver);
      var r := Execute(w, InitCalls(w), driver);
      SameSetUp(w, r.wifi, m);
      if r.ok {
        SetUpOutcome(r.wifi, m, driver);
      }
    } else {
      SetUpOutcome(w, m, driver);
    }
  }

  /** The calls the driver must accept for a real change to mode m: to stop, or to come up as far as it is not up yet. */
  predicate Needs(w: Wifi, m: Mode, call: Call) {
    match call
    case WifiStop | WifiDeinit => m == MODE_NULL
    case TcpipInit | WifiInit => m != MODE_NULL && !w.lowLevelInitDone
    case SetStorage => m != MODE_NULL && !w.lowLevelInitDone && !w.persistent
    case SetHostname => m == 1 || m == 3
    case SetMode(wanted) => wanted == m != MODE_NULL
    case LongRangeSta => w.longRange && (m == 1 || m == 3)
    case LongRangeAp => w.longRange && (m == 2 || m == 3)
    case WifiStart => m != MODE_NULL && !w.started
  }

  ghost predicate AcceptsNeeded(w: Wifi, m: Mode, driver: Driver) {
    forall call | Needs(w, m, call) :: driver.accepts(call)
  }

  lemma ModeBits(m: Mode)
    ensures m & MODE_STA != 0 <==> m == 1 || m == 3
    ensures m & MODE_AP != 0 <==> m == 2 || m == 3
  {
  }

  lemma SetUpSucceedsIff(w: Wifi, m: Mode, driver: Driver)
    requires w.lowLevelInitDone && m != MODE_NULL
    ensures Execute(w, SetUpCalls(w, m), driver).ok <==> AcceptsNeeded(w, m, driver)
  {
    ModeBits(m);
    SetUpCallsOutcome(w, m, driver);
    LateCallsOutcome(w.(driverMode := m), m, driver);
    if Execute(w, SetUpCalls(w, m), driver).ok {
      forall call | Needs(w, m, call)
        ensures driver.accepts(call)
      {
        match call {
          case SetHostname | SetMode(_) | LongRangeSta | LongRangeAp | WifiStart =>
          case _ => assert false;
        }
      }
    } else {
      assert Needs(w, m, SetMode(m));
      assert || !driver.accepts(SetMode(m)) || (Needs(w, m, SetHostname) && !driver.accepts(SetHostname))
             || (Needs(w, m, LongRangeSta) && !driver.accepts(LongRangeSta))
             || (Needs(w, m, LongRangeAp) && !driver.accepts(LongRangeAp))
             || (Needs(w, m, WifiStart) && !driver.accepts(WifiStart));
    }
  }

  lemma StopSucceedsIff(w: Wifi, driver: Driver)
    requires w.started && w.lowLevelInitDone
    ensures Execute(w, StopCalls(w), driver).ok <==> AcceptsNeeded(w, MODE_NULL, driver)
  {
    StopCallsOutcome(w, driver);
    assert Needs(w, MODE_NULL, WifiStop) && Needs(w, MODE_NULL, WifiDeinit);
  }

  lemma BringUpSucceedsIff(w: Wifi, m: Mode, driver: Driver)
    requires m != MODE_NULL
    ensures Execute(w, InitCalls(w) + SetUpCalls(w, m), driver).ok <==> AcceptsNeeded(w, m, driver)
  {
    InitCallsOutcome(w, driver);
    ExecuteSplits(w, InitCalls(w), SetUpCalls(w, m), driver);
    if w.lowLevelInitDone {
      SetUpSucceedsIff(w, m, driver);
    } else {
      var up := Execute(w, InitCalls(w), driver).wifi;
      SameSetUp(w, up, m);
      assert Needs(w, m, TcpipInit) && Needs(w, m, WifiInit) && (w.persistent || Needs(w, m, SetStorage));
      if up.lowLevelInitDone {
        SetUpSucceedsIff(up, m, driver);
        NeedsAfterInit(w, up, m, driver);
      }
    }
  }

  /** A mode change succeeds exactly if the driver accepts every call it needs. */
  lemma ChangeSucceedsIff(w: Wifi, m: Mode, driver: Driver)
    requires Coherent(w) && QueriedMode(w, driver.secondQuery) != m
    ensures SetModeOp(w, m, driver).ok <==> AcceptsNeeded(w, m, driver)
  {
    if m == MODE_NULL {
      StopSucceedsIff(w, driver);
    } else if QueriedMode(w, driver.secondQuery) == MODE_NULL {
      BringUpSucceedsIff(w, m, driver);
    } else {
      SetUpSucceedsIff(w, m, driver);
    }
  }

  /** Initialized, what is left to need is what was needed but the init calls. */
  lemma NeedsAfterInit(w: Wifi, up: Wifi, m: Mode, driver: Driver)
    requires m != MODE_NULL && !w.lowLevelInitDone && up.lowLevelInitDone
    requires up.longRange == w.longRange && up.started == w.started
    requires driver.accepts(TcpipInit) && driver.accepts(WifiInit) && (w.persistent || driver.accepts(SetStorage))
    ensures AcceptsNeeded(up, m, driver) <==> AcceptsNeeded(w, m, driver)
  {
    forall call
      ensures Needs(up, m, call) ==> Needs(w, m, call)
      ensures Needs(w, m, call) && !driver.accepts(call) ==> Needs(up, m, call)
    {
    }
  }

  /** With mode queries that succeed: nothing to do if the interface is as asked, else success exactly as for the change. */
  lemma EnableSucceedsIff(ops: seq<Op>, bit: Mode, on: bool, driver: Driver)
    requires (bit == MODE_STA || bit == MODE_AP) && driver.firstQuery && driver.secondQuery
    ensures var w := Run(ops); var r := EnableOp(w, bit, on, driver);
            && (HasBit(RealMode(w), bit) == on ==> r == Outcome(w, true))
            && (HasBit(RealMode(w), bit) != on ==>
                  exists m :: AsAsked(RealMode(w), m, bit, on) && (r.ok <==> AcceptsNeeded(w, m, driver)))
  {
    var w := Run(ops);
    StartedMeansInitialized(ops);
    if HasBit(RealMode(w), bit) != on {
      var m := WithBit(RealMode(w), bit, on);
      assert AsAsked(RealMode(w), m, bit, on);
      ChangeSucceedsIff(w, m, driver);
    }
  }

  datatype Op =
    | Change(m: Mode, driver: Driver)
    | Enable(bit: Mode, on: bool, driver: Driver)
    | SetPersistent(on: bool)
    | SetLongRange(on: bool)

  function Step(w: Wifi, op: Op): Wifi {
    match op
    case Change(m, driver) => SetModeOp(w, m, driver).wifi
    case Enable(bit, on, driver) => EnableOp(w, bit, on, driver).wifi
    case SetPersistent(on) => w.(persistent := on)
    case SetLongRange(on) => w.(longRange := on)
  }

  function Run(ops: seq<Op>): Wifi {
    if ops == [] then Initial() else Step(Run(ops[..|ops| - 1]), ops[|ops| - 1])
  }

  lemma {:induction false} StartedMeansInitialized(ops: seq<Op>)
    ensures Coherent(Run(ops))
  {
    if ops != [] {
      StartedMeansInitialized(ops[..|ops| - 1]);
      var w := Run(ops[..|ops| - 1]);
      match ops[|ops| - 1]
      case Change(m, driver) => ChangeOutcome(w, m, driver);
      case Enable(bit, on, driver) => ChangeOutcome(w, WithBit(QueriedMode(w, driver.firstQuery), bit, on), driver);
      case SetPersistent(_) =>
      case SetLongRange(_) =>
    }
  }

  // ----- What a successful enable leaves behind ------------------------------------------------------

  function OtherBit(bit: Mode): Mode {
    if bit == MODE_STA then MODE_AP else MODE_STA
  }

  /** The requested interface is as asked, and the other one as it was. */
  predicate AsAsked(before: Mode, after: Mode, bit: Mode, on: bool) {
    HasBit(after, bit) == on && HasBit(after, OtherBit(bit)) == HasBit(before, OtherBit(bit))
  }

  /** With mode queries that succeed, success means what was asked, stop-and-deinit included. */
  lemma EnableDoesAsAsked(ops: seq<Op>, bit: Mode, on: bool, driver: Driver)
    requires bit == MODE_STA || bit == MODE_AP
    requires driver.firstQuery && driver.secondQuery
    requires EnableOp(Run(ops), bit, on, driver).ok
    ensures AsAsked(RealMode(Run(ops)), RealMode(EnableOp(Run(ops), bit, on, driver).wifi), bit, on)
  {
    StartedMeansInitialized(ops);
    EnableDoesAsAskedIff(Run(ops), bit, on, driver);
  }

  /**
   When queries may fail: a failed first query takes every interface for off, so it
   is harmless only if the interface is off anyway (disabling) or the other one is
   (enabling); a failed second query is harmful only in switching the last interface off.
   */
  lemma EnableDoesAsAskedIff(w: Wifi, bit: Mode, on: bool, driver: Driver)
    requires Coherent(w) && (bit == MODE_STA || bit == MODE_AP)
    requires EnableOp(w, bit, on, driver).ok
    ensures AsAsked(RealMode(w), RealMode(EnableOp(w, bit, on, driver).wifi), bit, on)
       <==> if driver.firstQuery then driver.secondQuery || on || RealMode(w) != bit
            else !HasBit(RealMode(w), if on then OtherBit(bit) else bit)
  {
    var current := QueriedMode(w, driver.firstQuery);
    ChangeOutcome(w, WithBit(current, bit, on), driver);
  }
}
