/**
 Scanning and the other events together.  Both sides work on one set of status bits,
 in any order; each sees the other's steps only through bits it does not look at.
 */
module ScanEvents {
  import opened Status
  import E = StationEvents
  import S = Scan

  const SCAN_BITS: StatusBits := {Scanning, ScanDone}

  /** The station, whose bits the scan shares, and the scan's own variables. */
  datatype Wifi = Wifi(station: E.Station, scan: S.ScanState)

  /** The scan as it sees itself: its variables and the shared bits. */
  function ScanOf(w: Wifi): S.ScanState {
    w.scan.(bits := w.station.bits)
  }

  function WithScan(w: Wifi, s: S.ScanState): Wifi {
    Wifi(w.station.(bits := s.bits), s)
  }

  /** A call into the scan interface; an event, with the driver's report should it be the end of a scan; a setting. */
  datatype Op = Calls(op: S.Op) | Arrives(event: E.Event, report: S.Report) | SetAuto(on: bool)

  function Step(w: Wifi, op: Op): Wifi {
    match op
    case Calls(op) => WithScan(w, S.Step(ScanOf(w), op))
    case Arrives(e, report) =>
      var handled := w.(station := E.Handle(w.station, e));
      if e == E.ScanFinished then WithScan(handled, S.Done(ScanOf(w), report)) else handled
    case SetAuto(on) => w.(station := E.Step(w.station, E.SetAuto(on)))
  }

  function Run(ops: seq<Op>): Wifi {
    if ops == [] then Wifi(E.Initial(), S.Initial({})) else Step(Run(ops[..|ops| - 1]), ops[|ops| - 1])
  }

  // ----- The bits of one step ---------------------------------------------------------------

  /** The event task and the scan's own handler agree on what a finished scan does to the bits. */
  lemma FinishedIsDone(s: E.Station, t: S.ScanState, report: S.Report)
    requires s.bits == t.bits
    ensures E.Handle(s, E.ScanFinished).bits == S.Done(t, report).bits
  {
    assert {ScanDone} !! {Scanning};
  }

  /** No other event touches the two scan bits. */
  lemma OtherEventsKeepScanBits(s: E.Station, e: E.Event)
    requires e != E.ScanFinished
    ensures E.Handle(s, e).bits * SCAN_BITS == s.bits * SCAN_BITS
  {
  }

  /** Two stations that differ at most in the scan bits. */
  predicate SameStation(s: E.Station, t: E.Station) {
    s.bits - SCAN_BITS == t.bits - SCAN_BITS && s.(bits := {}) == t.(bits := {})
  }

  /** The same for scans and all the other bits. */
  predicate SameScan(s: S.ScanState, t: S.ScanState) {
    s.bits * SCAN_BITS == t.bits * SCAN_BITS && s.(bits := {}) == t.(bits := {})
  }

  lemma UpdateOutside(a: StatusBits, b: StatusBits, gained: StatusBits, lost: StatusBits)
    requires a - SCAN_BITS == b - SCAN_BITS
    ensures ((a + gained) - lost) - SCAN_BITS == ((b + gained) - lost) - SCAN_BITS
  {
    forall x: StatusBit | x !in SCAN_BITS
      ensures x in a <==> x in b
    {
      assert x in a <==> x in a - SCAN_BITS;
    }
  }

  /** An event does not look at the scan bits. */
  lemma HandleIgnoresScanBits(s: E.Station, t: E.Station, e: E.Event)
    requires SameStation(s, t)
    ensures SameStation(E.Handle(s, e), E.Handle(t, e))
  {
    UpdateOutside(s.bits, t.bits, E.BitsSet(e), E.BitsCleared(e));
    assert s.(bits := {}).wl == t.(bits := {}).wl;
  }

  /** A scan step looks at and changes the two scan bits alone. */
  lemma ScanStepIsLocal(s: S.ScanState, t: S.ScanState, op: S.Op)
    requires SameScan(s, t)
    ensures SameScan(S.Step(s, op), S.Step(t, op))
    ensures S.Step(s, op).bits - SCAN_BITS == s.bits - SCAN_BITS
  {
    assert forall x: StatusBit | x in SCAN_BITS :: x in s.bits * SCAN_BITS <==> x in s.bits;
    assert forall x: StatusBit | x in SCAN_BITS :: x in t.bits * SCAN_BITS <==> x in t.bits;
    assert s.(bits := {}).started == t.(bits := {}).started;
  }

  // ----- Whole runs ----------------------------------------------------------------------------

  function ScanStepOf(op: Op): seq<S.Op> {
    match op
    case Calls(op) => [op]
    case Arrives(e, report) => if e == E.ScanFinished then [S.Finish(report)] else []
    case SetAuto(_) => []
  }

  /** The scan steps of a run. */
  function ScanPart(ops: seq<Op>): seq<S.Op> {
    if ops == [] then [] else ScanPart(ops[..|ops| - 1]) + ScanStepOf(ops[|ops| - 1])
  }

  function StationStepOf(op: Op): seq<E.Op> {
    match op
    case Calls(_) => []
    case Arrives(e, _) => [E.Arrives(e)]
    case SetAuto(on) => [E.SetAuto(on)]
  }

  /** The station steps of a run. */
  function StationPart(ops: seq<Op>): seq<E.Op> {
    if ops == [] then [] else StationPart(ops[..|ops| - 1]) + StationStepOf(ops[|ops| - 1])
  }

  lemma ScanStepAlone(w: Wifi, before: seq<S.Op>, op: Op)
    requires SameScan(ScanOf(w), S.Run(S.Initial({}), before))
    ensures SameScan(ScanOf(Step(w, op)), S.Run(S.Initial({}), before + ScanStepOf(op)))
  {
    var alone := S.Run(S.Initial({}), before);
    if ScanStepOf(op) == [] {
      assert before + [] == before;
      if op.Arrives? {
        OtherEventsKeepScanBits(w.station, op.event);
      }
    } else {
      var step := ScanStepOf(op)[0];
      ScanStepIsLocal(ScanOf(w), alone, step);
      assert (before + [step])[..|before|] == before;
      assert ScanOf(Step(w, op)) == S.Step(ScanOf(w), step);
    }
  }

  /** In any interleaving the scan runs as if it were alone, apart from the other bits. */
  lemma {:induction false} ScanRunsAlone(ops: seq<Op>)
    ensures SameScan(ScanOf(Run(ops)), S.Run(S.Initial({}), ScanPart(ops)))
  {
    if ops != [] {
      var n := |ops| - 1;
      ScanRunsAlone(ops[..n]);
      ScanStepAlone(Run(ops[..n]), ScanPart(ops[..n]), ops[n]);
    }
  }

  lemma StationStepAlone(w: Wifi, before: seq<E.Op>, op: Op)
    requires SameStation(w.station, E.Run(before))
    ensures SameStation(Step(w, op).station, E.Run(before + StationStepOf(op)))
  {
    match op
    case Calls(call) =>
      ScanStepIsLocal(ScanOf(w), ScanOf(w), call);
      assert before + [] == before;
    case Arrives(e, report) =>
      HandleIgnoresScanBits(w.station, E.Run(before), e);
      FinishedIsDone(w.station, ScanOf(w), report);
      assert (before + [E.Arrives(e)])[..|before|] == before;
    case SetAuto(on) =>
      assert (before + [E.SetAuto(on)])[..|before|] == before;
  }

  /** And the station as if there were no scans, apart from the scan bits. */
  lemma {:induction false} StationRunsAlone(ops: seq<Op>)
    ensures SameStation(Run(ops).station, E.Run(StationPart(ops)))
  {
    if ops != [] {
      var n := |ops| - 1;
      StationRunsAlone(ops[..n]);
      StationStepAlone(Run(ops[..n]), StationPart(ops[..n]), ops[n]);
    }
  }

  lemma SaneByScanBits(s: S.ScanState, t: S.ScanState)
    requires SameScan(s, t) && S.Sane(t)
    ensures S.Sane(s)
  {
    assert forall x: StatusBit | x in SCAN_BITS :: x in s.bits * SCAN_BITS <==> x in s.bits;
    assert forall x: StatusBit | x in SCAN_BITS :: x in t.bits * SCAN_BITS <==> x in t.bits;
    assert s.(bits := {}).count == t.(bits := {}).count && s.(bits := {}).result == t.(bits := {}).result;
  }

  lemma StationBitsAgree(s: E.Station, t: E.Station, x: StatusBit)
    requires SameStation(s, t) && x !in SCAN_BITS
    ensures x in s.bits <==> x in t.bits
  {
    assert x in s.bits <==> x in s.bits - SCAN_BITS;
  }

  /** So what holds of each side alone holds in every interleaving. */
  lemma SharedBitsStaySane(ops: seq<Op>)
    ensures S.Sane(ScanOf(Run(ops)))
    ensures var bits := Run(ops).station.bits;
            && (StaHasIp in bits || StaHasIp6 in bits ==> StaConnected in bits)
            && (EthHasIp in bits || EthHasIp6 in bits ==> EthConnected in bits)
  {
    ScanRunsAlone(ops);
    S.ScanStaysSane({}, ScanPart(ops));
    SaneByScanBits(ScanOf(Run(ops)), S.Run(S.Initial({}), ScanPart(ops)));
    StationRunsAlone(ops);
    E.AddressImpliesConnection(StationPart(ops));
    forall x: StatusBit | x !in SCAN_BITS
      ensures x in Run(ops).station.bits <==> x in E.Run(StationPart(ops)).bits
    {
      StationBitsAgree(Run(ops).station, E.Run(StationPart(ops)), x);
    }
  }
}
