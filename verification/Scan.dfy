/**
 The Wi-Fi scan: the application starts scans and polls for their end, the event
 task reports it.  Both work on the same status bits, a start time whose value 0
 means "none", and an array of records.  Each call is one step.
 */
module Scan {
  import opened Wrappers
  import opened Status

  const SCAN_RUNNING := -1
  const SCAN_FAILED := -2

  /** A signal strength, an `int8_t`. */
  type Rssi = x: int | -128 <= x < 128

  /** One scanned network. */
  datatype ApRecord = ApRecord(ssid: string, isOpen: bool, rssi: Rssi, bssid: seq<Byte>, channel: int)

  const BLANK := ApRecord("", false, 0, [0, 0, 0, 0, 0, 0], 0)

  datatype ScanState = ScanState(bits: StatusBits, started: nat, timeout: nat, count: nat, result: Option<seq<ApRecord>>)

  function Initial(bits: StatusBits): ScanState {
    ScanState(bits - {Scanning, ScanDone}, 0, 10000, 0, None)
  }

  /** What the driver reports when a scan is done: how many records, and the records, if it answers each question. */
  datatype Report = Report(number: Option<nat>, records: Option<seq<ApRecord>>)

  predicate ValidReport(r: Report) {
    r.number.Some? ==> r.number.value < TWO_TO_THE_16
  }

  /** `millis()` at a true time. */
  function Millis(now: nat): nat {
    now % TWO_TO_THE_32
  }

  function Stamp(now: nat): nat {
    if Millis(now) == 0 then 1 else Millis(now)
  }

  function Deleted(s: ScanState): ScanState {
    var s0 := s.(bits := s.bits - {ScanDone});
    if s.result.Some? then s0.(result := None, count := 0) else s0
  }

  function Padded(records: seq<ApRecord>, n: nat): seq<ApRecord> {
    seq(n, i requires 0 <= i < n => if i < |records| then records[i] else BLANK)
  }

  function Done(s: ScanState, report: Report): ScanState {
    var count := if report.number.Some? then report.number.value else s.count;
    var handed := if report.records.Some? then report.records.value else [];
    ScanState((s.bits + {ScanDone}) - {Scanning}, 0, s.timeout,
              if report.records.Some? then Min(|handed|, count) else 0,
              if count > 0 then Some(Padded(handed, count)) else s.result)
  }

  datatype Answer = Answer(state: ScanState, ret: int)

  /** `during` is the report that arrives while a blocking scan waits, if one does in time. */
  function ScanNetworksOp(s: ScanState, async: bool, maxMsPerChan: nat, startOk: bool, now: nat,
                          during: Option<Report>): Answer
  {
    if Scanning in s.bits then Answer(s, SCAN_RUNNING)
    else
      var s1 := Deleted(s.(timeout := maxMsPerChan * 20 % TWO_TO_THE_32));
      if !startOk then Answer(s1, SCAN_FAILED)
      else
        var s2 := s1.(started := Stamp(now), bits := s1.bits + {Scanning});
        if async then Answer(s2, SCAN_RUNNING)
        else if during.None? then Answer(s2, SCAN_FAILED)
        else Answer(Done(s2, during.value), ToInt16(Done(s2, during.value).count))
  }

  predicate TimedOut(s: ScanState, now: nat) {
    s.started != 0 && (Millis(now) - s.started) % TWO_TO_THE_32 > s.timeout
  }

  function ScanCompleteOp(s: ScanState, now: nat): Answer {
    if TimedOut(s, now) then Answer(s.(bits := s.bits - {Scanning}), SCAN_FAILED)
    else Answer(s, if ScanDone in s.bits then ToInt16(s.count) else if Scanning in s.bits then SCAN_RUNNING else SCAN_FAILED)
  }

  // ----- In place ------------------------------------------------------------------------

  class WiFiScan {
    var bits: StatusBits
    var scanStarted: nat
    var scanTimeout: nat
    var scanCount: nat
    var scanResult: array?<ApRecord>

    ghost function Value(): ScanState
      reads this, scanResult
    {
      ScanState(bits, scanStarted, scanTimeout, scanCount, if scanResult == null then None else Some(scanResult[..]))
    }

    constructor (bits: StatusBits)
      ensures Value() == Initial(bits)
    {
      this.bits := bits - {Scanning, ScanDone};
      scanStarted, scanTimeout, scanCount, scanResult := 0, 10000, 0, null;
    }

    method ScanDelete()
      modifies this
      ensures Value() == Deleted(old(Value()))
    {
      bits := bits - {ScanDone};
      if scanResult != null {
        scanResult := null;
        scanCount := 0;
      }
    }

    /** The event task's side: called for the scan-done event. */
    method OnScanDone(report: Report)
      requires ValidReport(report)
      modifies this
      ensures Value() == Done(old(Value()), report)
    {
      if report.number.Some? {
        scanCount := report.number.value;
      }
      var handed := if report.records.Some? then report.records.value else [];
      if scanCount != 0 {
        scanResult := new ApRecord[scanCount](i => if 0 <= i < |handed| then handed[i] else BLANK);
        assert scanResult[..] == Padded(handed, scanCount);
        scanCount := if report.records.Some? then Min(|handed|, scanCount) else 0;
      }
      scanStarted := 0;
      bits := bits + {ScanDone};
      bits := bits - {Scanning};
    }

    method ScanNetworks(async: bool, maxMsPerChan: nat, startOk: bool, now: nat, during: Option<Report>) returns (ret: int)
      requires during.Some? ==> ValidReport(during.value)
      modifies this
      ensures Answer(Value(), ret) == ScanNetworksOp(old(Value()), async, maxMsPerChan, startOk, now, during)
    {
      if Scanning in bits {
        return SCAN_RUNNING;
      }
      scanTimeout := maxMsPerChan * 20 % TWO_TO_THE_32;
      ScanDelete();
      if startOk {
        scanStarted := Millis(now);
        if scanStarted == 0 {
          scanStarted := scanStarted + 1;
        }
        bits := bits - {ScanDone};
        bits := bits + {Scanning};
        if async {
          return SCAN_RUNNING;
        }
        if during.Some? {
          OnScanDone(during.value);
          return ToInt16(scanCount);
        }
      }
      return SCAN_FAILED;
    }

    method ScanComplete(now: nat) returns (ret: int)
      modifies this`bits
      ensures Answer(Value(), ret) == ScanCompleteOp(old(Value()), now)
    {
      if scanStarted != 0 && (Millis(now) - scanStarted) % TWO_TO_THE_32 > scanTimeout {
        bits := bits - {Scanning};
        return SCAN_FAILED;
      }
      if ScanDone in bits {
        return ToInt16(scanCount);
      }
      if Scanning in bits {
        return SCAN_RUNNING;
      }
      return SCAN_FAILED;
    }

    /** The record at an index; the comparison is on unsigned values, so negative indexes are too large. */
    method GetScanInfoByIndex(i: int) returns (record: Option<ApRecord>)
      requires Sane(Value())
      ensures record.Some? <==> 0 <= i < scanCount
      ensures record.Some? ==> scanResult != null && i < scanResult.Length && record.value == scanResult[i]
    {
      if scanResult == null || !(0 <= i < scanCount) {
        return None;
      }
      return Some(scanResult[i]);
    }
  }

  // ----- Whole runs --------------------------------------------------------------------------

  predicate Sane(s: ScanState) {
    && !(Scanning in s.bits && ScanDone in s.bits)
    && (Scanning in s.bits ==> s.started != 0)
    && (ScanDone in s.bits ==> s.started == 0)
    && s.count <= (if s.result.Some? then |s.result.value| else 0)
  }

  datatype Op =
    | Start(async: bool, maxMsPerChan: nat, startOk: bool, at: nat, during: Option<Report>)
    | Finish(report: Report)
    | Complete(at: nat)
    | Delete

  function Step(s: ScanState, op: Op): ScanState {
    match op
    case Start(async, maxMsPerChan, startOk, at, during) => ScanNetworksOp(s, async, maxMsPerChan, startOk, at, during).state
    case Finish(report) => Done(s, report)
    case Complete(at) => ScanCompleteOp(s, at).state
    case Delete => Deleted(s)
  }

  function Run(s: ScanState, ops: seq<Op>): ScanState {
    if ops == [] then s else Step(Run(s, ops[..|ops| - 1]), ops[|ops| - 1])
  }

  /** Never scanning and done at once, a start time whenever scanning, and no more records counted than there are. */
  lemma {:induction false} ScanStaysSane(bits: StatusBits, ops: seq<Op>)
    ensures Sane(Run(Initial(bits), ops))
  {
    if ops != [] {
      ScanStaysSane(bits, ops[..|ops| - 1]);
    }
  }

  // ----- A scan whose end is never reported -----------------------------------------------------

  /** True time elapsed when polling from `start` to `now` sees the scan as timed out, in the first 2^32 ms. */
  predicate SeenAsTimedOut(start: nat, elapsed: nat, timeout: nat) {
    if Millis(start) != 0 then elapsed > timeout
    else if elapsed == 0 then TWO_TO_THE_32 - 1 > timeout
    else elapsed - 1 > timeout
  }

  /** Exactly which elapsed times count as a timeout, across the wraparound of `millis()`. */
  lemma TimedOutExactly(s: ScanState, start: nat, now: nat)
    requires s.started == Stamp(start) && start <= now < start + TWO_TO_THE_32
    ensures TimedOut(s, now) <==> SeenAsTimedOut(start, now - start, s.timeout)
  {
  }

  /** No report of the scan's end, and no new scan the driver accepts. */
  predicate Quiet(op: Op) {
    op.Complete? || op.Delete? || (op.Start? && !op.startOk)
  }

  lemma {:induction false} QuietKeepsScan(s: ScanState, ops: seq<Op>)
    requires Scanning in s.bits && forall op | op in ops :: Quiet(op)
    ensures var s' := Run(s, ops);
            && s'.started == s.started
            && (Scanning in s'.bits ==> s'.timeout == s.timeout)
  {
    if ops != [] {
      QuietKeepsScan(s, ops[..|ops| - 1]);
      assert Quiet(ops[|ops| - 1]);
    }
  }

  /**
   A started scan whose end is never reported, blocking or not, does not block scanning
   for ever: polled at a time seen as timed out, it is released, and the next request runs
   a new scan, from its own start time, or to its end if the report comes while it waits.
   */
  lemma LostScanIsReleased(s: ScanState, async: bool, maxMsPerChan: nat, start: nat, ops: seq<Op>, now: nat, next: Op)
    requires Scanning !in s.bits && forall op | op in ops :: Quiet(op)
    requires start <= now < start + TWO_TO_THE_32
    requires SeenAsTimedOut(start, now - start, maxMsPerChan * 20 % TWO_TO_THE_32)
    requires next.Start? && next.startOk
    ensures var scanning := ScanNetworksOp(s, async, maxMsPerChan, true, start, None).state;
            var polled := ScanCompleteOp(Run(scanning, ops), now).state;
            var after := Step(polled, next);
            && Scanning !in polled.bits
            && if next.async || next.during.None? then Scanning in after.bits && after.started == Stamp(next.at)
               else ScanDone in after.bits && Scanning !in after.bits
  {
    var scanning := ScanNetworksOp(s, async, maxMsPerChan, true, start, None).state;
    QuietKeepsScan(scanning, ops);
    var s' := Run(scanning, ops);
    if Scanning in s'.bits {
      TimedOutExactly(s', start, now);
    }
  }

  // ----- What the application is told -------------------------------------------------------------

  /** A value as the C conversion to `int16_t` gives it, for counts of 16 bits. */
  function Signed(n: nat): int {
    if n < 0x8000 then n else n - 0x1_0000
  }

  /**
   In any state a run can reach, a poll tells of a running scan until it times out, then of a
   failed one; of the number of records once a scan is done; and of failure if none was made.
   */
  lemma PollTellsState(bits: StatusBits, ops: seq<Op>, now: nat)
    ensures var s := Run(Initial(bits), ops); var ret := ScanCompleteOp(s, now).ret;
            && (Scanning in s.bits ==> ret == if TimedOut(s, now) then -2 else -1)
            && (ScanDone in s.bits ==> ret == ToInt16(s.count) && !TimedOut(s, now))
            && (Scanning !in s.bits && ScanDone !in s.bits ==> ret == -2)
  {
    ScanStaysSane(bits, ops);
  }

  /** A call that leaves a scan running: no report, no accepted start, no poll that sees it as timed out. */
  predicate Waiting(op: Op, start: nat, timeout: nat) {
    && Quiet(op)
    && (op.Complete? ==> start <= op.at < start + TWO_TO_THE_32 && !SeenAsTimedOut(start, op.at - start, timeout))
  }

  lemma {:induction false} StillScanning(s: ScanState, ops: seq<Op>, start: nat)
    requires Scanning in s.bits && ScanDone !in s.bits && s.started == Stamp(start)
    requires forall op | op in ops :: Waiting(op, start, s.timeout)
    ensures var s' := Run(s, ops);
            Scanning in s'.bits && ScanDone !in s'.bits && s'.started == s.started && s'.timeout == s.timeout
  {
    if ops != [] {
      var before, last := ops[..|ops| - 1], ops[|ops| - 1];
      StillScanning(s, before, start);
      assert Waiting(last, start, s.timeout);
      if last.Complete? {
        TimedOutExactly(Run(s, before), start, last.at);
      }
    }
  }

  /**
   While a scan waits for its report, polls tell it runs, up to the first that sees it as
   timed out; other requests are refused.
   */
  lemma PollWhileScanning(s: ScanState, async: bool, maxMsPerChan: nat, start: nat, ops: seq<Op>, now: nat, next: Op)
    requires Scanning !in s.bits
    requires forall op | op in ops :: Waiting(op, start, maxMsPerChan * 20 % TWO_TO_THE_32)
    requires start <= now < start + TWO_TO_THE_32 && next.Start?
    ensures var begun := ScanNetworksOp(s, async, maxMsPerChan, true, start, None);
            var s' := Run(begun.state, ops);
            && begun.ret == (if async then -1 else -2)
            && ScanCompleteOp(s', now).ret ==
               (if SeenAsTimedOut(start, now - start, maxMsPerChan * 20 % TWO_TO_THE_32) then -2 else -1)
            && ScanNetworksOp(s', next.async, next.maxMsPerChan, next.startOk, next.at, next.during) == Answer(s', -1)
  {
    var begun := ScanNetworksOp(s, async, maxMsPerChan, true, start, None).state;
    StillScanning(begun, ops, start);
    TimedOutExactly(Run(begun, ops), start, now);
  }

  /** A refused start leaves no scan, running or done, and says so. */
  lemma RefusedStart(s: ScanState, async: bool, maxMsPerChan: nat, now: nat, during: Option<Report>)
    requires Scanning !in s.bits
    ensures var r := ScanNetworksOp(s, async, maxMsPerChan, false, now, during);
            r.ret == -2 && Scanning !in r.state.bits && ScanDone !in r.state.bits && r.state.result == None
  {
  }

  /** The records are those the driver handed over, record i its record i, and as many count as it handed over. */
  ghost predicate Holds(s: ScanState, n: nat, records: seq<ApRecord>) {
    && s.started == 0 && ScanDone in s.bits && Scanning !in s.bits
    && s.count == Min(n, |records|)
    && (n > 0 ==> s.result.Some? && |s.result.value| == n
                  && forall i | 0 <= i < s.count :: s.result.value[i] == records[i])
  }

  lemma {:induction false} StillHolds(s: ScanState, ops: seq<Op>, n: nat, records: seq<ApRecord>)
    requires Holds(s, n, records) && forall op | op in ops :: op.Complete?
    ensures Holds(Run(s, ops), n, records)
  {
    if ops != [] {
      StillHolds(s, ops[..|ops| - 1], n, records);
      assert ops[|ops| - 1].Complete?;
    }
  }

  /**
   A scan done with n records announced and these handed over: until they are deleted every poll gives their
   number, and deleting leaves none.  A blocking scan that ends so holds the same and returns the same number.
   */
  lemma ResultsAreReported(s: ScanState, n: nat, records: seq<ApRecord>, ops: seq<Op>, now: nat, maxMsPerChan: nat)
    requires n < TWO_TO_THE_16 && forall op | op in ops :: op.Complete?
    ensures var report := Report(Some(n), Some(records)); var s' := Run(Done(s, report), ops);
            && Holds(s', n, records)
            && ScanCompleteOp(s', now).ret == Signed(Min(n, |records|))
            && (n > 0 ==> Deleted(s').result == None && Deleted(s').count == 0 && ScanCompleteOp(Deleted(s'), now).ret == -2)
    ensures Scanning !in s.bits ==>
              var r := ScanNetworksOp(s, false, maxMsPerChan, true, now, Some(Report(Some(n), Some(records))));
              Holds(r.state, n, records) && r.ret == Signed(Min(n, |records|))
  {
    var report := Report(Some(n), Some(records));
    StillHolds(Done(s, report), ops, n, records);
    SignedIsNarrowed(Min(n, |records|));
  }

  /** A done scan whose records, or whose number after a clean start, the driver does not give counts as having found none. */
  lemma UnansweredReport(s: ScanState, report: Report, now: nat)
    requires ValidReport(report) && (report.records.None? || (report.number.None? && s.count == 0))
    ensures var s' := Done(s, report); s'.count == 0 && ScanDone in s'.bits && ScanCompleteOp(s', now).ret == 0
  {
  }

  lemma SignedIsNarrowed(n: nat)
    requires n < TWO_TO_THE_16
    ensures ToInt16(n) == Signed(n)
  {
  }

  /** At a start time where `millis()` is 0 the sentinel costs one millisecond, and polling at once releases the scan. */
  lemma SentinelShiftsTimeout(s: ScanState, timeout: nat)
    requires s.started == Stamp(0) && s.timeout == timeout < TWO_TO_THE_32 - 2
    ensures !TimedOut(s, timeout + 1) && TimedOut(s, timeout + 2) && TimedOut(s, 0)
  {
  }
}
