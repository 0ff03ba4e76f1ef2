/**
 The receive buffer of a TCP client: a window over a fixed array, filled from the
 socket on demand.  The functions describe each operation on values;
 RxBufferClass.WiFiClientRxBuffer does the same in place and is proved to compute
 the same thing.
 */
module RxBuffer {
  import opened Wrappers

  // ----- The outside world ----------------------------------------------------

  /** What happens at one call into the system: bytes that arrive meanwhile, and the call's own answer. */
  datatype Event = Event(arrivals: seq<Byte>, ok: bool, amount: nat, wouldBlock: bool)

  /** All answers of the outside world, one per call, fixed in advance but arbitrary. */
  type World = nat -> Event

  /** How many calls have been made, and the bytes waiting on the socket. */
  datatype Net = Net(tick: nat, pending: seq<Byte>)

  function Tick(world: World, net: Net): Net {
    Net(net.tick + 1, net.pending + world(net.tick).arrivals)
  }

  /** Everything the peer has sent up to the given call. */
  function Arrived(world: World, tick: nat): seq<Byte> {
    if tick == 0 then [] else Arrived(world, tick - 1) + world(tick - 1).arrivals
  }

  // ----- The buffer as a value --------------------------------------------------

  /** `buffered` is the unread window; `fill` counts from the start of the array to its end. */
  datatype Rx = Rx(fd: int, size: nat, hasBuffer: bool, fill: nat, buffered: seq<Byte>, failed: bool)

  predicate Sane(rx: Rx) {
    |rx.buffered| <= rx.fill <= rx.size && (!rx.hasBuffer ==> rx.fill == 0)
  }

  datatype FillEnd = NoRefill | NoMemory | Full | NothingAvailable | QueryFailed | RecvFailed | RecvNothing | Filled

  datatype FillResult = FillResult(net: Net, rx: Rx, n: nat, end: FillEnd)

  function FillOp(world: World, net: Net, rx: Rx): FillResult
    requires Sane(rx)
  {
    if !rx.hasBuffer && !world(net.tick).ok then
      FillResult(Tick(world, net), rx.(failed := true), 0, NoMemory)
    else
      var rx0 := rx.(hasBuffer := true, fill := if rx.buffered == [] then 0 else rx.fill);
      FillAllocated(world, if rx.hasBuffer then net else Tick(world, net), rx0)
  }

  function FillAllocated(world: World, net: Net, rx: Rx): FillResult
    requires Sane(rx)
  {
    if rx.size <= rx.fill then FillResult(net, rx, 0, Full)
    else if rx.fd < 0 then FillResult(net, rx, 0, NothingAvailable)
    else
      var net1 := Tick(world, net);
      if !world(net.tick).ok then FillResult(net1, rx.(failed := true), 0, QueryFailed)
      else if net1.pending == [] then FillResult(net1, rx, 0, NothingAvailable)
      else Receive(world, net1, rx)
  }

  function Receive(world: World, net: Net, rx: Rx): FillResult
    requires Sane(rx)
  {
    var event := world(net.tick);
    var net1 := Tick(world, net);
    if !event.ok then FillResult(net1, rx.(failed := rx.failed || !event.wouldBlock), 0, RecvFailed)
    else
      var n := Min(event.amount, Min(rx.size - rx.fill, |net1.pending|));
      FillResult(net1.(pending := net1.pending[n..]),
                 rx.(fill := rx.fill + n, buffered := rx.buffered + net1.pending[..n]),
                 n, if n == 0 then RecvNothing else Filled)
  }

  /** Result of a read: the value returned, the bytes copied out, and how the last refill ended, if there was one. */
  datatype ReadResult = ReadResult(net: Net, rx: Rx, ret: int, data: seq<Byte>, end: FillEnd)

  function TakeFront(rx: Rx, n: nat): Rx
    requires n <= |rx.buffered|
  {
    rx.(buffered := rx.buffered[n..])
  }

  /** Copy, refill, copy, until enough bytes were copied or a refill brought none. */
  function ReadLoop(world: World, net: Net, rx: Rx, left: nat, end: FillEnd): (r: ReadResult)
    requires Sane(rx)
    decreases left
  {
    if left == 0 then ReadResult(net, rx, 0, [], end)
    else
      var f := FillOp(world, net, rx);
      if f.n == 0 then ReadResult(f.net, f.rx, 0, [], f.end)
      else
        FillSane(world, net, rx);
        var n := Min(left, |f.rx.buffered|);
        var rest := ReadLoop(world, f.net, TakeFront(f.rx, n), left - n, f.end);
        rest.(data := f.rx.buffered[..n] + rest.data)
  }

  lemma FillSane(world: World, net: Net, rx: Rx)
    requires Sane(rx)
    ensures var f := FillOp(world, net, rx);
            && Sane(f.rx) && f.rx.size == rx.size && f.rx.fd == rx.fd
            && (f.n > 0 <==> f.end == Filled)
            && |f.rx.buffered| == |rx.buffered| + f.n
            && (f.end != NoMemory ==> f.rx.hasBuffer)
  {
  }

  function ReadOp(world: World, net: Net, rx: Rx, hasDst: bool, len: nat): (r: ReadResult)
    requires Sane(rx)
  {
    if !hasDst || len == 0 then ReadResult(net, rx, if rx.failed then -1 else 0, [], NoRefill)
    else if rx.buffered != [] then ReadBuffered(world, net, rx, len, NoRefill)
    else
      var f := FillOp(world, net, rx);
      if f.n == 0 then ReadResult(f.net, f.rx, if f.rx.failed then -1 else 0, [], f.end)
      else
        FillSane(world, net, rx);
        ReadBuffered(world, f.net, f.rx, len, f.end)
  }

  /** Something is buffered: serve it at once, after one more refill if that can be enough, or piece by piece. */
  function ReadBuffered(world: World, net: Net, rx: Rx, len: nat, end: FillEnd): (r: ReadResult)
    requires Sane(rx) && rx.buffered != [] && len > 0
  {
    var a := |rx.buffered|;
    if len <= a then
      ReadResult(net, TakeFront(rx, len), len, rx.buffered[..len], end)
    else if len - a <= rx.size - rx.fill then
      var f := FillOp(world, net, rx);
      FillSane(world, net, rx);
      if f.n >= len - a then ReadResult(f.net, TakeFront(f.rx, len), len, f.rx.buffered[..len], f.end)
      else ReadPieces(world, f.net, f.rx, a, len, f.end)
    else ReadPieces(world, net, rx, a, len, end)
  }

  /** The first piece is the `a` bytes counted before the last refill, even if there are more by now. */
  function ReadPieces(world: World, net: Net, rx: Rx, a: nat, len: nat, end: FillEnd): (r: ReadResult)
    requires Sane(rx) && a <= |rx.buffered| && a <= len
  {
    var rest := ReadLoop(world, net, TakeFront(rx, a), len - a, end);
    var data := rx.buffered[..a] + rest.data;
    ReadResult(rest.net, rest.rx, |data|, data, rest.end)
  }

  datatype PeekResult = PeekResult(net: Net, rx: Rx, ret: int)

  function PeekOp(world: World, net: Net, rx: Rx): PeekResult
    requires Sane(rx)
  {
    if rx.buffered != [] then PeekResult(net, rx, rx.buffered[0] as int)
    else
      var f := FillOp(world, net, rx);
      FillSane(world, net, rx);
      PeekResult(f.net, f.rx, if f.n == 0 then -1 else f.rx.buffered[0] as int)
  }

  datatype AvailableResult = AvailableResult(net: Net, rx: Rx, count: nat)

  function AvailableOp(world: World, net: Net, rx: Rx): AvailableResult {
    if rx.fd < 0 then AvailableResult(net, rx, |rx.buffered|)
    else
      var net1 := Tick(world, net);
      if !world(net.tick).ok then AvailableResult(net1, rx.(failed := true), |rx.buffered|)
      else AvailableResult(net1, rx, |rx.buffered| + |net1.pending|)
  }

  // ----- First in, first out ------------------------------------------------------

  /** What was handed out, what is buffered and what waits on the socket make up what arrived, in order. */
  ghost predicate InOrder(world: World, net: Net, rx: Rx, out: seq<Byte>) {
    out + rx.buffered + net.pending == Arrived(world, net.tick)
  }

  lemma TickKeepsOrder(world: World, net: Net, rx: Rx, out: seq<Byte>)
    requires InOrder(world, net, rx, out)
    ensures InOrder(world, Tick(world, net), rx, out)
  {
  }

  lemma ReceiveKeepsOrder(world: World, net: Net, rx: Rx, out: seq<Byte>)
    requires Sane(rx) && InOrder(world, net, rx, out)
    ensures var f := Receive(world, net, rx); InOrder(world, f.net, f.rx, out)
  {
  }

  lemma FillKeepsOrder(world: World, net: Net, rx: Rx, out: seq<Byte>)
    requires Sane(rx) && InOrder(world, net, rx, out)
    ensures var f := FillOp(world, net, rx); InOrder(world, f.net, f.rx, out)
  {
    TickKeepsOrder(world, net, rx, out);
    if rx.hasBuffer || world(net.tick).ok {
      var net0 := if rx.hasBuffer then net else Tick(world, net);
      var rx0 := rx.(hasBuffer := true, fill := if rx.buffered == [] then 0 else rx.fill);
      assert InOrder(world, net0, rx0, out);
      TickKeepsOrder(world, net0, rx0, out);
      ReceiveKeepsOrder(world, Tick(world, net0), rx0, out);
    }
  }

  lemma TakeKeepsOrder(world: World, net: Net, rx: Rx, out: seq<Byte>, n: nat)
    requires Sane(rx) && n <= |rx.buffered| && InOrder(world, net, rx, out)
    ensures Sane(TakeFront(rx, n)) && InOrder(world, net, TakeFront(rx, n), out + rx.buffered[..n])
  {
  }

  /** The bytes a read copied are the next ones of the stream. */
  ghost predicate ReadInOrder(world: World, r: ReadResult, out: seq<Byte>) {
    Sane(r.rx) && InOrder(world, r.net, r.rx, out + r.data)
  }

  /** A copied piece, and then a read that keeps order after it. */
  lemma PieceThenRest(world: World, rest: ReadResult, out: seq<Byte>, piece: seq<Byte>, r: ReadResult)
    requires ReadInOrder(world, rest, out + piece)
    requires r.net == rest.net && r.rx == rest.rx && r.data == piece + rest.data
    ensures ReadInOrder(world, r, out)
  {
  }

  lemma {:induction false} ReadLoopKeepsOrder(world: World, net: Net, rx: Rx, left: nat, end: FillEnd, out: seq<Byte>)
    requires Sane(rx) && InOrder(world, net, rx, out)
    ensures ReadInOrder(world, ReadLoop(world, net, rx, left, end), out)
    decreases left
  {
    assert out + [] == out;
    var f := FillOp(world, net, rx);
    FillSane(world, net, rx);
    FillKeepsOrder(world, net, rx, out);
    if left > 0 && f.n > 0 {
      var n := Min(left, |f.rx.buffered|);
      TakeKeepsOrder(world, f.net, f.rx, out, n);
      ReadLoopKeepsOrder(world, f.net, TakeFront(f.rx, n), left - n, f.end, out + f.rx.buffered[..n]);
      PieceThenRest(world, ReadLoop(world, f.net, TakeFront(f.rx, n), left - n, f.end), out, f.rx.buffered[..n],
                    ReadLoop(world, net, rx, left, end));
    }
  }

  lemma ReadPiecesKeepsOrder(world: World, net: Net, rx: Rx, a: nat, len: nat, end: FillEnd, out: seq<Byte>)
    requires Sane(rx) && a <= |rx.buffered| && a <= len && InOrder(world, net, rx, out)
    ensures ReadInOrder(world, ReadPieces(world, net, rx, a, len, end), out)
  {
    TakeKeepsOrder(world, net, rx, out, a);
    ReadLoopKeepsOrder(world, net, TakeFront(rx, a), len - a, end, out + rx.buffered[..a]);
    PieceThenRest(world, ReadLoop(world, net, TakeFront(rx, a), len - a, end), out, rx.buffered[..a],
                  ReadPieces(world, net, rx, a, len, end));
  }

  lemma ReadBufferedKeepsOrder(world: World, net: Net, rx: Rx, len: nat, end: FillEnd, out: seq<Byte>)
    requires Sane(rx) && rx.buffered != [] && len > 0 && InOrder(world, net, rx, out)
    ensures ReadInOrder(world, ReadBuffered(world, net, rx, len, end), out)
  {
    var a := |rx.buffered|;
    if len <= a {
      TakeKeepsOrder(world, net, rx, out, len);
    } else if len - a <= rx.size - rx.fill {
      var f := FillOp(world, net, rx);
      FillSane(world, net, rx);
      FillKeepsOrder(world, net, rx, out);
      if f.n >= len - a {
        TakeKeepsOrder(world, f.net, f.rx, out, len);
      } else {
        ReadPiecesKeepsOrder(world, f.net, f.rx, a, len, f.end, out);
      }
    } else {
      ReadPiecesKeepsOrder(world, net, rx, a, len, end, out);
    }
  }

  lemma ReadKeepsOrder(world: World, net: Net, rx: Rx, hasDst: bool, len: nat, out: seq<Byte>)
    requires Sane(rx) && InOrder(world, net, rx, out)
    ensures ReadInOrder(world, ReadOp(world, net, rx, hasDst, len), out)
  {
    assert out + [] == out;
    if hasDst && len > 0 {
      if rx.buffered != [] {
        ReadBufferedKeepsOrder(world, net, rx, len, NoRefill, out);
      } else {
        var f := FillOp(world, net, rx);
        FillSane(world, net, rx);
        FillKeepsOrder(world, net, rx, out);
        if f.n > 0 {
          ReadBufferedKeepsOrder(world, f.net, f.rx, len, f.end, out);
        }
      }
    }
  }

  // ----- Whole sessions -------------------------------------------------------------

  datatype Op = Read(hasDst: bool, len: nat) | Peek | Available

  datatype Session = Session(net: Net, rx: Rx, out: seq<Byte>)

  function Step(world: World, s: Session, op: Op): Session
    requires Sane(s.rx)
  {
    match op
    case Read(hasDst, len) =>
      var r := ReadOp(world, s.net, s.rx, hasDst, len);
      Session(r.net, r.rx, s.out + r.data)
    case Peek =>
      var r := PeekOp(world, s.net, s.rx);
      Session(r.net, r.rx, s.out)
    case Available =>
      var r := AvailableOp(world, s.net, s.rx);
      Session(r.net, r.rx, s.out)
  }

  lemma StepKeepsOrder(world: World, s: Session, op: Op)
    requires Sane(s.rx) && InOrder(world, s.net, s.rx, s.out)
    ensures var s' := Step(world, s, op); Sane(s'.rx) && InOrder(world, s'.net, s'.rx, s'.out)
  {
    match op
    case Read(hasDst, len) =>
      ReadKeepsOrder(world, s.net, s.rx, hasDst, len, s.out);
    case Peek =>
      FillSane(world, s.net, s.rx);
      FillKeepsOrder(world, s.net, s.rx, s.out);
    case Available =>
      TickKeepsOrder(world, s.net, s.rx, s.out);
  }

  /** States reached by any calls in any order, whatever the world answers. */
  ghost predicate Reachable(world: World, fd: int, size: nat, ops: seq<Op>, s: Session) {
    if ops == [] then s == Session(Net(0, []), Rx(fd, size, false, 0, [], false), [])
    else
      exists before: Session ::
        Reachable(world, fd, size, ops[..|ops| - 1], before) && Sane(before.rx) && s == Step(world, before, ops[|ops| - 1])
  }

  /** The buffer is a plain FIFO: over any session, bytes come out in the order they arrived, none lost, none repeated. */
  lemma {:induction false} StreamIsFifo(world: World, fd: int, size: nat, ops: seq<Op>, s: Session)
    requires Reachable(world, fd, size, ops, s)
    ensures Sane(s.rx) && s.out + s.rx.buffered + s.net.pending == Arrived(world, s.net.tick)
  {
    if ops != [] {
      var before: Session :|
        Reachable(world, fd, size, ops[..|ops| - 1], before) && Sane(before.rx) && s == Step(world, before, ops[|ops| - 1]);
      StreamIsFifo(world, fd, size, ops[..|ops| - 1], before);
      StepKeepsOrder(world, before, ops[|ops| - 1]);
    }
  }

  /** In a session, `peek` gives the next byte of the stream, the one after those handed out, or -1 if none could be had. */
  lemma PeekIsNext(world: World, fd: int, size: nat, ops: seq<Op>, s: Session)
    requires Reachable(world, fd, size, ops, s)
    ensures Sane(s.rx)
    ensures var r := PeekOp(world, s.net, s.rx); var stream := Arrived(world, r.net.tick);
            && -1 <= r.ret && (r.ret == -1 <==> r.rx.buffered == [])
            && (r.ret >= 0 ==> |s.out| < |stream| && r.ret == stream[|s.out|] as int)
            && (s.rx.buffered != [] ==> r.net == s.net && r.rx == s.rx)
  {
    StreamIsFifo(world, fd, size, ops, s);
    var r := PeekOp(world, s.net, s.rx);
    FillSane(world, s.net, s.rx);
    FillKeepsOrder(world, s.net, s.rx, s.out);
    assert InOrder(world, r.net, r.rx, s.out);
    if r.rx.buffered != [] {
      assert (s.out + r.rx.buffered + r.net.pending)[|s.out|] == r.rx.buffered[0];
    }
  }

  /**
   In a session, an `available` that could ask the socket reports exactly the bytes sent and not yet read,
   and otherwise those of them that are already buffered.
   */
  lemma AvailableIsExact(world: World, fd: int, size: nat, ops: seq<Op>, s: Session)
    requires Reachable(world, fd, size, ops, s)
    ensures var r := AvailableOp(world, s.net, s.rx);
            && |s.out| <= |Arrived(world, r.net.tick)|
            && r.count == |Arrived(world, r.net.tick)| - |s.out|
                          - (if s.rx.fd >= 0 && world(s.net.tick).ok then 0 else |r.net.pending|)
  {
    StreamIsFifo(world, fd, size, ops, s);
    TickKeepsOrder(world, s.net, s.rx, s.out);
  }

  // ----- What a refill takes ----------------------------------------------------------

  /**
   Unless the system refuses, a refill receives as much as one `recv` gives, of what waits and fits
   behind the window, or from the start of the array if the window is empty.
   */
  lemma RefillExactly(world: World, net: Net, rx: Rx)
    requires Sane(rx)
    ensures var f := FillOp(world, net, rx); var start := if rx.buffered == [] then 0 else rx.fill;
            && f.n <= rx.size - start
            && (f.n > 0 ==> f.rx.fill == start + f.n && f.n <= world(f.net.tick - 1).amount)
            && ((forall t: nat | net.tick <= t < f.net.tick :: !Refused(world, t)) && rx.fd >= 0 && start < rx.size ==>
                  f.net.pending == [] || f.n == rx.size - start || f.n == world(f.net.tick - 1).amount)
            && (rx.fd < 0 || start == rx.size ==> f.n == 0 && f.net.tick <= net.tick + 1)
  {
    var f := FillOp(world, net, rx);
    if f.end == QueryFailed || f.end == RecvFailed {
      assert Refused(world, f.net.tick - 1);
    } else if f.end == NoMemory {
      assert Refused(world, net.tick);
    }
  }

  // ----- The failed flag ------------------------------------------------------------

  /** A refill raises the flag exactly for missing memory, a failed query, or a failed receive that would not just block. */
  lemma RefillFailsExactly(world: World, net: Net, rx: Rx)
    requires Sane(rx)
    ensures var f := FillOp(world, net, rx);
            f.rx.failed <==> || rx.failed
                             || (!rx.hasBuffer && !world(net.tick).ok)
                             || f.end == QueryFailed
                             || (f.end == RecvFailed && !world(f.net.tick - 1).wouldBlock)
    ensures var f := FillOp(world, net, rx);
            f.end == QueryFailed || f.end == RecvFailed ==> f.net.tick > net.tick && !world(f.net.tick - 1).ok
  {
  }

  predicate Refused(world: World, t: nat) {
    !world(t).ok
  }

  /** Over calls `from` to `to`: raised only if one was refused, for certain if it would not just block; never lowered. */
  ghost predicate Flagged(world: World, from: nat, before: bool, to: nat, after: bool) {
    && from <= to && (before ==> after)
    && (after && !before ==> exists t: nat :: from <= t < to && Refused(world, t))
    && forall t: nat | from <= t < to && Refused(world, t) && !world(t).wouldBlock :: after
  }

  lemma RefillFlagged(world: World, net: Net, rx: Rx)
    requires Sane(rx)
    ensures var f := FillOp(world, net, rx); Flagged(world, net.tick, rx.failed, f.net.tick, f.rx.failed)
  {
    var f := FillOp(world, net, rx);
    assert f.rx.failed && !rx.failed ==> Refused(world, f.net.tick - 1);
  }

  lemma {:induction false} LoopFlagged(world: World, net: Net, rx: Rx, left: nat, end: FillEnd)
    requires Sane(rx)
    ensures var r := ReadLoop(world, net, rx, left, end); Flagged(world, net.tick, rx.failed, r.net.tick, r.rx.failed)
    decreases left
  {
    if left > 0 {
      var f := FillOp(world, net, rx);
      FillSane(world, net, rx);
      RefillFlagged(world, net, rx);
      if f.n > 0 {
        var n := Min(left, |f.rx.buffered|);
        LoopFlagged(world, f.net, TakeFront(f.rx, n), left - n, f.end);
      }
    }
  }

  lemma PiecesFlagged(world: World, net: Net, rx: Rx, a: nat, len: nat, end: FillEnd)
    requires Sane(rx) && a <= |rx.buffered| && a <= len
    ensures var r := ReadPieces(world, net, rx, a, len, end); Flagged(world, net.tick, rx.failed, r.net.tick, r.rx.failed)
  {
    LoopFlagged(world, net, TakeFront(rx, a), len - a, end);
  }

  /** A refill, and what a read does after it. */
  lemma FlaggedAfterRefill(world: World, net: Net, rx: Rx, to: nat, after: bool)
    requires Sane(rx)
    requires var f := FillOp(world, net, rx); Flagged(world, f.net.tick, f.rx.failed, to, after)
    ensures Flagged(world, net.tick, rx.failed, to, after)
  {
    RefillFlagged(world, net, rx);
    var f := FillOp(world, net, rx);
    FlaggedTwice(world, net.tick, rx.failed, f.net.tick, f.rx.failed, to, after);
  }

  lemma BufferedReadFlagged(world: World, net: Net, rx: Rx, len: nat, end: FillEnd)
    requires Sane(rx) && rx.buffered != [] && len > 0
    ensures var r := ReadBuffered(world, net, rx, len, end); Flagged(world, net.tick, rx.failed, r.net.tick, r.rx.failed)
  {
    var a := |rx.buffered|;
    var r := ReadBuffered(world, net, rx, len, end);
    if len <= a {
    } else if len - a <= rx.size - rx.fill {
      var f := FillOp(world, net, rx);
      FillSane(world, net, rx);
      if f.n < len - a {
        PiecesFlagged(world, f.net, f.rx, a, len, f.end);
      }
      FlaggedAfterRefill(world, net, rx, r.net.tick, r.rx.failed);
    } else {
      PiecesFlagged(world, net, rx, a, len, end);
    }
  }

  lemma FlaggedTwice(world: World, from: nat, before: bool, middle: nat, flag: bool, to: nat, after: bool)
    requires Flagged(world, from, before, middle, flag) && Flagged(world, middle, flag, to, after)
    ensures Flagged(world, from, before, to, after)
  {
  }

  /** Over any call: the flag is raised only if the system refused something, and then unless it would just block. */
  lemma StepFlagged(world: World, s: Session, op: Op)
    requires Sane(s.rx)
    ensures var s' := Step(world, s, op); Flagged(world, s.net.tick, s.rx.failed, s'.net.tick, s'.rx.failed)
  {
    RefillFlagged(world, s.net, s.rx);
    FillSane(world, s.net, s.rx);
    if op.Read? && op.hasDst && op.len > 0 {
      if s.rx.buffered != [] {
        BufferedReadFlagged(world, s.net, s.rx, op.len, NoRefill);
      } else {
        var f := FillOp(world, s.net, s.rx);
        if f.n > 0 {
          BufferedReadFlagged(world, f.net, f.rx, op.len, f.end);
          var r := ReadBuffered(world, f.net, f.rx, op.len, f.end);
          FlaggedAfterRefill(world, s.net, s.rx, r.net.tick, r.rx.failed);
        }
      }
    } else if op.Available? {
      assert AvailableOp(world, s.net, s.rx).rx.failed && !s.rx.failed ==> Refused(world, s.net.tick);
    }
  }

  // ----- Short reads ----------------------------------------------------------------

  /** The refill reached the socket, or asked for it, and got nothing. */
  predicate CameUpDry(end: FillEnd) {
    end == NothingAvailable || end == QueryFailed || end == RecvFailed || end == RecvNothing
  }

  lemma {:induction false} LoopStopsDry(world: World, net: Net, rx: Rx, left: nat, end: FillEnd)
    requires Sane(rx) && rx.hasBuffer
    requires left > 0 ==> |rx.buffered| < left && (rx.fill < rx.size || (rx.buffered == [] && rx.size > 0))
    ensures var r := ReadLoop(world, net, rx, left, end);
            && |r.data| <= left
            && (|r.data| < left ==> CameUpDry(r.end) && |r.data| + |r.rx.buffered| < left)
    decreases left
  {
    if left > 0 {
      var f := FillOp(world, net, rx);
      FillSane(world, net, rx);
      if f.n > 0 {
        var n := Min(left, |f.rx.buffered|);
        LoopStopsDry(world, f.net, TakeFront(f.rx, n), left - n, f.end);
      }
    }
  }

  lemma PiecesStopDry(world: World, net: Net, rx: Rx, a: nat, len: nat, end: FillEnd)
    requires Sane(rx) && rx.hasBuffer && 0 < a <= |rx.buffered| < len
    requires rx.fill < rx.size || a == |rx.buffered|
    ensures var r := ReadPieces(world, net, rx, a, len, end);
            && 0 < r.ret == |r.data| <= len
            && (r.ret < len ==> CameUpDry(r.end) && r.ret + |r.rx.buffered| < len)
  {
    LoopStopsDry(world, net, TakeFront(rx, a), len - a, end);
  }

  lemma BufferedReadStopsDry(world: World, net: Net, rx: Rx, len: nat, end: FillEnd)
    requires Sane(rx) && rx.hasBuffer && rx.buffered != [] && len > 0
    ensures var r := ReadBuffered(world, net, rx, len, end);
            && 0 < r.ret == |r.data| <= len
            && (r.ret < len ==> CameUpDry(r.end) && r.ret + |r.rx.buffered| < len)
            && (len <= |rx.buffered| ==> r.ret == len && r.net == net)
  {
    var a := |rx.buffered|;
    if a < len {
      if len - a <= rx.size - rx.fill {
        var f := FillOp(world, net, rx);
        FillSane(world, net, rx);
        if f.n < len - a {
          FillLeavesRoom(world, net, rx);
          PiecesStopDry(world, f.net, f.rx, a, len, f.end);
        }
      } else {
        PiecesStopDry(world, net, rx, a, len, end);
      }
    }
  }

  /** Something was buffered, so nothing moved: the refill only extended the window. */
  lemma FillLeavesRoom(world: World, net: Net, rx: Rx)
    requires Sane(rx) && rx.hasBuffer && rx.buffered != []
    ensures var f := FillOp(world, net, rx); f.rx.fill == rx.fill + f.n
  {
  }

  /**
   A read of `len` bytes gives less than that only when its last refill came up
   dry, never because the buffer was full; and then even the bytes it leaves
   behind would not have been enough.  It gives nothing only when nothing is left.
   Without a destination, or for no bytes, nothing happens.
   */
  lemma ReadProgress(world: World, net: Net, rx: Rx, len: nat)
    requires Sane(rx) && (rx.hasBuffer || rx.buffered == []) && len > 0
    ensures var nothing := ReadOp(world, net, rx, false, len);
            && nothing == ReadOp(world, net, rx, true, 0)
            && nothing.net == net && nothing.rx == rx && nothing.data == []
            && nothing.ret == if rx.failed then -1 else 0
    ensures var r := ReadOp(world, net, rx, true, len);
            && r.ret <= len
            && (r.ret > 0 ==> r.ret == |r.data|)
            && (0 < r.ret < len ==> CameUpDry(r.end) && r.ret + |r.rx.buffered| < len)
            && (r.ret <= 0 ==> r.data == [] && rx.buffered == [] && r.rx.buffered == [])
            && (r.ret <= 0 ==> r.ret == if r.rx.failed then -1 else 0)
            && (r.ret == 0 && rx.size > 0 ==> CameUpDry(r.end))
            && (len <= |rx.buffered| ==> r.ret == len && r.net == net)
  {
    if rx.buffered != [] {
      BufferedReadStopsDry(world, net, rx, len, NoRefill);
    } else {
      var f := FillOp(world, net, rx);
      FillSane(world, net, rx);
      if f.n > 0 {
        BufferedReadStopsDry(world, f.net, f.rx, len, f.end);
      }
    }
  }

  /** Two bytes sent, one received per `recv`: a read of three returns one byte and leaves the other buffered. */
  lemma ShortReadMayLeaveBytes()
    ensures var world: World := (t: nat) => Event(if t == 1 then [7, 9] else [], true, 1, false);
            var r := ReadOp(world, Net(0, []), Rx(3, 4, false, 0, [], false), true, 3);
            r.ret == 1 && r.data == [7] && r.rx.buffered == [9]
  {
    var world: World := (t: nat) => Event(if t == 1 then [7, 9] else [], true, 1, false);
    var rx := Rx(3, 4, false, 0, [], false);
    var f := FillOp(world, Net(0, []), rx);
    assert f == FillResult(Net(3, [9]), Rx(3, 4, true, 1, [7], false), 1, Filled);
    var g := FillOp(world, f.net, f.rx);
    assert g == FillResult(Net(5, []), Rx(3, 4, true, 2, [7, 9], false), 1, Filled);
    var taken := TakeFront(g.rx, 1);
    assert taken == Rx(3, 4, true, 2, [9], false);
    var h := FillOp(world, g.net, taken);
    assert h.n == 0 && h.rx == taken;
  }
}
