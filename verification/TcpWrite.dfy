/** Writing to a TCP client: a send loop whose retry budget is renewed by every byte that gets through. */
module TcpWrite {
  import opened Wrappers
  import RxBufferClass

  const MAX_WRITE_RETRY := 10

  /** What one round of `select` and `send` meets; `Takes(k)` is a socket ready for up to k bytes, possibly none. */
  datatype Round = SelectFails | NotReady | Takes(k: nat) | Busy | SendFails

  type World = nat -> Round

  datatype WriteEnd = NotConnected | AllSent | GaveUp | SelectError | Stopped

  /** Rounds made, value returned, bytes the socket accepted, and how the call ended. */
  datatype WriteResult = WriteResult(tick: nat, ret: nat, accepted: nat, end: WriteEnd)

  /** Bytes a round gets through when `remaining` are left. */
  function Progress(round: Round, remaining: nat): nat {
    if round.Takes? then Min(round.k, remaining) else 0
  }

  function WriteLoop(world: World, tick: nat, total: nat, remaining: nat, retry: nat): WriteResult
    decreases remaining, retry
  {
    if retry == 0 then WriteResult(tick, total, total, GaveUp)
    else
      var round := world(tick);
      var n := Progress(round, remaining);
      if round.SelectFails? then WriteResult(tick + 1, 0, total, SelectError)
      else if round.SendFails? then WriteResult(tick + 1, total, total, Stopped)
      else if n == 0 then WriteLoop(world, tick + 1, total, remaining, retry - 1)
      else if n == remaining then WriteResult(tick + 1, total + n, total + n, AllSent)
      else WriteLoop(world, tick + 1, total + n, remaining - n, MAX_WRITE_RETRY)
  }

  function WriteOp(world: World, tick: nat, usable: bool, size: nat): WriteResult {
    if usable then WriteLoop(world, tick, 0, size, MAX_WRITE_RETRY) else WriteResult(tick, 0, 0, NotConnected)
  }

  // ----- In place -----------------------------------------------------------------

  /** The socket: the bytes it has accepted so far, and the rounds it has been asked for. */
  class Socket {
    const world: World
    var tick: nat
    var accepted: seq<Byte>

    constructor (world: World)
      ensures this.world == world && tick == 0 && accepted == []
    {
      this.world, tick, accepted := world, 0, [];
    }

    /** Wait for the socket; a negative result is an error. */
    method Select() returns (res: int, isSet: bool)
      modifies this`tick
      ensures tick == old(tick) + 1
      ensures res < 0 <==> world(old(tick)).SelectFails?
      ensures isSet <==> !world(old(tick)).SelectFails? && !world(old(tick)).NotReady?
    {
      var round := world(tick);
      tick := tick + 1;
      res := if round.SelectFails? then -1 else 0;
      isSet := !round.SelectFails? && !round.NotReady?;
    }

    /** Send without blocking, in the round just begun. */
    method Send(data: seq<Byte>) returns (res: int, again: bool)
      requires tick > 0 && !world(tick - 1).SelectFails? && !world(tick - 1).NotReady?
      modifies this`accepted
      ensures again <==> world(tick - 1).Busy?
      ensures res < 0 <==> world(tick - 1).Busy? || world(tick - 1).SendFails?
      ensures res >= 0 ==> res == Progress(world(tick - 1), |data|)
      ensures accepted == old(accepted) + data[..Progress(world(tick - 1), |data|)]
    {
      var round := world(tick - 1);
      if !round.Takes? {
        return -1, round.Busy?;
      }
      var n := Min(round.k, |data|);
      accepted := accepted + data[..n];
      return n, false;
    }

    /** Send what is left of a buffer whose first `offset` bytes were accepted after those of `before`. */
    method SendRest(buf: array<Byte>, offset: nat, size: nat, ghost before: seq<Byte>) returns (res: int, again: bool)
      requires offset <= size <= buf.Length && accepted == before + buf[..offset]
      requires tick > 0 && !world(tick - 1).SelectFails? && !world(tick - 1).NotReady?
      modifies this`accepted
      ensures again <==> world(tick - 1).Busy?
      ensures res < 0 <==> world(tick - 1).Busy? || world(tick - 1).SendFails?
      ensures res >= 0 ==> res == Progress(world(tick - 1), size - offset)
      ensures offset + (if res >= 0 then res else 0) <= size
      ensures accepted == before + buf[..offset + if res >= 0 then res else 0]
    {
      res, again := Send(buf[offset..size]);
      SliceExtends(buf[..], offset, size, if res >= 0 then res else 0);
      Assoc(before, buf[..offset], buf[offset..size][..if res >= 0 then res else 0]);
    }
  }

  lemma SliceExtends(s: seq<Byte>, offset: nat, end: nat, n: nat)
    requires offset + n <= end <= |s|
    ensures s[..offset] + s[offset..end][..n] == s[..offset + n]
  {
  }

  class WiFiClient {
    var connected: bool
    var handle: Socket?
    var rxBuffer: RxBufferClass.WiFiClientRxBuffer?

    constructor (socket: Socket, rxBuffer: RxBufferClass.WiFiClientRxBuffer)
      ensures connected && handle == socket && this.rxBuffer == rxBuffer
    {
      connected, handle, this.rxBuffer := true, socket, rxBuffer;
    }

    method Stop()
      modifies this
      ensures !connected && handle == null && rxBuffer == null
    {
      handle := null;
      rxBuffer := null;
      connected := false;
    }

    /** Returns the bytes sent; the rounds of the loop are the socket's. */
    method Write(buf: array<Byte>, size: nat) returns (totalBytesSent: nat)
      requires size <= buf.Length
      modifies this, handle
      ensures handle == null || handle == old(handle)
      ensures old(handle) == null ==> totalBytesSent == 0 && connected == old(connected) && rxBuffer == old(rxBuffer)
      ensures old(handle) != null ==>
                var socket := old(handle);
                var r := WriteOp(socket.world, old(handle.tick), old(connected), size);
                && socket.tick == r.tick && totalBytesSent == r.ret
                && r.accepted <= size && socket.accepted == old(handle.accepted) + buf[..r.accepted]
                && (r.end == Stopped ==> !connected && handle == null && rxBuffer == null)
                && (r.end != Stopped ==> connected == old(connected) && handle == old(handle) && rxBuffer == old(rxBuffer))
    {
      var retry: nat := MAX_WRITE_RETRY;
      totalBytesSent := 0;
      var bytesRemaining := size;
      if !connected || handle == null {
        return 0;
      }
      var socket := handle;
      ghost var accepted0 := socket.accepted;
      ghost var whole := WriteLoop(socket.world, socket.tick, 0, size, MAX_WRITE_RETRY);
      ghost var finished := false;
      while retry > 0
        invariant retry <= MAX_WRITE_RETRY && totalBytesSent <= size
        invariant socket.accepted == accepted0 + buf[..totalBytesSent]
        invariant if finished then
                    && retry == 0 && whole.tick == socket.tick && whole.ret == whole.accepted == totalBytesSent
                    && if whole.end == Stopped then !connected && handle == null && rxBuffer == null
                       else connected && handle == socket && rxBuffer == old(rxBuffer)
                  else
                    && totalBytesSent + bytesRemaining == size
                    && connected && handle == socket && rxBuffer == old(rxBuffer)
                    && whole == WriteLoop(socket.world, socket.tick, totalBytesSent, bytesRemaining, retry)
        decreases bytesRemaining, retry
      {
        retry := retry - 1;
        var ready, isSet := socket.Select();
        if ready < 0 {
          return 0;
        }
        if isSet {
          var offset := size - bytesRemaining;
          var res, again := socket.SendRest(buf, offset, size, accepted0);
          if res > 0 {
            totalBytesSent := totalBytesSent + res;
            if totalBytesSent >= size {
              retry := 0;
              finished := true;
            } else {
              bytesRemaining := bytesRemaining - res;
              retry := MAX_WRITE_RETRY;
            }
          } else if res < 0 {
            if !again {
              Stop();
              retry := 0;
              finished := true;
            }
          }
        }
      }
    }
  }

  // ----- What a call promises -------------------------------------------------------

  lemma {:induction false} LoopPromises(world: World, tick: nat, total: nat, remaining: nat, retry: nat)
    requires retry <= MAX_WRITE_RETRY
    ensures var r := WriteLoop(world, tick, total, remaining, retry);
            && total <= r.accepted <= total + remaining
            && r.ret == (if r.end == SelectError then 0 else r.accepted)
            && tick <= r.tick <= tick + retry + 10 * (r.accepted - total) - (if r.end == AllSent then 10 else 0)
            && (r.end == AllSent ==> r.accepted == total + remaining && remaining > 0)
            && (r.end != AllSent && remaining > 0 ==> r.accepted < total + remaining)
            && r.end != NotConnected
    decreases remaining, retry
  {
    if retry > 0 {
      var n := Progress(world(tick), remaining);
      if n == 0 {
        LoopPromises(world, tick + 1, total, remaining, retry - 1);
      } else if n < remaining {
        LoopPromises(world, tick + 1, total + n, remaining - n, MAX_WRITE_RETRY);
      }
    }
  }

  /** The return value counts exactly the accepted bytes, except that a `select` error returns 0. */
  lemma WriteReturnsCount(world: World, tick: nat, usable: bool, size: nat)
    ensures var r := WriteOp(world, tick, usable, size);
            && r.accepted <= size
            && (!usable ==> r.tick == tick && r.accepted == 0)
            && (r.end != SelectError ==> r.ret == r.accepted)
            && (r.end == SelectError ==> r.ret == 0)
            && (r.end == AllSent ==> r.ret == size)
  {
    LoopPromises(world, tick, 0, size, MAX_WRITE_RETRY);
  }

  /** At most ten rounds per byte (ten in all for an empty write), though progress renews the budget. */
  lemma WriteIsBounded(world: World, tick: nat, usable: bool, size: nat)
    ensures WriteOp(world, tick, usable, size).tick - tick <= 10 * (if size == 0 then 1 else size)
  {
    LoopPromises(world, tick, 0, size, MAX_WRITE_RETRY);
  }

  // ----- When a call ends, told from the rounds alone ---------------------------------

  /** Bytes gone out in rounds `from` to `to`, of `size` on offer. */
  function Sent(world: World, from: nat, to: nat, size: nat): (n: nat)
    requires from <= to
    ensures n <= size
  {
    if to == from then 0
    else
      var before := Sent(world, from, to - 1, size);
      match world(to - 1)
      case Takes(k) => before + Min(k, size - before)
      case _ => before
  }

  /** Round t is one to stop after: an error other than a busy socket, the last byte, or the tenth in a row for nothing. */
  predicate Ends(world: World, from: nat, t: nat, size: nat)
    requires from <= t
  {
    || world(t).SelectFails? || world(t).SendFails?
    || (size > 0 && Sent(world, from, t + 1, size) == size)
    || (t + 1 >= from + 10 && Sent(world, from, t + 1, size) == Sent(world, from, t - 9, size))
  }

  function EndOf(last: Round, allSent: bool): WriteEnd {
    if last.SelectFails? then SelectError
    else if last.SendFails? then Stopped
    else if allSent then AllSent
    else GaveUp
  }

  lemma {:induction false} SentGrows(world: World, from: nat, middle: nat, to: nat, size: nat)
    requires from <= middle <= to
    ensures Sent(world, from, middle, size) <= Sent(world, from, to, size)
  {
    if middle < to {
      SentGrows(world, from, middle, to - 1, size);
    }
  }

  /** Where the loop is: `total` sent, nothing since `10 - retry` rounds, and no round so far was one to stop after. */
  ghost predicate Underway(world: World, from: nat, tick: nat, size: nat, total: nat, retry: nat) {
    && 0 < retry <= 10 && from <= tick - (10 - retry)
    && total == Sent(world, from, tick, size) == Sent(world, from, tick - (10 - retry), size)
    && (from < tick - (10 - retry) ==> Sent(world, from, tick - (10 - retry) - 1, size) < total)
    && (size > 0 ==> total < size)
    && forall t: nat | from <= t < tick :: !Ends(world, from, t, size)
  }

  ghost predicate StoppedRight(world: World, from: nat, size: nat, r: WriteResult) {
    && from < r.tick && Ends(world, from, r.tick - 1, size)
    && (forall t: nat | from <= t < r.tick - 1 :: !Ends(world, from, t, size))
    && r.accepted == Sent(world, from, r.tick, size)
    && r.end == EndOf(world(r.tick - 1), size > 0 && r.accepted == size)
  }

  lemma NotYet(world: World, from: nat, tick: nat, size: nat, total: nat, retry: nat)
    requires Underway(world, from, tick, size, total, retry)
    requires !world(tick).SelectFails? && !world(tick).SendFails?
    requires size > 0 ==> Sent(world, from, tick + 1, size) < size
    requires Sent(world, from, tick + 1, size) > total || retry > 1
    ensures !Ends(world, from, tick, size)
  {
    if tick + 1 >= from + 10 {
      SentGrows(world, from, tick - 9, tick, size);
      var last := tick - (10 - retry);
      if retry > 1 {
        SentGrows(world, from, tick - 9, last - 1, size);
        SentGrows(world, from, tick, tick + 1, size);
      }
    }
  }

  /** A round for nothing uses up one retry. */
  lemma Waits(world: World, from: nat, tick: nat, size: nat, total: nat, retry: nat)
    requires Underway(world, from, tick, size, total, retry) && retry > 1
    requires !world(tick).SelectFails? && !world(tick).SendFails? && Progress(world(tick), size - total) == 0
    ensures Underway(world, from, tick + 1, size, total, retry - 1)
  {
    NotYet(world, from, tick, size, total, retry);
  }

  /** A round that gets something through, though not all, renews the retries. */
  lemma Advances(world: World, from: nat, tick: nat, size: nat, total: nat, retry: nat)
    requires Underway(world, from, tick, size, total, retry)
    requires 0 < Progress(world(tick), size - total) < size - total
    ensures Underway(world, from, tick + 1, size, total + Progress(world(tick), size - total), 10)
  {
    NotYet(world, from, tick, size, total, retry);
  }

  /** The loop stops with this round. */
  lemma StopsHere(world: World, from: nat, tick: nat, size: nat, total: nat, retry: nat)
    requires Underway(world, from, tick, size, total, retry)
    requires var n := Progress(world(tick), size - total);
             world(tick).SelectFails? || world(tick).SendFails? || (n == 0 && retry == 1) || (0 < n == size - total)
    ensures StoppedRight(world, from, size, WriteLoop(world, tick, total, size - total, retry))
  {
    assert Sent(world, from, tick + 1, size) == total + Progress(world(tick), size - total);
  }

  lemma {:induction false} LoopStopsRight(world: World, from: nat, tick: nat, size: nat, total: nat, retry: nat)
    requires Underway(world, from, tick, size, total, retry)
    ensures StoppedRight(world, from, size, WriteLoop(world, tick, total, size - total, retry))
    decreases size - total, retry
  {
    var n := Progress(world(tick), size - total);
    if !world(tick).SelectFails? && !world(tick).SendFails? && n == 0 && retry > 1 {
      Waits(world, from, tick, size, total, retry);
      LoopStopsRight(world, from, tick + 1, size, total, retry - 1);
    } else if 0 < n < size - total {
      Advances(world, from, tick, size, total, retry);
      LoopStopsRight(world, from, tick + 1, size, total + n, 10);
    } else {
      StopsHere(world, from, tick, size, total, retry);
    }
  }

  /**
   A call on a usable client stops after the first round that is an error other than a busy
   socket, sends the last byte, or is the tenth in a row for nothing, and after no other;
   that round says how it ended, and all rounds together say how much was sent.
   */
  lemma WriteEndsExactly(world: World, tick: nat, size: nat)
    ensures StoppedRight(world, tick, size, WriteOp(world, tick, true, size))
  {
    LoopStopsRight(world, tick, tick, size, 0, 10);
  }

  /** The bound is met: a socket ready for one byte every tenth round takes ten rounds per byte. */
  function SlowSocket(t: nat): Round {
    if t % 10 == 9 then Takes(1) else NotReady
  }

  lemma {:induction false} SlowRounds(tick: nat, total: nat, remaining: nat, retry: nat)
    requires 0 < retry <= MAX_WRITE_RETRY && remaining > 0
    requires tick % 10 == 10 - retry
    ensures WriteLoop(SlowSocket, tick, total, remaining, retry)
         == WriteResult(tick + retry + 10 * (remaining - 1), total + remaining, total + remaining, AllSent)
    decreases remaining, retry
  {
    if retry > 1 {
      assert SlowSocket(tick) == NotReady;
      SlowRounds(tick + 1, total, remaining, retry - 1);
    } else {
      assert SlowSocket(tick) == Takes(1);
      if remaining > 1 {
        SlowRounds(tick + 1, total + 1, remaining - 1, MAX_WRITE_RETRY);
      }
    }
  }

  lemma BoundIsMet(size: nat)
    requires size > 0
    ensures WriteOp(SlowSocket, 0, true, size) == WriteResult(10 * size, size, size, AllSent)
  {
    SlowRounds(0, 0, size, MAX_WRITE_RETRY);
  }

  ghost predicate Fruitless(world: World, from: int, to: nat, left: nat) {
    forall t: nat | from <= t < to :: Progress(world(t), left) == 0
  }

  /** The call gives up only after ten rounds in a row that got nothing through. */
  lemma {:induction false} GivesUpAfterTen(world: World, tick: nat, total: nat, remaining: nat, retry: nat)
    requires retry <= MAX_WRITE_RETRY && WriteLoop(world, tick, total, remaining, retry).end == GaveUp
    ensures var r := WriteLoop(world, tick, total, remaining, retry);
            && (r.accepted > total ==> r.tick >= tick + MAX_WRITE_RETRY)
            && (r.accepted == total ==> r.tick == tick + retry)
            && r.accepted <= total + remaining
            && Fruitless(world, r.tick - (if r.accepted > total then MAX_WRITE_RETRY else retry), r.tick,
                         total + remaining - r.accepted)
    decreases remaining, retry
  {
    LoopPromises(world, tick, total, remaining, retry);
    if retry > 0 {
      var n := Progress(world(tick), remaining);
      if n == 0 {
        GivesUpAfterTen(world, tick + 1, total, remaining, retry - 1);
      } else {
        LoopPromises(world, tick + 1, total + n, remaining - n, MAX_WRITE_RETRY);
        GivesUpAfterTen(world, tick + 1, total + n, remaining - n, MAX_WRITE_RETRY);
      }
    }
  }

  lemma WriteGivesUp(world: World, tick: nat, usable: bool, size: nat)
    requires WriteOp(world, tick, usable, size).end == GaveUp
    ensures var r := WriteOp(world, tick, usable, size);
            r.accepted <= size && tick + MAX_WRITE_RETRY <= r.tick
            && Fruitless(world, r.tick - MAX_WRITE_RETRY, r.tick, size - r.accepted)
  {
    GivesUpAfterTen(world, tick, 0, size, MAX_WRITE_RETRY);
  }
}
