/** The receive buffer in place: an array, a read position and a fill mark. */
module RxBufferClass {
  import opened Wrappers
  import opened RxBuffer

  /** `now` is `before` with `data` written over it from position `at`. */
  ghost predicate Written<T>(now: seq<T>, before: seq<T>, at: nat, data: seq<T>) {
    && |now| == |before| && at + |data| <= |now|
    && forall i | 0 <= i < |now| :: now[i] == if at <= i < at + |data| then data[i - at] else before[i]
  }

  lemma WrittenTwice<T>(now: seq<T>, middle: seq<T>, before: seq<T>, at: nat, first: seq<T>, second: seq<T>)
    requires Written(middle, before, at, first) && Written(now, middle, at + |first|, second)
    ensures Written(now, before, at, first + second)
  {
  }

  lemma WrittenBehind<T>(now: seq<T>, before: seq<T>, start: nat, at: nat, data: seq<T>)
    requires start <= at && Written(now, before, at, data)
    ensures now[start..at + |data|] == before[start..at] + data
  {
  }

  /** The system calls the buffer makes; each consumes the next answer of the world. */
  class System {
    const world: World
    var tick: nat
    var pending: seq<Byte>

    ghost function Value(): Net
      reads this
    {
      Net(tick, pending)
    }

    constructor (world: World)
      ensures this.world == world && Value() == Net(0, [])
    {
      this.world, tick, pending := world, 0, [];
    }

    method Call() returns (answer: Event)
      modifies this
      ensures answer == world(old(tick)) && Value() == Tick(world, old(Value()))
    {
      answer := world(tick);
      pending := pending + answer.arrivals;
      tick := tick + 1;
    }

    /** Non-blocking `recv` into `buf[at..at + room]`; a negative result is an error. */
    method Recv(buf: array<Byte>, at: nat, room: nat) returns (res: int, wouldBlock: bool)
      requires at + room <= buf.Length
      modifies this, buf
      ensures wouldBlock == world(old(tick)).wouldBlock
      ensures !world(old(tick)).ok ==> res == -1 && Value() == Tick(world, old(Value())) && buf[..] == old(buf[..])
      ensures world(old(tick)).ok ==>
                var net := Tick(world, old(Value()));
                && res == Min(world(old(tick)).amount, Min(room, |net.pending|))
                && Value() == net.(pending := net.pending[res..])
                && Written(buf[..], old(buf[..]), at, net.pending[..res])
    {
      var answer := Call();
      wouldBlock := answer.wouldBlock;
      if !answer.ok {
        return -1, wouldBlock;
      }
      var n := Min(answer.amount, Min(room, |pending|));
      forall i | 0 <= i < n {
        buf[at + i] := pending[i];
      }
      pending := pending[n..];
      res := n;
    }
  }

  method Memcpy(dst: array<Byte>, to: nat, src: array<Byte>, from: nat, n: nat)
    requires dst != src && to + n <= dst.Length && from + n <= src.Length
    modifies dst
    ensures Written(dst[..], old(dst[..]), to, src[from..from + n])
  {
    forall i | 0 <= i < n {
      dst[to + i] := src[from + i];
    }
  }

  /** The whole loop's result is what was copied so far, followed by the result of what is left to do. */
  ghost predicate Continues(world: World, whole: ReadResult, data: seq<Byte>, net: Net, rx: Rx, left: nat, end: FillEnd) {
    && Sane(rx)
    && var rest := ReadLoop(world, net, rx, left, end);
       whole == rest.(data := data + rest.data)
  }

  lemma StartLoop(world: World, net: Net, rx: Rx, left: nat, end: FillEnd)
    requires Sane(rx)
    ensures Continues(world, ReadLoop(world, net, rx, left, end), [], net, rx, left, end)
  {
  }

  lemma ContinueLoop(world: World, whole: ReadResult, data: seq<Byte>, net: Net, rx: Rx, left: nat, end: FillEnd)
    requires Continues(world, whole, data, net, rx, left, end) && left > 0
    ensures var f := FillOp(world, net, rx); var n := Min(left, |f.rx.buffered|);
            if f.n == 0 then whole == ReadResult(f.net, f.rx, 0, data, f.end)
            else Continues(world, whole, data + f.rx.buffered[..n], f.net, TakeFront(f.rx, n), left - n, f.end)
  {
  }

  class WiFiClientRxBuffer {
    const size: nat
    const fd: int
    const sys: System
    var buffer: array?<Byte>
    var pos: nat
    var fill: nat
    var failed: bool
    ghost var window: seq<Byte>

    ghost predicate Valid()
      reads this, buffer
    {
      && pos <= fill <= size
      && |window| == fill - pos
      && (buffer == null ==> fill == 0)
      && (buffer != null ==> buffer.Length == size && window == buffer[pos..fill])
    }

    ghost function Value(): Rx
      reads this
    {
      Rx(fd, size, buffer != null, fill, window, failed)
    }

    constructor (sys: System, fd: int, size: nat := 1436)
      ensures Valid() && this.sys == sys && this.fd == fd && this.size == size
      ensures Value() == Rx(fd, size, false, 0, [], false) && buffer == null
    {
      this.sys, this.fd, this.size := sys, fd, size;
      buffer, pos, fill, failed, window := null, 0, 0, false, [];
    }

    method RAvailable() returns (count: nat)
      requires Valid()
      modifies this`failed, sys
      ensures Valid()
      ensures var r := AvailableOp(sys.world, old(sys.Value()), old(Value()));
              Value() == r.rx && sys.Value() == r.net && count + |window| == r.count
    {
      if fd < 0 {
        return 0;
      }
      var answer := sys.Call();
      if !answer.ok {
        failed := true;
        return 0;
      }
      count := |sys.pending|;
    }

    /** Receive into the free end of the array. */
    method Receive() returns (n: nat, ghost end: FillEnd)
      requires Valid() && buffer != null
      modifies this, buffer, sys
      ensures Valid() && buffer == old(buffer)
      ensures FillResult(sys.Value(), Value(), n, end) == RxBuffer.Receive(sys.world, old(sys.Value()), old(Value()))
    {
      ghost var before, arrived := buffer[..], Tick(sys.world, sys.Value()).pending;
      var res, wouldBlock := sys.Recv(buffer, fill, size - fill);
      if res < 0 {
        if !wouldBlock {
          failed := true;
        }
        return 0, RecvFailed;
      }
      WrittenBehind(buffer[..], before, pos, fill, arrived[..res]);
      window := window + arrived[..res];
      fill := fill + res;
      n := res;
      end := if n == 0 then RecvNothing else Filled;
    }

    /** The part of a refill after the array is there and the window was reset. */
    method Refill() returns (n: nat, ghost end: FillEnd)
      requires Valid() && buffer != null
      modifies this, buffer, sys
      ensures Valid() && buffer == old(buffer)
      ensures FillResult(sys.Value(), Value(), n, end) == FillAllocated(sys.world, old(sys.Value()), old(Value()))
    {
      if size <= fill {
        return 0, Full;
      }
      ghost var queryFails := fd >= 0 && !sys.world(sys.tick).ok;
      var count := RAvailable();
      if count == 0 {
        end := if queryFails then QueryFailed else NothingAvailable;
        return 0, end;
      }
      n, end := Receive();
    }

    method FillBuffer() returns (n: nat, ghost end: FillEnd)
      requires Valid()
      modifies this, buffer, sys
      ensures Valid()
      ensures buffer == old(buffer) || (old(buffer) == null && fresh(buffer))
      ensures FillResult(sys.Value(), Value(), n, end) == FillOp(sys.world, old(sys.Value()), old(Value()))
    {
      if buffer == null {
        var answer := sys.Call();
        if !answer.ok {
          failed := true;
          return 0, NoMemory;
        }
        buffer := new Byte[size](_ => 0);
      }
      if fill != 0 && pos == fill {
        fill := 0;
        pos := 0;
      }
      assert window == buffer[pos..fill];
      n, end := Refill();
    }

    /** Copy the next `n` buffered bytes to `dst`, and move past them. */
    method CopyOut(dst: array<Byte>, offset: nat, n: nat)
      requires Valid() && buffer != null && dst != buffer
      requires n <= fill - pos && offset + n <= dst.Length
      modifies this`pos, this`window, dst
      ensures Valid() && Value() == TakeFront(old(Value()), n)
      ensures Written(dst[..], old(dst[..]), offset, old(window[..n]))
    {
      Memcpy(dst, offset, buffer, pos, n);
      pos := pos + n;
      window := window[n..];
    }

    /** Hand out what is buffered, up to what is still wanted. */
    method HandOut(dst: array<Byte>, left: nat, offset: nat, ghost data: seq<Byte>, ghost whole: ReadResult,
                   ghost end: FillEnd)
      returns (toRead: nat, ghost piece: seq<Byte>)
      requires Valid() && buffer != null && dst != buffer && pos < fill
      requires 0 < left && offset + left <= dst.Length
      requires var n := Min(left, |window|);
               Continues(sys.world, whole, data + window[..n], sys.Value(), TakeFront(Value(), n), left - n, end)
      modifies this`pos, this`window, dst
      ensures Valid()
      ensures 0 < toRead == |piece| <= left
      ensures Written(dst[..], old(dst[..]), offset, piece)
      ensures Continues(sys.world, whole, data + piece, sys.Value(), Value(), left - toRead, end)
    {
      var a := fill - pos;
      toRead := if a > left then left else a;
      piece := window[..toRead];
      CopyOut(dst, offset, toRead);
    }

    /** The refill of one round, and where it leaves the loop's result. */
    method RefillInLoop(ghost left: nat, ghost whole: ReadResult, ghost data: seq<Byte>, ghost end0: FillEnd)
      returns (n: nat, ghost end: FillEnd)
      requires Valid() && buffer != null && left > 0
      requires Continues(sys.world, whole, data, sys.Value(), Value(), left, end0)
      modifies this, buffer, sys
      ensures Valid() && buffer == old(buffer)
      ensures n == 0 ==> whole == ReadResult(sys.Value(), Value(), 0, data, end)
      ensures n > 0 ==>
                pos < fill && var m := Min(left, |window|);
                Continues(sys.world, whole, data + window[..m], sys.Value(), TakeFront(Value(), m), left - m, end)
    {
      ContinueLoop(sys.world, whole, data, sys.Value(), Value(), left, end0);
      FillSane(sys.world, sys.Value(), Value());
      n, end := FillBuffer();
    }

    /** One round of the copying loop. */
    method ReadPiece(dst: array<Byte>, left: nat, offset: nat, ghost data: seq<Byte>, ghost whole: ReadResult,
                     ghost end0: FillEnd)
      returns (toRead: nat, ghost piece: seq<Byte>, ghost end: FillEnd)
      requires Valid() && buffer != null && dst != buffer
      requires 0 < left && offset + left <= dst.Length
      requires Continues(sys.world, whole, data, sys.Value(), Value(), left, end0)
      modifies this, buffer, sys, dst
      ensures Valid() && buffer == old(buffer)
      ensures toRead == |piece| <= left
      ensures Written(dst[..], old(dst[..]), offset, piece)
      ensures if toRead == 0 then whole == ReadResult(sys.Value(), Value(), 0, data, end)
              else Continues(sys.world, whole, data + piece, sys.Value(), Value(), left - toRead, end)
    {
      toRead, end := RefillInLoop(left, whole, data, end0);
      piece := [];
      if toRead != 0 {
        toRead, piece := HandOut(dst, left, offset, data, whole, end);
      }
    }

    /** The round, with `before` the destination at the start of the loop and `data` what was written to it since. */
    method CopyPiece(dst: array<Byte>, left: nat, ghost before: seq<Byte>, ghost at: nat, ghost data: seq<Byte>,
                     offset: nat, ghost whole: ReadResult, ghost end0: FillEnd)
      returns (toRead: nat, ghost piece: seq<Byte>, ghost end: FillEnd)
      requires Valid() && buffer != null && dst != buffer
      requires 0 < left && offset == at + |data| && offset + left <= dst.Length == |before|
      requires Written(dst[..], before, at, data)
      requires Continues(sys.world, whole, data, sys.Value(), Value(), left, end0)
      modifies this, buffer, sys, dst
      ensures Valid() && buffer == old(buffer)
      ensures toRead == |piece| <= left
      ensures Written(dst[..], before, at, data + piece)
      ensures if toRead == 0 then whole == ReadResult(sys.Value(), Value(), 0, data, end) && data + piece == data
              else Continues(sys.world, whole, data + piece, sys.Value(), Value(), left - toRead, end)
    {
      ghost var middle := dst[..];
      toRead, piece, end := ReadPiece(dst, left, offset, data, whole, end0);
      WrittenTwice(dst[..], middle, before, at, data, piece);
    }

    /** The copying loop. */
    method ReadRest(dst: array<Byte>, at: nat, wanted: nat, ghost end0: FillEnd)
      returns (copied: nat, ghost data: seq<Byte>, ghost end: FillEnd)
      requires Valid() && buffer != null && dst != buffer && at + wanted <= dst.Length
      modifies this, buffer, sys, dst
      ensures Valid() && buffer == old(buffer)
      ensures copied == |data| <= wanted
      ensures Written(dst[..], old(dst[..]), at, data)
      ensures ReadResult(sys.Value(), Value(), 0, data, end)
           == ReadLoop(sys.world, old(sys.Value()), old(Value()), wanted, end0)
    {
      var left: nat := wanted;
      data, end := [], end0;
      ghost var whole := ReadLoop(sys.world, sys.Value(), Value(), wanted, end0);
      ghost var before := dst[..];
      StartLoop(sys.world, sys.Value(), Value(), wanted, end0);
      while left > 0
        invariant Valid() && buffer == old(buffer)
        invariant left + |data| == wanted
        invariant Written(dst[..], before, at, data)
        invariant Continues(sys.world, whole, data, sys.Value(), Value(), left, end)
      {
        ghost var piece;
        var toRead;
        toRead, piece, end := CopyPiece(dst, left, before, at, data, at + (wanted - left), whole, end);
        if toRead == 0 {
          break;
        }
        data := data + piece;
        left := left - toRead;
      }
      copied := wanted - left;
    }

    /** The loop, behind bytes `first` that were written to the destination before it. */
    method CopyRest(dst: array<Byte>, at: nat, wanted: nat, ghost before: seq<Byte>, ghost first: seq<Byte>,
                    ghost end0: FillEnd)
      returns (copied: nat, ghost rest: seq<Byte>, ghost end: FillEnd)
      requires Valid() && buffer != null && dst != buffer && at + wanted <= dst.Length
      requires at == |first| && Written(dst[..], before, 0, first)
      modifies this, buffer, sys, dst
      ensures Valid() && buffer == old(buffer)
      ensures copied == |rest| <= wanted
      ensures Written(dst[..], before, 0, first + rest)
      ensures ReadResult(sys.Value(), Value(), 0, rest, end)
           == ReadLoop(sys.world, old(sys.Value()), old(Value()), wanted, end0)
    {
      ghost var middle := dst[..];
      copied, rest, end := ReadRest(dst, at, wanted, end0);
      WrittenTwice(dst[..], middle, before, 0, first, rest);
    }

    /** Serve the bytes counted before the last refill, then keep refilling. */
    method ReadPieces(dst: array<Byte>, a: nat, len: nat, ghost end0: FillEnd)
      returns (ret: nat, ghost data: seq<Byte>, ghost end: FillEnd)
      requires Valid() && buffer != null && dst != buffer
      requires a <= fill - pos && a <= len <= dst.Length
      modifies this, buffer, sys, dst
      ensures Valid() && buffer == old(buffer)
      ensures ReadResult(sys.Value(), Value(), ret, data, end)
           == RxBuffer.ReadPieces(sys.world, old(sys.Value()), old(Value()), a, len, end0)
      ensures |data| <= len && Written(dst[..], old(dst[..]), 0, data)
    {
      ghost var before, first, rx0 := dst[..], window[..a], Value();
      CopyOut(dst, 0, a);
      assert Value() == TakeFront(rx0, a);
      ghost var rest;
      ret, rest, end := CopyRest(dst, a, len - a, before, first, end0);
      data := first + rest;
      ret := a + ret;
    }

    /** Something is buffered: one more refill if that can be enough, then one copy, or piece by piece. */
    method ReadBuffered(dst: array<Byte>, len: nat, ghost end0: FillEnd)
      returns (ret: nat, ghost data: seq<Byte>, ghost end: FillEnd)
      requires Valid() && buffer != null && dst != buffer
      requires pos < fill && 0 < len <= dst.Length
      modifies this, buffer, sys, dst
      ensures Valid() && buffer == old(buffer)
      ensures ReadResult(sys.Value(), Value(), ret, data, end)
           == RxBuffer.ReadBuffered(sys.world, old(sys.Value()), old(Value()), len, end0)
      ensures |data| <= len && Written(dst[..], old(dst[..]), 0, data)
    {
      end := end0;
      var a := fill - pos;
      var enough := len <= a;
      if !enough && len - a <= size - fill {
        FillSane(sys.world, sys.Value(), Value());
        var n, e := FillBuffer();
        end := e;
        enough := n >= len - a;
      }
      if enough {
        data := window[..len];
        if len == 1 {
          dst[0] := buffer[pos];
          pos := pos + 1;
          window := window[1..];
        } else {
          CopyOut(dst, 0, len);
        }
        ret := len;
      } else {
        ret, data, end := ReadPieces(dst, a, len, end);
      }
    }

    method Read(dst: array?<Byte>, len: nat) returns (ret: int, ghost data: seq<Byte>, ghost end: FillEnd)
      requires Valid() && (dst != null ==> len <= dst.Length && dst != buffer)
      modifies this, buffer, sys, dst
      ensures Valid() && (buffer == old(buffer) || (old(buffer) == null && fresh(buffer)))
      ensures ReadResult(sys.Value(), Value(), ret, data, end)
           == ReadOp(sys.world, old(sys.Value()), old(Value()), dst != null, len)
      ensures dst != null ==> |data| <= len && Written(dst[..], old(dst[..]), 0, data)
    {
      data, end := [], NoRefill;
      if dst == null || len == 0 {
        return if failed then -1 else 0, [], NoRefill;
      }
      if pos == fill {
        FillSane(sys.world, sys.Value(), Value());
        var n, e := FillBuffer();
        end := e;
        if n == 0 {
          return if failed then -1 else 0, [], end;
        }
      }
      ret, data, end := ReadBuffered(dst, len, end);
    }

    method Peek() returns (ret: int)
      requires Valid()
      modifies this, buffer, sys
      ensures Valid() && (buffer == old(buffer) || (old(buffer) == null && fresh(buffer)))
      ensures PeekResult(sys.Value(), Value(), ret) == PeekOp(sys.world, old(sys.Value()), old(Value()))
      ensures ret == if window == [] then -1 else window[0] as int
    {
      if pos == fill {
        FillSane(sys.world, sys.Value(), Value());
        var n, _ := FillBuffer();
        if n == 0 {
          return -1;
        }
      }
      ret := buffer[pos] as int;
    }

    method Available() returns (count: nat)
      requires Valid()
      modifies this`failed, sys
      ensures Valid()
      ensures AvailableResult(sys.Value(), Value(), count) == AvailableOp(sys.world, old(sys.Value()), old(Value()))
    {
      var onSocket := RAvailable();
      count := fill - pos + onSocket;
    }
  }
}
