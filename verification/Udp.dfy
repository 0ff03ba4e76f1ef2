/** UDP: bytes written are cut into datagrams; received datagrams are handed out one at a time. */
module Udp {
  import opened Wrappers

  const PACKET_SIZE := 1460

  // ----- The packets a byte string is cut into -------------------------------------------

  /** Full packets first, then whatever is left; nothing at all still makes one empty packet. */
  function Packets(bytes: seq<Byte>): (p: seq<seq<Byte>>)
    ensures p != []
    decreases |bytes|
  {
    if |bytes| <= PACKET_SIZE then [bytes] else [bytes[..PACKET_SIZE]] + Packets(bytes[PACKET_SIZE..])
  }

  function Front<T>(s: seq<T>): seq<T>
    requires s != []
  {
    s[..|s| - 1]
  }

  function Last<T>(s: seq<T>): T
    requires s != []
  {
    s[|s| - 1]
  }

  function Concat(packets: seq<seq<Byte>>): seq<Byte> {
    if packets == [] then [] else packets[0] + Concat(packets[1..])
  }

  /** As many packets as it takes, all full but the last, and together exactly the bytes. */
  lemma {:induction false} PacketsCutExactly(bytes: seq<Byte>)
    ensures var p := Packets(bytes);
            && |p| == (if bytes == [] then 1 else (|bytes| + 1459) / 1460)
            && (forall i | 0 <= i < |p| - 1 :: |p[i]| == 1460)
            && |Last(p)| <= 1460 && (bytes != [] ==> Last(p) != [])
            && Concat(p) == bytes
    decreases |bytes|
  {
    if |bytes| <= PACKET_SIZE {
      assert Concat([bytes]) == bytes + [];
    } else {
      var rest := bytes[PACKET_SIZE..];
      PacketsCutExactly(rest);
      var p := [bytes[..PACKET_SIZE]] + Packets(rest);
      assert p[1..] == Packets(rest);
      assert Last(p) == Last(Packets(rest));
      assert forall i | 0 < i < |p| - 1 :: p[i] == Packets(rest)[i - 1];
    }
  }

  /** One byte more: a full last packet stays as it is and a new one begins. */
  lemma {:induction false} PacketsSnoc(bytes: seq<Byte>, b: Byte)
    ensures Packets(bytes + [b]) ==
            if |Last(Packets(bytes))| == PACKET_SIZE then Packets(bytes) + [[b]]
            else Front(Packets(bytes)) + [Last(Packets(bytes)) + [b]]
    ensures |Last(Packets(bytes))| <= PACKET_SIZE
    decreases |bytes|
  {
    if |bytes| < PACKET_SIZE {
    } else if |bytes| == PACKET_SIZE {
      assert (bytes + [b])[..PACKET_SIZE] == bytes && (bytes + [b])[PACKET_SIZE..] == [b];
    } else {
      var first, rest := bytes[..PACKET_SIZE], bytes[PACKET_SIZE..];
      PacketsSnoc(rest, b);
      assert (bytes + [b])[..PACKET_SIZE] == first && (bytes + [b])[PACKET_SIZE..] == rest + [b];
      assert Last(Packets(bytes)) == Last(Packets(rest));
      assert Front(Packets(bytes)) == [first] + Front(Packets(rest));
    }
  }

  /** Datagrams attempted so far, and the bytes waiting in the buffer. */
  datatype TxState = TxState(attempted: seq<seq<Byte>>, buffer: seq<Byte>)

  /** The attempts once the buffer has been sent off too. */
  function SendOff(tx: TxState): seq<seq<Byte>> {
    tx.attempted + [tx.buffer]
  }

  /** A full buffer is sent off only when one more byte needs the room. */
  function PutByte(tx: TxState, b: Byte): TxState {
    if |tx.buffer| == PACKET_SIZE then TxState(SendOff(tx), [b])
    else TxState(tx.attempted, tx.buffer + [b])
  }

  function PutAll(tx: TxState, bytes: seq<Byte>): TxState {
    if bytes == [] then tx else PutByte(PutAll(tx, Front(bytes)), Last(bytes))
  }

  function PutWrites(tx: TxState, writes: seq<seq<Byte>>): TxState {
    if writes == [] then tx else PutAll(PutWrites(tx, Front(writes)), Last(writes))
  }

  /** From an empty buffer, bytes put one by one leave all packets but the last attempted, and the last waiting. */
  lemma {:induction false} PutAllCuts(attempted: seq<seq<Byte>>, bytes: seq<Byte>)
    ensures PutAll(TxState(attempted, []), bytes) == TxState(attempted + Front(Packets(bytes)), Last(Packets(bytes)))
  {
    if bytes == [] {
      assert attempted + [] == attempted;
    } else {
      var before := Front(bytes);
      PutAllCuts(attempted, before);
      PacketsSnoc(before, Last(bytes));
      assert bytes == before + [Last(bytes)];
      var p := Packets(before);
      assert p == Front(p) + [Last(p)];
      assert Front(p + [[Last(bytes)]]) == p;
      Assoc(attempted, Front(p), [Last(p)]);
    }
  }

  lemma {:induction false} PutAllAppends(tx: TxState, first: seq<Byte>, second: seq<Byte>)
    ensures PutAll(PutAll(tx, first), second) == PutAll(tx, first + second)
  {
    if second == [] {
      assert first + second == first;
    } else {
      PutAllAppends(tx, first, Front(second));
      assert Front(first + second) == first + Front(second);
    }
  }

  lemma {:induction false} ConcatSnoc(writes: seq<seq<Byte>>, last: seq<Byte>)
    ensures Concat(writes + [last]) == Concat(writes) + last
  {
    if writes == [] {
      assert Concat([last]) == last + [];
    } else {
      assert (writes + [last])[1..] == writes[1..] + [last];
      ConcatSnoc(writes[1..], last);
      Assoc(writes[0], Concat(writes[1..]), last);
    }
  }

  lemma {:induction false} PutWritesIsOne(tx: TxState, writes: seq<seq<Byte>>)
    ensures PutWrites(tx, writes) == PutAll(tx, Concat(writes))
  {
    if writes != [] {
      PutWritesIsOne(tx, Front(writes));
      PutAllAppends(tx, Concat(Front(writes)), Last(writes));
      ConcatSnoc(Front(writes), Last(writes));
      assert Front(writes) + [Last(writes)] == writes;
    }
  }

  /**
   However the bytes are spread over writes between beginning and ending a packet,
   the datagrams attempted are exactly the cut of all of them together.
   */
  lemma WritesAreCut(attempted: seq<seq<Byte>>, writes: seq<seq<Byte>>)
    ensures var tx := PutWrites(TxState(attempted, []), writes);
            SendOff(tx) == attempted + Packets(Concat(writes)) && |tx.buffer| <= PACKET_SIZE
  {
    PutWritesIsOne(TxState(attempted, []), writes);
    PutAllCuts(attempted, Concat(writes));
    var p := Packets(Concat(writes));
    assert p == Front(p) + [Last(p)];
    Assoc(attempted, Front(p), [Last(p)]);
    PacketsCutExactly(Concat(writes));
  }

  // ----- The socket objects ------------------------------------------------------------------

  /** A bounded FIFO of bytes. */
  class Cbuf {
    const capacity: nat
    var items: seq<Byte>

    constructor (capacity: nat)
      ensures this.capacity == capacity && items == []
    {
      this.capacity, items := capacity, [];
    }

    method Write(data: seq<Byte>)
      requires |items| + |data| <= capacity
      modifies this
      ensures items == old(items) + data
    {
      items := items + data;
    }

    method ReadUpTo(n: nat) returns (data: seq<Byte>)
      modifies this
      ensures data == old(items)[..Min(n, |old(items)|)] && items == old(items)[Min(n, |old(items)|)..]
    {
      var m := Min(n, |items|);
      data, items := items[..m], items[m..];
    }
  }

  class WiFiUDP {
    var udpServer: int
    var remoteIp: Option<nat>
    var remotePort: nat
    var txBuffer: array?<Byte>
    var txBufferLen: nat
    var rxBuffer: Cbuf?

    /** Every datagram a send was attempted for, whether it succeeded or not. */
    ghost var attempted: seq<seq<Byte>>

    ghost predicate Valid()
      reads this, txBuffer, rxBuffer
    {
      && (txBuffer != null ==> txBuffer.Length == PACKET_SIZE)
      && txBufferLen <= PACKET_SIZE
      && (rxBuffer != null ==> rxBuffer.items != [])
    }

    ghost function Tx(): TxState
      requires txBuffer != null && txBufferLen <= txBuffer.Length
      reads this, txBuffer
    {
      TxState(attempted, txBuffer[..txBufferLen])
    }

    ghost function Rx(): seq<Byte>
      reads this, rxBuffer
    {
      if rxBuffer == null then [] else rxBuffer.items
    }

    constructor ()
      ensures Valid() && Rx() == [] && attempted == [] && rxBuffer == null && txBuffer == null && remoteIp == None
    {
      remoteIp := None;
      udpServer, remotePort, txBuffer, txBufferLen, rxBuffer := -1, 0, null, 0, null;
      attempted := [];
    }

    method BeginPacket(mallocOk: bool, newSocket: int) returns (ok: bool)
      requires Valid() && newSocket >= -1
      modifies this`txBuffer, this`txBufferLen, this`udpServer
      ensures Valid()
      ensures ok <==> remotePort != 0 && (old(txBuffer) != null || mallocOk) && (old(udpServer) != -1 || newSocket != -1)
      ensures ok ==> txBuffer != null && Tx() == TxState(attempted, []) && udpServer != -1
      ensures txBuffer == old(txBuffer) || (old(txBuffer) == null && fresh(txBuffer))
    {
      if remotePort == 0 {
        return false;
      }
      if txBuffer == null {
        if !mallocOk {
          return false;
        }
        txBuffer := new Byte[PACKET_SIZE](_ => 0);
      }
      txBufferLen := 0;
      if udpServer != -1 {
        return true;
      }
      udpServer := newSocket;
      return udpServer != -1;
    }

    /** The buffer is left as it is: only beginning a packet empties it. */
    method EndPacket(sendOk: bool) returns (ok: bool)
      requires Valid() && txBuffer != null
      modifies this`attempted
      ensures Valid() && ok == sendOk && Tx() == TxState(SendOff(old(Tx())), old(Tx()).buffer)
    {
      attempted := attempted + [txBuffer[..txBufferLen]];
      return sendOk;
    }

    method WriteByte(data: Byte, sendOk: bool)
      requires Valid() && txBuffer != null
      modifies this`attempted, this`txBufferLen, txBuffer
      ensures Valid() && Tx() == PutByte(old(Tx()), data)
    {
      if txBufferLen == PACKET_SIZE {
        var _ := EndPacket(sendOk);
        txBufferLen := 0;
      }
      txBuffer[txBufferLen] := data;
      txBufferLen := txBufferLen + 1;
    }

    method Write(buffer: array<Byte>, size: nat, sendOk: nat -> bool) returns (count: nat)
      requires Valid() && txBuffer != null && size <= buffer.Length && buffer != txBuffer
      modifies this`attempted, this`txBufferLen, txBuffer
      ensures Valid() && count == size && Tx() == PutAll(old(Tx()), buffer[..size])
    {
      for i := 0 to size
        invariant Valid() && Tx() == PutAll(old(Tx()), buffer[..i])
      {
        assert buffer[..i + 1] == buffer[..i] + [buffer[i]];
        WriteByte(buffer[i], sendOk(i));
      }
      return size;
    }

    method ParsePacket(mallocOk: bool, arrival: Option<seq<Byte>>, fromIp: nat, fromPort: nat) returns (ret: nat)
      requires Valid()
      modifies this`rxBuffer, this`remoteIp, this`remotePort
      ensures Valid()
      ensures rxBuffer == old(rxBuffer) || fresh(rxBuffer)
      ensures ParseOp(old(Rx()), if mallocOk then arrival else None) == Parsed(Rx(), ret)
      ensures var taken := old(Rx()) == [] && mallocOk && arrival.Some?;
              && Rx() == (if taken then arrival.value[..Min(1460, |arrival.value|)] else old(Rx()))
              && ret == (if taken then |Rx()| else 0)
              && remoteIp == (if taken then Some(fromIp) else old(remoteIp))
              && remotePort == (if taken then fromPort else old(remotePort))
    {
      if rxBuffer != null {
        return 0;
      }
      if !mallocOk || arrival.None? {
        return 0;
      }
      var buf := arrival.value[..Min(PACKET_SIZE, |arrival.value|)];
      remoteIp, remotePort := Some(fromIp), fromPort;
      if |buf| > 0 {
        rxBuffer := new Cbuf(|buf|);
        rxBuffer.Write(buf);
      }
      return |buf|;
    }

    method Available() returns (count: nat)
      requires Valid()
      ensures count == |Rx()|
    {
      if rxBuffer == null {
        return 0;
      }
      return |rxBuffer.items|;
    }

    method Peek() returns (ret: int)
      requires Valid()
      ensures ret == if Rx() == [] then -1 else Rx()[0] as int
    {
      if rxBuffer == null {
        return -1;
      }
      return rxBuffer.items[0] as int;
    }

    method ReadByte() returns (ret: int)
      requires Valid()
      modifies this`rxBuffer, rxBuffer
      ensures Valid() && (rxBuffer == null || rxBuffer == old(rxBuffer))
      ensures Rx() == TakeOp(old(Rx()), 1).rx == if old(Rx()) == [] then [] else old(Rx())[1..]
      ensures ret == if old(Rx()) == [] then -1 else old(Rx())[0] as int
    {
      if rxBuffer == null {
        return -1;
      }
      var data := rxBuffer.ReadUpTo(1);
      if |rxBuffer.items| == 0 {
        rxBuffer := null;
      }
      return data[0] as int;
    }

    method Read(buffer: array<Byte>, len: nat) returns (ret: nat)
      requires Valid() && len <= buffer.Length
      modifies this`rxBuffer, rxBuffer, buffer
      ensures Valid() && (rxBuffer == null || rxBuffer == old(rxBuffer))
      ensures ret == Min(len, |old(Rx())|) && Rx() == old(Rx())[ret..]
      ensures TakeOp(old(Rx()), len) == Taken(Rx(), old(Rx())[..ret])
      ensures buffer[..] == old(Rx())[..ret] + old(buffer[ret..])
    {
      if rxBuffer == null {
        return 0;
      }
      var data := rxBuffer.ReadUpTo(len);
      forall i | 0 <= i < |data| {
        buffer[i] := data[i];
      }
      if |rxBuffer.items| == 0 {
        rxBuffer := null;
      }
      return |data|;
    }

    method Flush()
      requires Valid()
      modifies this`rxBuffer
      ensures Valid() && Rx() == []
    {
      rxBuffer := null;
    }
  }

  /** A whole packet: begun, written in blocks and single bytes, and ended. */
  method SendPacket(udp: WiFiUDP, mallocOk: bool, newSocket: int, writes: seq<seq<Byte>>, sendOk: nat -> nat -> bool)
      returns (begun: bool)
    requires udp.Valid() && newSocket >= -1
    modifies udp, udp.txBuffer
    ensures udp.Valid()
    ensures udp.attempted == old(udp.attempted) + if begun then Packets(Concat(writes)) else []
    ensures begun <==> && old(udp.remotePort) != 0 && (old(udp.txBuffer) != null || mallocOk)
                       && (old(udp.udpServer) != -1 || newSocket != -1)
  {
    begun := udp.BeginPacket(mallocOk, newSocket);
    if !begun {
      return;
    }
    ghost var start := TxState(udp.attempted, []);
    for i := 0 to |writes|
      invariant udp.Valid() && udp.txBuffer != null && (udp.txBuffer == old(udp.txBuffer) || fresh(udp.txBuffer))
      invariant udp.Tx() == PutWrites(start, writes[..i])
    {
      var write := writes[i];
      assert Front(writes[..i + 1]) == writes[..i] && Last(writes[..i + 1]) == write;
      if |write| == 1 {
        udp.WriteByte(write[0], sendOk(i)(0));
        assert Front(write) == [];
        assert PutAll(PutWrites(start, writes[..i]), Front(write)) == PutWrites(start, writes[..i]);
      } else {
        var block := new Byte[|write|](k requires 0 <= k < |write| => write[k]);
        assert block[..|write|] == write;
        var _ := udp.Write(block, |write|, sendOk(i));
      }
    }
    assert writes[..|writes|] == writes;
    var _ := udp.EndPacket(sendOk(|writes|)(0));
    WritesAreCut(start.attempted, writes);
  }

  // ----- Received datagrams over whole runs -----------------------------------------------------

  datatype Parsed = Parsed(rx: seq<Byte>, ret: nat)

  /** A datagram still being read is never replaced; a longer one than the buffer is cut off. */
  function ParseOp(rx: seq<Byte>, arrival: Option<seq<Byte>>): Parsed {
    if rx != [] || arrival.None? then Parsed(rx, 0)
    else
      var datagram := arrival.value[..Min(PACKET_SIZE, |arrival.value|)];
      Parsed(datagram, |datagram|)
  }

  datatype Taken = Taken(rx: seq<Byte>, data: seq<Byte>)

  function TakeOp(rx: seq<Byte>, n: nat): Taken {
    var m := Min(n, |rx|);
    Taken(rx[m..], rx[..m])
  }

  datatype RxOp = Parse(arrival: Option<seq<Byte>>) | Take(n: nat) | Drop

  /** A datagram accepted, the bytes read from it, and the bytes flushed. */
  datatype Record = Record(datagram: seq<Byte>, read: seq<Byte>, dropped: seq<Byte>)

  /** The receive side, with the bytes handed out so far and a record of every datagram accepted. */
  datatype Session = Session(rx: seq<Byte>, out: seq<Byte>, records: seq<Record>)

  function AddToLast(records: seq<Record>, read: seq<Byte>, dropped: seq<Byte>): seq<Record> {
    if records == [] then []
    else
      var last := records[|records| - 1];
      records[|records| - 1 := Record(last.datagram, last.read + read, last.dropped + dropped)]
  }

  function RxStep(s: Session, op: RxOp): Session {
    match op
    case Parse(arrival) =>
      var r := ParseOp(s.rx, arrival);
      Session(r.rx, s.out, if r.ret > 0 then s.records + [Record(r.rx, [], [])] else s.records)
    case Take(n) =>
      var r := TakeOp(s.rx, n);
      Session(r.rx, s.out + r.data, AddToLast(s.records, r.data, []))
    case Drop =>
      Session([], s.out, AddToLast(s.records, [], s.rx))
  }

  function RxRun(ops: seq<RxOp>): Session {
    if ops == [] then Session([], [], []) else RxStep(RxRun(Front(ops)), Last(ops))
  }

  function AllRead(records: seq<Record>): seq<Byte> {
    if records == [] then [] else AllRead(Front(records)) + Last(records).read
  }

  /** Every accepted datagram but the last is used up: read and dropped bytes make it up; the last also has the rest. */
  ghost predicate Accounted(s: Session) {
    && (s.records == [] ==> s.rx == [])
    && (forall i | 0 <= i < |s.records| - 1 :: s.records[i].read + s.records[i].dropped == s.records[i].datagram)
    && (s.records != [] ==>
          var last := Last(s.records);
          && (s.rx != [] ==> last.dropped == [])
          && last.read + last.dropped + s.rx == last.datagram)
    && s.out == AllRead(s.records)
  }

  /** Bytes are handed out datagram by datagram, none mixed into another, and all of it unless flushed. */
  lemma {:induction false} DatagramsStayWhole(ops: seq<RxOp>)
    ensures Accounted(RxRun(ops))
    ensures Drop !in ops ==> forall r | r in RxRun(ops).records :: r.dropped == []
  {
    if ops != [] {
      var before := RxRun(Front(ops));
      DatagramsStayWhole(Front(ops));
      match Last(ops)
      case Parse(arrival) =>
        ParseKeepsAccount(before, arrival);
      case Take(n) =>
        var r := TakeOp(before.rx, n);
        AddKeepsAccount(before, r.data, [], r.rx);
      case Drop =>
        AddKeepsAccount(before, [], before.rx, []);
    }
  }

  function Datagrams(records: seq<Record>): seq<seq<Byte>> {
    if records == [] then [] else Datagrams(Front(records)) + [Last(records).datagram]
  }

  /** What a run should take: datagrams that are not empty and arrive with none being read, their first 1460 bytes. */
  function Acceptable(ops: seq<RxOp>): seq<seq<Byte>> {
    if ops == [] then []
    else
      var op := Last(ops);
      Acceptable(Front(ops)) +
      if op.Parse? && op.arrival.Some? && op.arrival.value != [] && RxRun(Front(ops)).rx == [] then
        [op.arrival.value[..Min(1460, |op.arrival.value|)]]
      else []
  }

  /** The datagrams taken are those, in order. */
  lemma {:induction false} DatagramsAreArrivals(ops: seq<RxOp>)
    ensures Datagrams(RxRun(ops).records) == Acceptable(ops)
  {
    if ops != [] {
      var before := RxRun(Front(ops));
      DatagramsAreArrivals(Front(ops));
      match Last(ops)
      case Parse(arrival) =>
        var r := ParseOp(before.rx, arrival);
        if r.ret > 0 {
          assert Front(before.records + [Record(r.rx, [], [])]) == before.records;
        }
      case Take(n) =>
        SameDatagrams(before.records, TakeOp(before.rx, n).data, []);
      case Drop =>
        SameDatagrams(before.records, [], before.rx);
    }
  }

  lemma SameDatagrams(records: seq<Record>, read: seq<Byte>, dropped: seq<Byte>)
    ensures Datagrams(AddToLast(records, read, dropped)) == Datagrams(records)
  {
    if records != [] {
      assert Front(AddToLast(records, read, dropped)) == Front(records);
    }
  }

  /** At any time, a read for n bytes hands out the next min(n, left) bytes of the datagram, and a flush drops the rest. */
  lemma TakesExactly(ops: seq<RxOp>, n: nat)
    ensures var s, s' := RxRun(ops), RxRun(ops + [Take(n)]); var m := if n < |s.rx| then n else |s.rx|;
            s'.out == s.out + s.rx[..m] && s'.rx == s.rx[m..]
    ensures var s, s' := RxRun(ops), RxRun(ops + [Drop]); s'.out == s.out && s'.rx == []
  {
    assert Front(ops + [Take(n)]) == ops && Front(ops + [Drop]) == ops;
  }

  lemma ParseKeepsAccount(s: Session, arrival: Option<seq<Byte>>)
    requires Accounted(s)
    ensures Accounted(RxStep(s, Parse(arrival)))
  {
  }

  /** Moving the front of what is left to the last record's account. */
  lemma AddKeepsAccount(s: Session, read: seq<Byte>, dropped: seq<Byte>, rest: seq<Byte>)
    requires Accounted(s) && s.rx == read + dropped + rest && (read == [] || dropped == []) && (dropped == [] || rest == [])
    ensures Accounted(Session(rest, s.out + read, AddToLast(s.records, read, dropped)))
  {
    var records := AddToLast(s.records, read, dropped);
    if s.records != [] {
      var last := Last(s.records);
      assert Front(records) == Front(s.records);
      assert s.out + read == AllRead(Front(s.records)) + (last.read + read);
      if s.rx != [] {
        assert last.dropped == [];
        assert (last.read + read) + dropped + rest == last.read + [] + (read + dropped + rest);
      } else {
        assert read == [] && dropped == [] && rest == [];
      }
    }
  }
}
