/** The socket stack: slots, buffers and socket records over the modem. */
module Stack {
  import opened Common
  import opened HexCodec
  import opened Modem
  import opened RxPool
  import opened Payloads
  import opened RxStream
  import opened SocketTable
  import TcpConnect
  import TxWake

  /** The most payload one send command carries. */
  const PACKET_SIZE_MAX: nat := 1400

  const CME_UPLINK_BUSY: int := 159
  const CME_UART_BUFFER_ERROR: int := 536
  const CME_BACK_OFF_TIMER: int := 537

  /** A count, or one of the errors the socket calls return. */
  datatype Result = Count(n: nat) | ErrWouldBlock | ErrConnectionLost | ErrNoMemory | ErrParameter | ErrDevice

  predicate Succeeded(created: Option<Answer>) {
    created.Some? && created.value.Accepted()
  }

  /** The id a creation was answered with, accepted or not; -1 for none. */
  function Named(created: Option<Answer>): int {
    if created.Some? then created.value.id else -1
  }

  /** The command of a creation with its answer, if it got as far as the modem. */
  ghost function Creation(proto: Proto, ctx: int, created: Option<Answer>): seq<Command> {
    match created
    case None => []
    case Some(answer) => [SocketCreate(proto, ctx, answer)]
  }

  lemma Replaced<T>(s: seq<T>, k: nat, x: T)
    requires k < |s|
    ensures x in s[k := x] && forall y :: y in s && y != s[k] ==> y in s[k := x]
  {
    var r := s[k := x];
    assert r[k] == x;
    forall y | y in s && y != s[k] ensures y in r {
      var j :| 0 <= j < |s| && s[j] == y;
      assert r[j] == y;
    }
  }

  class CellularStack {
    const modem: AtModem
    const bufferSize: nat
    const blocks: seq<RxBuffer>
    var free: set<RxBuffer>
    const rxBuf: array<RxBuffer?>
    const sslctx: array<int>

    /** The base class's table; a place may be empty. */
    var sockets: seq<CellularSocket?>
    var txfullEventId: int
    var ipVersion: int
    var ipConfigured: bool

    /** Everything the buffers are made of. */
    ghost const storage: set<object>

    /** What each slot that has a buffer still holds for its reader. */
    ghost var held: map<int, seq<byte>>

    /** The record table as a value, and the records marked for a wake-up. */
    ghost var rows: Table
    ghost var marked: set<CellularSocket?>

    /** Every record that is or was in the table. */
    ghost var members: set<CellularSocket>

    /** What never changes after construction. */
    ghost predicate Shape() {
      && rxBuf.Length == sslctx.Length == |blocks| == MAX_SOCKETS
      && bufferSize > 0
      && (forall b :: b in blocks ==> b in storage && b.data in storage && b.data.Length == bufferSize)
      && (forall b, c :: b in blocks && c in blocks && b != c ==> b.data != c.data)
      && this !in storage && modem !in storage && rxBuf !in storage && sslctx !in storage
    }

    /** The table as a value is the table, which holds a record in one place at most. */
    ghost predicate Mirrored()
      reads `sockets, `members, `rows, `marked, members`id, members`closed, members`txfull
    {
      && rows.Even() && |rows.ids| == |sockets| && (forall s :: s in sockets && s != null ==> s in members)
      && (forall k :: 0 <= k < |sockets| && sockets[k] == null ==> rows.ids[k] == None)
      && (forall k :: 0 <= k < |sockets| && sockets[k] != null ==> rows.ids[k] == Some(sockets[k].id))
      && (forall k :: 0 <= k < |sockets| && sockets[k] != null ==> rows.closed[k] == sockets[k].closed)
      && (forall k :: 0 <= k < |sockets| && sockets[k] != null ==> rows.tcp[k] == sockets[k].proto.TCP?)
      && (forall s :: s in sockets && s != null ==> (s.txfull <==> s in marked))
      && (forall s :: s in marked ==> s != null && s in sockets)
      && (forall j, k :: 0 <= j < k < |sockets| && sockets[j] != null ==> sockets[j] != sockets[k])
    }

    /** The slots and the pool share the blocks out among them. */
    ghost predicate Shared()
      reads `free, rxBuf
    {
      rxBuf.Length == |blocks| && Owned<RxBuffer?>(rxBuf[..], null, free, blocks)
    }

    ghost predicate Valid()
      reads `free, `held, `members, rxBuf, storage
    {
      && Shape()
      && (forall b :: b in blocks ==> b.Valid())
      && Shared()
      && (forall i :: i in held <==> HasSlot(i) && rxBuf[i] != null)
      && (forall i :: i in held ==> rxBuf[i].bytes == held[i])
      && (forall s :: s in members ==> s !in storage)
    }

    /** What slot i still holds for its reader. */
    ghost function Left(i: int): seq<byte>
      reads `held
    {
      if i in held then held[i] else []
    }

    /** A socket as the receive model sees it. */
    ghost function View(s: CellularSocket): Rx
      reads `held, modem`queues, s`id, s`pending, s`closed
    {
      Rx(modem.Queue(s.id), Left(s.id), s.pending, s.closed, s.id in held)
    }

    /** Every record that must be able to receive has a buffer. */
    ghost predicate LiveBuffered()
      requires rows.Even()
      reads `held, `rows
    {
      rows.LiveBuffered(held)
    }

    /** The wake-up state as its model sees it. */
    ghost function TxView(): TxWake.Tx<CellularSocket?>
      reads `txfullEventId, `marked
    {
      TxWake.Tx(txfullEventId != 0, marked)
    }

    /** The pool's storage: seven blocks that share nothing. */
    static method MakeBlocks(size: nat) returns (blocks: seq<RxBuffer>, ghost storage: set<object>)
      ensures |blocks| == MAX_SOCKETS && fresh(storage)
      ensures forall b :: b in blocks ==> b in storage && b.data in storage && b.Valid() && b.data.Length == size
      ensures forall i, j :: 0 <= i < j < |blocks| ==> blocks[i] != blocks[j] && blocks[i].data != blocks[j].data
    {
      blocks, storage := [], {};
      for n := 0 to MAX_SOCKETS
        invariant |blocks| == n && fresh(storage)
        invariant forall b :: b in blocks ==> b in storage && b.data in storage && b.Valid() && b.data.Length == size
        invariant forall i, j :: 0 <= i < j < |blocks| ==> blocks[i] != blocks[j] && blocks[i].data != blocks[j].data
      {
        var b := new RxBuffer(size);
        blocks, storage := blocks + [b], storage + {b, b.data};
      }
    }

    constructor (modem: AtModem, bufferSize: nat)
      requires bufferSize > 0
      ensures Valid() && Mirrored() && this.modem == modem && this.bufferSize == bufferSize
      ensures held == map[] && |sockets| == 6 && TxView() == TxWake.Idle()
      ensures forall k :: 0 <= k < |sockets| ==> sockets[k] == null
      ensures fresh(rxBuf) && fresh(sslctx) && fresh(storage)
    {
      this.modem := modem;
      this.bufferSize := bufferSize;
      ghost var parts;
      var bs;
      bs, parts := MakeBlocks(bufferSize);
      blocks, storage := bs, parts;
      free := set b | b in bs;
      rxBuf := new RxBuffer?[MAX_SOCKETS](_ => null);
      sslctx := new int[MAX_SOCKETS](_ => -1);
      sockets := seq(SOCKET_COUNT, _ => null);
      txfullEventId, ipVersion, ipConfigured := 0, 4, false;
      held, marked, members := map[], {}, {};
      rows := Table(seq(SOCKET_COUNT, _ => None), seq(SOCKET_COUNT, _ => false), seq(SOCKET_COUNT, _ => false));
      new;
      InitiallyOwned<RxBuffer?>(rxBuf[..], null, free, blocks);
    }

    // ------------------------------------------------------------- buffer pool

    /** Gives slot id an empty buffer. With seven blocks for seven slots this cannot fail. */
    method AllocateRxBuffer(id: int) returns (ok: bool)
      requires Valid()
      modifies this`free, this`held, rxBuf, storage
      ensures Valid() && (ok <==> 0 <= id <= 6)
      ensures held == if ok then old(held)[id := []] else old(held)
    {
      if id < 0 || id >= MAX_SOCKETS {
        return false;
      }
      if rxBuf[id] != null {
        DropLeft(id);
        return true;
      }
      TakeBlock(id);
      DropLeft(id);
      return true;
    }

    /** Moves a block from the pool, which cannot be empty, to an empty slot. */
    method TakeBlock(id: int)
      requires Valid() && HasSlot(id) && rxBuf[id] == null
      modifies this`free, this`held, rxBuf
      ensures Valid() && id in held && held == old(held)[id := held[id]]
    {
      NeverExhausted<RxBuffer?>(rxBuf[..], null, free, blocks, id);
      var b :| b in free;
      OwnedTake<RxBuffer?>(rxBuf[..], null, free, blocks, id, b);
      free := free - {b};
      rxBuf[id] := b;
      assert rxBuf[..] == old(rxBuf[..])[id := b];
      held := held[id := b.bytes];
    }

    /** Returns slot id's buffer to the pool. */
    method FreeRxBuffer(id: int)
      requires Valid()
      modifies this`free, this`held, rxBuf
      ensures Valid() && held == old(held) - {id}
    {
      if id < 0 || id >= MAX_SOCKETS {
        return;
      }
      if rxBuf[id] != null {
        OwnedReturn<RxBuffer?>(rxBuf[..], null, free, blocks, id);
        free := free + {rxBuf[id]};
        rxBuf[id] := null;
        assert rxBuf[..] == old(rxBuf[..])[id := null];
      }
      held := held - {id};
    }

    // ----------------------------------------------------------------- receive

    /** Forgets what slot id still holds. */
    method DropLeft(id: int)
      requires Valid()
      modifies this`held, storage
      ensures Valid() && held == if id in old(held) then old(held)[id := []] else old(held)
    {
      if HasSlot(id) && rxBuf[id] != null {
        rxBuf[id].Reset();
        held := held[id := []];
      }
    }

    /** Hands out the front of what slot id holds. */
    method CopyLeft(id: int, buffer: array<byte>, size: nat) returns (n: nat)
      requires Valid() && id in held && size <= buffer.Length && buffer !in storage
      modifies this`held, storage, buffer
      ensures Valid() && n == Min(|old(held)[id]|, size)
      ensures buffer[..] == old(held)[id][..n] + old(buffer[..])[n..]
      ensures held == old(held)[id := old(held)[id][n..]]
    {
      BuffersApart(id);
      n := rxBuf[id].CopyOut(buffer, size);
      assert Shared();
      held := held[id := held[id][n..]];
    }

    /** Slots share neither buffers nor their bytes. */
    lemma BuffersApart(id: int)
      requires Valid() && id in held
      ensures rxBuf[id] in storage && rxBuf[id].data in storage && rxBuf[id].Valid()
      ensures forall i :: i in held && i != id ==> rxBuf[i] != rxBuf[id] && rxBuf[i].data != rxBuf[id].data
    {
      assert rxBuf[..][id] in blocks;
      forall i | i in held && i != id ensures rxBuf[i] != rxBuf[id] && rxBuf[i].data != rxBuf[id].data {
        assert rxBuf[..][i] in blocks;
      }
    }

    /** Puts freshly read bytes into slot id. */
    method LoadLeft(id: int, bytes: seq<byte>)
      requires Valid() && id in held && |bytes| <= bufferSize
      modifies this`held, storage
      ensures Valid() && held == old(held)[id := bytes]
    {
      rxBuf[id].Load(bytes);
      held := held[id := bytes];
    }

    /** Reads a segment into slot id, cutting what does not fit. */
    method ReadTcp(id: int, dataLen: nat, ghost segment: seq<byte>)
      requires Valid() && id in held
      requires 0 < dataLen == |segment| && modem.response == segment + CRLF && !modem.failed
      modifies this`held, storage, modem`response, modem`failed, modem`fault
      ensures Valid() && id in held && held == old(held)[id := held[id]]
      ensures modem.fault == if modem.failed then Spoilt(old(modem.fault)) else old(modem.fault)
      ensures !modem.failed ==> held[id] == Take(segment, bufferSize) && modem.response == []
    {
      DropLeft(id);
      var got, bytes := modem.ReadFramed(Min(dataLen, bufferSize), dataLen);
      if got > 0 && !modem.failed {
        LoadLeft(id, bytes);
      }
    }

    /** Reads a datagram straight into the caller's buffer, skipping what does not fit. */
    method ReadUdp(buffer: array<byte>, size: nat, dataLen: nat, ghost segment: seq<byte>) returns (returned: nat)
      requires 0 < dataLen == |segment| && modem.response == segment + CRLF && !modem.failed
      requires size <= buffer.Length
      modifies buffer, modem`response, modem`failed, modem`fault
      ensures returned <= size
      ensures modem.fault == if modem.failed then Spoilt(old(modem.fault)) else old(modem.fault)
      ensures !modem.failed ==> returned == Min(dataLen, size) && segment[..returned] <= buffer[..]
      ensures buffer[size..] == old(buffer[size..])
      ensures returned > 0 && !modem.failed ==> modem.response == []
    {
      returned := 0;
      var got, bytes := modem.ReadFramed(Min(dataLen, size), dataLen);
      if got > 0 && !modem.failed {
        forall i | 0 <= i < got {
          buffer[i] := bytes[i];
        }
        returned := got;
      }
    }

    /** The outcome of a receive as its caller sees it: a count, and the bytes in the buffer. */
    static ghost predicate Tells(r: Result, o: Outcome, contents: seq<byte>) {
      match o
      case Delivered(bytes) => r == Count(|bytes|) && bytes <= contents
      case WouldBlock => r == ErrWouldBlock
      case ConnectionLost => r == ErrConnectionLost
      case NoMemory => r == ErrNoMemory
    }

    /** One #IPREAD was issued, for this id. */
    twostate predicate Asked(id: int)
      reads modem`asked, modem`past, modem`fault
    {
      modem.asked == old(modem.asked) + [id] && modem.past == old(modem.past) + [old(modem.fault)]
    }

    /** A receive acts on its socket as the receive model says, given the modem's own record of what went
        wrong, and on no other. It issues one #IPREAD or none, as the model says, and when it delivers a
        fetched segment it has consumed the response to the last byte. */
    method SocketRecvFromImpl(sock: CellularSocket, buffer: array<byte>, size: nat) returns (r: Result)
      requires Valid() && sock in members && sock.id != -1
      requires size <= buffer.Length && buffer !in storage
      modifies modem`queues, modem`response, modem`failed, modem`unread, modem`asked, modem`fault, modem`past
      modifies this`held, storage, sock`pending, buffer
      ensures Valid() && held.Keys == old(held.Keys)
      ensures !HasSlot(sock.id) ==>
                r == ErrParameter && View(sock) == old(View(sock)) && modem.asked == old(modem.asked)
      ensures HasSlot(sock.id) ==>
                var reply := Recv(sock.proto, bufferSize, old(View(sock)), size, modem.fault);
                View(sock) == reply.rx && Tells(r, reply.outcome, buffer[..])
      ensures HasSlot(sock.id) ==>
                if Asks(sock.proto, old(View(sock))) then Asked(sock.id)
                else modem.asked == old(modem.asked) && modem.past == old(modem.past) && modem.fault == old(modem.fault)
      ensures r.Count? ==> r.n <= size
      ensures buffer[size..] == old(buffer[size..])
      ensures forall i :: i != sock.id ==> Left(i) == old(Left(i)) && modem.Queue(i) == old(modem.Queue(i))
      ensures r.Count? && modem.asked != old(modem.asked) ==> modem.unread == 0
      ensures r == ErrParameter <==> !(0 <= sock.id <= 6)
      ensures 0 <= sock.id <= 6 ==> (r == ErrConnectionLost <==> sock.closed)
      ensures 0 <= sock.id <= 6 && !sock.closed && sock.proto == TCP && old(Left(sock.id)) != [] ==>
                r == Count(if size < |old(Left(sock.id))| then size else |old(Left(sock.id))|)
                && buffer[..r.n] == old(Left(sock.id))[..r.n] && Left(sock.id) == old(Left(sock.id))[r.n..]
      ensures r == ErrNoMemory <==>
                && 0 <= sock.id <= 6 && !sock.closed && sock.proto == TCP && sock.id !in held
                && old(sock.pending > 0 && modem.Queue(sock.id) != [] && modem.Queue(sock.id)[0] != [])
                && (modem.fault == NoFault || modem.fault == BodyLost)
      ensures 0 <= sock.id <= 6 && (sock.proto == UDP || old(Left(sock.id)) == []) ==>
                (r.Count? <==>
                   && !sock.closed && size > 0 && (sock.proto == TCP ==> sock.id in held)
                   && old(sock.pending > 0 && modem.Queue(sock.id) != [] && modem.Queue(sock.id)[0] != [])
                   && modem.fault == NoFault)
      ensures r.Count? && (sock.proto == UDP || old(Left(sock.id)) == []) ==>
                var n := |old(modem.Queue(sock.id))[0]|;
                && r.n == (if sock.proto == UDP then Min(n, size) else Min(Min(n, bufferSize), size))
                && buffer[..r.n] == old(modem.Queue(sock.id))[0][..r.n]
      ensures r.Count? || r in {ErrParameter, ErrConnectionLost, ErrNoMemory, ErrWouldBlock}
      ensures unchanged(sock`id, sock`closed, this`rows, this`sockets, this`members)
    {
      if sock.id < 0 || sock.id >= MAX_SOCKETS {
        return ErrParameter;
      }
      r := RecvFromSlot(sock, buffer, size);
    }

    /** A receive of a socket that has a slot. */
    method RecvFromSlot(sock: CellularSocket, buffer: array<byte>, size: nat) returns (r: Result)
      requires Valid() && sock in members && HasSlot(sock.id)
      requires size <= buffer.Length && buffer !in storage
      modifies modem`queues, modem`response, modem`failed, modem`unread, modem`asked, modem`fault, modem`past
      modifies this`held, storage, sock`pending, buffer
      ensures Valid() && held.Keys == old(held.Keys)
      ensures var reply := Recv(sock.proto, bufferSize, old(View(sock)), size, modem.fault);
                View(sock) == reply.rx && Tells(r, reply.outcome, buffer[..])
      ensures if Asks(sock.proto, old(View(sock))) then Asked(sock.id)
                else modem.asked == old(modem.asked) && modem.past == old(modem.past) && modem.fault == old(modem.fault)
      ensures r.Count? ==> r.n <= size
      ensures buffer[size..] == old(buffer[size..])
      ensures forall i :: i != sock.id ==> Left(i) == old(Left(i)) && modem.Queue(i) == old(modem.Queue(i))
      ensures r.Count? && modem.asked != old(modem.asked) ==> modem.unread == 0
      ensures (r == ErrConnectionLost <==> sock.closed)
      ensures !sock.closed && sock.proto == TCP && old(Left(sock.id)) != [] ==>
                r == Count(if size < |old(Left(sock.id))| then size else |old(Left(sock.id))|)
                && buffer[..r.n] == old(Left(sock.id))[..r.n] && Left(sock.id) == old(Left(sock.id))[r.n..]
      ensures r == ErrNoMemory <==>
                && !sock.closed && sock.proto == TCP && sock.id !in held
                && old(sock.pending > 0 && modem.Queue(sock.id) != [] && modem.Queue(sock.id)[0] != [])
                && (modem.fault == NoFault || modem.fault == BodyLost)
      ensures (sock.proto == UDP || old(Left(sock.id)) == []) ==>
                (r.Count? <==>
                   && !sock.closed && size > 0 && (sock.proto == TCP ==> sock.id in held)
                   && old(sock.pending > 0 && modem.Queue(sock.id) != [] && modem.Queue(sock.id)[0] != [])
                   && modem.fault == NoFault)
      ensures r.Count? && (sock.proto == UDP || old(Left(sock.id)) == []) ==>
                var n := |old(modem.Queue(sock.id))[0]|;
                && r.n == (if sock.proto == UDP then Min(n, size) else Min(Min(n, bufferSize), size))
                && buffer[..r.n] == old(modem.Queue(sock.id))[0][..r.n]
      ensures r.Count? || r in {ErrConnectionLost, ErrNoMemory, ErrWouldBlock}
      ensures unchanged(sock`id, sock`closed, this`rows, this`sockets, this`members)
    {
      ghost var s0 := View(sock);
      if sock.closed {
        return ErrConnectionLost;
      }
      r := RecvOpen(sock, buffer, size);
      AnswerIs(sock.proto, bufferSize, s0, size, modem.fault);
      if sock.proto.TCP? && s0.left != [] {
        FrontHandedOut(bufferSize, s0, size, modem.fault);
      }
    }

    /** A receive of a socket that has a slot and is not closed. */
    method RecvOpen(sock: CellularSocket, buffer: array<byte>, size: nat) returns (r: Result)
      requires Valid() && sock in members && HasSlot(sock.id) && !sock.closed
      requires size <= buffer.Length && buffer !in storage
      modifies modem`queues, modem`response, modem`failed, modem`unread, modem`asked, modem`fault, modem`past
      modifies this`held, storage, sock`pending, buffer
      ensures Valid() && held.Keys == old(held.Keys)
      ensures var reply := Recv(sock.proto, bufferSize, old(View(sock)), size, modem.fault);
              View(sock) == reply.rx && Tells(r, reply.outcome, buffer[..])
      ensures if Asks(sock.proto, old(View(sock))) then Asked(sock.id)
              else modem.asked == old(modem.asked) && modem.past == old(modem.past) && modem.fault == old(modem.fault)
      ensures r.Count? ==> r.n <= size
      ensures buffer[size..] == old(buffer[size..])
      ensures forall i :: i != sock.id ==> Left(i) == old(Left(i)) && modem.Queue(i) == old(modem.Queue(i))
      ensures r.Count? && modem.asked != old(modem.asked) ==> modem.unread == 0
    {
      ghost var s0 := View(sock);
      if rxBuf[sock.id] != null && !rxBuf[sock.id].Empty() {
        if sock.proto.UDP? {
          DropLeft(sock.id);
        } else {
          r := DrainLeft(sock, buffer, size);
          return;
        }
      }
      assert View(sock) == s0.(left := []);
      if sock.pending == 0 {
        return ErrWouldBlock;
      }
      r := FetchSegment(sock, buffer, size);
      RecvFetches(sock.proto, bufferSize, s0, size, modem.fault);
    }

    /** The part of a receive that needs no more than is buffered. */
    method DrainLeft(sock: CellularSocket, buffer: array<byte>, size: nat) returns (r: Result)
      requires Valid() && sock in members && sock.id in held && sock.proto.TCP? && !sock.closed && Left(sock.id) != []
      requires size <= buffer.Length && buffer !in storage
      modifies this`held, storage, buffer
      ensures Valid() && held.Keys == old(held.Keys) && r.Count? && r.n <= size
      ensures forall fault ::
                var reply := Recv(TCP, bufferSize, old(View(sock)), size, fault);
                View(sock) == reply.rx && Tells(r, reply.outcome, buffer[..])
      ensures buffer[size..] == old(buffer[size..])
      ensures forall i :: i != sock.id ==> Left(i) == old(Left(i))
    {
      ghost var s0 := View(sock);
      var n := CopyLeft(sock.id, buffer, size);
      assert View(sock) == s0.(left := s0.left[n..]);
      r := Count(n);
    }

    /** The bytes the driver keeps of a segment. */
    ghost function KeptOf(proto: Proto, segment: seq<byte>): seq<byte> {
      if proto.TCP? then Take(segment, bufferSize) else segment
    }

    /** Reads the body of an #IPREAD answer and hands out its front. */
    method FetchBody(sock: CellularSocket, buffer: array<byte>, size: nat, dataLen: nat, ghost segment: seq<byte>)
      returns (returned: nat)
      requires Valid() && sock in members && (sock.proto.TCP? ==> sock.id in held)
      requires size <= buffer.Length && buffer !in storage && Left(sock.id) == []
      requires 0 < dataLen == |segment| && modem.response == segment + CRLF && !modem.failed
      modifies modem`response, modem`failed, modem`fault, this`held, storage, buffer
      ensures Valid() && held.Keys == old(held.Keys)
      ensures unchanged(sock`id, sock`pending, sock`closed, modem`queues)
      ensures modem.fault == if modem.failed then Spoilt(old(modem.fault)) else old(modem.fault)
      ensures forall i :: i != sock.id ==> Left(i) == old(Left(i))
      ensures returned <= size && (sock.proto.UDP? ==> held == old(held))
      ensures buffer[size..] == old(buffer[size..])
      ensures !modem.failed ==>
                var kept := KeptOf(sock.proto, segment);
                && returned == Min(|kept|, size) && kept[..returned] <= buffer[..]
                && (sock.proto.TCP? ==> Left(sock.id) == kept[returned..])
                && (returned > 0 ==> modem.response == [])
    {
      if sock.proto.UDP? {
        returned := ReadUdp(buffer, size, dataLen, segment);
      } else {
        returned := FetchStream(sock.id, buffer, size, dataLen, segment);
      }
    }

    method FetchStream(id: int, buffer: array<byte>, size: nat, dataLen: nat, ghost segment: seq<byte>)
      returns (returned: nat)
      requires Valid() && id in held && size <= buffer.Length && buffer !in storage
      requires 0 < dataLen == |segment| && modem.response == segment + CRLF && !modem.failed
      modifies modem`response, modem`failed, modem`fault, this`held, storage, buffer
      ensures Valid() && id in held && held == old(held)[id := held[id]]
      ensures modem.fault == if modem.failed then Spoilt(old(modem.fault)) else old(modem.fault)
      ensures returned <= size && buffer[size..] == old(buffer[size..])
      ensures !modem.failed ==>
                var kept := Take(segment, bufferSize);
                && returned == Min(|kept|, size) && kept[..returned] <= buffer[..]
                && held[id] == kept[returned..] && modem.response == []
    {
      returned := 0;
      ReadTcp(id, dataLen, segment);
      if !modem.failed {
        returned := CopyLeft(id, buffer, size);
      }
    }

    /** The part of a receive that asks the modem: one #IPREAD, whatever comes of it. */
    method FetchSegment(sock: CellularSocket, buffer: array<byte>, size: nat) returns (r: Result)
      requires Valid() && sock in members && HasSlot(sock.id)
      requires size <= buffer.Length && buffer !in storage
      requires Left(sock.id) == [] && sock.pending > 0 && !sock.closed
      modifies modem`queues, modem`response, modem`failed, modem`unread, modem`asked, modem`fault, modem`past
      modifies this`held, storage, sock`pending, buffer
      ensures Valid() && held.Keys == old(held.Keys) && Asked(sock.id)
      ensures var reply := Fetch(sock.proto, bufferSize, old(View(sock)), size, modem.fault);
              View(sock) == reply.rx && Tells(r, reply.outcome, buffer[..])
      ensures r.Count? ==> r.n <= size
      ensures buffer[size..] == old(buffer[size..])
      ensures forall i :: i != sock.id ==> Left(i) == old(Left(i)) && modem.Queue(i) == old(modem.Queue(i))
      ensures r.Count? ==> modem.unread == 0
    {
      ghost var s0 := View(sock);
      var dataLen := OpenAnswer(sock, size);
      if dataLen == 0 {
        return ErrWouldBlock;
      }
      r := TakeAnswer(sock, buffer, size, dataLen, s0.queue[0]);
      FetchTakes(sock.proto, bufferSize, s0, size, modem.fault);
    }

    /** Takes an answer with a segment, or gives it up when the socket has no buffer. */
    method TakeAnswer(sock: CellularSocket, buffer: array<byte>, size: nat, dataLen: nat, ghost segment: seq<byte>)
      returns (r: Result)
      requires Valid() && sock in members && HasSlot(sock.id)
      requires size <= buffer.Length && buffer !in storage && Left(sock.id) == [] && sock.pending > 0
      requires 0 < dataLen == |segment| && modem.response == segment + CRLF && !modem.failed && modem.fault.NoFault?
      modifies modem`response, modem`failed, modem`unread, modem`fault, this`held, storage, sock`pending, buffer
      ensures Valid() && held.Keys == old(held.Keys)
      ensures unchanged(sock`id, sock`closed, modem`queues, modem`asked, modem`past)
      ensures modem.fault.NoFault? || modem.fault.BodyLost?
      ensures var reply := TakeSegment(sock.proto, bufferSize, old(View(sock)), segment, size, modem.fault);
              View(sock) == reply.rx && Tells(r, reply.outcome, buffer[..])
      ensures r.Count? ==> r.n <= size && modem.unread == 0
      ensures buffer[size..] == old(buffer[size..])
      ensures forall i :: i != sock.id ==> Left(i) == old(Left(i))
    {
      if sock.proto.TCP? && rxBuf[sock.id] == null {
        modem.RespStop();
        sock.pending := 0;
        return ErrNoMemory;
      }
      r := HandOver(sock, buffer, size, dataLen, segment);
    }

    /** Issues #IPREAD and reads the header of its answer; 0 when there is nothing to read. */
    method OpenAnswer(sock: CellularSocket, ghost size: nat) returns (dataLen: nat)
      modifies modem`queues, modem`response, modem`failed, modem`unread, modem`asked, modem`fault, modem`past
      ensures Asked(sock.id)
      ensures unchanged(this`held, sock`id, sock`pending, sock`closed)
      ensures forall i :: i != sock.id ==> modem.Queue(i) == old(modem.Queue(i))
      ensures dataLen == 0 ==>
                Fetch(sock.proto, bufferSize, old(View(sock)), size, modem.fault) == Reply(View(sock), WouldBlock)
      ensures dataLen > 0 ==>
                && modem.fault.NoFault? && !modem.failed && old(View(sock)).queue != []
                && View(sock) == old(View(sock)).(queue := old(View(sock)).queue[1..])
                && dataLen == |old(View(sock)).queue[0]| && modem.response == old(View(sock)).queue[0] + CRLF
    {
      var n := modem.IpRead(sock.id);
      if n <= 0 || modem.failed {
        modem.RespStop();
        return 0;
      }
      return n;
    }

    /** Takes the body of an answer and gives its front to the caller. */
    method HandOver(sock: CellularSocket, buffer: array<byte>, size: nat, dataLen: nat, ghost segment: seq<byte>)
      returns (r: Result)
      requires Valid() && sock in members && HasSlot(sock.id) && (sock.proto.TCP? ==> sock.id in held)
      requires size <= buffer.Length && buffer !in storage && Left(sock.id) == [] && sock.pending > 0
      requires 0 < dataLen == |segment| && modem.response == segment + CRLF && !modem.failed && modem.fault.NoFault?
      modifies modem`response, modem`failed, modem`unread, modem`fault, this`held, storage, sock`pending, buffer
      ensures Valid() && held.Keys == old(held.Keys)
      ensures unchanged(sock`id, sock`closed, modem`queues, modem`asked, modem`past)
      ensures modem.fault.NoFault? || modem.fault.BodyLost?
      ensures var reply := Consume(sock.proto, old(View(sock)), KeptOf(sock.proto, segment), size, modem.fault);
              View(sock) == reply.rx && Tells(r, reply.outcome, buffer[..])
      ensures r.Count? ==> r.n <= size && modem.unread == 0
      ensures buffer[size..] == old(buffer[size..])
      ensures forall i :: i != sock.id ==> Left(i) == old(Left(i))
    {
      var returned := FetchBody(sock, buffer, size, dataLen, segment);
      r := Settle(sock, returned);
    }

    /** Ends the exchange and settles the credit: one for a read that gave data, all of them otherwise. */
    method Settle(sock: CellularSocket, returned: nat) returns (r: Result)
      requires Valid() && sock in members && HasSlot(sock.id) && sock.pending > 0
      modifies modem`response, modem`failed, modem`unread, modem`fault, this`held, storage, sock`pending
      ensures Valid() && held.Keys == old(held.Keys) && modem.unread == |old(modem.response)|
      ensures unchanged(sock`id, sock`closed, modem`queues)
      ensures old(modem.failed) ==> modem.failed
      ensures modem.fault == if modem.failed && !old(modem.failed) then Spoilt(old(modem.fault)) else old(modem.fault)
      ensures forall i :: i != sock.id ==> Left(i) == old(Left(i))
      ensures if modem.failed || returned == 0 then
                r == ErrWouldBlock && sock.pending == 0 &&
                Left(sock.id) == if sock.proto.TCP? then [] else old(Left(sock.id))
              else
                r == Count(returned) && sock.pending == old(sock.pending) - 1 && held == old(held)
    {
      modem.RespStop();
      if modem.failed || returned <= 0 {
        if sock.proto.TCP? {
          DropLeft(sock.id);
        }
        sock.pending := 0;
        return ErrWouldBlock;
      }
      if sock.pending > 0 {
        sock.pending := sock.pending - 1;
      }
      return Count(returned);
    }

    // -------------------------------------------------------- unsolicited lines

    /** The first record with this id. */
    ghost function FindSocket(id: int): CellularSocket?
      reads `sockets, `rows
    {
      var k := First(rows.ids, Some(id));
      if k < |sockets| then sockets[k] else null
    }

    ghost function Found(id: int): set<CellularSocket>
      reads `sockets, `rows
    {
      if FindSocket(id) == null then {} else {FindSocket(id)}
    }

    /** The base class's lookup. */
    method Lookup(id: int) returns (f: CellularSocket?)
      requires Mirrored()
      ensures f == FindSocket(id) && (f == null <==> Some(id) !in rows.ids)
      ensures f != null ==> f in sockets && f in members && f.id == id
    {
      f := null;
      for k := 0 to |sockets|
        invariant forall j :: 0 <= j < k ==> rows.ids[j] != Some(id)
      {
        if sockets[k] != null && sockets[k].id == id {
          return sockets[k];
        }
      }
    }

    /** Lines about an id, and closes of it, reach the record at place k: it has the id, and no record before
        it does. */
    ghost predicate ReachedAt(k: int, id: int)
      requires 0 <= k < |sockets|
      reads this`sockets, sockets
    {
      && sockets[k] != null && sockets[k].id == id
      && forall j :: 0 <= j < k && sockets[j] != null ==> sockets[j].id != id
    }

    lemma FoundIsReached(k: int, id: int)
      requires Mirrored() && 0 <= k < |sockets| && sockets[k] != null
      ensures FindSocket(id) == sockets[k] <==> ReachedAt(k, id)
    {
      if ReachedAt(k, id) {
        forall j | 0 <= j < k ensures rows.ids[j] != Some(id) {
          assert sockets[j] == null ==> rows.ids[j] == None;
        }
        assert First(rows.ids, Some(id)) == k;
      } else if FindSocket(id) == sockets[k] {
        assert First(rows.ids, Some(id)) == k;
        forall j | 0 <= j < k && sockets[j] != null ensures sockets[j].id != id {
          assert rows.ids[j] == Some(sockets[j].id);
        }
      }
    }

    /** Calls a record's owner, if there is one to call. */
    method Tell(sock: CellularSocket)
      modifies sock`calls
      ensures sock.calls == old(sock.calls) + if sock.hasCallback then [sock.txfull] else []
    {
      if sock.hasCallback {
        sock.Notify();
      }
    }

    /** #IPRECV: one more segment to fetch, and one call, for the record reached under the id; nothing for any
        other. */
    method UrcIpRecv(id: int)
      requires Valid() && Mirrored()
      modifies members`pending, members`calls
      ensures Valid() && Mirrored()
      ensures forall k :: 0 <= k < |sockets| && sockets[k] != null ==>
                sockets[k].pending == old(sockets[k].pending) + if ReachedAt(k, id) then 1 else 0
      ensures forall s :: s in members ==> s.pending == old(s.pending) + if s == FindSocket(id) then 1 else 0
      ensures forall s :: s in members ==>
                s.calls == old(s.calls) + if s == FindSocket(id) && s.hasCallback then [s.txfull] else []
    {
      Credit(id);
      forall k | 0 <= k < |sockets| && sockets[k] != null
        ensures sockets[k].pending == old(sockets[k].pending) + if ReachedAt(k, id) then 1 else 0
      {
        FoundIsReached(k, id);
      }
    }

    method Credit(id: int)
      requires Valid() && Mirrored()
      modifies members`pending, members`calls
      ensures Valid() && Mirrored()
      ensures forall s :: s in members ==> s.pending == old(s.pending) + if s == FindSocket(id) then 1 else 0
      ensures forall s :: s in members ==>
                s.calls == old(s.calls) + if s == FindSocket(id) && s.hasCallback then [s.txfull] else []
    {
      var sock := Lookup(id);
      if sock != null {
        sock.pending := sock.pending + 1;
        Tell(sock);
      }
    }

    /** Notes in record and table that a socket is closed. */
    method NoteClosed(sock: CellularSocket)
      requires Valid() && Mirrored() && sock in sockets
      modifies this`rows, sock`closed
      ensures Valid() && Mirrored() && sock.closed
      ensures rows == old(rows).(closed := SetWhere(old(rows).closed, sockets, sock, true))
    {
      sock.closed := true;
      rows := rows.(closed := SetWhere(rows.closed, sockets, sock, true));
    }

    /** #SOCKETCLOSED: the remote end is gone for the record found under the id, and so is what was not read
        yet. No other record, slot or buffer is touched. */
    method UrcSocketClosed(id: int)
      requires Valid() && Mirrored()
      modifies this`rows, this`held, storage, Found(id)`closed, Found(id)`connected, Found(id)`calls
      ensures Valid() && Mirrored() && FindSocket(id) == old(FindSocket(id))
      ensures var f := FindSocket(id);
              if f == null then rows == old(rows) && held == old(held)
              else
                && rows == old(rows).(closed := SetWhere(old(rows).closed, sockets, f, true))
                && View(f) == old(View(f)).(closed := true, left := []) && !f.connected
                && f.calls == old(f.calls) + if f.hasCallback then [f.txfull] else []
      ensures forall i :: i != id ==> Left(i) == old(Left(i))
      ensures old(LiveBuffered()) ==> LiveBuffered()
    {
      var sock := Lookup(id);
      if sock != null {
        CloseRemotely(id, sock);
      }
    }

    method CloseRemotely(id: int, sock: CellularSocket)
      requires Valid() && Mirrored() && sock in sockets && sock.id == id
      modifies this`rows, this`held, storage, sock`closed, sock`connected, sock`calls
      ensures Valid() && Mirrored()
      ensures rows == old(rows).(closed := SetWhere(old(rows).closed, sockets, sock, true))
      ensures View(sock) == old(View(sock)).(closed := true, left := []) && !sock.connected
      ensures sock.calls == old(sock.calls) + if sock.hasCallback then [sock.txfull] else []
      ensures forall i :: i != id ==> Left(i) == old(Left(i))
      ensures old(LiveBuffered()) ==> LiveBuffered()
    {
      if rows.LiveBuffered(held) {
        rows.ClosedLive(sockets, sock, held);
      }
      NoteClosed(sock);
      HangUp(id, sock);
    }

    /** Drops what the slot of a closed socket held, and tells the owner. */
    method HangUp(id: int, sock: CellularSocket)
      requires Valid() && Mirrored() && sock in members
      modifies sock`connected, sock`calls, this`held, storage
      ensures Valid() && Mirrored() && !sock.connected
      ensures held == if id in old(held) then old(held)[id := []] else old(held)
      ensures sock.calls == old(sock.calls) + if sock.hasCallback then [sock.txfull] else []
    {
      sock.connected := false;
      DropLeft(id);
      Tell(sock);
    }

    // ---------------------------------------------------------- create and close

    /** A configured IP stack is not configured again. */
    method EnsureIpConfigured(w: World) returns (ok: bool)
      modifies this`ipConfigured
      ensures ok == ipConfigured == (old(ipConfigured) || w.hasAddress)
    {
      if !ipConfigured {
        ipConfigured := w.hasAddress;
      }
      ok := ipConfigured;
    }

    /** What a creation, or an attempt at one, leaves of the queues: the accepted id's is empty, one that was
        only named may be, and no other has changed. */
    twostate predicate QueuesAfter(created: Option<Answer>)
      reads modem`queues
    {
      && (forall i :: i != Named(created) ==> modem.Queue(i) == old(modem.Queue(i)))
      && (modem.Queue(Named(created)) == [] ||
          (!Succeeded(created) && modem.Queue(Named(created)) == old(modem.Queue(Named(created)))))
      && (Named(created) == -1 ==> modem.queues == old(modem.queues))
    }

    /** Creates the modem socket of a record, whose slot then holds an empty buffer. It fails only when there
        is no IP address or the modem does not both name an id and say OK; an id named in vain is not closed.
        The credit count of a record used before stays. */
    method CreateSocketImpl(sock: CellularSocket, ctx: int, w: World) returns (ok: bool, ghost created: Option<Answer>)
      requires Valid() && Mirrored() && sock in sockets
      modifies this`free, this`held, this`rows, this`ipConfigured, rxBuf, sslctx, storage, sock`id, sock`started
      modifies modem`sent, modem`failed, modem`queues
      ensures Valid() && Mirrored() && modem.sent == old(modem.sent) + Creation(sock.proto, ctx, created)
      ensures rows == if Succeeded(created) then
                        old(rows).(ids := SetWhere(old(rows).ids, sockets, sock, Some(created.value.id)))
                      else old(rows)
      ensures (created.Some? <==> old(ipConfigured) || w.hasAddress) && (created.Some? ==> ipConfigured)
      ensures ok <==> Succeeded(created)
      ensures ok ==> sock.id == created.value.id && sock.started
      ensures ok && HasSlot(sock.id) ==> held == old(held)[sock.id := []] && sslctx[sock.id] == ctx
      ensures ok && !HasSlot(sock.id) ==> held == old(held) && sock.id !in held
      ensures !ok ==> sock.id == old(sock.id) && sock.started == old(sock.started) && held == old(held)
      ensures QueuesAfter(created)
      ensures old(LiveBuffered()) ==> LiveBuffered()
      ensures unchanged(sock`connected, sock`pending, sock`closed, modem`now, modem`actions)
    {
      var id;
      id, created := AskForSocket(sock.proto, ctx, w);
      if id == -1 {
        return false, created;
      }
      OccupySlot(id, ctx);
      if rows.LiveBuffered(held) {
        rows.NamedLive(sockets, sock, id, held);
      }
      NameSocket(sock, id);
      return true, created;
    }

    /** Puts a modem id into a record. */
    method NameSocket(sock: CellularSocket, id: int)
      requires Valid() && Mirrored() && sock in sockets
      modifies this`rows, sock`id, sock`started
      ensures Valid() && Mirrored() && sock.id == id && sock.started
      ensures rows == old(rows).(ids := SetWhere(old(rows).ids, sockets, sock, Some(id)))
      ensures unchanged(sock`connected, sock`pending, sock`closed, this`held, this`ipConfigured)
      ensures unchanged(modem`sent, modem`queues, modem`now, modem`actions)
    {
      sock.id, sock.started := id, true;
      rows := rows.(ids := SetWhere(rows.ids, sockets, sock, Some(id)));
    }

    /** The modem's part of a creation; -1 when the IP stack or the modem refuses. */
    method AskForSocket(proto: Proto, ctx: int, w: World) returns (id: int, ghost created: Option<Answer>)
      requires Valid() && Mirrored()
      modifies this`ipConfigured, modem`sent, modem`failed, modem`queues
      ensures Valid() && Mirrored() && modem.sent == old(modem.sent) + Creation(proto, ctx, created)
      ensures (created.Some? <==> old(ipConfigured) || w.hasAddress) && (created.Some? ==> ipConfigured)
      ensures id == if Succeeded(created) then created.value.id else -1
      ensures QueuesAfter(created)
      ensures unchanged(this`held, this`rows, modem`now, modem`actions)
    {
      var configured := EnsureIpConfigured(w);
      if !configured {
        return -1, None;
      }
      var ok;
      id, ok := modem.CreateSocket(proto, ctx);
      created := Some(Answer(id, ok));
      if !ok || id == -1 {
        return -1, created;
      }
    }

    /** Notes a new socket id and gives its slot a buffer, which cannot fail. */
    method OccupySlot(id: int, ctx: int)
      requires Valid() && Mirrored()
      modifies this`free, this`held, rxBuf, sslctx, storage
      ensures Valid() && Mirrored() && held == if HasSlot(id) then old(held)[id := []] else old(held)
      ensures HasSlot(id) ==> sslctx[id] == ctx
      ensures unchanged(this`rows, this`ipConfigured, modem`sent, modem`queues, modem`now, modem`actions)
    {
      if HasSlot(id) {
        sslctx[id] := ctx;
        var roomFound := AllocateRxBuffer(id);
        assert roomFound;
      }
    }

    /** Forgets a socket id and frees its slot's buffer. */
    method VacateSlot(id: int)
      requires Valid() && Mirrored()
      modifies this`free, this`held, rxBuf, sslctx
      ensures Valid() && Mirrored() && held == old(held) - {id}
      ensures forall i :: HasSlot(i) ==> sslctx[i] == if i == id then -1 else old(sslctx[i])
    {
      if HasSlot(id) {
        sslctx[id] := -1;
        FreeRxBuffer(id);
      }
    }

    /** Takes the wake-up mark off a socket. */
    method Unmark(sock: CellularSocket)
      requires Valid() && Mirrored() && sock in sockets
      modifies this`marked, sock`txfull
      ensures Valid() && Mirrored() && TxView() == TxWake.Step(old(TxView()), TxWake.Closed(sock))
    {
      sock.txfull := false;
      marked := marked - {sock};
    }

    /** Closes a modem socket, unless its record already saw the remote end close. */
    method SocketCloseImpl(id: int) returns (ok: bool)
      requires Valid() && Mirrored()
      modifies this`free, this`held, this`marked, rxBuf, sslctx, members`txfull
      modifies modem`sent, modem`failed, modem`deviceError, modem`queues, modem`closeFailures
      ensures Valid() && Mirrored() && modem.sent == old(modem.sent) + rows.Closing(id)
      ensures TxView() == rows.TxAfter(sockets, old(TxView()), id) && held == rows.HeldAfter(old(held), id)
      ensures forall i :: i != id ==> Left(i) == old(Left(i)) && modem.Queue(i) == old(modem.Queue(i))
      ensures modem.Queue(id) == old(modem.Queue(id)) || (rows.Closable(id) && modem.Queue(id) == [])
      ensures ok <==> (rows.Closable(id) ==> !modem.failed)
      ensures ok && rows.Closable(id) ==> modem.Queue(id) == []
      ensures forall i :: HasSlot(i) ==> sslctx[i] == if i == id && rows.Closable(id) then -1 else old(sslctx[i])
      ensures var f := FindSocket(id);
              && modem.sent == old(modem.sent) + (if f != null && f.closed then [] else [SocketClose(id)])
              && (f != null && !f.closed ==> !f.txfull && f !in marked)
    {
      var sock := Lookup(id);
      if sock != null && sock.closed {
        return true;
      }
      UnmarkFound(id, sock);
      ok := CloseAnyway(id);
    }

    method UnmarkFound(id: int, sock: CellularSocket?)
      requires Valid() && Mirrored() && sock == FindSocket(id) && (sock == null || !sock.closed)
      modifies this`marked, members`txfull
      ensures Valid() && Mirrored() && TxView() == rows.TxAfter(sockets, old(TxView()), id)
    {
      if sock != null {
        Unmark(sock);
      }
    }

    /** The part of a close that does something. */
    method CloseAnyway(id: int) returns (ok: bool)
      requires Valid() && Mirrored()
      modifies this`free, this`held, rxBuf, sslctx
      modifies modem`sent, modem`failed, modem`deviceError, modem`queues, modem`closeFailures
      ensures Valid() && Mirrored() && modem.sent == old(modem.sent) + [SocketClose(id)] && ok == !modem.failed
      ensures held == old(held) - {id} && forall i :: i != id ==> Left(i) == old(Left(i))
      ensures modem.Queue(id) == [] || (!ok && modem.Queue(id) == old(modem.Queue(id)))
      ensures forall i :: i != id ==> modem.Queue(i) == old(modem.Queue(i))
      ensures forall i :: HasSlot(i) ==> sslctx[i] == if i == id then -1 else old(sslctx[i])
    {
      ok := modem.CloseSocket(id);
      VacateSlot(id);
    }

    /** The destructor: no timer is left, and every buffer is back in the pool. */
    method Destroy()
      requires Valid()
      modifies this`free, this`held, this`txfullEventId, rxBuf
      ensures Valid() && !TxView().timer && held == map[] && free == set b | b in blocks
    {
      if txfullEventId != 0 {
        // Cancelling takes the event off the queue; its id means nothing afterwards.
        txfullEventId := 0;
      }
      FreeAll();
      NothingHeld();
    }

    method FreeAll()
      requires Valid()
      modifies this`free, this`held, rxBuf
      ensures Valid() && forall k :: k !in held
    {
      for i := 0 to MAX_SOCKETS
        invariant Valid() && forall k :: k in held ==> i <= k
      {
        FreeNext(i);
      }
    }

    method FreeNext(i: nat)
      requires Valid() && forall k :: k in held ==> i <= k
      modifies this`free, this`held, rxBuf
      ensures Valid() && forall k :: k in held ==> i + 1 <= k
    {
      ghost var before := held;
      FreeRxBuffer(i);
      NextHeld(before, i);
    }

    static lemma NextHeld(before: map<int, seq<byte>>, i: int)
      requires forall k :: k in before ==> i <= k
      ensures forall k :: k in before - {i} ==> i + 1 <= k
    {
    }

    /** With no slot in use every block is free. */
    lemma NothingHeld()
      requires Valid() && forall k :: k !in held
      ensures held == map[] && free == set b | b in blocks
    {
      assert forall i :: 0 <= i < rxBuf.Length ==> rxBuf[..][i] == null;
      AllReturned<RxBuffer?>(rxBuf[..], null, free, blocks);
      assert forall b: RxBuffer :: b in free <==> b in blocks;
      assert forall k :: k !in held;
      assert held.Keys == {};
    }

    // ------------------------------------------------------------------- close all

    /** Closes every id once, tracked or left over from before, and marks the tracked ones that closed.
        Success means exactly that every tracked socket with an id in range is closed, and that no close of
        an id nobody tracks failed without a device error. Buffers stay. */
    method CloseAllSockets() returns (ok: bool)
      requires Valid() && Mirrored()
      modifies modem`sent, modem`failed, modem`deviceError, modem`queues, modem`closeFailures
      modifies this`rows, members`closed
      ensures Valid() && Mirrored() && rows.ids == old(rows.ids) && rows.tcp == old(rows.tcp)
      ensures modem.sent == old(modem.sent) + old(rows).CloseScript(MAX_SOCKETS)
      ensures OnlySwept(sockets, rows.ids, old(rows).closed, rows.closed, MAX_SOCKETS)
      ensures ok <==> ClosedBelow(rows.ids, rows.closed, MAX_SOCKETS) &&
                      !StrayIn(rows.ids, modem.closeFailures, |old(modem.closeFailures)|)
      ensures SweptRight(rows.ids, old(rows).closed, rows.closed, modem.closeFailures, |old(modem.closeFailures)|, 7)
      ensures old(LiveBuffered()) ==> LiveBuffered()
    {
      ok := true;
      ghost var t, sent, from := rows, modem.sent, |modem.closeFailures|;
      for id := 0 to MAX_SOCKETS
        invariant Valid() && Mirrored() && rows.ids == t.ids && rows.tcp == t.tcp
        invariant OnlySwept(sockets, t.ids, t.closed, rows.closed, id)
        invariant from <= |modem.closeFailures| && modem.sent == sent + t.CloseScript(id)
        invariant ok <==> ClosedBelow(t.ids, rows.closed, id) && !StrayIn(t.ids, modem.closeFailures, from)
        invariant SweptRight(t.ids, t.closed, rows.closed, modem.closeFailures, from, id)
      {
        var closed := CloseTracked(id, t, sent, from);
        ok := ok && closed;
      }
    }

    /** One id of the sweep. */
    method CloseTracked(id: nat, ghost t: Table, ghost sent: seq<Command>, ghost from: nat) returns (ok: bool)
      requires Valid() && Mirrored() && t.Even() && rows.ids == t.ids && rows.tcp == t.tcp
      requires OnlySwept(sockets, t.ids, t.closed, rows.closed, id)
      requires from <= |modem.closeFailures| && modem.sent == sent + t.CloseScript(id)
      requires SweptRight(t.ids, t.closed, rows.closed, modem.closeFailures, from, id)
      modifies modem`sent, modem`failed, modem`deviceError, modem`queues, modem`closeFailures
      modifies this`rows, members`closed
      ensures Valid() && Mirrored() && rows.ids == t.ids && rows.tcp == t.tcp
      ensures OnlySwept(sockets, t.ids, t.closed, rows.closed, id + 1)
      ensures from <= |modem.closeFailures| && modem.sent == sent + t.CloseScript(id + 1)
      ensures ClosedBelow(t.ids, rows.closed, id + 1) && !StrayIn(t.ids, modem.closeFailures, from) <==>
              ok && ClosedBelow(t.ids, old(rows).closed, id) && !StrayIn(t.ids, old(modem.closeFailures), from)
      ensures SweptRight(t.ids, t.closed, rows.closed, modem.closeFailures, from, id + 1)
    {
      ghost var f0, c0 := modem.closeFailures, rows.closed;
      var sock := Lookup(id);
      assert rows.Closing(id) == t.Closing(id);
      if sock != null {
        ok := CloseRecord(id, sock, from);
        SweptOne<CellularSocket?>(sockets, t.ids, t.closed, old(rows).closed, id, sock, ok);
      } else {
        ok := CloseStray(id, from);
        SweptNone(sockets, t.ids, t.closed, rows.closed, id);
      }
      SweptRightOn(sockets, t.ids, t.closed, c0, rows.closed, f0, modem.closeFailures, from, id);
    }

    /** At most one failure more, of a close of this id. */
    static ghost predicate OneMore(f0: seq<CloseFailure>, f1: seq<CloseFailure>, id: int) {
      f1 == f0 || (|f1| == |f0| + 1 && f0 == f1[..|f0|] && f1[|f0|].id == id)
    }

    method CloseRecord(id: nat, sock: CellularSocket, ghost from: nat) returns (ok: bool)
      requires Valid() && Mirrored() && sock == FindSocket(id) && sock in sockets && from <= |modem.closeFailures|
      modifies modem`sent, modem`failed, modem`deviceError, modem`queues, modem`closeFailures
      modifies this`rows, sock`closed
      ensures Valid() && Mirrored()
      ensures rows == old(rows).(closed := SetWhere(old(rows).closed, sockets, sock, ok))
      ensures forall k :: 0 <= k < |sockets| && sockets[k] == sock ==>
                rows.ids[k] == Some(id) && (!ok ==> !old(rows).closed[k])
      ensures modem.sent == old(modem.sent) + old(rows).Closing(id) && from <= |modem.closeFailures|
      ensures StrayIn(rows.ids, modem.closeFailures, from) <==> StrayIn(rows.ids, old(modem.closeFailures), from)
      ensures OneMore(old(modem.closeFailures), modem.closeFailures, id)
      ensures ok <==> old(sock.closed) || modem.closeFailures == old(modem.closeFailures)
      ensures old(sock.closed) ==> modem.closeFailures == old(modem.closeFailures)
    {
      if sock.closed {
        assert rows.closed == SetWhere(rows.closed, sockets, sock, true);
        return true;
      }
      ok := modem.CloseSocket(id);
      if ok {
        assert modem.closeFailures == old(modem.closeFailures);
        NoteClosed(sock);
      } else {
        assert rows.closed == SetWhere(rows.closed, sockets, sock, false);
        StrayMore(rows.ids, old(modem.closeFailures), CloseFailure(id, modem.deviceError.cme), from);
      }
    }

    /** An id nobody tracks may be left over from before. A device error on one that is not is expected. */
    method CloseStray(id: nat, ghost from: nat) returns (ok: bool)
      requires Valid() && Mirrored() && Some(id) !in rows.ids && from <= |modem.closeFailures|
      modifies modem`sent, modem`failed, modem`deviceError, modem`queues, modem`closeFailures
      ensures Valid() && Mirrored() && modem.sent == old(modem.sent) + [SocketClose(id)]
      ensures from <= |modem.closeFailures|
      ensures StrayIn(rows.ids, modem.closeFailures, from) <==> !ok || StrayIn(rows.ids, old(modem.closeFailures), from)
      ensures OneMore(old(modem.closeFailures), modem.closeFailures, id)
    {
      ok := modem.CloseSocket(id);
      if ok {
        assert modem.closeFailures == old(modem.closeFailures);
      } else {
        StrayMore(rows.ids, old(modem.closeFailures), CloseFailure(id, modem.deviceError.cme), from);
        ok := modem.deviceError.cme;
      }
    }

    // ------------------------------------------------------------------- wake-up

    /** The marked records with a callback among the first n places, in table order. */
    ghost function Waiting(n: nat): seq<CellularSocket>
      requires n <= |sockets|
      reads this`sockets, sockets
    {
      if n == 0 then []
      else
        var s := sockets[n - 1];
        Waiting(n - 1) + if s != null && s.hasCallback && s.txfull then [s] else []
    }

    /** Only marked records in the table wait, and all of those with a callback do. */
    lemma {:induction false} WaitingIs(n: nat)
      requires n <= |sockets|
      ensures forall s :: s in Waiting(n) <==>
                          exists k :: 0 <= k < n && sockets[k] == s && s.hasCallback && s.txfull
    {
      if n > 0 {
        WaitingIs(n - 1);
      }
    }

    /** The timer: every marked socket with a callback is called once, in table order, and finds its mark
        already gone; no other is called. */
    method TxFullTimeout() returns (called: seq<CellularSocket>)
      requires Mirrored()
      modifies this`txfullEventId, this`marked, members`txfull, members`calls
      ensures Mirrored() && !TxView().timer && called == old(Waiting(|sockets|))
      ensures marked == set s | s in old(marked) && !s.hasCallback
      ensures forall s :: s in members ==>
                s.calls == old(s.calls) + if s in old(marked) && s.hasCallback then [false] else []
      ensures (forall s :: s in members ==> s.hasCallback) ==> TxView() == TxWake.Step(old(TxView()), TxWake.Expired)
    {
      txfullEventId := 0;
      called := WakeMarked();
    }

    method WakeMarked() returns (called: seq<CellularSocket>)
      requires Mirrored()
      modifies this`marked, members`txfull, members`calls
      ensures Mirrored() && called == old(Waiting(|sockets|))
      ensures marked == set s | s in old(marked) && !s.hasCallback
      ensures forall s :: s in members ==>
                s.calls == old(s.calls) + if s in old(marked) && s.hasCallback then [false] else []
    {
      called := CallWaiting();
      marked := set s | s in marked && !s.hasCallback;
    }

    method CallWaiting() returns (called: seq<CellularSocket>)
      requires forall s :: s in sockets && s != null ==> s in members
      requires forall j, k :: 0 <= j < k < |sockets| && sockets[j] != null ==> sockets[j] != sockets[k]
      modifies members`txfull, members`calls
      ensures called == old(Waiting(|sockets|))
      ensures forall s :: s in sockets && s != null ==> (s.txfull <==> old(s.txfull) && !s.hasCallback)
      ensures forall s :: s in members ==>
                s.calls == old(s.calls) + if s in sockets && old(s.txfull) && s.hasCallback then [false] else []
    {
      called := [];
      for i := 0 to |sockets|
        invariant called == old(Waiting(i))
        invariant forall s :: s in sockets[..i] && s != null ==> (s.txfull <==> old(s.txfull) && !s.hasCallback)
        invariant forall s :: s in members ==>
                    s.calls ==
                    old(s.calls) + if s in sockets[..i] && old(s.txfull) && s.hasCallback then [false] else []
        invariant forall s :: s in members && s !in sockets[..i] ==> s.txfull == old(s.txfull)
      {
        var sock := sockets[i];
        assert sockets[..i + 1] == sockets[..i] + [sock];
        if sock != null && sock.hasCallback && sock.txfull {
          sock.txfull := false;
          sock.Notify();
          called := called + [sock];
        }
      }
      assert sockets[..|sockets|] == sockets;
    }

    // ---------------------------------------------------------------------- send

    /** The payload in hex, as it is written after the command's parameters. */
    method HexPayload(data: seq<byte>) returns (text: seq<byte>)
      ensures text == Encode(data)
    {
      text := [];
      for i := 0 to |data|
        invariant |text| == 2 * i && forall k :: 0 <= k < 2 * i ==> text[k] == Encode(data)[k]
      {
        EncodeAt(data, i);
        text := text + [HexChar(data[i] / 16), HexChar(data[i] % 16)];
      }
    }

    /** The profile slot of an id; beyond the slots, where the source does not look out, anything. */
    method ProfileOf(id: int) returns (ctx: int)
      requires sslctx.Length == MAX_SOCKETS
      ensures HasSlot(id) ==> ctx == sslctx[id]
    {
      if HasSlot(id) {
        ctx := sslctx[id];
      } else {
        ctx := modem.AnyInt();
      }
    }

    /** The receive view of a socket after a reopening: what is buffered and, on success, what the modem held
        is lost; the credits stay. A failed one loses what a close that did something loses. */
    ghost function ReopenedView(before: Rx, closable: bool, created: Option<Answer>, emptied: bool): Rx {
      if Succeeded(created) then Reopened(before, true, HasSlot(created.value.id))
      else if closable then Reopened(before, emptied, false)
      else before.(queue := if emptied then [] else before.queue)
    }

    /** Every id but the one a reopened socket had and the one it was offered is as before. */
    twostate predicate OthersKept(id: int, created: Option<Answer>)
      reads this`held, modem`queues
    {
      forall i :: i != id && i != Named(created) ==> Left(i) == old(Left(i)) && modem.Queue(i) == old(modem.Queue(i))
    }

    /** A UDP socket is closed and created again; neither step's failure is looked at. The profile slot is
        read after the close has cleared it, so the new socket gets no profile, and the credit count of the
        old socket stays. */
    method ReopenUdp(sock: CellularSocket, w: World) returns (ghost ctx: int, ghost created: Option<Answer>)
      requires Valid() && Mirrored() && sock in sockets && sock.proto.UDP? && sock.id != -1
      modifies this`free, this`held, this`rows, this`marked, this`ipConfigured, rxBuf, sslctx, storage
      modifies members`txfull, sock`id, sock`started
      modifies modem`sent, modem`failed, modem`deviceError, modem`queues, modem`closeFailures
      ensures Valid() && Mirrored()
      ensures modem.sent == old(modem.sent) + old(rows.Closing(sock.id)) + Creation(UDP, ctx, created)
      ensures created.Some? <==> old(ipConfigured) || w.hasAddress
      ensures old(HasSlot(sock.id)) ==> ctx == if old(rows.Closable(sock.id)) then -1 else old(sslctx[sock.id])
      ensures sock.id == if Succeeded(created) then created.value.id else old(sock.id)
      ensures View(sock) ==
              ReopenedView(old(View(sock)), old(rows.Closable(sock.id)), created, modem.Queue(sock.id) == [])
      ensures OthersKept(old(sock.id), created)
      ensures TxView() == old(rows.TxAfter(sockets, TxView(), sock.id))
      ensures old(LiveBuffered() && !rows.Bereaves(sock.id)) ==> LiveBuffered()
    {
      ghost var before, closable := View(sock), rows.Closable(sock.id);
      var profile := CloseForReopen(sock);
      ctx := profile;
      assert View(sock) == if closable then Reopened(before, modem.Queue(sock.id) == [], false) else before;
      created := CreateAgain(sock, profile, w);
    }

    /** Its second half. */
    method CreateAgain(sock: CellularSocket, profile: int, w: World) returns (ghost created: Option<Answer>)
      requires Valid() && Mirrored() && sock in sockets
      modifies this`free, this`held, this`rows, this`ipConfigured, rxBuf, sslctx, storage, sock`id, sock`started
      modifies modem`sent, modem`failed, modem`queues
      ensures Valid() && Mirrored() && modem.sent == old(modem.sent) + Creation(sock.proto, profile, created)
      ensures TxView() == old(TxView())
      ensures created.Some? <==> old(ipConfigured) || w.hasAddress
      ensures sock.id == if Succeeded(created) then created.value.id else old(sock.id)
      ensures View(sock) == if Succeeded(created) then Reopened(old(View(sock)), true, HasSlot(created.value.id))
                            else old(View(sock)).(queue := modem.Queue(sock.id))
      ensures !Succeeded(created) ==> modem.Queue(sock.id) == [] || modem.Queue(sock.id) == old(modem.Queue(sock.id))
      ensures forall i :: i != Named(created) ==> Left(i) == old(Left(i)) && modem.Queue(i) == old(modem.Queue(i))
      ensures old(LiveBuffered()) ==> LiveBuffered()
    {
      var ok;
      ok, created := CreateSocketImpl(sock, profile, w);
    }

    /** Its first half, up to reading the profile slot. */
    method CloseForReopen(sock: CellularSocket) returns (profile: int)
      requires Valid() && Mirrored() && sock in sockets
      modifies this`free, this`held, this`marked, rxBuf, sslctx, members`txfull
      modifies modem`sent, modem`failed, modem`deviceError, modem`queues, modem`closeFailures
      ensures Valid() && Mirrored() && modem.sent == old(modem.sent) + rows.Closing(sock.id)
      ensures unchanged(this`ipConfigured, this`rows, sock`id, sock`pending, sock`closed)
      ensures HasSlot(sock.id) ==> profile == if rows.Closable(sock.id) then -1 else old(sslctx[sock.id])
      ensures View(sock) == if rows.Closable(sock.id) then Reopened(old(View(sock)), modem.Queue(sock.id) == [], false)
                            else old(View(sock))
      ensures forall i :: i != sock.id ==> Left(i) == old(Left(i)) && modem.Queue(i) == old(modem.Queue(i))
      ensures TxView() == rows.TxAfter(sockets, old(TxView()), sock.id)
      ensures old(LiveBuffered()) && !rows.Bereaves(sock.id) ==> LiveBuffered()
    {
      CloseOwn(sock);
      profile := ProfileOf(sock.id);
    }

    method CloseOwn(sock: CellularSocket)
      requires Valid() && Mirrored() && sock in sockets
      modifies this`free, this`held, this`marked, rxBuf, sslctx, members`txfull
      modifies modem`sent, modem`failed, modem`deviceError, modem`queues, modem`closeFailures
      ensures Valid() && Mirrored() && modem.sent == old(modem.sent) + rows.Closing(sock.id)
      ensures HasSlot(sock.id) ==> sslctx[sock.id] == if rows.Closable(sock.id) then -1 else old(sslctx[sock.id])
      ensures View(sock) == if rows.Closable(sock.id) then Reopened(old(View(sock)), modem.Queue(sock.id) == [], false)
                            else old(View(sock))
      ensures forall i :: i != sock.id ==> Left(i) == old(Left(i)) && modem.Queue(i) == old(modem.Queue(i))
      ensures TxView() == rows.TxAfter(sockets, old(TxView()), sock.id)
      ensures old(LiveBuffered()) && !rows.Bereaves(sock.id) ==> LiveBuffered()
    {
      if rows.LiveBuffered(held) {
        rows.BereavedIff(held, sock.id);
      }
      var closed := SocketCloseImpl(sock.id);
    }

    static predicate Congested(e: DeviceError) {
      (e.cme && (e.code == CME_UART_BUFFER_ERROR || e.code == CME_BACK_OFF_TIMER)) || e.code == CME_UPLINK_BUSY
    }

    /** Issues one packet. Every command carries the same text, which decodes to the front of data; UDP
        tries four times at most, with a pause before each further try, TCP once. */
    method Transmit(proto: Proto, id: int, data: seq<byte>) returns (r: Result, ghost tries: nat)
      modifies modem`sent, modem`failed, modem`deviceError, modem`now, modem`actions
      ensures 1 <= tries <= if proto.UDP? then 4 else 1
      ensures modem.sent == old(modem.sent) + Packets(proto, id, Encode(data), tries, !modem.failed)
      ensures modem.actions == old(modem.actions) + Repeat(Pause(30), tries - 1)
      ensures r == if !modem.failed then Count(|data|)
                   else if !Congested(modem.deviceError) then ErrDevice
                   else ErrNoMemory
      ensures proto.UDP? && r.ErrNoMemory? ==> tries == 4
    {
      tries := 0;
      var retry := 0;
      var text := HexPayload(data);
      while true
        invariant 0 <= retry <= 3 && tries == retry && (proto.TCP? ==> retry == 0)
        invariant modem.sent == old(modem.sent) + Repeat(Packet(proto, id, text, false), tries)
        invariant modem.actions == old(modem.actions) + Repeat(Pause(30), tries)
        decreases 3 - retry
      {
        var ok := SendOnce(proto, id, text);
        tries := tries + 1;
        if ok {
          return Count(|data|), tries;
        }
        if !Congested(modem.deviceError) {
          return ErrDevice, tries;
        }
        if proto.TCP? || retry >= 3 {
          return ErrNoMemory, tries;
        }
        retry := retry + 1;
        modem.Sleep(30);
      }
    }

    method SendOnce(proto: Proto, id: int, text: seq<byte>) returns (ok: bool)
      modifies modem`sent, modem`failed, modem`deviceError
      ensures modem.sent == old(modem.sent) + [Packet(proto, id, text, ok)] && ok == !modem.failed
    {
      if proto.UDP? {
        ok := modem.IpSendUdp(id, text);
      } else {
        ok := modem.IpSendTcp(id, text);
      }
    }

    /** Whether the last command of a TCP socket was refused for congestion. */
    ghost predicate Refusal(proto: Proto)
      reads modem`failed, modem`deviceError
    {
      proto.TCP? && modem.failed && Congested(modem.deviceError)
    }

    /** What sending n bytes reports; starved says that a refusal would find no timer running and could not
        schedule one. */
    static ghost predicate Reports(r: Result, proto: Proto, tries: nat, n: nat, starved: bool, failed: bool,
                                   e: DeviceError)
    {
      && 1 <= tries <= (if proto.UDP? then 4 else 1)
      && r == (if !failed then Count(n)
               else if !Congested(e) then ErrDevice
               else if proto.UDP? || starved then ErrNoMemory
               else ErrWouldBlock)
      && (proto.UDP? && r.ErrNoMemory? ==> tries == 4)
    }

    /** What a report on n bytes says, by what the modem answered. */
    static lemma ReportMeans(r: Result, proto: Proto, tries: nat, n: nat, starved: bool, failed: bool, e: DeviceError)
      requires Reports(r, proto, tries, Min(n, PACKET_SIZE_MAX), starved, failed, e)
      ensures r.Count? <==> !failed
      ensures r.Count? ==> r.n == if n < 1400 then n else 1400
      ensures r == ErrDevice <==> failed && e.code != 159 && !(e.cme && 536 <= e.code <= 537)
      ensures r == ErrWouldBlock ==> proto == TCP && !starved
      ensures r == ErrNoMemory ==> proto == UDP || starved
      ensures r == ErrNoMemory && proto == UDP ==> tries == 4
    {
    }

    /** What a send reports and how the payload went out. */
    ghost predicate Sent(r: Result, proto: Proto, text: seq<byte>, tries: nat, data: seq<byte>, starved: bool)
      reads modem`failed, modem`deviceError
    {
      && Decode(text) == Some(Take(data, PACKET_SIZE_MAX))
      && Reports(r, proto, tries, Min(|data|, PACKET_SIZE_MAX), starved, modem.failed, modem.deviceError)
    }

    /** A refusal of this socket would leave it marked without a timer. */
    ghost predicate Starved(sock: CellularSocket, w: World)
      reads this`txfullEventId, sock`txfull
    {
      !sock.txfull && txfullEventId == 0 && !w.schedules
    }

    /** A refused TCP send starts the timer and marks its socket, unless a timer runs already. */
    method MarkFull(sock: CellularSocket, w: World) returns (r: Result)
      requires Valid() && Mirrored() && sock in sockets && sock.proto.TCP?
      modifies this`txfullEventId, this`marked, sock`txfull
      ensures Valid() && Mirrored()
      ensures r == if old(Starved(sock, w)) then ErrNoMemory else ErrWouldBlock
      ensures TxView() == TxWake.Refused(old(TxView()), sock, w.schedules)
    {
      if !sock.txfull && txfullEventId == 0 {
        sock.txfull := true;
        marked := marked + {sock};
        txfullEventId := if w.schedules then 1 else 0;
        if txfullEventId == 0 {
          return ErrNoMemory;
        }
      }
      return ErrWouldBlock;
    }

    /** Sends one packet; a TCP socket refused for congestion is marked for the wake-up. */
    method SendPacket(sock: CellularSocket, data: seq<byte>, w: World) returns (r: Result, ghost tries: nat)
      requires Valid() && Mirrored() && sock in sockets && |data| <= PACKET_SIZE_MAX
      modifies this`txfullEventId, this`marked, sock`txfull
      modifies modem`sent, modem`failed, modem`deviceError, modem`now, modem`actions
      ensures Valid() && Mirrored() && View(sock) == old(View(sock))
      ensures Reports(r, sock.proto, tries, |data|, old(Starved(sock, w)), modem.failed, modem.deviceError)
      ensures modem.sent == old(modem.sent) + Packets(sock.proto, sock.id, Encode(data), tries, !modem.failed)
      ensures modem.actions == old(modem.actions) + Repeat(Pause(30), tries - 1)
      ensures TxView() == if Refusal(sock.proto) then TxWake.Refused(old(TxView()), sock, w.schedules)
                          else old(TxView())
    {
      r, tries := Transmit(sock.proto, sock.id, data);
      if r.ErrNoMemory? && sock.proto.TCP? {
        r := MarkFull(sock, w);
      }
    }

    /** Sends as much of the data as one packet takes. */
    method SendFront(sock: CellularSocket, data: seq<byte>, w: World)
      returns (r: Result, ghost text: seq<byte>, ghost tries: nat)
      requires Valid() && Mirrored() && sock in sockets
      modifies this`txfullEventId, this`marked, sock`txfull
      modifies modem`sent, modem`failed, modem`deviceError, modem`now, modem`actions
      ensures Valid() && Mirrored() && View(sock) == old(View(sock))
      ensures unchanged(this`held, this`rows, sock`id, modem`queues)
      ensures Sent(r, sock.proto, text, tries, data, old(Starved(sock, w)))
      ensures modem.sent == old(modem.sent) + Packets(sock.proto, sock.id, text, tries, !modem.failed)
      ensures modem.actions == old(modem.actions) + Repeat(Pause(30), tries - 1)
      ensures TxView() == if Refusal(sock.proto) then TxWake.Refused(old(TxView()), sock, w.schedules)
                          else old(TxView())
    {
      var packet := Take(data, PACKET_SIZE_MAX);
      text := Encode(packet);
      DecodeEncode(packet);
      r, tries := SendPacket(sock, packet, w);
    }

    /** A UDP socket counts as connected once it is used, and is reopened for an address of the other IP
        version. */
    method PrepareSend(sock: CellularSocket, version: int, w: World)
      returns (ghost ctx: int, ghost created: Option<Answer>)
      requires Valid() && Mirrored() && sock in sockets && sock.id != -1
      modifies this`ipVersion, this`free, this`held, this`rows, this`marked, this`ipConfigured
      modifies rxBuf, sslctx, storage, members`txfull, sock`id, sock`started, sock`connected
      modifies modem`sent, modem`failed, modem`deviceError, modem`queues, modem`closeFailures
      ensures Valid() && Mirrored()
      ensures sock.connected == (old(sock.connected) || sock.proto.UDP?)
      ensures ipVersion == if sock.proto.UDP? then version else old(ipVersion)
      ensures if sock.proto.UDP? && old(ipVersion) != version then
                && modem.sent == old(modem.sent) + old(rows.Closing(sock.id)) + Creation(UDP, ctx, created)
                && (created.Some? <==> old(ipConfigured) || w.hasAddress)
                && (old(HasSlot(sock.id)) ==> ctx == if old(rows.Closable(sock.id)) then -1 else old(sslctx[sock.id]))
                && sock.id == (if Succeeded(created) then created.value.id else old(sock.id))
                && View(sock) ==
                     ReopenedView(old(View(sock)), old(rows.Closable(sock.id)), created, modem.Queue(sock.id) == [])
                && OthersKept(old(sock.id), created)
                && TxView() == old(rows.TxAfter(sockets, TxView(), sock.id))
              else
                && modem.sent == old(modem.sent) && TxView() == old(TxView())
                && held == old(held) && modem.queues == old(modem.queues) && rows == old(rows)
                && sock.id == old(sock.id)
      ensures sock.proto.TCP? ==> (Starved(sock, w) <==> old(Starved(sock, w)))
      ensures old(LiveBuffered()) && (sock.proto.TCP? || !old(rows.Bereaves(sock.id))) ==> LiveBuffered()
    {
      MarkUsed(sock);
      ctx, created := ReopenIfNeeded(sock, version, w);
    }

    method ReopenIfNeeded(sock: CellularSocket, version: int, w: World)
      returns (ghost ctx: int, ghost created: Option<Answer>)
      requires Valid() && Mirrored() && sock in sockets && sock.id != -1
      modifies this`ipVersion, this`free, this`held, this`rows, this`marked, this`ipConfigured
      modifies rxBuf, sslctx, storage, members`txfull, sock`id, sock`started
      modifies modem`sent, modem`failed, modem`deviceError, modem`queues, modem`closeFailures
      ensures Valid() && Mirrored()
      ensures unchanged(sock`connected)
      ensures ipVersion == if sock.proto.UDP? then version else old(ipVersion)
      ensures if sock.proto.UDP? && old(ipVersion) != version then
                && modem.sent == old(modem.sent) + old(rows.Closing(sock.id)) + Creation(UDP, ctx, created)
                && (created.Some? <==> old(ipConfigured) || w.hasAddress)
                && (old(HasSlot(sock.id)) ==> ctx == if old(rows.Closable(sock.id)) then -1 else old(sslctx[sock.id]))
                && sock.id == (if Succeeded(created) then created.value.id else old(sock.id))
                && View(sock) ==
                     ReopenedView(old(View(sock)), old(rows.Closable(sock.id)), created, modem.Queue(sock.id) == [])
                && OthersKept(old(sock.id), created)
                && TxView() == old(rows.TxAfter(sockets, TxView(), sock.id))
              else
                && modem.sent == old(modem.sent) && TxView() == old(TxView())
                && held == old(held) && modem.queues == old(modem.queues) && rows == old(rows)
                && sock.id == old(sock.id)
      ensures sock.proto.TCP? ==> (Starved(sock, w) <==> old(Starved(sock, w)))
      ensures old(LiveBuffered()) && (sock.proto.TCP? || !old(rows.Bereaves(sock.id))) ==> LiveBuffered()
    {
      ctx, created := 0, None;
      if sock.proto.UDP? && ipVersion != version {
        ctx, created := SwitchVersion(sock, version, w);
      }
    }

    method MarkUsed(sock: CellularSocket)
      requires Valid() && Mirrored() && sock in sockets
      modifies sock`connected
      ensures Valid() && Mirrored() && View(sock) == old(View(sock))
      ensures unchanged(this`held, this`rows, this`ipVersion, this`ipConfigured, sock`id, sock`txfull)
      ensures unchanged(sslctx, modem`sent, modem`queues) && TxView() == old(TxView())
      ensures sock.connected == (old(sock.connected) || sock.proto.UDP?)
    {
      if sock.proto.UDP? {
        sock.connected := true;
      }
    }

    method SwitchVersion(sock: CellularSocket, version: int, w: World)
      returns (ghost ctx: int, ghost created: Option<Answer>)
      requires Valid() && Mirrored() && sock in sockets && sock.proto.UDP? && sock.id != -1
      modifies this`ipVersion, this`free, this`held, this`rows, this`marked, this`ipConfigured
      modifies rxBuf, sslctx, storage, members`txfull, sock`id, sock`started
      modifies modem`sent, modem`failed, modem`deviceError, modem`queues, modem`closeFailures
      ensures Valid() && Mirrored() && ipVersion == version
      ensures unchanged(sock`connected)
      ensures modem.sent == old(modem.sent) + old(rows.Closing(sock.id)) + Creation(UDP, ctx, created)
      ensures created.Some? <==> old(ipConfigured) || w.hasAddress
      ensures old(HasSlot(sock.id)) ==> ctx == if old(rows.Closable(sock.id)) then -1 else old(sslctx[sock.id])
      ensures sock.id == if Succeeded(created) then created.value.id else old(sock.id)
      ensures View(sock) ==
              ReopenedView(old(View(sock)), old(rows.Closable(sock.id)), created, modem.Queue(sock.id) == [])
      ensures OthersKept(old(sock.id), created)
      ensures TxView() == old(rows.TxAfter(sockets, TxView(), sock.id))
      ensures old(LiveBuffered() && !rows.Bereaves(sock.id)) ==> LiveBuffered()
    {
      ipVersion := version;
      ctx, created := ReopenUdp(sock, w);
    }

    /** A send on a socket that is not closed. */
    method SendOpen(sock: CellularSocket, version: int, data: seq<byte>, w: World)
      returns (r: Result, ghost ctx: int, ghost created: Option<Answer>, ghost text: seq<byte>, ghost tries: nat)
      requires Valid() && Mirrored() && sock in sockets && sock.id != -1
      modifies this`ipVersion, this`free, this`held, this`rows, this`marked, this`ipConfigured, this`txfullEventId
      modifies rxBuf, sslctx, storage, members`txfull, sock`id, sock`started, sock`connected
      modifies modem`sent, modem`failed, modem`deviceError, modem`queues, modem`closeFailures, modem`now, modem`actions
      ensures Valid() && Mirrored()
      ensures Sent(r, sock.proto, text, tries, data, old(Starved(sock, w)))
      ensures if sock.proto.UDP? && old(ipVersion) != version then
                && modem.sent == old(modem.sent) + old(rows.Closing(sock.id)) + Creation(UDP, ctx, created)
                                 + Packets(sock.proto, sock.id, text, tries, !modem.failed)
                && (created.Some? <==> old(ipConfigured) || w.hasAddress)
                && (old(HasSlot(sock.id)) ==> ctx == if old(rows.Closable(sock.id)) then -1 else old(sslctx[sock.id]))
                && sock.id == (if Succeeded(created) then created.value.id else old(sock.id))
                && View(sock) ==
                     ReopenedView(old(View(sock)), old(rows.Closable(sock.id)), created, modem.Queue(sock.id) == [])
                && OthersKept(old(sock.id), created)
                && TxView() == old(rows.TxAfter(sockets, TxView(), sock.id))
              else
                && modem.sent == old(modem.sent) + Packets(sock.proto, sock.id, text, tries, !modem.failed)
                && TxView() == (if Refusal(sock.proto) then TxWake.Refused(old(TxView()), sock, w.schedules)
                                else old(TxView()))
                && held == old(held) && modem.queues == old(modem.queues) && rows == old(rows)
                && sock.id == old(sock.id)
      ensures old(LiveBuffered()) && (sock.proto.TCP? || !old(rows.Bereaves(sock.id))) ==> LiveBuffered()
      ensures ipVersion == if sock.proto.UDP? then version else old(ipVersion)
    {
      ctx, created := PrepareSend(sock, version, w);
      r, text, tries := SendFront(sock, data, w);
    }

    /** The same with what it means for the log. */
    method SendLogged(sock: CellularSocket, version: int, data: seq<byte>, w: World)
      returns (r: Result, ghost ctx: int, ghost created: Option<Answer>, ghost text: seq<byte>, ghost tries: nat)
      requires Valid() && Mirrored() && sock in sockets && sock.id != -1
      modifies this`ipVersion, this`free, this`held, this`rows, this`marked, this`ipConfigured, this`txfullEventId
      modifies rxBuf, sslctx, storage, members`txfull, sock`id, sock`started, sock`connected
      modifies modem`sent, modem`failed, modem`deviceError, modem`queues, modem`closeFailures, modem`now, modem`actions
      ensures Valid() && Mirrored()
      ensures Sent(r, sock.proto, text, tries, data, old(Starved(sock, w)))
      ensures if sock.proto.UDP? && old(ipVersion) != version then
                && modem.sent == old(modem.sent) + old(rows.Closing(sock.id)) + Creation(UDP, ctx, created)
                                 + Packets(sock.proto, sock.id, text, tries, !modem.failed)
                && (created.Some? <==> old(ipConfigured) || w.hasAddress)
                && (old(HasSlot(sock.id)) ==> ctx == if old(rows.Closable(sock.id)) then -1 else old(sslctx[sock.id]))
                && sock.id == (if Succeeded(created) then created.value.id else old(sock.id))
                && View(sock) ==
                     ReopenedView(old(View(sock)), old(rows.Closable(sock.id)), created, modem.Queue(sock.id) == [])
                && OthersKept(old(sock.id), created)
                && TxView() == old(rows.TxAfter(sockets, TxView(), sock.id))
              else
                && modem.sent == old(modem.sent) + Packets(sock.proto, sock.id, text, tries, !modem.failed)
                && TxView() == (if Refusal(sock.proto) then TxWake.Refused(old(TxView()), sock, w.schedules)
                                else old(TxView()))
                && held == old(held) && modem.queues == old(modem.queues) && rows == old(rows)
                && sock.id == old(sock.id)
      ensures old(LiveBuffered()) && (sock.proto.TCP? || !old(rows.Bereaves(sock.id))) ==> LiveBuffered()
      ensures ipVersion == if sock.proto.UDP? then version else old(ipVersion)
      ensures r.Count? <==> !modem.failed
      ensures r.Count? ==> r.n == if |data| < 1400 then |data| else 1400
      ensures r == ErrDevice <==>
                modem.failed && modem.deviceError.code != 159
                && !(modem.deviceError.cme && 536 <= modem.deviceError.code <= 537)
      ensures r == ErrWouldBlock ==> sock.proto == TCP && (old(sock.txfull || txfullEventId != 0) || w.schedules)
      ensures r == ErrNoMemory ==> sock.proto == UDP || (old(!sock.txfull && txfullEventId == 0) && !w.schedules)
      ensures old(modem.sent) <= modem.sent && forall c :: c in modem.sent[|old(modem.sent)|..] ==>
                Addressed(c, sock.proto, sock.id, Take(data, 1400))
      ensures forall p, i ::
                Payload(modem.sent, p, i) ==
                old(Payload(modem.sent, p, i)) + if r.Count? && p == sock.proto && i == sock.id then data[..r.n] else []
    {
      ghost var log, closing, reopens := modem.sent, rows.Closing(sock.id), sock.proto.UDP? && ipVersion != version;
      ghost var starved := Starved(sock, w);
      r, ctx, created, text, tries := SendOpen(sock, version, data, w);
      SendLogOf(log, closing, Creation(UDP, ctx, created), reopens, modem.sent, sock.proto, sock.id, text, tries,
                !modem.failed, Take(data, 1400));
      ReportMeans(r, sock.proto, tries, |data|, starved, modem.failed, modem.deviceError);
    }

    /** A successful send reports how much of the data went out, and its text decodes to just that. What the
        modem and the slots hold changes only for a socket that is reopened, and only under its own ids. */
    method SocketSendToImpl(sock: CellularSocket, version: int, data: seq<byte>, w: World)
      returns (r: Result, ghost ctx: int, ghost created: Option<Answer>, ghost text: seq<byte>, ghost tries: nat)
      requires Valid() && Mirrored() && sock in sockets && sock.id != -1
      modifies this`ipVersion, this`free, this`held, this`rows, this`marked, this`ipConfigured, this`txfullEventId
      modifies rxBuf, sslctx, storage, members`txfull, sock`id, sock`started, sock`connected
      modifies modem`sent, modem`failed, modem`deviceError, modem`queues, modem`closeFailures, modem`now, modem`actions
      ensures Valid() && Mirrored()
      ensures sock.closed ==> r == ErrConnectionLost && modem.sent == old(modem.sent) && TxView() == old(TxView())
      ensures !sock.closed ==> Sent(r, sock.proto, text, tries, data, old(Starved(sock, w)))
      ensures sock.closed || !(sock.proto.UDP? && old(ipVersion) != version) ==>
                held == old(held) && modem.queues == old(modem.queues) && rows == old(rows) && sock.id == old(sock.id)
      ensures !sock.closed && !(sock.proto.UDP? && old(ipVersion) != version) ==>
                && modem.sent == old(modem.sent) + Packets(sock.proto, sock.id, text, tries, !modem.failed)
                && TxView() == if Refusal(sock.proto) then TxWake.Refused(old(TxView()), sock, w.schedules)
                               else old(TxView())
      ensures !sock.closed && sock.proto.UDP? && old(ipVersion) != version ==>
                && modem.sent == old(modem.sent) + old(rows.Closing(sock.id)) + Creation(UDP, ctx, created)
                                 + Packets(sock.proto, sock.id, text, tries, !modem.failed)
                && (created.Some? <==> old(ipConfigured) || w.hasAddress)
                && (old(HasSlot(sock.id)) ==> ctx == if old(rows.Closable(sock.id)) then -1 else old(sslctx[sock.id]))
                && sock.id == (if Succeeded(created) then created.value.id else old(sock.id))
                && View(sock) ==
                     ReopenedView(old(View(sock)), old(rows.Closable(sock.id)), created, modem.Queue(sock.id) == [])
                && OthersKept(old(sock.id), created)
                && TxView() == old(rows.TxAfter(sockets, TxView(), sock.id))
      ensures old(LiveBuffered()) && (sock.proto.TCP? || !old(rows.Bereaves(sock.id))) ==> LiveBuffered()
      ensures ipVersion == if sock.proto.UDP? && !sock.closed then version else old(ipVersion)
      ensures r.Count? <==> !sock.closed && !modem.failed
      ensures r.Count? ==> r.n == if |data| < 1400 then |data| else 1400
      ensures r == ErrDevice <==>
                !sock.closed && modem.failed && modem.deviceError.code != 159
                && !(modem.deviceError.cme && 536 <= modem.deviceError.code <= 537)
      ensures r == ErrWouldBlock ==> sock.proto == TCP && (old(sock.txfull || txfullEventId != 0) || w.schedules)
      ensures r == ErrNoMemory ==> sock.proto == UDP || (old(!sock.txfull && txfullEventId == 0) && !w.schedules)
      ensures old(modem.sent) <= modem.sent && forall c :: c in modem.sent[|old(modem.sent)|..] ==>
                Addressed(c, sock.proto, sock.id, Take(data, 1400))
      ensures forall p, i ::
                Payload(modem.sent, p, i) ==
                old(Payload(modem.sent, p, i)) + if r.Count? && p == sock.proto && i == sock.id then data[..r.n] else []
    {
      ctx, created, text, tries := 0, None, [], 0;
      if sock.closed {
        return ErrConnectionLost, ctx, created, text, tries;
      }
      r, ctx, created, text, tries := SendLogged(sock, version, data, w);
    }

    // ------------------------------------------------------------------- connect

    /** A record that holds a socket just created: its slot has an empty buffer, the modem holds nothing for it,
        and the credits are what they were. */
    ghost predicate NewlyCreated(s: CellularSocket)
      reads `held, modem`queues, s`id, s`pending, s`closed, s`started
    {
      s.started && View(s) == Rx([], [], s.pending, s.closed, HasSlot(s.id))
    }

    /** Gives a record a modem socket unless it has one. */
    method EnsureCreated(sock: CellularSocket, defaultCtx: int, w: World)
      returns (ok: bool, ghost created: Option<Answer>)
      requires Valid() && Mirrored() && sock in sockets
      modifies this`free, this`held, this`rows, this`ipConfigured, rxBuf, sslctx, storage, sock`id, sock`started
      modifies modem`sent, modem`failed, modem`queues
      ensures Valid() && Mirrored()
      ensures rows == if Succeeded(created) then
                        old(rows).(ids := SetWhere(old(rows).ids, sockets, sock, Some(created.value.id)))
                      else old(rows)
      ensures modem.sent == old(modem.sent) + Creation(sock.proto, if sock.tls then defaultCtx else -1, created)
      ensures created.Some? <==> old(sock.id) == -1 && (old(ipConfigured) || w.hasAddress)
      ensures created.Some? ==> ipConfigured
      ensures sock.id == if Succeeded(created) then created.value.id else old(sock.id)
      ensures ok <==> sock.id != -1
      ensures Succeeded(created) ==> NewlyCreated(sock)
      ensures !Succeeded(created) ==> held == old(held) && sock.started == old(sock.started)
      ensures forall i :: i != Named(created) ==> Left(i) == old(Left(i)) && modem.Queue(i) == old(modem.Queue(i))
      ensures old(LiveBuffered()) ==> LiveBuffered()
      ensures unchanged(sock`connected, sock`pending, sock`closed, modem`now, modem`actions)
    {
      ok, created := true, None;
      if sock.id == -1 {
        ok, created := CreateSocketImpl(sock, if sock.tls then defaultCtx else -1, w);
      }
    }

    /** The start of a connect, under the lock of the AT handler, which it gives up if it fails. */
    method BeginConnect(sock: CellularSocket, defaultCtx: int, w: World)
      returns (ok: bool, ghost created: Option<Answer>)
      requires Valid() && Mirrored() && sock in sockets
      modifies this`free, this`held, this`rows, this`ipConfigured, rxBuf, sslctx, storage, sock`id, sock`started
      modifies modem`lockDepth, modem`sent, modem`failed, modem`queues
      ensures Valid() && Mirrored()
      ensures rows == if Succeeded(created) then
                        old(rows).(ids := SetWhere(old(rows).ids, sockets, sock, Some(created.value.id)))
                      else old(rows)
      ensures modem.sent == old(modem.sent) + Creation(sock.proto, if sock.tls then defaultCtx else -1, created)
      ensures modem.lockDepth == old(modem.lockDepth) + if ok then 1 else 0
      ensures created.Some? <==> old(sock.id) == -1 && (old(ipConfigured) || w.hasAddress)
      ensures created.Some? ==> ipConfigured
      ensures sock.id == if Succeeded(created) then created.value.id else old(sock.id)
      ensures ok <==> sock.id != -1
      ensures Succeeded(created) ==> NewlyCreated(sock)
      ensures !Succeeded(created) ==> held == old(held) && sock.started == old(sock.started)
      ensures forall i :: i != Named(created) ==> Left(i) == old(Left(i)) && modem.Queue(i) == old(modem.Queue(i))
      ensures old(LiveBuffered()) ==> LiveBuffered()
      ensures unchanged(sock`connected, sock`pending, sock`closed, modem`now, modem`actions)
    {
      LockAt();
      ok, created := EnsureCreated(sock, defaultCtx, w);
      if !ok {
        UnlockAt();
      }
    }

    method LockAt()
      requires Valid() && Mirrored()
      modifies modem`lockDepth
      ensures Valid() && Mirrored() && modem.lockDepth == old(modem.lockDepth) + 1
    {
      modem.Lock();
    }

    method UnlockAt()
      requires Valid() && Mirrored()
      modifies modem`lockDepth
      ensures Valid() && Mirrored() && modem.lockDepth == old(modem.lockDepth) - 1
    {
      modem.Unlock();
    }

    /** What a connect of a TCP record reports, by what it asked and was answered. */
    ghost predicate ConnectTells(t: seq<Action>, ok: bool, tls: bool) {
      && TcpConnect.Careful(t, tls) && TcpConnect.WaitedOut(t) && TcpConnect.Connects(t) + TcpConnect.Polls(t) <= 2
      && (ok <==> TcpConnect.LastStatus(t) == 5)
      && (!ok ==> TcpConnect.LastStatus(t) == 6 || TcpConnect.Connects(t) + TcpConnect.Polls(t) == 2)
    }

    /** The rest of a connect, which gives the lock up on every path. */
    method Dial(sock: CellularSocket) returns (ok: bool, ghost t: seq<Action>)
      modifies modem`lockDepth, modem`now, modem`actions
      ensures modem.actions == old(modem.actions) + t && modem.lockDepth == old(modem.lockDepth) - 1
      ensures if sock.proto.UDP? then ok && t == [] else ConnectTells(t, ok, sock.tls)
      ensures TcpConnect.Connects(t) == 0 && TcpConnect.LastStatus(t) == 4 ==>
                modem.now >= old(modem.now) + if sock.tls then 2 * 65000 else 2 * 15000
    {
      ok, t := true, [];
      if sock.proto.TCP? {
        ok, t := TcpConnect.Establish(modem, sock.tls);
        if !ok {
          modem.Unlock();
          return false, t;
        }
      }
      modem.Unlock();
    }

    /** The second half of a connect, if the first one came to that. */
    method FinishConnect(sock: CellularSocket, begun: bool) returns (ok: bool, ghost t: seq<Action>)
      requires Valid() && Mirrored() && sock in sockets
      modifies sock`connected, modem`lockDepth, modem`now, modem`actions
      ensures Valid() && Mirrored() && View(sock) == old(View(sock)) && NewlyCreated(sock) == old(NewlyCreated(sock))
      ensures modem.actions == old(modem.actions) + t
      ensures unchanged(this`held, this`rows, this`ipConfigured, sock`id, sock`started, modem`sent, modem`queues)
      ensures modem.lockDepth == old(modem.lockDepth) - if begun then 1 else 0
      ensures sock.connected == (ok || old(sock.connected))
      ensures if !begun then !ok && t == []
              else if sock.proto.UDP? then ok && t == []
              else ConnectTells(t, ok, sock.tls)
      ensures TcpConnect.Connects(t) == 0 && TcpConnect.LastStatus(t) == 4 ==>
                modem.now >= old(modem.now) + if sock.tls then 2 * 65000 else 2 * 15000
      ensures unchanged(sock`pending, sock`closed, this`marked, this`txfullEventId)
    {
      ok, t := false, [];
      if begun {
        ok, t := Dial(sock);
      }
      if ok {
        sock.connected := true;
      }
    }

    /** Connects a socket, creating it first when it has no modem id yet. The AT handler is locked and
        unlocked once on every path, and a TCP record is marked connected only on the modem's word. */
    method SocketConnect(sock: CellularSocket, defaultCtx: int, w: World)
      returns (ok: bool, ghost t: seq<Action>, ghost created: Option<Answer>)
      requires Valid() && Mirrored() && sock in sockets
      modifies this`free, this`held, this`rows, this`ipConfigured, rxBuf, sslctx, storage
      modifies sock`id, sock`started, sock`connected
      modifies modem`lockDepth, modem`sent, modem`failed, modem`queues, modem`now, modem`actions
      ensures Valid() && Mirrored() && modem.lockDepth == old(modem.lockDepth)
      ensures rows == if Succeeded(created) then
                        old(rows).(ids := SetWhere(old(rows).ids, sockets, sock, Some(created.value.id)))
                      else old(rows)
      ensures sock.connected == (ok || old(sock.connected))
      ensures modem.sent == old(modem.sent) + Creation(sock.proto, if sock.tls then defaultCtx else -1, created)
      ensures created.Some? <==> old(sock.id) == -1 && (old(ipConfigured) || w.hasAddress)
      ensures created.Some? ==> ipConfigured
      ensures sock.id == if Succeeded(created) then created.value.id else old(sock.id)
      ensures Succeeded(created) ==> NewlyCreated(sock)
      ensures !Succeeded(created) ==> held == old(held) && sock.started == old(sock.started)
      ensures forall i :: i != Named(created) ==> Left(i) == old(Left(i)) && modem.Queue(i) == old(modem.Queue(i))
      ensures modem.actions == old(modem.actions) + t
      ensures if sock.id == -1 then !ok && t == []
              else if sock.proto.UDP? then ok && t == []
              else ConnectTells(t, ok, sock.tls)
      ensures old(LiveBuffered()) ==> LiveBuffered()
      ensures TcpConnect.Connects(t) == 0 && TcpConnect.LastStatus(t) == 4 ==>
                modem.now >= old(modem.now) + if sock.tls then 2 * 65000 else 2 * 15000
      ensures unchanged(sock`pending, sock`closed) && TxView() == old(TxView())
    {
      ok, created := BeginConnect(sock, defaultCtx, w);
      ok, t := FinishConnect(sock, ok);
    }

    // ----------------------------------------------------- sessions for the HTTP client

    /** A record as a successful opening leaves it: connected, and fresh to its reader. */
    ghost predicate Opened(s: CellularSocket, id: int, tls: bool)
      reads `held, modem`queues, s
    {
      && s.id == id != -1 && s.connected && s.started && s.tls == tls && s.proto.TCP?
      && View(s) == Rx([], [], 0, false, HasSlot(id))
    }

    /** The base class's first free place; the number of places when there is none. */
    method FindPlace() returns (k: nat)
      requires Valid() && Mirrored()
      ensures k == rows.Place() && k <= |sockets| && (k < |sockets| <==> None in rows.ids)
      ensures k < |sockets| ==> sockets[k] == null
    {
      k := 0;
      while k < |sockets| && sockets[k] != null
        invariant k <= |sockets| && forall j :: 0 <= j < k ==> rows.ids[j] != None
      {
        k := k + 1;
      }
      assert k < |sockets| ==> rows.ids[k] == None;
    }

    /** Creates and connects a TCP socket in the first free place of the table. A failed connect closes the
        socket again and drops its record. */
    method OpenTcpSession(tls: bool, defaultCtx: int, w: World)
      returns (ok: bool, id: int, ghost s: CellularSocket?, ghost created: Option<Answer>, ghost t: seq<Action>)
      requires Valid() && Mirrored()
      modifies this`free, this`held, this`rows, this`marked, this`ipConfigured, this`sockets, this`members
      modifies rxBuf, sslctx, storage, members`txfull
      modifies modem`lockDepth, modem`sent, modem`failed, modem`deviceError, modem`queues, modem`closeFailures
      modifies modem`now, modem`actions
      ensures Valid() && Mirrored()
      ensures modem.lockDepth == old(modem.lockDepth) && modem.actions == old(modem.actions) + t
      ensures created.Some? <==> w.resolves && None in old(rows.ids) && (old(ipConfigured) || w.hasAddress)
      ensures created.Some? ==> ipConfigured
      ensures if Succeeded(created) then ConnectTells(t, ok, tls) else !ok
      ensures modem.sent == old(modem.sent) + Creation(TCP, if tls then defaultCtx else -1, created)
                            + if Succeeded(created) && !ok then
                                old(rows).Added(created.value.id).Closing(created.value.id)
                              else []
      ensures !ok ==> id == -1 && sockets == old(sockets) && rows == old(rows)
      ensures ok ==>
                && s != null && fresh(s) && created.value.id == id && Opened(s, id, tls)
                && sockets == old(sockets)[old(rows).Place() := s] && rows == old(rows).Added(id)
      ensures forall i :: i != Named(created) ==> Left(i) == old(Left(i)) && modem.Queue(i) == old(modem.Queue(i))
      ensures TxView() == if Succeeded(created) && !ok then
                            old(rows).TxAfterAdded(old(sockets), old(TxView()), created.value.id)
                          else old(TxView())
      ensures old(LiveBuffered()) && (Succeeded(created) && !ok ==> !old(rows).AddedBereaves(created.value.id)) ==>
                LiveBuffered()
      ensures forall s :: s in members ==> s in old(members) || fresh(s)
    {
      id, s, created, t := -1, null, None, [];
      if !w.resolves {
        return false, id, s, created, t;
      }
      var k := FindPlace();
      if k == |sockets| {
        return false, id, s, created, t;
      }
      var sock;
      ok, sock, created, t := OpenNew(k, tls, defaultCtx, w);
      if ok {
        id, s := sock.id, sock;
      }
    }

    /** The part of it behind the name and the place in the table. */
    method OpenNew(k: nat, tls: bool, defaultCtx: int, w: World)
      returns (ok: bool, sock: CellularSocket, ghost created: Option<Answer>, ghost t: seq<Action>)
      requires Valid() && Mirrored() && None in rows.ids && k == rows.Place() < |sockets|
      modifies this`free, this`held, this`rows, this`marked, this`ipConfigured, this`sockets, this`members
      modifies rxBuf, sslctx, storage, members`txfull
      modifies modem`lockDepth, modem`sent, modem`failed, modem`deviceError, modem`queues, modem`closeFailures
      modifies modem`now, modem`actions
      ensures Valid() && Mirrored()
      ensures modem.lockDepth == old(modem.lockDepth) && modem.actions == old(modem.actions) + t
      ensures created.Some? <==> old(ipConfigured) || w.hasAddress
      ensures created.Some? ==> ipConfigured
      ensures if Succeeded(created) then ConnectTells(t, ok, tls) else !ok
      ensures modem.sent == old(modem.sent) + Creation(TCP, if tls then defaultCtx else -1, created)
                            + if Succeeded(created) && !ok then
                                old(rows).Added(created.value.id).Closing(created.value.id)
                              else []
      ensures ok ==> sockets == old(sockets)[k := sock] && rows == old(rows).Added(sock.id)
      ensures ok ==> created.value.id == sock.id && Opened(sock, sock.id, tls)
      ensures !ok ==> sockets == old(sockets) && rows == old(rows)
      ensures forall i :: i != Named(created) ==> Left(i) == old(Left(i)) && modem.Queue(i) == old(modem.Queue(i))
      ensures TxView() == if Succeeded(created) && !ok then
                            old(rows).TxAfterAdded(old(sockets), old(TxView()), created.value.id)
                          else old(TxView())
      ensures old(LiveBuffered()) && (Succeeded(created) && !ok ==> !old(rows).AddedBereaves(created.value.id)) ==>
                LiveBuffered()
      ensures fresh(sock) && members == old(members) + {sock}
    {
      ghost var base, t0 := sockets, rows;
      sock := AddRecord(k, tls);
      ok, created, t := ConnectOrDrop(k, sock, defaultCtx, w, base, t0);
    }

    /** The table holds one record more than base and t: sock, in the place that was the first free one. */
    ghost predicate Grown(sock: CellularSocket, base: seq<CellularSocket?>, t: Table)
      reads `sockets, `rows, `marked, sock`id
    {
      && t.Even() && |t.ids| == |base| && None in t.ids && base[t.Place()] == null
      && sockets == base[t.Place() := sock] && sock in sockets && sock !in base && sock !in marked
      && rows == t.Added(sock.id)
    }

    /** Connects a record just added to the table, or takes it out again. */
    method ConnectOrDrop(k: nat, sock: CellularSocket, defaultCtx: int, w: World, ghost base: seq<CellularSocket?>,
                         ghost t0: Table)
      returns (ok: bool, ghost created: Option<Answer>, ghost t: seq<Action>)
      requires Valid() && Mirrored() && Grown(sock, base, t0) && k == t0.Place() && sock in members
      requires sock.id == -1 && sock.pending == 0 && sock.proto.TCP? && !sock.closed
      modifies this`free, this`held, this`rows, this`marked, this`ipConfigured, this`sockets
      modifies rxBuf, sslctx, storage, members`txfull, sock`id, sock`started, sock`connected
      modifies modem`lockDepth, modem`sent, modem`failed, modem`deviceError, modem`queues, modem`closeFailures
      modifies modem`now, modem`actions
      ensures Valid() && Mirrored()
      ensures modem.lockDepth == old(modem.lockDepth) && modem.actions == old(modem.actions) + t
      ensures created.Some? <==> old(ipConfigured) || w.hasAddress
      ensures created.Some? ==> ipConfigured
      ensures unchanged(this`members)
      ensures if Succeeded(created) then ConnectTells(t, ok, sock.tls) else !ok
      ensures modem.sent == old(modem.sent) + Creation(TCP, if sock.tls then defaultCtx else -1, created)
                            + if Succeeded(created) && !ok then t0.Added(created.value.id).Closing(created.value.id)
                              else []
      ensures ok ==> Grown(sock, base, t0) && created.value.id == sock.id && Opened(sock, sock.id, sock.tls)
      ensures !ok ==> sockets == base && rows == t0
      ensures forall i :: i != Named(created) ==> Left(i) == old(Left(i)) && modem.Queue(i) == old(modem.Queue(i))
      ensures TxView() == if Succeeded(created) && !ok then t0.TxAfterAdded(base, old(TxView()), created.value.id)
                          else old(TxView())
      ensures old(LiveBuffered()) && (Succeeded(created) && !ok ==> !t0.AddedBereaves(created.value.id)) ==>
                LiveBuffered()
    {
      ok, t, created := ConnectNew(sock, defaultCtx, w, base, t0);
      if ok {
        return;
      }
      DropSession(k, sock, created, base, t0);
    }

    /** Connects a record just added to the table. */
    method ConnectNew(sock: CellularSocket, defaultCtx: int, w: World, ghost base: seq<CellularSocket?>,
                      ghost t0: Table)
      returns (ok: bool, ghost t: seq<Action>, ghost created: Option<Answer>)
      requires Valid() && Mirrored() && Grown(sock, base, t0) && sock.id == -1 && sock.pending == 0
      requires sock.proto.TCP? && !sock.closed
      modifies this`free, this`held, this`rows, this`ipConfigured, rxBuf, sslctx, storage
      modifies sock`id, sock`started, sock`connected
      modifies modem`lockDepth, modem`sent, modem`failed, modem`queues, modem`now, modem`actions
      ensures Valid() && Mirrored() && modem.lockDepth == old(modem.lockDepth) && Grown(sock, base, t0)
      ensures TxView() == old(TxView())
      ensures modem.sent == old(modem.sent) + Creation(TCP, if sock.tls then defaultCtx else -1, created)
      ensures created.Some? <==> old(ipConfigured) || w.hasAddress
      ensures created.Some? ==> ipConfigured
      ensures sock.id == if Succeeded(created) then created.value.id else -1
      ensures ok ==> Opened(sock, sock.id, sock.tls)
      ensures forall i :: i != Named(created) ==> Left(i) == old(Left(i)) && modem.Queue(i) == old(modem.Queue(i))
      ensures modem.actions == old(modem.actions) + t
      ensures if Succeeded(created) then ConnectTells(t, ok, sock.tls) else !ok && t == []
      ensures old(LiveBuffered()) ==> LiveBuffered()
    {
      ok, t, created := SocketConnect(sock, defaultCtx, w);
      t0.AddedNamed<CellularSocket?>(base, sock, sock.id);
    }

    /** A record for a new TCP socket in a free place. */
    method AddRecord(k: nat, tls: bool) returns (sock: CellularSocket)
      requires Valid() && Mirrored() && None in rows.ids && k == rows.Place() < |sockets|
      modifies this`sockets, this`members, this`rows
      ensures Valid() && Mirrored() && fresh(sock) && members == old(members) + {sock}
      ensures Grown(sock, old(sockets), old(rows)) && TxView() == old(TxView())
      ensures unchanged(this`held, this`ipConfigured, modem`sent, modem`queues, modem`lockDepth, modem`actions)
      ensures sock.id == -1 && sock.proto.TCP? && !sock.closed && sock.pending == 0 && sock.tls == tls
      ensures !sock.connected
      ensures old(LiveBuffered()) ==> LiveBuffered()
    {
      if rows.LiveBuffered(held) {
        rows.AddedLive(-1, held);
      }
      sock := NewRecord(tls);
      PlaceRecord(k, sock);
    }

    method NewRecord(tls: bool) returns (sock: CellularSocket)
      requires Valid() && Mirrored()
      ensures Valid() && Mirrored() && fresh(sock) && sock !in members && sock !in storage
      ensures sock.id == -1 && sock.proto.TCP? && !sock.closed && sock.pending == 0 && sock.tls == tls
      ensures !sock.connected
      ensures !sock.txfull
    {
      sock := new CellularSocket(TCP, false);
      sock.tls := tls;
    }

    method PlaceRecord(k: nat, sock: CellularSocket)
      requires Valid() && Mirrored() && None in rows.ids && k == rows.Place() < |sockets|
      requires sock !in members && sock !in storage
      requires sock.id == -1 && sock.proto.TCP? && !sock.closed && !sock.txfull
      modifies this`sockets, this`members, this`rows
      ensures Valid() && Mirrored() && members == old(members) + {sock} && Grown(sock, old(sockets), old(rows))
    {
      Replaced<CellularSocket?>(sockets, k, sock);
      sockets, members := sockets[k := sock], members + {sock};
      rows := rows.Added(-1);
    }

    /** The base class's close of the record added last. */
    method DropSession(k: nat, sock: CellularSocket, ghost created: Option<Answer>, ghost base: seq<CellularSocket?>,
                       ghost t: Table)
      requires Valid() && Mirrored() && Grown(sock, base, t) && k == t.Place() && sock in members
      requires sock.id == if Succeeded(created) then created.value.id else -1
      modifies this`free, this`held, this`rows, this`marked, this`sockets, rxBuf, sslctx, members`txfull
      modifies modem`sent, modem`failed, modem`deviceError, modem`queues, modem`closeFailures
      ensures Valid() && Mirrored() && sockets == base && rows == t
      ensures unchanged(this`ipConfigured, modem`lockDepth, modem`actions)
      ensures modem.sent == old(modem.sent)
                            + if Succeeded(created) then t.Added(created.value.id).Closing(created.value.id) else []
      ensures forall i :: i != Named(created) ==> Left(i) == old(Left(i)) && modem.Queue(i) == old(modem.Queue(i))
      ensures TxView() == if Succeeded(created) then t.TxAfterAdded(base, old(TxView()), created.value.id)
                          else old(TxView())
      ensures old(LiveBuffered()) && (Succeeded(created) ==> !t.AddedBereaves(created.value.id)) ==> LiveBuffered()
    {
      if rows.LiveBuffered(held) {
        t.AddedBereavedIff(sock.id, held);
      }
      if sock.id != -1 {
        CloseNew(sock, base, t);
      }
      RemoveRecord(k, sock, base, t);
    }

    method CloseNew(sock: CellularSocket, ghost base: seq<CellularSocket?>, ghost t: Table)
      requires Valid() && Mirrored() && Grown(sock, base, t)
      modifies this`free, this`held, this`marked, rxBuf, sslctx, members`txfull
      modifies modem`sent, modem`failed, modem`deviceError, modem`queues, modem`closeFailures
      ensures Valid() && Mirrored() && Grown(sock, base, t)
      ensures modem.sent == old(modem.sent) + t.Added(sock.id).Closing(sock.id)
      ensures forall i :: i != sock.id ==> Left(i) == old(Left(i)) && modem.Queue(i) == old(modem.Queue(i))
      ensures TxView() == t.TxAfterAdded(base, old(TxView()), sock.id)
      ensures held == t.Added(sock.id).HeldAfter(old(held), sock.id)
    {
      t.TxAdded<CellularSocket?>(base, sock, TxView(), sock.id);
      var closed := SocketCloseImpl(sock.id);
    }

    method RemoveRecord(k: nat, sock: CellularSocket, ghost base: seq<CellularSocket?>, ghost t: Table)
      requires Valid() && Mirrored() && Grown(sock, base, t) && k == t.Place()
      modifies this`rows, this`sockets
      ensures Valid() && Mirrored() && sockets == base && rows == t
    {
      sockets := sockets[k := null];
      rows := t;
      assert sockets == base;
    }

    /** Closes by id; the record, if there is one, stays in the table, and is the one found next time. */
    method CloseTcpSession(id: int) returns (ok: bool)
      requires Valid() && Mirrored()
      modifies this`free, this`held, this`marked, rxBuf, sslctx, members`txfull
      modifies modem`lockDepth, modem`sent, modem`failed, modem`deviceError, modem`queues, modem`closeFailures
      ensures Valid() && Mirrored() && modem.lockDepth == old(modem.lockDepth)
      ensures modem.sent == old(modem.sent) + if HasSlot(id) then rows.Closing(id) else []
      ensures TxView() == if HasSlot(id) then rows.TxAfter(sockets, old(TxView()), id) else old(TxView())
      ensures ok <==> HasSlot(id) && (rows.Closable(id) ==> !modem.failed)
      ensures held == if HasSlot(id) && Some(id) in rows.ids then rows.HeldAfter(old(held), id) else old(held)
      ensures forall i :: i != id ==> Left(i) == old(Left(i)) && modem.Queue(i) == old(modem.Queue(i))
      ensures modem.Queue(id) == old(modem.Queue(id)) ||
              (HasSlot(id) && rows.Closable(id) && modem.Queue(id) == [])
      ensures ok && rows.Closable(id) ==> modem.Queue(id) == []
      ensures old(LiveBuffered()) ==> (LiveBuffered() <==> !(HasSlot(id) && rows.Bereaves(id)))
    {
      if id < 0 || id >= MAX_SOCKETS {
        return false;
      }
      if rows.LiveBuffered(held) {
        rows.BereavedIff(held, id);
      }
      ok := CloseLocked(id);
    }

    /** Its part under the lock of the AT handler. */
    method CloseLocked(id: int) returns (ok: bool)
      requires Valid() && Mirrored() && HasSlot(id)
      modifies this`free, this`held, this`marked, rxBuf, sslctx, members`txfull
      modifies modem`lockDepth, modem`sent, modem`failed, modem`deviceError, modem`queues, modem`closeFailures
      ensures Valid() && Mirrored() && modem.lockDepth == old(modem.lockDepth)
      ensures modem.sent == old(modem.sent) + rows.Closing(id)
      ensures TxView() == rows.TxAfter(sockets, old(TxView()), id)
      ensures ok <==> (rows.Closable(id) ==> !modem.failed)
      ensures held == if Some(id) in rows.ids then rows.HeldAfter(old(held), id) else old(held)
      ensures forall i :: i != id ==> Left(i) == old(Left(i)) && modem.Queue(i) == old(modem.Queue(i))
      ensures modem.Queue(id) == old(modem.Queue(id)) || (rows.Closable(id) && modem.Queue(id) == [])
      ensures ok && rows.Closable(id) ==> modem.Queue(id) == []
    {
      LockAt();
      ok := CloseById(id);
      UnlockAt();
    }

    method CloseById(id: int) returns (ok: bool)
      requires Valid() && Mirrored() && HasSlot(id)
      modifies this`free, this`held, this`marked, rxBuf, sslctx, members`txfull
      modifies modem`sent, modem`failed, modem`deviceError, modem`queues, modem`closeFailures
      ensures Valid() && Mirrored() && modem.sent == old(modem.sent) + rows.Closing(id)
      ensures TxView() == rows.TxAfter(sockets, old(TxView()), id)
      ensures ok <==> (rows.Closable(id) ==> !modem.failed)
      ensures held == if Some(id) in rows.ids then rows.HeldAfter(old(held), id) else old(held)
      ensures forall i :: i != id ==> Left(i) == old(Left(i)) && modem.Queue(i) == old(modem.Queue(i))
      ensures modem.Queue(id) == old(modem.Queue(id)) || (rows.Closable(id) && modem.Queue(id) == [])
      ensures ok && rows.Closable(id) ==> modem.Queue(id) == []
    {
      var sock := Lookup(id);
      if sock == null {
        ok := CloseAtModem(id);
      } else {
        ok := SocketCloseImpl(id);
      }
    }

    /** The close of an id nobody tracks. */
    method CloseAtModem(id: int) returns (ok: bool)
      requires Valid() && Mirrored()
      modifies modem`sent, modem`failed, modem`deviceError, modem`queues, modem`closeFailures
      ensures Valid() && Mirrored() && modem.sent == old(modem.sent) + [SocketClose(id)] && ok == !modem.failed
      ensures modem.Queue(id) == [] || (!ok && modem.Queue(id) == old(modem.Queue(id)))
      ensures forall i :: i != id ==> modem.Queue(i) == old(modem.Queue(i))
    {
      ok := modem.CloseSocket(id);
    }
  }
}
