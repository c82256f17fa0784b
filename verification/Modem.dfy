/** The driver's surroundings: the modem behind the AT handler, socket records and receive buffers.
    Every answer the modem may give is left open; what it documents is in the contracts. */
module Modem {
  import opened Common
  import opened RxStream

  const CRLF: seq<byte> := [13, 10]

  /** What the modem says to a creation: the id it names, -1 for none, and whether the final result is OK.
      Either may come without the other. */
  datatype Answer = Answer(id: int, ok: bool)
  {
    predicate Accepted() {
      ok && id != -1
    }
  }

  /** Commands whose order or content matters. A creation, a send and a start stand with the modem's answer. */
  datatype Command =
    | SocketCreate(proto: Proto, sslctx: int, answer: Answer)
    | SocketClose(id: int)
    | SendUdp(id: int, text: seq<byte>, accepted: bool)
    | SendTcp(id: int, text: seq<byte>, accepted: bool)
    | HttpStart(socket: int, accepted: bool)
    | HttpStop
    | HttpMethod
    | HttpHeader
    | HttpSend(socket: int)
    | HttpRead

  /** What bringing up a TCP connection asks of its surroundings: AT#TCPCONNECT? with its answer and the time
      of it, AT#TCPCONNECT=, a wait of so many milliseconds on a connect already under way and the time it
      begins, or a pause. */
  datatype Action = Query(status: int, at: nat) | Connect | Poll(ms: nat, at: nat) | Pause(ms: nat)

  /** What the driver's surroundings have to grant: that a host's name resolves, that the modem has an IP
      address, that a timer can be scheduled. */
  datatype World = World(resolves: bool, hasAddress: bool, schedules: bool)

  /** The device error of the last failed command. */
  datatype DeviceError = DeviceError(cme: bool, code: int)

  /** A close that failed, and whether with a device error. */
  datatype CloseFailure = CloseFailure(id: int, cme: bool)

  /** A transfer that breaks spoils an exchange that was in order so far. */
  function Spoilt(f: Fault): Fault {
    if f.NoFault? then BodyLost else f
  }

  /** The modem and its clock. The ghost fields record what it was asked and what it chose to answer;
      only the methods below write them. */
  class AtModem {
    var queues: map<int, seq<seq<byte>>>
    var response: seq<byte>
    var failed: bool
    var deviceError: DeviceError
    var lockDepth: int
    var now: nat

    /** Response bytes not consumed when the last response ended. */
    ghost var unread: nat

    /** Every command, in order. */
    ghost var sent: seq<Command>

    /** The id of every #IPREAD, how the last of them went wrong, and how those before it did. */
    ghost var asked: seq<int>
    ghost var fault: Fault
    ghost var past: seq<Fault>

    ghost var actions: seq<Action>
    ghost var closeFailures: seq<CloseFailure>

    /** The status of the last #HTTPREAD, if a response came. */
    ghost var httpAnswer: Option<int>

    constructor ()
      ensures queues == map[] && sent == [] && lockDepth == 0
    {
      queues := map[];
      response := [];
      failed := false;
      deviceError := DeviceError(false, 0);
      lockDepth, now := 0, 0;
      unread := 0;
      sent, asked, fault, past := [], [], NoFault, [];
      actions, closeFailures, httpAnswer := [], [], None;
    }

    /** Segments held for a socket, oldest first. */
    ghost function Queue(id: int): seq<seq<byte>>
      reads `queues
    {
      if id in queues then queues[id] else []
    }

    method Arrive(id: int, segment: seq<byte>)
      modifies `queues
      ensures Queue(id) == old(Queue(id)) + [segment]
      ensures forall j :: j != id ==> Queue(j) == old(Queue(j))
    {
      queues := queues[id := (if id in queues then queues[id] else []) + [segment]];
    }

    /** #IPREAD up to its header: refused, answered with nothing, or with a length and the segment. */
    method IpRead(id: int) returns (dataLen: int)
      modifies `queues, `response, `failed, `asked, `fault, `past
      ensures asked == old(asked) + [id] && past == old(past) + [old(fault)]
      ensures forall j :: j != id ==> Queue(j) == old(Queue(j))
      ensures fault.Refused? || fault.AnswerLost? || fault.NoFault?
      ensures fault.Refused? || old(Queue(id)) == [] ==> Queue(id) == old(Queue(id)) && (dataLen <= 0 || failed)
      ensures !fault.Refused? && old(Queue(id)) != [] ==> Queue(id) == old(Queue(id))[1..]
      ensures fault.AnswerLost? ==> dataLen <= 0 || failed
      ensures fault.NoFault? && old(Queue(id)) != [] ==>
                !failed && dataLen == |old(Queue(id))[0]| && response == old(Queue(id))[0] + CRLF
    {
      asked, past := asked + [id], past + [fault];
      dataLen, failed, response := 0, false, [];
      if * {
        failed := *;
        fault := Refused;
      } else if id !in queues || queues[id] == [] {
        fault := NoFault;
      } else {
        var segment := queues[id][0];
        queues := queues[id := queues[id][1..]];
        if * {
          failed := *;
          fault := AnswerLost;
        } else {
          dataLen, response := |segment|, segment + CRLF;
          fault := NoFault;
        }
      }
    }

    /** Reads n bytes of the response, all or none. Asking for more than there is fails as well, but is
        no fault of the modem's. */
    method ReadBytes(n: nat) returns (got: int, bytes: seq<byte>)
      modifies `response, `failed, `fault
      ensures failed ==> got == -1 && |bytes| <= n
      ensures !failed ==> !old(failed) && got == n <= |old(response)|
      ensures !failed ==> bytes == old(response)[..n] && response == old(response)[n..]
      ensures fault == if failed && !old(failed) && n <= |old(response)| then Spoilt(old(fault)) else old(fault)
    {
      if failed || n > |response| {
        failed, got, bytes := true, -1, [];
      } else if * {
        bytes := response[..n];
        failed, got, response, fault := true, -1, [], Spoilt(fault);
      } else {
        got, bytes, response := n, response[..n], response[n..];
      }
    }

    method SkipBytes(n: nat)
      modifies `response, `failed, `fault
      ensures !failed ==> !old(failed) && n <= |old(response)| && response == old(response)[n..]
      ensures fault == if failed && !old(failed) && n <= |old(response)| then Spoilt(old(fault)) else old(fault)
    {
      if failed || n > |response| {
        failed := true;
      } else if * {
        failed, fault := true, Spoilt(fault);
      } else {
        response := response[n..];
      }
    }

    /** Reads the first n bytes of a body of dataLen, then skips its rest and the closing CR LF; when
        all goes well nothing but the body and those two bytes is consumed. */
    method ReadFramed(n: nat, dataLen: nat) returns (got: int, bytes: seq<byte>)
      requires n <= dataLen
      modifies `response, `failed, `fault
      ensures failed ==> |bytes| <= n
      ensures !failed ==> !old(failed) && got == n <= |old(response)| && bytes == old(response)[..n]
      ensures !failed && n > 0 ==> dataLen + 2 <= |old(response)| && response == old(response)[dataLen + 2..]
      ensures !old(failed) && dataLen + 2 <= |old(response)| ==>
                fault == if failed then Spoilt(old(fault)) else old(fault)
    {
      got, bytes := ReadBytes(n);
      if got > 0 && !failed {
        var overflow := dataLen - got;
        if overflow > 0 {
          SkipBytes(overflow);
        }
        SkipBytes(2);
      }
    }

    /** Ends a response; the final result code may still be an error. */
    method RespStop()
      modifies `response, `failed, `unread, `fault
      ensures unread == |old(response)|
      ensures old(failed) ==> failed
      ensures fault == if failed && !old(failed) then Spoilt(old(fault)) else old(fault)
    {
      unread := |response|;
      response := [];
      if * {
        fault := if failed then fault else Spoilt(fault);
        failed := true;
      }
    }

    /** Issues a command that answers OK or an error only. */
    method Issue(c: Command) returns (ok: bool)
      modifies `sent, `failed, `deviceError
      ensures sent == old(sent) + [c] && ok == !failed
    {
      sent := sent + [c];
      ok := Conclude();
    }

    /** The final result of a command. */
    method Conclude() returns (ok: bool)
      modifies `failed, `deviceError
      ensures ok == !failed
    {
      failed := *;
      var cme: bool := *;
      var code: int := *;
      deviceError := DeviceError(cme, code);
      ok := !failed;
    }

    /** AT#IPSENDUDP=. */
    method IpSendUdp(id: int, text: seq<byte>) returns (ok: bool)
      modifies `sent, `failed, `deviceError
      ensures sent == old(sent) + [SendUdp(id, text, ok)] && ok == !failed
    {
      ok := Conclude();
      sent := sent + [SendUdp(id, text, ok)];
    }

    /** AT#IPSENDTCP=. */
    method IpSendTcp(id: int, text: seq<byte>) returns (ok: bool)
      modifies `sent, `failed, `deviceError
      ensures sent == old(sent) + [SendTcp(id, text, ok)] && ok == !failed
    {
      ok := Conclude();
      sent := sent + [SendTcp(id, text, ok)];
    }

    /** #HTTPSTART. */
    method StartHttp(socket: int) returns (ok: bool)
      modifies `sent, `failed
      ensures sent == old(sent) + [HttpStart(socket, ok)] && ok == !failed
    {
      failed := *;
      ok := !failed;
      sent := sent + [HttpStart(socket, ok)];
    }

    /** #HTTPREAD: whether a response came, and its status; the command itself may fail behind it. */
    method ReadHttp() returns (ok: bool, got: bool, status: int)
      modifies `sent, `failed, `deviceError, `httpAnswer
      ensures sent == old(sent) + [HttpRead] && ok == !failed
      ensures httpAnswer == if got then Some(status) else None
    {
      ok := Issue(HttpRead);
      got, status := *, *;
      httpAnswer := if got then Some(status) else None;
    }

    /** #SOCKETCREATE. A new socket has nothing queued; one named in an answer that then fails may be new
        or not. */
    method CreateSocket(proto: Proto, ctx: int) returns (id: int, ok: bool)
      modifies `sent, `failed, `queues
      ensures sent == old(sent) + [SocketCreate(proto, ctx, Answer(id, ok))] && ok == !failed
      ensures Queue(id) == [] || (!Answer(id, ok).Accepted() && Queue(id) == old(Queue(id)))
      ensures id == -1 ==> queues == old(queues)
      ensures forall j :: j != id ==> Queue(j) == old(Queue(j))
    {
      failed, id := *, *;
      ok := !failed;
      sent := sent + [SocketCreate(proto, ctx, Answer(id, ok))];
      var created: bool := *;
      if id != -1 && (ok || created) {
        queues := queues[id := []];
      }
    }

    /** #SOCKETCLOSE. A closed socket holds no segments; a close that fails may or may not have reached it. */
    method CloseSocket(id: int) returns (ok: bool)
      modifies `sent, `failed, `deviceError, `queues, `closeFailures
      ensures sent == old(sent) + [SocketClose(id)] && ok == !failed
      ensures Queue(id) == [] || (!ok && Queue(id) == old(Queue(id)))
      ensures forall j :: j != id ==> Queue(j) == old(Queue(j))
      ensures closeFailures == old(closeFailures) + if ok then [] else [CloseFailure(id, deviceError.cme)]
    {
      ok := Issue(SocketClose(id));
      var reached: bool := *;
      if ok || reached {
        queues := queues[id := []];
      }
      closeFailures := closeFailures + if ok then [] else [CloseFailure(id, deviceError.cme)];
    }

    /** AT#TCPCONNECT?; -1 stands for a socket it does not list. */
    method TcpStatus() returns (status: int)
      modifies `now, `actions
      ensures now >= old(now) && actions == old(actions) + [Query(status, now)]
    {
      status := *;
      Elapse();
      actions := actions + [Query(status, now)];
    }

    method TcpConnect()
      modifies `now, `actions
      ensures now >= old(now) && actions == old(actions) + [Connect]
    {
      Elapse();
      actions := actions + [Connect];
    }

    /** Some time goes by. */
    method Elapse()
      modifies `now
      ensures now >= old(now)
    {
      var extra: int := *;
      now := now + if extra > 0 then extra else 0;
    }

    /** Reads the clock for a deadline. */
    method Deadline(ms: nat) returns (deadline: nat)
      modifies `actions
      ensures actions == old(actions) + [Poll(ms, now)] && deadline == now + ms
    {
      actions := actions + [Poll(ms, now)];
      deadline := now + ms;
    }

    /** A pause of at least ms on a clock that never goes back. */
    method Sleep(ms: nat)
      modifies `now, `actions
      ensures now >= old(now) + ms && actions == old(actions) + [Pause(ms)]
    {
      now := now + ms;
      Elapse();
      actions := actions + [Pause(ms)];
    }

    /** Any integer, as memory beyond an array may hold. */
    method AnyInt() returns (i: int)
    {
      i := *;
    }

    method Lock()
      modifies `lockDepth
      ensures lockDepth == old(lockDepth) + 1
    {
      lockDepth := lockDepth + 1;
    }

    method Unlock()
      modifies `lockDepth
      ensures lockDepth == old(lockDepth) - 1
    {
      lockDepth := lockDepth - 1;
    }
  }

  /** The base class's record of a socket. */
  class CellularSocket {
    var id: int
    const proto: Proto
    var closed: bool
    var connected: bool
    var started: bool
    var tls: bool
    var pending: nat
    var txfull: bool
    const hasCallback: bool

    /** The calls made so far, each with the wake-up mark the callback found. */
    ghost var calls: seq<bool>

    constructor (proto: Proto, hasCallback: bool)
      ensures id == -1 && this.proto == proto && !closed && !connected && !started && !tls
      ensures pending == 0 && !txfull && this.hasCallback == hasCallback && calls == []
    {
      id := -1;
      this.proto := proto;
      closed, connected, started, tls := false, false, false, false;
      pending, txfull, this.hasCallback := 0, false, hasCallback;
      calls := [];
    }

    /** Calls the owner back. */
    method Notify()
      requires hasCallback
      modifies `calls
      ensures calls == old(calls) + [txfull]
    {
      calls := calls + [txfull];
    }
  }

  /** Receive scratch of one socket: data[head..tail], which is bytes, is still to be handed out. */
  class RxBuffer {
    const data: array<byte>
    var head: nat
    var tail: nat
    ghost var bytes: seq<byte>

    ghost predicate Valid()
      reads this, data
    {
      head <= tail <= data.Length && bytes == data[head..tail]
    }

    constructor (size: nat)
      ensures Valid() && bytes == [] && data.Length == size && fresh(data)
    {
      data := new byte[size];
      head, tail := 0, 0;
      bytes := [];
    }

    method Reset()
      modifies this
      ensures Valid() && bytes == []
    {
      head, tail := 0, 0;
      bytes := [];
    }

    predicate Empty()
      reads this
    {
      head >= tail
    }

    /** Hands out up to size bytes and starts over once nothing is left. */
    method CopyOut(buffer: array<byte>, size: nat) returns (n: nat)
      requires Valid() && size <= buffer.Length && buffer != data
      modifies this, buffer
      ensures Valid() && n == Min(|old(bytes)|, size) && bytes == old(bytes)[n..]
      ensures buffer[..] == old(bytes)[..n] + old(buffer[..])[n..]
    {
      n := Min(tail - head, size);
      CopyFront(buffer, n);
      head := head + n;
      bytes := bytes[n..];
      if Empty() {
        Reset();
      }
    }

    method CopyFront(buffer: array<byte>, n: nat)
      requires Valid() && n <= |bytes| && n <= buffer.Length && buffer != data
      modifies buffer
      ensures buffer[..] == bytes[..n] + old(buffer[..])[n..]
    {
      forall i | 0 <= i < n {
        buffer[i] := data[head + i];
      }
      assert forall i :: 0 <= i < n ==> buffer[..][i] == bytes[i];
      assert forall i :: n <= i < buffer.Length ==> buffer[..][i] == old(buffer[..])[i];
    }

    /** The bytes of a read, stored from the start. */
    method Load(input: seq<byte>)
      requires |input| <= data.Length
      modifies this, data
      ensures Valid() && bytes == input
    {
      forall i | 0 <= i < |input| {
        data[i] := input[i];
      }
      head, tail := 0, |input|;
      bytes := input;
      assert data[..|input|] == input;
    }
  }
}
