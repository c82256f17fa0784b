/** The modem's HTTP client on a socket of the stack, and the bracketing of its commands. */
module HttpSession {
  import opened Common
  import opened Modem
  import opened RxStream
  import opened SocketTable
  import opened Stack
  import TcpConnect

  /** What a command log says about the modem's HTTP service: stopped, started for a socket, or out of
      order at some point. */
  datatype Service = Broken | Stopped | Started(socket: int)

  ghost function Advance(s: Service, c: Command): Service {
    match s
    case Broken => Broken
    case Stopped =>
      (match c
       case HttpStart(socket, accepted) => if accepted then Started(socket) else Stopped
       case HttpStop => Broken
       case HttpMethod => Broken
       case HttpHeader => Broken
       case HttpSend(_) => Broken
       case HttpRead => Broken
       case _ => Stopped)
    case Started(socket) =>
      (match c
       case HttpStart(_, _) => Broken
       case HttpStop => Stopped
       case SocketClose(id) => if id == socket then Broken else s
       case HttpSend(id) => if id == socket then s else Broken
       case _ => s)
  }

  /** The service after the first n commands. */
  ghost function After(log: seq<Command>, n: nat): Service
    requires n <= |log|
  {
    if n == 0 then Stopped else Advance(After(log, n - 1), log[n - 1])
  }

  ghost function Follow(log: seq<Command>): Service {
    After(log, |log|)
  }

  lemma {:induction false} AfterPrefix(log: seq<Command>, more: seq<Command>, n: nat)
    requires n <= |log|
    ensures After(log + more, n) == After(log, n)
  {
    if n > 0 {
      AfterPrefix(log, more, n - 1);
    }
  }

  lemma FollowOne(log: seq<Command>, c: Command)
    ensures Follow(log + [c]) == Advance(Follow(log), c)
  {
    AfterPrefix(log, [c], |log|);
  }

  /** Socket commands are always in order while the service is stopped. */
  lemma {:induction false} FollowSocketCommands(log: seq<Command>, commands: seq<Command>)
    requires Follow(log) == Stopped && forall c :: c in commands ==> c.SocketCreate? || c.SocketClose?
    ensures Follow(log + commands) == Stopped
    decreases |commands|
  {
    if commands == [] {
      assert log + commands == log;
    } else {
      var front := commands[..|commands| - 1];
      FollowSocketCommands(log, front);
      assert log + commands == (log + front) + [commands[|commands| - 1]];
      FollowOne(log + front, commands[|commands| - 1]);
    }
  }

  /** A sweep of the ids below n breaks the order exactly when it closes the socket the service runs for. */
  lemma {:induction false} FollowScript(log: seq<Command>, t: Table, n: nat)
    requires t.Even() && Follow(log) != Broken
    ensures var s := Follow(log);
            Follow(log + t.CloseScript(n)) ==
            if s.Started? && 0 <= s.socket < n && t.Closable(s.socket) then Broken else s
  {
    if n == 0 {
      assert log + [] == log;
    } else {
      FollowScript(log, t, n - 1);
      assert log + t.CloseScript(n) == (log + t.CloseScript(n - 1)) + t.Closing(n - 1);
      if t.Closable(n - 1) {
        FollowOne(log + t.CloseScript(n - 1), SocketClose(n - 1));
      } else {
        assert log + t.CloseScript(n - 1) + [] == log + t.CloseScript(n - 1);
      }
    }
  }

  lemma {:induction false} NeverBrokenBefore(log: seq<Command>, n: nat, m: nat)
    requires n <= m <= |log| && After(log, m) != Broken
    ensures After(log, n) != Broken
    decreases m
  {
    if n < m {
      NeverBrokenBefore(log, n, m - 1);
    }
  }

  /** log[i] starts the service for a socket and nothing ends it, restarts it or closes the socket up to n. */
  ghost predicate RunsFrom(log: seq<Command>, i: int, n: int, socket: int) {
    && 0 <= i < n <= |log| && log[i] == HttpStart(socket, true)
    && forall k :: i < k < n ==> !log[k].HttpStop? && !log[k].HttpStart? && log[k] != SocketClose(socket)
  }

  /** The service runs for a socket exactly since an accepted start that nothing has ended. */
  lemma {:induction false} StartedIff(log: seq<Command>, n: nat, socket: int)
    requires n <= |log| && After(log, n) != Broken
    ensures After(log, n) == Started(socket) <==> exists i :: RunsFrom(log, i, n, socket)
    decreases n
  {
    if n > 0 {
      StartedIff(log, n - 1, socket);
      if After(log, n) == Started(socket) {
        if log[n - 1] == HttpStart(socket, true) {
          assert RunsFrom(log, n - 1, n, socket);
        } else {
          var i :| RunsFrom(log, i, n - 1, socket);
          assert RunsFrom(log, i, n, socket);
        }
      }
      if i :| RunsFrom(log, i, n, socket) {
        if i < n - 1 {
          assert RunsFrom(log, i, n - 1, socket);
        }
      }
    }
  }

  /** In an orderly log every method, header, send and read falls within a run of the service, and a
      send names the socket the service was started for. */
  lemma RequestsWithinRun(log: seq<Command>, n: nat)
    requires Follow(log) != Broken && n < |log|
    requires log[n].HttpMethod? || log[n].HttpHeader? || log[n].HttpSend? || log[n].HttpRead?
    ensures exists i, socket :: RunsFrom(log, i, n, socket) && (log[n].HttpSend? ==> log[n].socket == socket)
  {
    NeverBrokenBefore(log, n, |log|);
    NeverBrokenBefore(log, n + 1, |log|);
    var socket := After(log, n).socket;
    StartedIff(log, n, socket);
    var i :| RunsFrom(log, i, n, socket);
  }

  /** In an orderly log that ends with the service stopped, every accepted start is followed by a stop,
      with no close of its socket and no other start in between. */
  lemma StartsAreStopped(log: seq<Command>, i: nat, socket: int)
    requires Follow(log) == Stopped && i < |log| && log[i] == HttpStart(socket, true)
    ensures exists n :: RunsFrom(log, i, n, socket) && n < |log| && log[n].HttpStop?
  {
    var n := FirstEnd(log, i, i + 1, socket);
  }

  lemma FirstEnd(log: seq<Command>, i: nat, m: nat, socket: int) returns (n: nat)
    requires Follow(log) == Stopped && RunsFrom(log, i, m, socket)
    ensures RunsFrom(log, i, n, socket) && n < |log| && log[n].HttpStop?
    decreases |log| - m
  {
    NeverBrokenBefore(log, m, |log|);
    StartedIff(log, m, socket);
    assert m < |log|;
    NeverBrokenBefore(log, m + 1, |log|);
    n := m;
    if !log[m].HttpStop? {
      n := FirstEnd(log, i, m + 1, socket);
    }
  }

  // ------------------------------------------------------------------ the client

  datatype Error = Ok | BadParameter | NoSocket | NoConnection | Timeout | Device

  const MAX_HTTP_SOCKET_ID: int := 6

  /** What a request reports besides its return value. */
  class Response {
    var statusCode: int
    var success: bool
    var error: Error

    constructor ()
      ensures statusCode == 0 && !success && error == Ok
    {
      statusCode, success, error := 0, false, Ok;
    }
  }

  class HttpClient {
    const modem: AtModem
    var socketId: int
    var started: bool

    /** The client knows what the modem's service is doing. */
    ghost predicate InStep()
      reads this, modem
    {
      && (started ==> socketId >= 0)
      && Follow(modem.sent) == if started then Started(socketId) else Stopped
    }

    constructor (modem: AtModem)
      ensures this.modem == modem && socketId == -1 && !started
    {
      this.modem := modem;
      socketId, started := -1, false;
    }

    method Start() returns (e: Error)
      requires InStep()
      modifies this`started, modem`sent, modem`failed
      ensures InStep()
      ensures e == if socketId < 0 then NoSocket else if started then Ok else Device
      ensures socketId < 0 || old(started) ==> modem.sent == old(modem.sent)
      ensures socketId >= 0 && !old(started) ==> modem.sent == old(modem.sent) + [HttpStart(socketId, started)]
      ensures e == Device ==> modem.failed
    {
      if socketId < 0 {
        return NoSocket;
      }
      if started {
        return Ok;
      }
      var ok := modem.StartHttp(socketId);
      FollowOne(old(modem.sent), HttpStart(socketId, ok));
      if !ok {
        return Device;
      }
      started := true;
      return Ok;
    }

    /** Whatever the modem answers, the service counts as stopped. */
    method Stop()
      requires InStep()
      modifies this`started, modem`sent, modem`failed, modem`deviceError
      ensures InStep() && !started
      ensures modem.sent == old(modem.sent) + if old(started) then [HttpStop] else []
    {
      if !started {
        return;
      }
      var ok := modem.Issue(HttpStop);
      FollowOne(old(modem.sent), HttpStop);
      started := false;
    }

    method AttachSocket(id: int) returns (e: Error)
      requires InStep()
      modifies this, modem`sent, modem`failed, modem`deviceError
      ensures InStep()
      ensures e == (if 0 <= id <= 6 then Ok else BadParameter)
      ensures if e == Ok then socketId == id && !started else unchanged(this)
      ensures modem.sent == old(modem.sent) + if e == Ok && old(started) then [HttpStop] else []
    {
      if id < 0 || id > MAX_HTTP_SOCKET_ID {
        return BadParameter;
      }
      if started {
        Stop();
      }
      socketId := id;
      return Ok;
    }

    method DetachSocket()
      requires InStep()
      modifies this, modem`sent, modem`failed, modem`deviceError
      ensures InStep() && !started && socketId == -1
      ensures modem.sent == old(modem.sent) + if old(started) then [HttpStop] else []
    {
      if started {
        Stop();
      }
      socketId := -1;
    }

    /** Attaches an idle client and starts the service; a refusal leaves the client detached. */
    method Engage(id: int) returns (e: Error)
      requires InStep() && !started && socketId == -1
      modifies this, modem`sent, modem`failed, modem`deviceError
      ensures InStep() && (e == Ok <==> started) && socketId == if e == Ok then id else -1
      ensures e == Ok ==> 0 <= id <= MAX_HTTP_SOCKET_ID
      ensures modem.sent == old(modem.sent) + if 0 <= id <= MAX_HTTP_SOCKET_ID then [HttpStart(id, e == Ok)] else []
    {
      e := AttachSocket(id);
      if e != Ok {
        return;
      }
      e := Start();
      if e != Ok {
        DetachSocket();
      }
    }

    /** One command of a running request. */
    method Request(c: Command) returns (e: Error)
      requires InStep() && started
      requires c.HttpMethod? || c.HttpHeader? || c.HttpRead? || c == HttpSend(socketId)
      modifies modem`sent, modem`failed, modem`deviceError
      ensures InStep() && modem.sent == old(modem.sent) + [c]
      ensures e == if modem.failed then Device else Ok
    {
      var ok := modem.Issue(c);
      FollowOne(old(modem.sent), c);
      return if ok then Ok else Device;
    }

    /** GET, or POST when post holds. The commands issued are a start if one was needed, then the script's
        first ones up to the first that the modem fails; all of them before any success. A request that fails
        before the response leaves response.success as it was. */
    method Perform(post: bool, contentType: string, response: Response)
      returns (e: Error, ghost prelude: seq<Command>, ghost issued: nat)
      requires InStep()
      modifies this`started, modem`sent, modem`failed, modem`deviceError, modem`httpAnswer, response
      ensures InStep() && (started <==> old(started) || prelude == [HttpStart(socketId, true)])
      ensures prelude == if old(started) || socketId < 0 then [] else [HttpStart(socketId, started)]
      ensures issued <= |Script(post, contentType)| && (issued > 0 <==> started)
      ensures modem.sent == old(modem.sent) + prelude + Script(post, contentType)[..issued]
      ensures response.error == e && (socketId < 0 ==> e == NoSocket)
      ensures issued < |Script(post, contentType)| ==>
                response.success == old(response.success) && (socketId >= 0 ==> e == Device && modem.failed)
      ensures issued == |Script(post, contentType)| ==> Answered(e, response)
      ensures unchanged(this`socketId)
      ensures e == Ok ==>
                modem.sent == old(modem.sent) + prelude +
                  if !post || contentType == "" then [HttpMethod, HttpSend(socketId), HttpRead]
                  else [HttpMethod, HttpHeader, HttpSend(socketId), HttpRead]
      ensures e == Ok ==> modem.httpAnswer == Some(response.statusCode) &&
                          (response.success <==> response.statusCode / 100 == 2)
    {
      prelude, issued := [], 0;
      if !started {
        e := Start();
        prelude := if socketId < 0 then [] else [HttpStart(socketId, started)];
        if e != Ok {
          response.error := e;
          return;
        }
      }
      e, issued := Exchange(post, contentType, response);
      response.error := e;
    }

    /** The result of a request that got as far as its response, by what the modem answered. */
    ghost predicate Answered(e: Error, response: Response)
      reads modem`httpAnswer, modem`failed, response
    {
      && response.statusCode == (if modem.httpAnswer.Some? then modem.httpAnswer.value else 0)
      && e == (if modem.httpAnswer.None? then Timeout else if modem.failed then Device else Ok)
      && (response.success <==> e == Ok && 200 <= response.statusCode < 300)
    }

    /** The commands of a request, up to the first that fails. */
    method Exchange(post: bool, contentType: string, response: Response) returns (e: Error, ghost issued: nat)
      requires InStep() && started
      modifies modem`sent, modem`failed, modem`deviceError, modem`httpAnswer, response
      ensures InStep() && 1 <= issued <= |Script(post, contentType)|
      ensures modem.sent == old(modem.sent) + Script(post, contentType)[..issued]
      ensures issued < |Script(post, contentType)| ==> e == Device && modem.failed && unchanged(response)
      ensures issued == |Script(post, contentType)| ==> Answered(e, response)
    {
      e := Request(HttpMethod);
      issued := 1;
      if e == Ok && post && contentType != "" {
        e := Request(HttpHeader);
        issued := 2;
      }
      ghost var front := Script(post, contentType)[..issued];
      assert modem.sent == old(modem.sent) + front;
      if e == Ok {
        ghost var last;
        e, last := SendAndRead(response);
        assert Script(post, contentType) == front + [HttpSend(socketId), HttpRead];
        issued := issued + last;
      }
    }

    /** The closing part of a request: the body, then the response. */
    method SendAndRead(response: Response) returns (e: Error, ghost issued: nat)
      requires InStep() && started
      modifies modem`sent, modem`failed, modem`deviceError, modem`httpAnswer, response
      ensures InStep() && 1 <= issued <= 2
      ensures modem.sent == old(modem.sent) + [HttpSend(socketId), HttpRead][..issued]
      ensures issued == 1 ==> e == Device && modem.failed && unchanged(response)
      ensures issued == 2 ==> Answered(e, response)
    {
      e := Request(HttpSend(socketId));
      issued := 1;
      if e == Ok {
        e := ReadResponse(response);
        issued := 2;
        response.success := e == Ok && 200 <= response.statusCode < 300;
      }
    }

    ghost function Script(post: bool, contentType: string): seq<Command>
      reads this`socketId
    {
      [HttpMethod] + (if post && contentType != "" then [HttpHeader] else []) + [HttpSend(socketId), HttpRead]
    }

    method ReadResponse(response: Response) returns (e: Error)
      requires InStep() && started
      modifies modem`sent, modem`failed, modem`deviceError, modem`httpAnswer, response
      ensures InStep() && modem.sent == old(modem.sent) + [HttpRead]
      ensures !response.success
      ensures response.statusCode == if modem.httpAnswer.Some? then modem.httpAnswer.value else 0
      ensures e == if modem.httpAnswer.None? then Timeout else if modem.failed then Device else Ok
    {
      response.statusCode, response.success, response.error := 0, false, Ok;
      var ok, gotResponse, status := modem.ReadHttp();
      FollowOne(old(modem.sent), HttpRead);
      if gotResponse {
        response.statusCode := status;
      }
      if !gotResponse {
        return Timeout;
      }
      return if ok then Ok else Device;
    }

    /** The destructor. */
    method Destroy()
      requires InStep()
      modifies this`started, modem`sent, modem`failed, modem`deviceError
      ensures Follow(modem.sent) == Stopped
      ensures modem.sent == old(modem.sent) + if old(started) then [HttpStop] else []
    {
      if started {
        Stop();
      }
    }
  }

  // ----------------------------------------------------------------- the context

  /** The context's HTTP session over a client and the stack; a non-IP context never hands out its stack. */
  class HttpContext {
    const modem: AtModem
    const stack: CellularStack
    const nonIp: bool
    var client: HttpClient?
    var httpSocketId: int

    /** Between calls: a session is open exactly when the client runs, attached to the session's socket,
        and without one the service is stopped. */
    ghost predicate Valid()
      reads this, modem, client, stack, stack.rxBuf, stack.storage
      reads stack.members`id, stack.members`closed, stack.members`txfull
    {
      && stack.modem == modem && stack.Valid() && stack.Mirrored() && this !in stack.storage
      && (client == null ==> httpSocketId == -1 && Follow(modem.sent) == Stopped)
      && (client != null ==> client !in stack.storage && client.modem == modem && client.InStep()
                             && client.socketId == httpSocketId)
      && -1 <= httpSocketId <= MAX_HTTP_SOCKET_ID
      && (httpSocketId >= 0 <==> client != null && client.started)
      && (httpSocketId >= 0 ==> !nonIp)
    }

    constructor (stack: CellularStack, nonIp: bool)
      requires stack.Valid() && stack.Mirrored() && Follow(stack.modem.sent) == Stopped
      ensures Valid() && this.stack == stack && modem == stack.modem && this.nonIp == nonIp && httpSocketId == -1
    {
      this.modem := stack.modem;
      this.stack := stack;
      this.nonIp := nonIp;
      client := null;
      httpSocketId := -1;
    }

    /** The commands that close an id now: none when the stack would not issue one. */
    ghost function Closing(id: int): seq<Command>
      requires stack.rows.Even()
      reads stack`rows
    {
      if HasSlot(id) then stack.rows.Closing(id) else []
    }

    /** Every id but this one is as before, at the modem and in the slots. */
    twostate predicate OthersKept(id: int)
      reads stack`held, modem`queues
    {
      forall i :: i != id ==> stack.Left(i) == old(stack.Left(i)) && modem.Queue(i) == old(modem.Queue(i))
    }

    /** Ends the session, if one is open: the service stops first, then the socket closes. */
    method HttpClose() returns (ok: bool)
      requires Valid()
      modifies this`httpSocketId, client, stack`free, stack`held, stack`marked, stack.rxBuf, stack.sslctx
      modifies stack.members`txfull
      modifies modem`lockDepth, modem`sent, modem`failed, modem`deviceError, modem`queues, modem`closeFailures
      ensures Valid() && httpSocketId == -1
      ensures modem.sent == old(modem.sent) +
                if old(httpSocketId) < 0 then [] else [HttpStop] + Closing(old(httpSocketId))
      ensures ok <==> (old(httpSocketId) >= 0 && Closing(old(httpSocketId)) != [] ==> !modem.failed)
      ensures OthersKept(old(httpSocketId))
      ensures unchanged(modem`actions, stack`rows, stack`ipConfigured, stack`members)
    {
      if httpSocketId < 0 {
        return true;
      }
      ok := true;
      var id := httpSocketId;
      Disengage();
      if !nonIp {
        ok := Release(id);
      }
    }

    /** The client's part of it. */
    method Disengage()
      requires Valid() && httpSocketId >= 0
      modifies this`httpSocketId, client, modem`sent, modem`failed, modem`deviceError
      ensures Valid() && httpSocketId == -1
      ensures modem.sent == old(modem.sent) + [HttpStop]
    {
      if client != null {
        client.Stop();
        client.DetachSocket();
      }
      httpSocketId := -1;
    }

    /** Closes a socket no session uses. */
    method Release(id: int) returns (ok: bool)
      requires Valid() && httpSocketId == -1
      modifies stack`free, stack`held, stack`marked, stack.rxBuf, stack.sslctx, stack.members`txfull
      modifies modem`lockDepth, modem`sent, modem`failed, modem`deviceError, modem`queues, modem`closeFailures
      ensures Valid() && modem.sent == old(modem.sent) + Closing(id) && OthersKept(id)
      ensures HasSlot(id) ==> (ok <==> (Closing(id) != [] ==> !modem.failed))
    {
      FollowSocketCommands(modem.sent, Closing(id));
      ok := stack.CloseTcpSession(id);
    }

    /** Obtains a connected socket for a session, or closes what it got. */
    method Obtain(tls: bool, defaultCtx: int, w: World)
      returns (ok: bool, id: int, ghost created: Option<Answer>, ghost t: seq<Action>)
      requires Valid() && httpSocketId == -1
      modifies stack`free, stack`held, stack`rows, stack`marked, stack`ipConfigured, stack`sockets, stack`members
      modifies stack.rxBuf, stack.sslctx, stack.storage, stack.members`txfull
      modifies modem`lockDepth, modem`sent, modem`failed, modem`deviceError, modem`queues, modem`closeFailures
      modifies modem`now, modem`actions
      ensures Valid() && modem.actions == old(modem.actions) + t
      ensures created.Some? <==> w.resolves && None in old(stack.rows.ids) && (old(stack.ipConfigured) || w.hasAddress)
      ensures ok <==> Connected(created, t)
      ensures modem.sent == old(modem.sent) + Creation(TCP, if tls then defaultCtx else -1, created)
                            + if Succeeded(created) && !ok then
                                old(stack.rows).Added(created.value.id).Closing(created.value.id)
                              else []
      ensures ok ==> created.value.id == id && id != -1 && stack.rows == old(stack.rows).Added(id)
      ensures OthersKept(Named(created))
      ensures forall s :: s in stack.members ==> s in old(stack.members) || fresh(s)
    {
      ghost var log := modem.sent;
      ghost var s;
      ok, id, s, created, t := stack.OpenTcpSession(tls, defaultCtx, w);
      ghost var commands := Creation(TCP, if tls then defaultCtx else -1, created)
                            + if Succeeded(created) && !ok then
                                old(stack.rows).Added(created.value.id).Closing(created.value.id)
                              else [];
      assert modem.sent == log + commands;
      FollowSocketCommands(log, commands);
    }

    /** A creation the modem accepted, whose connect ended on "connected". */
    ghost predicate Connected(created: Option<Answer>, t: seq<Action>) {
      Succeeded(created) && TcpConnect.LastStatus(t) == 5
    }

    /** The commands of opening a session over table t0: a creation, a start on a connected socket, and the
        close of a socket that was created in vain, unless the record found under its id is known to be
        closed, or the id has no slot and the socket was connected. */
    ghost function Opening(ctx: int, created: Option<Answer>, connected: bool, ok: bool, t0: Table): seq<Command>
      requires t0.Even() && (connected ==> Succeeded(created)) && (created.Some? ==> None in t0.ids)
    {
      Creation(TCP, ctx, created)
      + (if connected then Starting(created.value.id, ok) else [])
      + (if Succeeded(created) && !ok && (HasSlot(created.value.id) || !connected) then
           t0.Added(created.value.id).Closing(created.value.id)
         else [])
    }

    /** An id the modem names in a failing opening is closed again later in its commands, but for exactly three
        cases: the answer that named it was not OK, a record before the new one has the id and is known to be
        closed, or the id has no slot and the connect succeeded. */
    lemma FailedOpeningCloses(ctx: int, created: Option<Answer>, connected: bool, t0: Table, i: nat)
      requires t0.Even() && (connected ==> Succeeded(created)) && (created.Some? ==> None in t0.ids)
      requires var cs := Opening(ctx, created, connected, false, t0);
               i < |cs| && cs[i].SocketCreate? && cs[i].answer.id != -1
      ensures var cs := Opening(ctx, created, connected, false, t0);
              var answer := cs[i].answer;
              (exists j :: i < j < |cs| && cs[j] == SocketClose(answer.id)) <==>
              && answer.ok && (t0.FoundBefore(answer.id) ==> t0.Closable(answer.id))
              && (HasSlot(answer.id) || !connected)
    {
      var cs := Opening(ctx, created, connected, false, t0);
      var answer := cs[i].answer;
      assert i == 0 && created == Some(answer);
      t0.FoundAdded(answer.id);
      if Succeeded(created) && t0.Added(answer.id).Closable(answer.id) && (HasSlot(answer.id) || !connected) {
        assert cs[|cs| - 1] == SocketClose(answer.id);
      }
    }

    /** The first of these cases: the modem names any id and then fails, and its socket stays open. */
    lemma NamedInVain(ctx: int, id: int, t0: Table)
      requires t0.Even() && None in t0.ids
      ensures Opening(ctx, Some(Answer(id, false)), false, false, t0) == [SocketCreate(TCP, ctx, Answer(id, false))]
    {
      assert !Answer(id, false).Accepted();
    }

    /** Opens a session, closing an open one first. It either ends with a running client attached to the
        new socket, or with no session; the log grows by the close of the old session and the commands of
        the opening. Only the ids of the two are touched. */
    method HttpOpen(tls: bool, defaultCtx: int, w: World)
      returns (e: Error, ghost created: Option<Answer>, ghost t: seq<Action>, ghost connected: bool)
      requires Valid()
      modifies this`httpSocketId, this`client, client
      modifies stack`free, stack`held, stack`rows, stack`marked, stack`ipConfigured, stack`sockets, stack`members
      modifies stack.rxBuf, stack.sslctx, stack.storage, stack.members`txfull, modem
      ensures Valid() && modem.actions == old(modem.actions) + t
      ensures created.Some? <==> !nonIp && w.resolves && None in old(stack.rows.ids)
                                 && (old(stack.ipConfigured) || w.hasAddress)
      ensures nonIp ==> e == NoConnection
      ensures connected <==> Connected(created, t)
      ensures e == Ok <==> httpSocketId >= 0
      ensures e == Ok ==> connected && created.value.id == httpSocketId
      ensures modem.sent == old(modem.sent)
                            + (if old(httpSocketId) < 0 then [] else [HttpStop] + old(Closing(httpSocketId)))
                            + Opening(if tls then defaultCtx else -1, created, connected, e == Ok, old(stack.rows))
      ensures forall i :: i != old(httpSocketId) && i != Named(created) ==>
                stack.Left(i) == old(stack.Left(i)) && modem.Queue(i) == old(modem.Queue(i))
    {
      if httpSocketId >= 0 {
        var closed := HttpClose();
      }
      e, created, t, connected := OpenSession(tls, defaultCtx, w);
    }

    method OpenSession(tls: bool, defaultCtx: int, w: World)
      returns (e: Error, ghost created: Option<Answer>, ghost t: seq<Action>, ghost connected: bool)
      requires Valid() && httpSocketId == -1
      modifies this`httpSocketId, this`client, client
      modifies stack`free, stack`held, stack`rows, stack`marked, stack`ipConfigured, stack`sockets, stack`members
      modifies stack.rxBuf, stack.sslctx, stack.storage, stack.members`txfull, modem
      ensures Valid() && modem.actions == old(modem.actions) + t
      ensures created.Some? <==> !nonIp && w.resolves && None in old(stack.rows.ids)
                                 && (old(stack.ipConfigured) || w.hasAddress)
      ensures nonIp ==> e == NoConnection
      ensures connected <==> Connected(created, t)
      ensures e == Ok <==> httpSocketId >= 0
      ensures e == Ok ==> connected && created.value.id == httpSocketId
      ensures modem.sent == old(modem.sent)
                            + Opening(if tls then defaultCtx else -1, created, connected, e == Ok, old(stack.rows))
      ensures OthersKept(Named(created))
    {
      created, t, connected := None, [], false;
      if nonIp {
        return NoConnection, created, t, connected;
      }
      ghost var log, t0 := modem.sent, stack.rows;
      var ok, id;
      ok, id, created, t := Obtain(tls, defaultCtx, w);
      connected := ok;
      if !ok {
        OpeningInParts(log, if tls then defaultCtx else -1, created, connected, false, t0);
        return NoConnection, created, t, connected;
      }
      e := Serve(id);
      OpeningInParts(log, if tls then defaultCtx else -1, created, connected, e == Ok, t0);
    }

    /** The log of an opening, as its steps write it. */
    lemma OpeningInParts(log: seq<Command>, ctx: int, created: Option<Answer>, connected: bool, ok: bool, t0: Table)
      requires t0.Even() && (connected ==> Succeeded(created)) && (created.Some? ==> None in t0.ids)
      ensures connected ==>
                var id := created.value.id;
                var closing := if HasSlot(id) then t0.Added(id).Closing(id) else [];
                log + Opening(ctx, created, connected, ok, t0) ==
                log + Creation(TCP, ctx, created) + [] + (Starting(id, ok) + if ok then [] else closing)
      ensures !connected && !ok ==>
                log + Opening(ctx, created, connected, ok, t0) ==
                log + Creation(TCP, ctx, created)
                + if Succeeded(created) then t0.Added(created.value.id).Closing(created.value.id) else []
    {
    }

    /** The part of it behind the socket. */
    method Serve(id: int) returns (e: Error)
      requires Valid() && httpSocketId == -1 && !nonIp && id != -1
      modifies this`httpSocketId, this`client, client, stack`free, stack`held, stack`marked, stack.rxBuf, stack.sslctx
      modifies stack.members`txfull
      modifies modem`lockDepth, modem`sent, modem`failed, modem`deviceError, modem`queues, modem`closeFailures
      ensures Valid() && (e == Ok <==> httpSocketId == id) && (e != Ok ==> httpSocketId == -1)
      ensures modem.sent == old(modem.sent) + (Starting(id, e == Ok) + if e == Ok then [] else Closing(id))
      ensures OthersKept(id)
      ensures unchanged(modem`actions, stack`rows, stack`ipConfigured)
    {
      GetHttpClient();
      e := StartSession(id);
    }

    /** Creates the client on first use. */
    method GetHttpClient()
      requires Valid()
      modifies this`client
      ensures Valid() && client != null && (client == old(client) || (old(client) == null && fresh(client)))
    {
      if client == null {
        client := new HttpClient(modem);
      }
    }

    /** Starts a session on socket id, or closes the socket. */
    method StartSession(id: int) returns (e: Error)
      requires Valid() && httpSocketId == -1 && client != null && !nonIp && id != -1
      modifies this`httpSocketId, client, stack`free, stack`held, stack`marked, stack.rxBuf, stack.sslctx
      modifies stack.members`txfull
      modifies modem`lockDepth, modem`sent, modem`failed, modem`deviceError, modem`queues, modem`closeFailures
      ensures Valid() && (e == Ok <==> httpSocketId == id) && (e != Ok ==> httpSocketId == -1)
      ensures modem.sent == old(modem.sent) + (Starting(id, e == Ok) + if e == Ok then [] else Closing(id))
      ensures OthersKept(id)
    {
      e := Engage(id);
      if e != Ok {
        var closed := Release(id);
      }
    }

    ghost function Starting(id: int, accepted: bool): seq<Command> {
      if 0 <= id <= MAX_HTTP_SOCKET_ID then [HttpStart(id, accepted)] else []
    }

    /** The client's part of it. */
    method Engage(id: int) returns (e: Error)
      requires Valid() && httpSocketId == -1 && client != null && !nonIp && id != -1
      modifies this`httpSocketId, client, modem`sent, modem`failed, modem`deviceError
      ensures Valid() && (e == Ok <==> httpSocketId == id) && (e != Ok ==> httpSocketId == -1)
      ensures modem.sent == old(modem.sent) + Starting(id, e == Ok)
    {
      e := client.Engage(id);
      if e == Ok {
        httpSocketId := id;
      }
    }

    /** The context's close_all_sockets, which does not know of the session. */
    method CloseAllSockets() returns (ok: bool)
      requires Valid()
      modifies modem`sent, modem`failed, modem`deviceError, modem`queues, modem`closeFailures
      modifies stack`rows, stack.members`closed
      ensures modem.sent == old(modem.sent) + old(stack.rows).CloseScript(MAX_SOCKETS)
      ensures Valid() <==> (httpSocketId >= 0 ==> !old(stack.rows).Closable(httpSocketId))
      ensures httpSocketId >= 0 && old(stack.rows).Closable(httpSocketId) ==>
                client != null && client.started && Follow(modem.sent) == Broken
    {
      FollowScript(modem.sent, stack.rows, MAX_SOCKETS);
      ok := stack.CloseAllSockets();
    }

    /** A GET or POST on the context's client. It keeps the session as it is, and without a session it
        issues no command at all; with one it issues the request's script up to the first failure. */
    method Request(post: bool, contentType: string, response: Response) returns (e: Error, ghost issued: nat)
      requires Valid() && response !in stack.storage
      modifies this`client, client, modem`sent, modem`failed, modem`deviceError, modem`httpAnswer, response
      ensures Valid() && response.error == e && client != null
      ensures httpSocketId < 0 ==> e == NoSocket && modem.sent == old(modem.sent)
      ensures httpSocketId >= 0 ==>
                && 1 <= issued <= |client.Script(post, contentType)|
                && modem.sent == old(modem.sent) + client.Script(post, contentType)[..issued]
                && (issued < |client.Script(post, contentType)| ==> e == Device && modem.failed)
                && (issued == |client.Script(post, contentType)| ==> client.Answered(e, response))
    {
      GetHttpClient();
      ghost var prelude;
      e, prelude, issued := client.Perform(post, contentType, response);
    }

    /** The destructor: an open session is stopped and its socket closed, then the client goes. */
    method Destroy()
      requires Valid()
      modifies this`httpSocketId, this`client, client, stack`free, stack`held, stack`marked, stack.rxBuf, stack.sslctx
      modifies stack.members`txfull, modem
      ensures Follow(modem.sent) == Stopped && httpSocketId == -1 && client == null
      ensures OthersKept(old(httpSocketId))
      ensures modem.sent == old(modem.sent) +
                if old(httpSocketId) < 0 then [] else [HttpStop] + old(Closing(httpSocketId))
    {
      if httpSocketId >= 0 {
        var closed := HttpClose();
      }
      if client != null {
        client.Destroy();
      }
      client := null;
    }
  }
}
