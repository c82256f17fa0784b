/** Runs of the socket stack against the modem: the class follows the receive model over any sequence of
    lines, arrivals and reads, and two sessions in a row show what a stale record costs. */
module StackRuns {
  import opened Common
  import opened Modem
  import opened Payloads
  import opened RxStream
  import opened SocketTable
  import opened Stack
  import TcpConnect

  // ------------------------------------------------------------------ one socket's run

  /** What may happen to a socket: a segment arrives at the modem, a line announces one, its owner reads, or a
      line says that the remote end is gone. */
  datatype Op = Arrives(segment: seq<byte>) | Announces | Reads(size: nat) | Closes

  /** The model's event for an operation. A read that turns to the modem meets the next fault. */
  function EventOf(proto: Proto, s: Rx, op: Op, faults: seq<Fault>): Event {
    match op
    case Arrives(segment) => Arrive(segment)
    case Announces => Announce
    case Reads(size) => Receive(size, if Asks(proto, s) && faults != [] then faults[0] else NoFault)
    case Closes => RemoteClose
  }

  function Rest(proto: Proto, s: Rx, op: Op, faults: seq<Fault>): seq<Fault> {
    if op.Reads? && Asks(proto, s) && faults != [] then faults[1..] else faults
  }

  /** The model's events for a run of operations whose exchanges with the modem meet these faults in turn. */
  function Schedule(proto: Proto, cap: nat, h: Hist, ops: seq<Op>, faults: seq<Fault>): seq<Event>
    decreases |ops|
  {
    if ops == [] then []
    else
      var e := EventOf(proto, h.rx, ops[0], faults);
      [e] + Schedule(proto, cap, Step(proto, cap, h, e), ops[1..], Rest(proto, h.rx, ops[0], faults))
  }

  /** The record is the one found under its id, and the model's socket is a view of it. */
  ghost predicate Follows(stack: CellularStack, sock: CellularSocket, h: Hist)
    reads stack, stack.modem, stack.rxBuf, stack.storage, stack.members
  {
    && stack.Valid() && stack.Mirrored() && sock in stack.members
    && sock in stack.sockets && HasSlot(sock.id) && stack.FindSocket(sock.id) == sock && stack.View(sock) == h.rx
  }

  /** How every #IPREAD so far went, the last one last. */
  ghost function Faults(modem: AtModem): seq<Fault>
    reads modem`past, modem`fault
  {
    modem.past + [modem.fault]
  }

  /** One operation is one step of the receive model. */
  method Act(stack: CellularStack, sock: CellularSocket, op: Op, buffer: array<byte>, ghost h: Hist)
    returns (got: seq<Read>, ghost faults: seq<Fault>)
    requires Follows(stack, sock, h) && buffer !in stack.storage && (op.Reads? ==> op.size <= buffer.Length)
    modifies stack`rows, stack`held, stack.storage, sock`connected, sock`closed, stack.members`pending
    modifies stack.members`calls, buffer, stack.modem
    ensures var e := EventOf(sock.proto, h.rx, op, faults);
            var f := Step(sock.proto, stack.bufferSize, h, e);
            && Follows(stack, sock, f) && f.done == h.done + got
    ensures |faults| == if op.Reads? && Asks(sock.proto, h.rx) then 1 else 0
    ensures Faults(stack.modem) == old(Faults(stack.modem)) + faults
    ensures forall i :: i != sock.id ==>
              stack.Left(i) == old(stack.Left(i)) && stack.modem.Queue(i) == old(stack.modem.Queue(i))
  {
    got, faults := [], [];
    assert h.done + [] == h.done && Faults(stack.modem) + [] == Faults(stack.modem);
    match op
    case Arrives(segment) => ArriveOnce(stack, sock, segment, h);
    case Announces => AnnounceOnce(stack, sock, h);
    case Reads(size) => got, faults := ReadOnce(stack, sock, size, buffer, h);
    case Closes => CloseOnce(stack, sock, h);
  }

  method ArriveOnce(stack: CellularStack, sock: CellularSocket, segment: seq<byte>, ghost h: Hist)
    requires Follows(stack, sock, h)
    modifies stack.modem`queues
    ensures Follows(stack, sock, Step(sock.proto, stack.bufferSize, h, Arrive(segment)))
    ensures forall i :: i != sock.id ==> stack.modem.Queue(i) == old(stack.modem.Queue(i))
    ensures unchanged(stack`held, stack.modem`past, stack.modem`fault)
  {
    stack.modem.Arrive(sock.id, segment);
  }

  method AnnounceOnce(stack: CellularStack, sock: CellularSocket, ghost h: Hist)
    requires Follows(stack, sock, h)
    modifies stack.members`pending, stack.members`calls
    ensures Follows(stack, sock, Step(sock.proto, stack.bufferSize, h, Announce))
    ensures unchanged(stack`held, stack.modem`queues, stack.modem`past, stack.modem`fault)
  {
    stack.UrcIpRecv(sock.id);
  }

  method CloseOnce(stack: CellularStack, sock: CellularSocket, ghost h: Hist)
    requires Follows(stack, sock, h)
    modifies stack`rows, stack`held, stack.storage, sock`connected, sock`closed, stack.members`calls
    ensures Follows(stack, sock, Step(sock.proto, stack.bufferSize, h, RemoteClose))
    ensures forall i :: i != sock.id ==> stack.Left(i) == old(stack.Left(i))
    ensures unchanged(stack.modem`queues, stack.modem`past, stack.modem`fault)
  {
    stack.UrcSocketClosed(sock.id);
  }

  /** One read of it. */
  method ReadOnce(stack: CellularStack, sock: CellularSocket, size: nat, buffer: array<byte>, ghost h: Hist)
    returns (got: seq<Read>, ghost faults: seq<Fault>)
    requires Follows(stack, sock, h) && buffer !in stack.storage && size <= buffer.Length
    modifies stack`held, stack.storage, stack.members`pending, buffer, stack.modem
    ensures var f := Step(sock.proto, stack.bufferSize, h, EventOf(sock.proto, h.rx, Reads(size), faults));
            && Follows(stack, sock, f) && f.done == h.done + got
    ensures |faults| == if Asks(sock.proto, h.rx) then 1 else 0
    ensures Faults(stack.modem) == old(Faults(stack.modem)) + faults
    ensures forall i :: i != sock.id ==>
              stack.Left(i) == old(stack.Left(i)) && stack.modem.Queue(i) == old(stack.modem.Queue(i))
  {
    var r := stack.SocketRecvFromImpl(sock, buffer, size);
    got := if r.Count? then [Read(size, buffer[..r.n])] else [];
    faults := if Asks(sock.proto, h.rx) then [stack.modem.fault] else [];
    ReadIsStep(sock.proto, stack.bufferSize, h, size, stack.modem.fault, faults, r, buffer[..]);
  }

  /** What a read tells its caller is what the model's step adds to the reads done. */
  lemma ReadIsStep(proto: Proto, cap: nat, h: Hist, size: nat, fault: Fault, faults: seq<Fault>, r: Result,
                   contents: seq<byte>)
    requires faults == if Asks(proto, h.rx) then [fault] else []
    requires r.Count? ==> r.n <= |contents|
    requires CellularStack.Tells(r, Recv(proto, cap, h.rx, size, fault).outcome, contents)
    ensures var f := Step(proto, cap, h, EventOf(proto, h.rx, Reads(size), faults));
            && f.rx == Recv(proto, cap, h.rx, size, fault).rx
            && f.done == h.done + if r.Count? then [Read(size, contents[..r.n])] else []
  {
    assert !Asks(proto, h.rx) ==> Recv(proto, cap, h.rx, size, fault) == Recv(proto, cap, h.rx, size, NoFault);
    if r.Count? {
      assert Recv(proto, cap, h.rx, size, fault).outcome.bytes == contents[..r.n];
    } else {
      assert h.done + [] == h.done;
    }
  }

  /** Over any run of operations on one socket, the class is the receive model: with the faults the modem has on
      record, in order, its socket ends as the model's does and its reads are the model's reads. No other slot
      or queue is touched. */
  method Drive(stack: CellularStack, sock: CellularSocket, ops: seq<Op>, buffer: array<byte>, ghost h: Hist)
    returns (got: seq<Read>, ghost faults: seq<Fault>)
    requires Follows(stack, sock, h) && buffer !in stack.storage
    requires forall op :: op in ops && op.Reads? ==> op.size <= buffer.Length
    modifies stack`rows, stack`held, stack.storage, sock`connected, sock`closed, stack.members`pending
    modifies stack.members`calls, buffer, stack.modem
    ensures var f := Run(sock.proto, stack.bufferSize, h, Schedule(sock.proto, stack.bufferSize, h, ops, faults));
            Follows(stack, sock, f) && f.done == h.done + got
    ensures Faults(stack.modem) == old(Faults(stack.modem)) + faults
    ensures forall i :: i != sock.id ==>
              stack.Left(i) == old(stack.Left(i)) && stack.modem.Queue(i) == old(stack.modem.Queue(i))
    decreases |ops|
  {
    if ops == [] {
      assert h.done + [] == h.done && Faults(stack.modem) + [] == Faults(stack.modem);
      return [], [];
    }
    ghost var f0 := Faults(stack.modem);
    ghost var met;
    got, met := Act(stack, sock, ops[0], buffer, h);
    ghost var h1 := Step(sock.proto, stack.bufferSize, h, EventOf(sock.proto, h.rx, ops[0], met));
    var more;
    more, faults := Drive(stack, sock, ops[1..], buffer, h1);
    FirstScheduled(sock.proto, stack.bufferSize, h, ops, met, faults);
    Regrouped(h.done, got, more);
    Regrouped(f0, met, faults);
    got, faults := got + more, met + faults;
  }

  lemma Regrouped<T>(a: seq<T>, b: seq<T>, c: seq<T>)
    ensures a + b + c == a + (b + c)
  {
  }

  lemma {:induction false} FirstScheduled(proto: Proto, cap: nat, h: Hist, ops: seq<Op>, met: seq<Fault>,
                                          more: seq<Fault>)
    requires ops != [] && |met| == if ops[0].Reads? && Asks(proto, h.rx) then 1 else 0
    ensures var h1 := Step(proto, cap, h, EventOf(proto, h.rx, ops[0], met));
            Run(proto, cap, h, Schedule(proto, cap, h, ops, met + more)) ==
            Run(proto, cap, h1, Schedule(proto, cap, h1, ops[1..], more))
  {
    var e := EventOf(proto, h.rx, ops[0], met);
    assert EventOf(proto, h.rx, ops[0], met + more) == e && Rest(proto, h.rx, ops[0], met + more) == more;
    RunFirst(proto, cap, h, e, Schedule(proto, cap, Step(proto, cap, h, e), ops[1..], more));
  }

  /** The segments that arrive in a run. */
  ghost function Arrivals(ops: seq<Op>): seq<seq<byte>> {
    if ops == [] then [] else (if ops[0].Arrives? then [ops[0].segment] else []) + Arrivals(ops[1..])
  }

  /** Every line announces a segment that has arrived and was not announced before. */
  ghost predicate Announced(ops: seq<Op>, waiting: nat) {
    ops == [] ||
    match ops[0]
    case Arrives(_) => Announced(ops[1..], waiting + 1)
    case Announces => waiting > 0 && Announced(ops[1..], waiting - 1)
    case _ => Announced(ops[1..], waiting)
  }

  /** Segments and reads of at least one byte, and the remote end stays. */
  ghost predicate Gentle(ops: seq<Op>) {
    forall op :: op in ops ==> op != Arrives([]) && op != Reads(0) && !op.Closes?
  }

  /** A gentle run in which no exchange with the modem went wrong. */
  ghost predicate Untroubled(ops: seq<Op>, faults: seq<Fault>) {
    (forall f :: f in faults ==> f == NoFault) && Gentle(ops) && Announced(ops, 0)
  }

  lemma {:induction false} ScheduleArrivals(proto: Proto, cap: nat, h: Hist, ops: seq<Op>, faults: seq<Fault>)
    ensures Run(proto, cap, h, Schedule(proto, cap, h, ops, faults)).arrived == h.arrived + Arrivals(ops)
    decreases |ops|
  {
    if ops != [] {
      var e := EventOf(proto, h.rx, ops[0], faults);
      var h1, rest := Step(proto, cap, h, e), Rest(proto, h.rx, ops[0], faults);
      RunFirst(proto, cap, h, e, Schedule(proto, cap, h1, ops[1..], rest));
      ScheduleArrivals(proto, cap, h1, ops[1..], rest);
    }
  }

  /** Without faults a gentle run is an error-free one. */
  lemma {:induction false} ScheduleClean(proto: Proto, cap: nat, h: Hist, ops: seq<Op>, faults: seq<Fault>)
    requires Gentle(ops) && h.urcs <= |h.arrived| && Announced(ops, |h.arrived| - h.urcs)
    requires forall f :: f in faults ==> f == NoFault
    ensures var es := Schedule(proto, cap, h, ops, faults);
            Possible(proto, cap, h, es) && forall e :: e in es ==> Clean(e)
    decreases |ops|
  {
    if ops != [] {
      var e := EventOf(proto, h.rx, ops[0], faults);
      var h1, rest := Step(proto, cap, h, e), Rest(proto, h.rx, ops[0], faults);
      assert ops[0] in ops && forall op :: op in ops[1..] ==> op in ops;
      assert forall f :: f in rest ==> f in faults;
      ScheduleClean(proto, cap, h1, ops[1..], rest);
      assert Clean(e) by {
        assert faults != [] ==> faults[0] in faults;
      }
      assert ([e] + Schedule(proto, cap, h1, ops[1..], rest))[1..] == Schedule(proto, cap, h1, ops[1..], rest);
    }
  }

  /** End to end, for a TCP socket just created: over any run, what its reads handed out, what its buffer holds
      and what the modem still queues is the arrived stream with some bytes left out; and when no exchange with
      the modem went wrong in a gentle run, it is all of the stream. */
  method DeliverStream(stack: CellularStack, sock: CellularSocket, ops: seq<Op>, buffer: array<byte>)
    returns (got: seq<Read>, ghost faults: seq<Fault>)
    requires Follows(stack, sock, START) && sock.proto.TCP? && buffer !in stack.storage
    requires forall op :: op in ops && op.Reads? ==> op.size <= buffer.Length
    modifies stack`rows, stack`held, stack.storage, sock`connected, sock`closed, stack.members`pending
    modifies stack.members`calls, buffer, stack.modem
    ensures Faults(stack.modem) == old(Faults(stack.modem)) + faults
    ensures var ahead := stack.Left(sock.id) + Joined(stack.modem.Queue(sock.id), stack.bufferSize);
            var stream := Joined(Arrivals(ops), stack.bufferSize);
            && Within(Bytes(got) + ahead, stream)
            && (Untroubled(ops, faults) ==>
                  Bytes(got) + ahead == stream)
  {
    got, faults := Drive(stack, sock, ops, buffer, START);
    assert [] + got == got;
    StreamOf(stack.bufferSize, ops, faults);
  }

  lemma {:induction false} StreamOf(cap: nat, ops: seq<Op>, faults: seq<Fault>)
    requires cap > 0
    ensures var f := Run(TCP, cap, START, Schedule(TCP, cap, START, ops, faults));
            var total, stream := Bytes(f.done) + (f.rx.left + Joined(f.rx.queue, cap)), Joined(Arrivals(ops), cap);
            && Within(total, stream)
            && (Untroubled(ops, faults) ==> total == stream)
  {
    var es := Schedule(TCP, cap, START, ops, faults);
    ScheduleArrivals(TCP, cap, START, ops, faults);
    assert START.arrived + Arrivals(ops) == Arrivals(ops);
    StreamSafety(cap, START, es);
    if Untroubled(ops, faults) {
      ScheduleClean(TCP, cap, START, ops, faults);
      StreamFidelity(cap, START, es);
    }
  }

  /** End to end, for a UDP socket just created: when no exchange with the modem went wrong in a gentle run, the
      i-th read that handed out data handed out the i-th datagram, cut to its size. */
  method DeliverDatagrams(stack: CellularStack, sock: CellularSocket, ops: seq<Op>, buffer: array<byte>, ghost h: Hist)
    returns (got: seq<Read>, ghost faults: seq<Fault>)
    requires Follows(stack, sock, h) && OneToOne(h) && h.arrived == []
    requires sock.proto.UDP? && buffer !in stack.storage
    requires forall op :: op in ops && op.Reads? ==> op.size <= buffer.Length
    modifies stack`rows, stack`held, stack.storage, sock`connected, sock`closed, stack.members`pending
    modifies stack.members`calls, buffer, stack.modem
    ensures Faults(stack.modem) == old(Faults(stack.modem)) + faults
    ensures Untroubled(ops, faults) ==>
              && |got| <= |Arrivals(ops)| && stack.modem.Queue(sock.id) == Arrivals(ops)[|got|..]
              && forall i :: 0 <= i < |got| ==> got[i].bytes == Take(Arrivals(ops)[i], got[i].size)
  {
    got, faults := Drive(stack, sock, ops, buffer, h);
    assert h.done == [] && [] + got == got;
    if Untroubled(ops, faults) {
      DatagramsOf(stack.bufferSize, h, ops, faults);
    }
  }

  lemma {:induction false} DatagramsOf(cap: nat, h: Hist, ops: seq<Op>, faults: seq<Fault>)
    requires OneToOne(h) && h.urcs == 0 && h.arrived == []
    requires Untroubled(ops, faults)
    ensures var f := Run(UDP, cap, h, Schedule(UDP, cap, h, ops, faults));
            OneToOne(f) && f.arrived == Arrivals(ops)
  {
    ScheduleClean(UDP, cap, h, ops, faults);
    DatagramFidelity(cap, h, Schedule(UDP, cap, h, ops, faults));
    ScheduleArrivals(UDP, cap, h, ops, faults);
    assert h.arrived + Arrivals(ops) == Arrivals(ops);
  }

  /** Whatever has happened to a socket, its owner is told that the connection is lost if and only if the remote
      end has closed. */
  method ReadBehind(stack: CellularStack, sock: CellularSocket, ops: seq<Op>, buffer: array<byte>, size: nat,
                    ghost h: Hist)
    returns (r: Result)
    requires Follows(stack, sock, h) && buffer !in stack.storage && size <= buffer.Length
    requires forall op :: op in ops && op.Reads? ==> op.size <= buffer.Length
    modifies stack`rows, stack`held, stack.storage, sock`connected, sock`closed, stack.members`pending
    modifies stack.members`calls, buffer, stack.modem
    ensures r == ErrConnectionLost <==> old(sock.closed) || Closes in ops
  {
    var got;
    ghost var faults;
    got, faults := Drive(stack, sock, ops, buffer, h);
    ghost var es := Schedule(sock.proto, stack.bufferSize, h, ops, faults);
    ClosedForGood(sock.proto, stack.bufferSize, h, es, size, NoFault);
    ClosesScheduled(sock.proto, stack.bufferSize, h, ops, faults);
    AnswerIs(sock.proto, stack.bufferSize, Run(sock.proto, stack.bufferSize, h, es).rx, size, NoFault);
    r := stack.SocketRecvFromImpl(sock, buffer, size);
  }

  lemma {:induction false} ClosesScheduled(proto: Proto, cap: nat, h: Hist, ops: seq<Op>, faults: seq<Fault>)
    ensures RemoteClose in Schedule(proto, cap, h, ops, faults) <==> Closes in ops
    decreases |ops|
  {
    if ops != [] {
      var e := EventOf(proto, h.rx, ops[0], faults);
      ClosesScheduled(proto, cap, Step(proto, cap, h, e), ops[1..], Rest(proto, h.rx, ops[0], faults));
      assert Closes in ops <==> ops[0] == Closes || Closes in ops[1..];
    }
  }

  // ------------------------------------------------------------------ sends of several sockets

  /** A send: the socket, the IP version of the destination, and the data. */
  datatype Job = Job(sock: CellularSocket, version: int, data: seq<byte>)

  /** A send that was made: what it reported, and the id its record then had. */
  datatype Sending = Sending(proto: Proto, id: int, data: seq<byte>, result: Result)

  /** What the successful sends reported as sent on one socket, joined. */
  ghost function Reported(done: seq<Sending>, proto: Proto, id: int): seq<byte> {
    Gathered(done, ReportOn(proto, id))
  }

  ghost function ReportOn(proto: Proto, id: int): Sending -> seq<byte> {
    (d: Sending) => Report(d, proto, id)
  }

  /** What one send reported as sent on this socket: the front of its data, of at most 1400 bytes. */
  function Report(d: Sending, proto: Proto, id: int): seq<byte> {
    if d.result.Count? && d.result.n <= |d.data| && d.proto == proto && d.id == id then d.data[..d.result.n] else []
  }

  /** A sending as the job asked for it, which reports all of its data or the first 1400 bytes. */
  ghost predicate Made(d: Sending, job: Job) {
    && d.proto == job.sock.proto && d.data == job.data
    && (d.result.Count? ==> d.result.n == if |job.data| < 1400 then |job.data| else 1400)
  }

  /** The record is in the table and has a socket. */
  ghost predicate Ready(stack: CellularStack, sock: CellularSocket)
    reads stack, sock
  {
    sock in stack.sockets && sock in stack.members && sock.id != -1
  }

  /** One send. */
  method SendJob(stack: CellularStack, job: Job, w: World) returns (d: Sending)
    requires stack.Valid() && stack.Mirrored() && Ready(stack, job.sock)
    modifies stack`ipVersion, stack`free, stack`held, stack`rows, stack`marked, stack`ipConfigured
    modifies stack`txfullEventId, stack.rxBuf, stack.sslctx, stack.storage
    modifies stack.members`txfull, job.sock`id, job.sock`started, job.sock`connected, stack.modem
    ensures stack.Valid() && stack.Mirrored() && unchanged(stack`sockets, stack`members)
    ensures Made(d, job) && d.id == job.sock.id != -1
    ensures forall p, i ::
              Payload(stack.modem.sent, p, i) == old(Payload(stack.modem.sent, p, i)) + Report(d, p, i)
    ensures job.sock.proto.TCP? || job.version == old(stack.ipVersion) ==>
              job.sock.id == old(job.sock.id) && stack.ipVersion == old(stack.ipVersion)
  {
    ghost var ctx, created, text, tries;
    var r;
    r, ctx, created, text, tries := stack.SocketSendToImpl(job.sock, job.version, job.data, w);
    d := Sending(job.sock.proto, job.sock.id, job.data, r);
  }

  /** No send changes the IP version. */
  ghost predicate SameVersion(jobs: seq<Job>, version: int) {
    forall job :: job in jobs ==> job.sock.proto.TCP? || job.version == version
  }

  /** The records of all jobs are ready, and those of TCP jobs still have the ids they had, as all have if the IP
      version is still the same. */
  ghost predicate Steady(stack: CellularStack, jobs: seq<Job>, ids: seq<int>, version: int)
    reads stack, set job | job in jobs :: job.sock
  {
    && |ids| == |jobs| && (forall job :: job in jobs ==> Ready(stack, job.sock))
    && (forall k :: 0 <= k < |jobs| && jobs[k].sock.proto.TCP? ==> jobs[k].sock.id == ids[k])
    && (SameVersion(jobs, version) ==>
          stack.ipVersion == version && forall k :: 0 <= k < |jobs| ==> jobs[k].sock.id == ids[k])
  }

  /** One send among others. */
  method SendNext(stack: CellularStack, jobs: seq<Job>, k: nat, w: World, ghost ids: seq<int>, ghost version: int)
    returns (d: Sending)
    requires stack.Valid() && stack.Mirrored() && k < |jobs| && Steady(stack, jobs, ids, version)
    modifies stack`ipVersion, stack`free, stack`held, stack`rows, stack`marked, stack`ipConfigured
    modifies stack`txfullEventId, stack.rxBuf, stack.sslctx, stack.storage
    modifies stack.members`txfull, stack.members`id, stack.members`started, stack.members`connected, stack.modem
    ensures stack.Valid() && stack.Mirrored() && unchanged(stack`sockets, stack`members)
    ensures Steady(stack, jobs, ids, version)
    ensures Made(d, jobs[k]) && (jobs[k].sock.proto.TCP? || SameVersion(jobs, version) ==> d.id == ids[k])
    ensures forall p, i ::
              Payload(stack.modem.sent, p, i) == old(Payload(stack.modem.sent, p, i)) + Report(d, p, i)
  {
    d := SendJob(stack, jobs[k], w);
  }

  /** Over any run of sends on any sockets: for every socket the modem has accepted just the bytes that the
      successful sends on it reported, in order, whatever was refused or retried in between. A TCP record sends
      on its own id throughout, and so do all records when the IP version stays the same; ids are what they are
      to begin with. */
  method SendAll(stack: CellularStack, jobs: seq<Job>, w: World, ghost ids: seq<int>) returns (done: seq<Sending>)
    requires stack.Valid() && stack.Mirrored() && forall job :: job in jobs ==> Ready(stack, job.sock)
    requires |ids| == |jobs| && forall k :: 0 <= k < |jobs| ==> ids[k] == jobs[k].sock.id
    modifies stack`ipVersion, stack`free, stack`held, stack`rows, stack`marked, stack`ipConfigured
    modifies stack`txfullEventId, stack.rxBuf, stack.sslctx, stack.storage
    modifies stack.members`txfull, stack.members`id, stack.members`started, stack.members`connected, stack.modem
    ensures stack.Valid() && stack.Mirrored() && |done| == |jobs|
    ensures forall p, i :: Payload(stack.modem.sent, p, i) ==
                           old(Payload(stack.modem.sent, p, i)) + Reported(done, p, i)
    ensures forall k :: 0 <= k < |jobs| ==> Made(done[k], jobs[k])
    ensures forall k :: 0 <= k < |jobs| && (jobs[k].sock.proto.TCP? || SameVersion(jobs, old(stack.ipVersion))) ==>
              done[k].id == ids[k]
  {
    done := [];
    ghost var log0, version := stack.modem.sent, stack.ipVersion;
    for k := 0 to |jobs|
      invariant stack.Valid() && stack.Mirrored() && unchanged(stack`sockets, stack`members) && |done| == k
      invariant Steady(stack, jobs, ids, version)
      invariant forall p, i :: Payload(stack.modem.sent, p, i) == Payload(log0, p, i) + Reported(done, p, i)
      invariant AllMade(done, jobs, ids, version)
    {
      ghost var log1 := stack.modem.sent;
      var d := SendNext(stack, jobs, k, w, ids, version);
      OneMoreReported(log0, log1, stack.modem.sent, done, d);
      OneMoreMade(done, d, jobs, ids, version);
      done := done + [d];
    }
  }

  /** The sendings so far are those the jobs asked for, on the ids they should be on. */
  ghost predicate AllMade(done: seq<Sending>, jobs: seq<Job>, ids: seq<int>, version: int)
    requires |jobs| == |ids|
  {
    && |done| <= |jobs|
    && forall k :: 0 <= k < |done| ==>
         Made(done[k], jobs[k]) && (jobs[k].sock.proto.TCP? || SameVersion(jobs, version) ==> done[k].id == ids[k])
  }

  lemma OneMoreMade(done: seq<Sending>, d: Sending, jobs: seq<Job>, ids: seq<int>, version: int)
    requires |done| < |jobs| == |ids| && AllMade(done, jobs, ids, version) && Made(d, jobs[|done|])
    requires jobs[|done|].sock.proto.TCP? || SameVersion(jobs, version) ==> d.id == ids[|done|]
    ensures AllMade(done + [d], jobs, ids, version)
  {
  }

  lemma OneMoreReported(log0: seq<Command>, log1: seq<Command>, log2: seq<Command>, done: seq<Sending>, d: Sending)
    requires forall p, i :: Payload(log1, p, i) == Payload(log0, p, i) + Reported(done, p, i)
    requires forall p, i :: Payload(log2, p, i) == Payload(log1, p, i) + Report(d, p, i)
    ensures forall p, i :: Payload(log2, p, i) == Payload(log0, p, i) + Reported(done + [d], p, i)
  {
    forall p, i ensures Payload(log2, p, i) == Payload(log0, p, i) + Reported(done + [d], p, i) {
      assert (done + [d])[..|done|] == done;
      assert Reported(done + [d], p, i) == Reported(done, p, i) + Report(d, p, i);
    }
  }

  /** A socket closed after a refusal is not called when the timer expires. */
  method CloseThenExpire(stack: CellularStack, id: int) returns (called: seq<CellularSocket>)
    requires stack.Valid() && stack.Mirrored()
    modifies stack`free, stack`held, stack`marked, stack`txfullEventId, stack.rxBuf, stack.sslctx
    modifies stack.members`txfull, stack.members`calls, stack.modem
    ensures var f := stack.FindSocket(id); f != null && !f.closed ==> f !in called
  {
    var closed := stack.SocketCloseImpl(id);
    stack.WaitingIs(|stack.sockets|);
    called := stack.TxFullTimeout();
  }

  // ------------------------------------------------------------------ two sessions in a row

  /** A record that is not the one found under its id never hears of its data: a segment that arrives and is
      announced stays with the modem, the credit goes to the record found, and the reader is told to wait
      without any #IPREAD. */
  method ShadowedStarves(stack: CellularStack, s: CellularSocket, segment: seq<byte>, buffer: array<byte>, size: nat)
    returns (r: Result)
    requires stack.Valid() && stack.Mirrored() && s in stack.members && s in stack.sockets
    requires HasSlot(s.id) && stack.FindSocket(s.id) != s && size <= buffer.Length && buffer !in stack.storage
    requires !s.closed && s.pending == 0 && stack.Left(s.id) == []
    modifies stack.members`pending, stack.members`calls, stack`held, stack.storage, buffer, stack.modem
    ensures r == ErrWouldBlock && s.pending == 0
    ensures stack.modem.Queue(s.id) == old(stack.modem.Queue(s.id)) + [segment]
    ensures stack.modem.asked == old(stack.modem.asked) && stack.modem.sent == old(stack.modem.sent)
    ensures stack.modem.actions == old(stack.modem.actions)
    ensures stack.FindSocket(s.id) in stack.members
    ensures forall f :: f in stack.members ==>
              f.pending == old(f.pending) + if f == stack.FindSocket(s.id) then 1 else 0
  {
    ArriveAnnounced(stack, s, segment);
    r := stack.SocketRecvFromImpl(s, buffer, size);
  }

  method ArriveAnnounced(stack: CellularStack, s: CellularSocket, segment: seq<byte>)
    requires stack.Valid() && stack.Mirrored() && s in stack.members && s in stack.sockets
    requires HasSlot(s.id) && stack.FindSocket(s.id) != s
    modifies stack.members`pending, stack.members`calls, stack.modem`queues
    ensures stack.Valid() && stack.Mirrored() && s.pending == old(s.pending)
    ensures stack.modem.Queue(s.id) == old(stack.modem.Queue(s.id)) + [segment]
    ensures stack.FindSocket(s.id) in stack.members
    ensures forall f :: f in stack.members ==>
              f.pending == old(f.pending) + if f == stack.FindSocket(s.id) then 1 else 0
  {
    stack.modem.Arrive(s.id, segment);
    stack.UrcIpRecv(s.id);
  }

  /** A session opened is connected with an id the modem accepted. */
  ghost predicate Connected(created: Option<Answer>, t: seq<Action>) {
    Succeeded(created) && TcpConnect.LastStatus(t) == 5
  }

  /** A session opened and closed again by its id. Its record stays in the table. */
  method UseOnce(stack: CellularStack, tls: bool, ctx: int, w: World)
    returns (ok: bool, id: int, ghost created: Option<Answer>, ghost t: seq<Action>)
    requires stack.Valid() && stack.Mirrored()
    modifies stack`free, stack`held, stack`rows, stack`marked, stack`ipConfigured, stack`sockets, stack`members
    modifies stack.rxBuf, stack.sslctx, stack.storage, stack.members`txfull
    modifies stack.modem`lockDepth, stack.modem`sent, stack.modem`failed, stack.modem`deviceError, stack.modem`queues
    modifies stack.modem`closeFailures, stack.modem`now, stack.modem`actions
    ensures stack.Valid() && stack.Mirrored() && stack.modem.actions == old(stack.modem.actions) + t
    ensures created.Some? <==> w.resolves && None in old(stack.rows.ids) && (old(stack.ipConfigured) || w.hasAddress)
    ensures ok <==> Connected(created, t) && HasSlot(created.value.id)
    ensures ok ==> id == created.value.id && stack.rows == old(stack.rows).Added(id) && stack.ipConfigured
    ensures ok ==> stack.modem.sent == old(stack.modem.sent) + Creation(TCP, if tls then ctx else -1, created)
                                       + old(stack.rows).Added(id).Closing(id)
    ensures forall s :: s in stack.members ==> s in old(stack.members) || fresh(s)
  {
    ghost var s;
    ok, id, s, created, t := stack.OpenTcpSession(tls, ctx, w);
    ok := ok && HasSlot(id);
    if ok {
      EndSession(stack, id);
    }
  }

  method EndSession(stack: CellularStack, id: int)
    requires stack.Valid() && stack.Mirrored() && HasSlot(id)
    modifies stack`free, stack`held, stack`marked, stack.rxBuf, stack.sslctx, stack.members`txfull
    modifies stack.modem`lockDepth, stack.modem`sent, stack.modem`failed, stack.modem`deviceError, stack.modem`queues
    modifies stack.modem`closeFailures
    ensures stack.Valid() && stack.Mirrored()
    ensures unchanged(stack`rows, stack`members, stack`ipConfigured, stack.modem`actions)
    ensures stack.modem.sent == old(stack.modem.sent) + stack.rows.Closing(id)
  {
    var closed := stack.CloseTcpSession(id);
  }

  /** Opens a session, which has the id of a record before its place if reused holds. */
  method OpenShadowed(stack: CellularStack, tls: bool, ctx: int, w: World, first: int)
    returns (reused: bool, sock: CellularSocket?, ghost created: Option<Answer>, ghost t: seq<Action>)
    requires stack.Valid() && stack.Mirrored() && HasSlot(first) && stack.rows.FoundBefore(first)
    modifies stack`free, stack`held, stack`rows, stack`marked, stack`ipConfigured, stack`sockets, stack`members
    modifies stack.rxBuf, stack.sslctx, stack.storage, stack.members`txfull
    modifies stack.modem`lockDepth, stack.modem`sent, stack.modem`failed, stack.modem`deviceError, stack.modem`queues
    modifies stack.modem`closeFailures, stack.modem`now, stack.modem`actions
    ensures stack.Valid() && stack.Mirrored() && stack.modem.actions == old(stack.modem.actions) + t
    ensures created.Some? <==> w.resolves && None in old(stack.rows.ids) && (old(stack.ipConfigured) || w.hasAddress)
    ensures reused <==> Connected(created, t) && created.value.id == first
    ensures reused ==>
              && stack.modem.sent == old(stack.modem.sent) + Creation(TCP, if tls then ctx else -1, created)
              && sock != null && sock in stack.members && sock in stack.sockets && sock.id == first
              && stack.FindSocket(first) != sock
              && stack.View(sock) == Rx([], [], 0, false, true)
    ensures forall s :: s in stack.members ==> s in old(stack.members) || fresh(s)
  {
    var ok, id;
    var k := stack.FindPlace();
    if k < |stack.sockets| {
      stack.rows.FoundAdded(first);
    }
    ghost var s;
    ok, id, s, created, t := stack.OpenTcpSession(tls, ctx, w);
    reused, sock := ok && id == first, null;
    if reused {
      sock := stack.sockets[k];
    }
  }

  /** A session opened under the id of a record before its place is connected and has a buffer, but never hears
      of its data. */
  method ReusedStarves(stack: CellularStack, tls: bool, ctx: int, w: World, first: int, segment: seq<byte>,
                       buffer: array<byte>, size: nat)
    returns (reused: bool, r: Result, ghost created: Option<Answer>, ghost t: seq<Action>)
    requires stack.Valid() && stack.Mirrored() && HasSlot(first) && stack.rows.FoundBefore(first)
    requires size <= buffer.Length && buffer !in stack.storage
    modifies stack`free, stack`held, stack`rows, stack`marked, stack`ipConfigured, stack`sockets, stack`members
    modifies stack.rxBuf, stack.sslctx, stack.storage, stack.members`txfull, stack.members`pending, stack.members`calls
    modifies stack.modem, buffer
    ensures stack.modem.actions == old(stack.modem.actions) + t
    ensures created.Some? <==> w.resolves && None in old(stack.rows.ids) && (old(stack.ipConfigured) || w.hasAddress)
    ensures reused <==> Connected(created, t) && created.value.id == first
    ensures reused ==>
              && stack.modem.sent == old(stack.modem.sent) + Creation(TCP, if tls then ctx else -1, created)
              && r == ErrWouldBlock && stack.modem.Queue(first) == [segment]
              && stack.modem.asked == old(stack.modem.asked)
  {
    var sock;
    reused, sock, created, t := OpenShadowed(stack, tls, ctx, w, first);
    r := ErrWouldBlock;
    if reused {
      r := ShadowedStarves(stack, sock, segment, buffer, size);
    }
  }

  /** Two sessions in a row, from any state: the modem's log shows the first one's creation and close and the
      second one's creation; if the modem accepts the same id twice and both connects succeed, the second
      session starves. */
  method SecondSessionStarves(stack: CellularStack, tls: bool, ctx: int, w: World, segment: seq<byte>,
                              buffer: array<byte>, size: nat)
    returns (reused: bool, id: int, r: Result, ghost c1: Option<Answer>, ghost c2: Option<Answer>,
             ghost t1: seq<Action>, ghost t2: seq<Action>)
    requires stack.Valid() && stack.Mirrored() && size <= buffer.Length && buffer !in stack.storage
    modifies stack`free, stack`held, stack`rows, stack`marked, stack`ipConfigured, stack`sockets, stack`members
    modifies stack.rxBuf, stack.sslctx, stack.storage, stack.members`txfull, stack.members`pending, stack.members`calls
    modifies stack.modem, buffer
    ensures stack.modem.actions == old(stack.modem.actions) + t1 + t2
    ensures c1.Some? <==> w.resolves && None in old(stack.rows.ids) && (old(stack.ipConfigured) || w.hasAddress)
    ensures if Connected(c1, t1) && HasSlot(c1.value.id) then
              c2.Some? <==> None in old(stack.rows).Added(c1.value.id).ids
            else c2.None?
    ensures reused <==>
              Connected(c1, t1) && HasSlot(c1.value.id) && Connected(c2, t2) && c2.value.id == c1.value.id
    ensures reused ==>
              && id == c1.value.id
              && stack.modem.sent == old(stack.modem.sent) + Creation(TCP, if tls then ctx else -1, c1)
                                     + old(stack.rows).Added(id).Closing(id)
                                     + Creation(TCP, if tls then ctx else -1, c2)
              && r == ErrWouldBlock && stack.modem.Queue(id) == [segment]
  {
    reused, r, c2, t2 := false, ErrWouldBlock, None, [];
    var ok;
    ghost var before := stack.rows;
    ok, id, c1, t1 := UseOnce(stack, tls, ctx, w);
    if ok {
      before.FirstStaysFound(id);
      reused, r, c2, t2 := ReusedStarves(stack, tls, ctx, w, id, segment, buffer, size);
    }
  }
}
