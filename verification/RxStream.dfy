/** What receiving does to one socket, and what whole runs of it keep. */
module RxStream {
  import opened Common

  datatype Proto = UDP | TCP

  /** How an #IPREAD exchange can go wrong: the modem refuses it, its answer is lost on the way after
      it gave up the segment, or the transfer breaks behind the header. */
  datatype Fault = NoFault | Refused | AnswerLost | BodyLost

  /** One socket: the segments the modem still holds for it, and the driver's own record of it. */
  datatype Rx = Rx(queue: seq<seq<byte>>, left: seq<byte>, pending: nat, closed: bool, buffered: bool)

  datatype Outcome = Delivered(bytes: seq<byte>) | WouldBlock | ConnectionLost | NoMemory

  datatype Reply = Reply(rx: Rx, outcome: Outcome)

  const FRESH := Rx([], [], 0, false, true)

  // ------------------------------------------------------------------ one call

  /** Whether a receive turns to the modem. */
  predicate Asks(proto: Proto, s: Rx) {
    !s.closed && (proto.UDP? || s.left == []) && s.pending > 0
  }

  function Recv(proto: Proto, cap: nat, s: Rx, size: nat, fault: Fault): Reply {
    if s.closed then Reply(s, ConnectionLost)
    else if proto.TCP? && s.left != [] then
      var n := Min(|s.left|, size);
      Reply(s.(left := s.left[n..]), Delivered(s.left[..n]))
    else if s.pending == 0 then Reply(s.(left := []), WouldBlock)
    else Fetch(proto, cap, s.(left := []), size, fault)
  }

  /** Taking the oldest segment from the modem. */
  function Fetch(proto: Proto, cap: nat, s: Rx, size: nat, fault: Fault): Reply {
    if fault.Refused? || s.queue == [] then Reply(s, WouldBlock)
    else
      var popped := s.(queue := s.queue[1..]);
      if fault.AnswerLost? || s.queue[0] == [] then Reply(popped, WouldBlock)
      else TakeSegment(proto, cap, popped, s.queue[0], size, fault)
  }

  /** What a fetch does with a segment whose header came through. */
  function TakeSegment(proto: Proto, cap: nat, s: Rx, segment: seq<byte>, size: nat, fault: Fault): Reply {
    if proto.TCP? && !s.buffered then Reply(s.(pending := 0), NoMemory)
    else Consume(proto, s, if proto.TCP? then Take(segment, cap) else segment, size, fault)
  }

  /** Handing out the bytes the driver kept of a segment. */
  function Consume(proto: Proto, s: Rx, kept: seq<byte>, size: nat, fault: Fault): Reply {
    var n := Min(|kept|, size);
    if fault.BodyLost? || n == 0 then Reply(s.(pending := 0), WouldBlock)
    else
      Reply(s.(left := if proto.TCP? then kept[n..] else [], pending := if s.pending > 0 then s.pending - 1 else 0),
            Delivered(kept[..n]))
  }

  /** The answer of a receive, case by case, on every socket: a socket known to be closed has lost its connection,
      and no other has; a TCP socket with something buffered hands out its front, as much as the caller takes;
      without a credit a receive waits; a fetch hands out the front of the oldest segment when nothing goes wrong,
      and fails for want of memory exactly when a TCP segment comes through and there is no buffer for it. */
  lemma AnswerIs(proto: Proto, cap: nat, s: Rx, size: nat, fault: Fault)
    ensures var o := Recv(proto, cap, s, size, fault).outcome;
            && (o == ConnectionLost <==> s.closed)
            && (o == NoMemory <==> proto == TCP && !s.buffered && HeaderComes(proto, s, fault))
            && (!s.closed && proto == TCP && s.left != [] ==>
                  o == Delivered(if size < |s.left| then s.left[..size] else s.left))
            && (!s.closed && (proto == UDP || s.left == []) ==>
                  (o.Delivered? <==> HeaderComes(proto, s, fault) && fault == NoFault && size > 0
                                     && (proto == TCP ==> s.buffered && cap > 0)))
            && (o.Delivered? && (proto == UDP || s.left == []) ==>
                  var n := |s.queue[0]|;
                  && o.bytes <= s.queue[0]
                  && |o.bytes| == if proto == UDP then Min(n, size) else Min(Min(n, cap), size))
  {
  }

  /** What a TCP receive hands out of its buffer it takes from the front. */
  lemma FrontHandedOut(cap: nat, s: Rx, size: nat, fault: Fault)
    requires !s.closed && s.left != []
    ensures var r, n := Recv(TCP, cap, s, size, fault), if size < |s.left| then size else |s.left|;
            r.outcome == Delivered(s.left[..n]) && r.rx == s.(left := s.left[n..])
  {
  }

  /** A receive turns to the modem and gets the header of a segment with data. */
  predicate HeaderComes(proto: Proto, s: Rx, fault: Fault) {
    && !s.closed && (proto == UDP || s.left == []) && s.pending > 0
    && s.queue != [] && s.queue[0] != [] && (fault == NoFault || fault == BodyLost)
  }

  /** A receive that finds nothing buffered for it, but a credit, fetches. */
  lemma RecvFetches(proto: Proto, cap: nat, s: Rx, size: nat, fault: Fault)
    requires !s.closed && s.pending > 0 && (proto.UDP? || s.left == [])
    ensures Recv(proto, cap, s, size, fault) == Fetch(proto, cap, s.(left := []), size, fault)
  {
  }

  lemma FetchTakes(proto: Proto, cap: nat, s: Rx, size: nat, fault: Fault)
    requires s.queue != [] && s.queue[0] != [] && (fault.NoFault? || fault.BodyLost?)
    ensures Fetch(proto, cap, s, size, fault) ==
            TakeSegment(proto, cap, s.(queue := s.queue[1..]), s.queue[0], size, fault)
  {
  }

  // ---------------------------------------------------------------------- runs

  datatype Event =
    | Arrive(segment: seq<byte>)
    | Announce
    | Receive(size: nat, fault: Fault)
    | RemoteClose
    | Reopen(emptied: bool, buffered: bool)

  /** The modem gives up a segment and answers nothing, or gives up an empty one. */
  predicate Leaks(proto: Proto, s: Rx, fault: Fault) {
    && Asks(proto, s) && s.queue != []
    && (fault.AnswerLost? || (s.queue[0] == [] && !fault.Refused?))
  }

  /** A fetch that ends without data for its caller while more credits are outstanding than its own. */
  predicate Strands(proto: Proto, cap: nat, s: Rx, size: nat, fault: Fault) {
    && Asks(proto, s) && s.pending > 1 && s.queue != [] && s.queue[0] != []
    && (fault.NoFault? || fault.BodyLost?)
    && (fault.BodyLost? || size == 0 || (proto.TCP? && (!s.buffered || cap == 0)))
  }

  datatype Read = Read(size: nat, bytes: seq<byte>)

  /** A socket with its past: #IPRECV lines handled, segments arrived, reads answered with data, how often a
      receive leaked a credit, and how many credits receives stranded. Reopening, which only UDP does, keeps
      the credits; it loses what the modem held when it succeeds, and may when it does not. */
  datatype Hist = Hist(rx: Rx, urcs: nat, arrived: seq<seq<byte>>, done: seq<Read>, leaked: nat, stranded: nat)

  const START := Hist(FRESH, 0, [], [], 0, 0)

  function Step(proto: Proto, cap: nat, h: Hist, e: Event): Hist {
    match e
    case Arrive(segment) => h.(rx := h.rx.(queue := h.rx.queue + [segment]), arrived := h.arrived + [segment])
    case Announce => h.(rx := h.rx.(pending := h.rx.pending + 1), urcs := h.urcs + 1)
    case Receive(size, fault) =>
      var r := Recv(proto, cap, h.rx, size, fault);
      h.(rx := r.rx,
         done := if r.outcome.Delivered? then h.done + [Read(size, r.outcome.bytes)] else h.done,
         leaked := if Leaks(proto, h.rx, fault) then h.leaked + 1 else h.leaked,
         stranded := if Strands(proto, cap, h.rx, size, fault) then h.stranded + h.rx.pending - 1 else h.stranded)
    case RemoteClose => h.(rx := h.rx.(closed := true, left := []))
    case Reopen(emptied, buffered) =>
      if proto.TCP? then h
      else h.(rx := Reopened(h.rx, emptied, buffered), leaked := if emptied then h.leaked + |h.rx.queue| else h.leaked)
  }

  function Reopened(s: Rx, emptied: bool, buffered: bool): Rx {
    s.(queue := if emptied then [] else s.queue, left := [], buffered := buffered)
  }

  function Run(proto: Proto, cap: nat, h: Hist, es: seq<Event>): Hist
    decreases |es|
  {
    if es == [] then h else Run(proto, cap, Step(proto, cap, h, es[0]), es[1..])
  }

  /** Over every run, whatever arrives, is announced, read or goes wrong: the connection is lost for a reader if
      and only if the remote end has closed. */
  lemma {:induction false} ClosedForGood(proto: Proto, cap: nat, h: Hist, es: seq<Event>, size: nat, fault: Fault)
    ensures Recv(proto, cap, Run(proto, cap, h, es).rx, size, fault).outcome == ConnectionLost <==>
            h.rx.closed || RemoteClose in es
    decreases |es|
  {
    if es == [] {
      AnswerIs(proto, cap, h.rx, size, fault);
    } else {
      var h1 := Step(proto, cap, h, es[0]);
      assert h1.rx.closed <==> h.rx.closed || es[0] == RemoteClose;
      ClosedForGood(proto, cap, h1, es[1..], size, fault);
      assert RemoteClose in es <==> es[0] == RemoteClose || RemoteClose in es[1..];
    }
  }

  /** The modem announces every segment once at most. */
  ghost predicate Possible(proto: Proto, cap: nat, h: Hist, es: seq<Event>)
    decreases |es|
  {
    es != [] ==>
      && (es[0].Announce? ==> h.urcs < |h.arrived|)
      && Possible(proto, cap, Step(proto, cap, h, es[0]), es[1..])
  }

  /** Non-empty segments, reads of at least one byte, no faults, no close, no reopening. */
  predicate Clean(e: Event) {
    match e
    case Arrive(segment) => segment != []
    case Announce => true
    case Receive(size, fault) => size > 0 && fault == NoFault
    case RemoteClose => false
    case Reopen(_, _) => false
  }

  ghost function Bytes(done: seq<Read>): seq<byte> {
    if done == [] then [] else Bytes(done[..|done| - 1]) + done[|done| - 1].bytes
  }

  /** Segments cut to what a receive buffer keeps of them, joined. */
  ghost function Joined(segments: seq<seq<byte>>, cap: nat): seq<byte> {
    if segments == [] then [] else Take(segments[0], cap) + Joined(segments[1..], cap)
  }

  lemma {:induction false} JoinedAppend(segments: seq<seq<byte>>, segment: seq<byte>, cap: nat)
    ensures Joined(segments + [segment], cap) == Joined(segments, cap) + Take(segment, cap)
  {
    if segments == [] {
      assert (segments + [segment])[1..] == [];
    } else {
      assert (segments + [segment])[1..] == segments[1..] + [segment];
      JoinedAppend(segments[1..], segment, cap);
    }
  }

  ghost predicate NonEmpty(segments: seq<seq<byte>>) {
    forall i :: 0 <= i < |segments| ==> segments[i] != []
  }

  /** What of the stream is still to come: kept by the driver, or held by the modem. */
  ghost function Ahead(s: Rx, cap: nat): seq<byte> {
    s.left + Joined(s.queue, cap)
  }

  /** All of the stream that is delivered or still to come. */
  ghost function Total(h: Hist, cap: nat): seq<byte> {
    Bytes(h.done) + Ahead(h.rx, cap)
  }

  /** Segments the modem has given up. */
  ghost function Popped(h: Hist): int {
    |h.arrived| - |h.rx.queue|
  }

  // --------------------------------------------------- what a single step keeps

  /** A fetch that takes a non-empty segment and hands none of it over. */
  ghost predicate Loses(s: Rx, size: nat, fault: Fault) {
    && Asks(TCP, s) && s.queue != [] && s.queue[0] != []
    && !fault.Refused? && (size == 0 || !fault.NoFault?)
  }

  ghost function Handed(o: Outcome): seq<byte> {
    if o.Delivered? then o.bytes else []
  }

  /** Handing over the front of what is ahead, or nothing. */
  ghost predicate Kept(cap: nat, s: Rx, r: Reply) {
    if r.outcome.Delivered? then Ahead(s, cap) == r.outcome.bytes + Ahead(r.rx, cap)
    else Ahead(s, cap) == Ahead(r.rx, cap)
  }

  /** Dropping the front segment and handing over nothing. */
  ghost predicate Dropped(cap: nat, s: Rx, r: Reply) {
    && s.queue != [] && !r.outcome.Delivered?
    && Ahead(s, cap) == Take(s.queue[0], cap) + Ahead(r.rx, cap)
  }

  lemma ConsumeAhead(cap: nat, s: Rx, kept: seq<byte>, size: nat)
    requires s.left == [] && kept != [] && size > 0
    ensures var r := Consume(TCP, s, kept, size, NoFault);
            r.outcome.Delivered? && kept + Ahead(s, cap) == r.outcome.bytes + Ahead(r.rx, cap)
  {
    var n := Min(|kept|, size);
    assert kept == kept[..n] + kept[n..];
  }

  lemma FetchAhead(cap: nat, s: Rx, size: nat, fault: Fault)
    requires s.left == []
    ensures var r := Fetch(TCP, cap, s, size, fault);
            if fault.Refused? || s.queue == [] then r == Reply(s, WouldBlock)
            else if fault.NoFault? && size > 0 && s.buffered && cap > 0 then Kept(cap, s, r)
            else Dropped(cap, s, r)
  {
    if s.queue != [] && !fault.Refused? {
      assert Ahead(s, cap) == Take(s.queue[0], cap) + Ahead(s.(queue := s.queue[1..]), cap);
      if fault.NoFault? && size > 0 && s.buffered && cap > 0 && s.queue[0] != [] {
        ConsumeAhead(cap, s.(queue := s.queue[1..]), Take(s.queue[0], cap), size);
      }
    }
  }

  /** A receive hands over the front of what is ahead, or drops the front segment. */
  lemma RecvAhead(cap: nat, s: Rx, size: nat, fault: Fault)
    ensures var r := Recv(TCP, cap, s, size, fault);
            && (Kept(cap, s, r) || Dropped(cap, s, r))
            && (Loses(s, size, fault) ==> Dropped(cap, s, r))
            && (s.buffered && cap > 0 && !Loses(s, size, fault) ==> Kept(cap, s, r))
  {
    if !s.closed && s.left == [] && s.pending > 0 {
      FetchAhead(cap, s, size, fault);
    }
  }

  lemma TotalAfterRecv(cap: nat, h: Hist, size: nat, fault: Fault)
    ensures var r := Recv(TCP, cap, h.rx, size, fault);
            Total(Step(TCP, cap, h, Receive(size, fault)), cap) == Bytes(h.done) + Handed(r.outcome) + Ahead(r.rx, cap)
  {
    var f := Step(TCP, cap, h, Receive(size, fault));
    if f.done != h.done {
      assert f.done[..|h.done|] == h.done;
    }
  }

  /** A receive leaves the total as it is, or cuts one piece x out of it. */
  lemma RecvCuts(cap: nat, h: Hist, size: nat, fault: Fault) returns (a: seq<byte>, x: seq<byte>, c: seq<byte>)
    ensures Total(h, cap) == a + x + c
    ensures Total(Step(TCP, cap, h, Receive(size, fault)), cap) == a + c
    ensures h.rx.buffered && cap > 0 ==> (x == [] <==> !Loses(h.rx, size, fault))
  {
    RecvAhead(cap, h.rx, size, fault);
    TotalAfterRecv(cap, h, size, fault);
    var r := Recv(TCP, cap, h.rx, size, fault);
    a, c := Bytes(h.done) + Handed(r.outcome), Ahead(r.rx, cap);
    if Kept(cap, h.rx, r) && !Loses(h.rx, size, fault) {
      x := [];
      Regroup(Bytes(h.done), Handed(r.outcome), [], c);
    } else {
      x := Take(h.rx.queue[0], cap);
      Regroup(Bytes(h.done), [], x, c);
    }
  }

  lemma Regroup(a: seq<byte>, b: seq<byte>, c: seq<byte>, d: seq<byte>)
    ensures a + b + c + d == a + (b + (c + d))
    ensures [] + (c + d) == c + d && [] + d == d
  {
  }

  /** A TCP receive keeps the stream whole exactly when it does not lose a segment. */
  lemma RecvKeepsStreamIff(cap: nat, h: Hist, size: nat, fault: Fault)
    requires cap > 0 && h.rx.buffered
    ensures Total(Step(TCP, cap, h, Receive(size, fault)), cap) == Total(h, cap) <==> !Loses(h.rx, size, fault)
  {
    var a, x, c := RecvCuts(cap, h, size, fault);
    CutShows(a, x, c);
  }

  lemma CutShows(a: seq<byte>, x: seq<byte>, c: seq<byte>)
    ensures a + x + c == a + c <==> x == []
  {
    assert |a + x + c| == |a + c| + |x|;
  }

  lemma RemoteCloseKeepsStreamIff(cap: nat, h: Hist)
    ensures Total(Step(TCP, cap, h, RemoteClose), cap) == Total(h, cap) <==> h.rx.left == []
  {
    var h' := Step(TCP, cap, h, RemoteClose);
    if h.rx.left != [] {
      assert |Total(h', cap)| < |Total(h, cap)|;
    }
  }

  // --------------------------------------------------------------- error-free runs

  /** What an error-free run keeps for a TCP socket. */
  ghost predicate Faithful(cap: nat, h: Hist) {
    && !h.rx.closed && h.rx.buffered
    && NonEmpty(h.rx.queue)
    && h.rx.pending + Popped(h) == h.urcs <= |h.arrived|
    && Total(h, cap) == Joined(h.arrived, cap)
  }

  /** A segment's arrival lengthens both sides of the stream by what will be kept of it. */
  lemma ArrivalExtends(cap: nat, h: Hist, segment: seq<byte>)
    ensures var f := Step(TCP, cap, h, Arrive(segment));
            && Total(f, cap) == Total(h, cap) + Take(segment, cap)
            && Joined(f.arrived, cap) == Joined(h.arrived, cap) + Take(segment, cap)
  {
    JoinedAppend(h.rx.queue, segment, cap);
    JoinedAppend(h.arrived, segment, cap);
  }

  lemma CleanReceive(cap: nat, h: Hist, size: nat)
    requires cap > 0 && size > 0 && !h.rx.closed && h.rx.buffered && NonEmpty(h.rx.queue)
    requires h.rx.pending + Popped(h) == h.urcs <= |h.arrived|
    ensures var f := Step(TCP, cap, h, Receive(size, NoFault));
            && !f.rx.closed && f.rx.buffered && NonEmpty(f.rx.queue)
            && f.rx.pending + Popped(f) == f.urcs <= |f.arrived|
  {
  }

  lemma CleanStepFaithful(cap: nat, h: Hist, e: Event)
    requires cap > 0 && Faithful(cap, h) && Clean(e) && (e.Announce? ==> h.urcs < |h.arrived|)
    ensures Faithful(cap, Step(TCP, cap, h, e))
  {
    match e
    case Arrive(segment) =>
      ArrivalExtends(cap, h, segment);
    case Announce =>
    case Receive(size, fault) =>
      CleanReceive(cap, h, size);
      RecvKeepsStreamIff(cap, h, size, fault);
    case RemoteClose =>
    case Reopen(_, _) =>
  }

  /** TCP stream fidelity and credit accounting, over every error-free run: what was delivered, what
      the buffer holds and what the modem still queues are together all that arrived, in order, and
      the credits count the announced segments still queued. */
  lemma {:induction false} StreamFidelity(cap: nat, h: Hist, es: seq<Event>)
    requires cap > 0 && Faithful(cap, h) && Possible(TCP, cap, h, es)
    requires forall e :: e in es ==> Clean(e)
    ensures var f := Run(TCP, cap, h, es);
            && Bytes(f.done) + (f.rx.left + Joined(f.rx.queue, cap)) == Joined(f.arrived, cap)
            && f.rx.pending == f.urcs - Popped(f) <= |f.rx.queue|
            && Faithful(cap, f)
    decreases |es|
  {
    if es != [] {
      CleanStepFaithful(cap, h, es[0]);
      StreamFidelity(cap, Step(TCP, cap, h, es[0]), es[1..]);
    }
  }

  lemma StartFaithful(cap: nat)
    ensures Faithful(cap, START)
  {
  }

  /** In an error-free run a receive is told to wait exactly when nothing is buffered and no
      announced segment is queued. */
  lemma BlocksIff(cap: nat, h: Hist, size: nat)
    requires cap > 0 && Faithful(cap, h) && size > 0
    ensures Recv(TCP, cap, h.rx, size, NoFault).outcome == WouldBlock <==>
            h.rx.left == [] && h.urcs == Popped(h)
  {
  }

  /** What an error-free run keeps for a UDP socket: reads and datagrams stay one to one. */
  ghost predicate OneToOne(h: Hist) {
    && !h.rx.closed && h.rx.left == []
    && h.rx.pending + Popped(h) == h.urcs <= |h.arrived|
    && |h.done| <= |h.arrived| && h.rx.queue == h.arrived[|h.done|..]
    && NonEmpty(h.arrived)
    && (forall i :: 0 <= i < |h.done| ==> h.done[i].bytes == Take(h.arrived[i], h.done[i].size))
  }

  lemma StartOneToOne()
    ensures OneToOne(START)
  {
  }

  lemma DatagramStep(cap: nat, h: Hist, e: Event)
    requires OneToOne(h) && Clean(e) && (e.Announce? ==> h.urcs < |h.arrived|)
    ensures OneToOne(Step(UDP, cap, h, e))
  {
    var f := Step(UDP, cap, h, e);
    match e
    case Arrive(segment) =>
      assert f.rx.queue == f.arrived[|f.done|..];
    case Announce =>
    case Receive(size, fault) =>
      if h.rx.pending > 0 {
        assert h.rx.queue[0] == h.arrived[|h.done|];
        assert f.rx.queue == f.arrived[|f.done|..];
      }
    case RemoteClose =>
    case Reopen(_, _) =>
  }

  /** Datagram boundaries, over every error-free run: the i-th read is the i-th datagram cut to the
      size its caller asked for. */
  lemma {:induction false} DatagramFidelity(cap: nat, h: Hist, es: seq<Event>)
    requires OneToOne(h) && Possible(UDP, cap, h, es)
    requires forall e :: e in es ==> Clean(e)
    ensures OneToOne(Run(UDP, cap, h, es))
    decreases |es|
  {
    if es != [] {
      DatagramStep(cap, h, es[0]);
      DatagramFidelity(cap, Step(UDP, cap, h, es[0]), es[1..]);
    }
  }

  // ---------------------------------------------------------------------- draining

  datatype Drained = Drained(rx: Rx, bytes: seq<byte>)

  /** Repeated receives with the given sizes, and all they deliver. */
  function Drain(cap: nat, s: Rx, sizes: seq<nat>): Drained
    decreases |sizes|
  {
    if sizes == [] then Drained(s, [])
    else
      var r := Recv(TCP, cap, s, sizes[0], NoFault);
      var rest := Drain(cap, r.rx, sizes[1..]);
      Drained(rest.rx, (if r.outcome.Delivered? then r.outcome.bytes else []) + rest.bytes)
  }

  /** The announced part of the backlog. */
  ghost function Backlog(cap: nat, s: Rx): seq<byte>
    requires s.pending <= |s.queue|
  {
    s.left + Joined(s.queue[..s.pending], cap)
  }

  lemma RecvShortensBacklog(cap: nat, s: Rx, size: nat)
    requires cap > 0 && size > 0 && !s.closed && s.buffered && s.pending <= |s.queue|
    requires NonEmpty(s.queue)
    ensures var r := Recv(TCP, cap, s, size, NoFault);
            && !r.rx.closed && r.rx.buffered && r.rx.pending <= |r.rx.queue|
            && NonEmpty(r.rx.queue)
            && (if Backlog(cap, s) == [] then r.outcome == WouldBlock && Backlog(cap, r.rx) == []
                else r.outcome.Delivered? && r.outcome.bytes != [] &&
                     Backlog(cap, s) == r.outcome.bytes + Backlog(cap, r.rx))
  {
    var r := Recv(TCP, cap, s, size, NoFault);
    if s.left == [] && s.pending > 0 {
      assert s.queue[..s.pending][0] == s.queue[0];
      assert s.queue[..s.pending][1..] == s.queue[1..][..s.pending - 1];
    }
  }

  /** As many receives as there are bytes empty buffer and announced queue, whatever sizes they ask
      for, and deliver the whole backlog in order. */
  lemma {:induction false} DrainDelivers(cap: nat, s: Rx, sizes: seq<nat>)
    requires cap > 0 && !s.closed && s.buffered && s.pending <= |s.queue|
    requires NonEmpty(s.queue)
    requires forall i :: 0 <= i < |sizes| ==> sizes[i] > 0
    requires |sizes| >= |Backlog(cap, s)|
    ensures Drain(cap, s, sizes).bytes == Backlog(cap, s)
    ensures Drain(cap, s, sizes).rx.left == [] && Drain(cap, s, sizes).rx.pending == 0
    decreases |sizes|
  {
    if sizes == [] {
      if s.left != [] || s.pending > 0 {
        BacklogLeft(cap, s);
      }
    } else {
      RecvShortensBacklog(cap, s, sizes[0]);
      DrainDelivers(cap, Recv(TCP, cap, s, sizes[0], NoFault).rx, sizes[1..]);
    }
  }

  lemma BacklogLeft(cap: nat, s: Rx)
    requires cap > 0 && s.pending <= |s.queue| && NonEmpty(s.queue)
    requires s.left != [] || s.pending > 0
    ensures Backlog(cap, s) != []
  {
    if s.left == [] {
      assert s.queue[..s.pending][0] == s.queue[0];
      assert |Take(s.queue[0], cap)| > 0;
    }
  }

  function Receives(sizes: seq<nat>): seq<Event> {
    if sizes == [] then [] else [Receive(sizes[0], NoFault)] + Receives(sizes[1..])
  }

  lemma {:induction false} DrainIsRun(cap: nat, h: Hist, sizes: seq<nat>)
    requires forall i :: 0 <= i < |sizes| ==> sizes[i] > 0
    ensures Run(TCP, cap, h, Receives(sizes)).rx == Drain(cap, h.rx, sizes).rx
    ensures Run(TCP, cap, h, Receives(sizes)).arrived == h.arrived
    ensures Run(TCP, cap, h, Receives(sizes)).urcs == h.urcs
    ensures Possible(TCP, cap, h, Receives(sizes)) && forall e :: e in Receives(sizes) ==> Clean(e)
    decreases |sizes|
  {
    if sizes != [] {
      var e := Receive(sizes[0], NoFault);
      DrainIsRun(cap, Step(TCP, cap, h, e), sizes[1..]);
      assert Receives(sizes)[1..] == Receives(sizes[1..]);
    }
  }

  /** Nothing is lost in the end: once every segment of an error-free run is announced, as many
      receives as there are bytes left have delivered the whole arrived stream. */
  lemma EventualDelivery(cap: nat, h: Hist, sizes: seq<nat>)
    requires cap > 0 && Faithful(cap, h) && h.urcs == |h.arrived|
    requires forall i :: 0 <= i < |sizes| ==> sizes[i] > 0
    requires |sizes| >= |Ahead(h.rx, cap)|
    ensures Bytes(Run(TCP, cap, h, Receives(sizes)).done) == Joined(h.arrived, cap)
  {
    var f := Run(TCP, cap, h, Receives(sizes));
    assert h.rx.queue[..h.rx.pending] == h.rx.queue;
    DrainDelivers(cap, h.rx, sizes);
    DrainIsRun(cap, h, sizes);
    StreamFidelity(cap, h, Receives(sizes));
    assert f.rx.left == [] && f.rx.queue == [];
    assert Total(f, cap) == Bytes(f.done);
  }

  /** The same for datagrams: once every one of an error-free run is announced, as many receives as there are
      datagrams queued have delivered each of them. */
  lemma {:induction false} DatagramDelivery(cap: nat, h: Hist, sizes: seq<nat>)
    requires OneToOne(h) && h.urcs == |h.arrived| && |sizes| >= |h.rx.queue|
    requires forall i :: 0 <= i < |sizes| ==> sizes[i] > 0
    ensures var f := Run(UDP, cap, h, Receives(sizes));
            OneToOne(f) && f.arrived == h.arrived && |f.done| == |f.arrived|
    decreases |sizes|
  {
    if sizes != [] {
      var e := Receive(sizes[0], NoFault);
      DatagramStep(cap, h, e);
      DatagramDelivery(cap, Step(UDP, cap, h, e), sizes[1..]);
      assert Receives(sizes)[1..] == Receives(sizes[1..]);
    }
  }

  // ------------------------------------------------------------- runs with errors

  /** Credits in, credits out: outstanding, spent or stranded, against announced or leaked. */
  ghost predicate Balanced(h: Hist) {
    h.rx.pending + Popped(h) + h.stranded == h.urcs + h.leaked && h.urcs <= |h.arrived| && Popped(h) >= 0
  }

  lemma CreditStep(proto: Proto, cap: nat, h: Hist, e: Event)
    requires Balanced(h) && (e.Announce? ==> h.urcs < |h.arrived|)
    ensures Balanced(Step(proto, cap, h, e))
  {
  }

  /** The credit ledger, over every run, with any faults, sizes, closes and reopenings: the credits are
      the announced segments still queued, plus the leaks, minus the stranded. */
  lemma {:induction false} CreditLedger(proto: Proto, cap: nat, h: Hist, es: seq<Event>)
    requires Balanced(h) && Possible(proto, cap, h, es)
    ensures var f := Run(proto, cap, h, es);
            && f.rx.pending == f.urcs - Popped(f) + f.leaked - f.stranded
            && f.rx.pending <= |f.rx.queue| + f.leaked
            && Balanced(f)
    decreases |es|
  {
    if es != [] {
      CreditStep(proto, cap, h, es[0]);
      CreditLedger(proto, cap, Step(proto, cap, h, es[0]), es[1..]);
    }
  }

  /** What a receive leaks shows: the modem gives up a segment and the credits stay. */
  lemma LeaksIff(proto: Proto, cap: nat, s: Rx, size: nat, fault: Fault)
    ensures var r := Recv(proto, cap, s, size, fault);
            r.rx.queue != s.queue && r.rx.pending == s.pending <==> Leaks(proto, s, fault)
  {
    var r := Recv(proto, cap, s, size, fault);
    assert r.rx.queue != s.queue <==> |r.rx.queue| < |s.queue|;
  }

  /** So does what it strands: more credits go than segments. */
  lemma StrandsIff(proto: Proto, cap: nat, s: Rx, size: nat, fault: Fault)
    ensures var r := Recv(proto, cap, s, size, fault);
            s.pending - r.rx.pending > |s.queue| - |r.rx.queue| <==> Strands(proto, cap, s, size, fault)
  {
  }

  /** A receive keeps exact credits exact if and only if it neither leaks nor strands one. */
  lemma ReceiveExactIff(proto: Proto, cap: nat, h: Hist, size: nat, fault: Fault)
    requires h.rx.pending + Popped(h) == h.urcs
    ensures var f := Step(proto, cap, h, Receive(size, fault));
            f.rx.pending + Popped(f) == f.urcs <==>
            !Leaks(proto, h.rx, fault) && !Strands(proto, cap, h.rx, size, fault)
  {
  }

  lemma RunFirst(proto: Proto, cap: nat, h: Hist, e: Event, es: seq<Event>)
    ensures Run(proto, cap, h, [e] + es) == Run(proto, cap, Step(proto, cap, h, e), es)
  {
    assert ([e] + es)[1..] == es;
  }

  /** An empty datagram is announced and taken, yet its credit stays: the count exceeds the queue. */
  lemma EmptyDatagramLeavesCredit(cap: nat)
    ensures var f := Run(UDP, cap, START, [Arrive([]), Announce, Receive(1, NoFault)]);
            f.rx.pending == 1 && f.rx.queue == []
  {
    var h1 := Step(UDP, cap, START, Arrive([]));
    var h2 := Step(UDP, cap, h1, Announce);
    assert [Arrive([]), Announce, Receive(1, NoFault)] == [Arrive([])] + ([Announce] + ([Receive(1, NoFault)] + []));
    RunFirst(UDP, cap, START, Arrive([]), [Announce] + ([Receive(1, NoFault)] + []));
    RunFirst(UDP, cap, h1, Announce, [Receive(1, NoFault)] + []);
    RunFirst(UDP, cap, h2, Receive(1, NoFault), []);
  }

  /** A receive of size 0 drops the segment it fetches, and with it the credit of the next one: that one
      stays queued and announced, but every further receive is told to wait. */
  lemma SizeZeroStrands(cap: nat, a: seq<byte>, b: seq<byte>)
    requires cap > 0 && a != []
    ensures var f := Run(TCP, cap, START, [Arrive(a), Arrive(b), Announce, Announce, Receive(0, NoFault)]);
            && f.rx.queue == [b] && f.urcs == 2 && f.rx.pending == 0 && f.stranded == 1 && f.done == []
            && forall size, fault :: Recv(TCP, cap, f.rx, size, fault) == Reply(f.rx, WouldBlock)
  {
    var h1 := Step(TCP, cap, START, Arrive(a));
    var h2 := Step(TCP, cap, h1, Arrive(b));
    var h3 := Step(TCP, cap, h2, Announce);
    var h4 := Step(TCP, cap, h3, Announce);
    var es2 := [Announce] + ([Announce] + ([Receive(0, NoFault)] + []));
    assert [Arrive(a), Arrive(b), Announce, Announce, Receive(0, NoFault)] == [Arrive(a)] + ([Arrive(b)] + es2);
    RunFirst(TCP, cap, START, Arrive(a), [Arrive(b)] + es2);
    RunFirst(TCP, cap, h1, Arrive(b), es2);
    RunFirst(TCP, cap, h2, Announce, [Announce] + ([Receive(0, NoFault)] + []));
    RunFirst(TCP, cap, h3, Announce, [Receive(0, NoFault)] + []);
    RunFirst(TCP, cap, h4, Receive(0, NoFault), []);
    assert h4.rx.queue == [a, b];
  }

  /** A remote close after a short read: what the driver had kept of the segment is never delivered. */
  lemma RemoteCloseDropsRest(cap: nat, a: byte, b: byte)
    requires cap > 1
    ensures var f := Run(TCP, cap, START, [Arrive([a, b]), Announce, Receive(1, NoFault), RemoteClose]);
            && Bytes(f.done) == [a] && Ahead(f.rx, cap) == []
            && forall size, fault :: Recv(TCP, cap, f.rx, size, fault) == Reply(f.rx, ConnectionLost)
  {
    var h1 := Step(TCP, cap, START, Arrive([a, b]));
    var h2 := Step(TCP, cap, h1, Announce);
    var h3 := Step(TCP, cap, h2, Receive(1, NoFault));
    var es := [Receive(1, NoFault)] + ([RemoteClose] + []);
    assert [Arrive([a, b]), Announce, Receive(1, NoFault), RemoteClose] == [Arrive([a, b])] + ([Announce] + es);
    RunFirst(TCP, cap, START, Arrive([a, b]), [Announce] + es);
    RunFirst(TCP, cap, h1, Announce, es);
    RunFirst(TCP, cap, h2, Receive(1, NoFault), [RemoteClose] + []);
    RunFirst(TCP, cap, h3, RemoteClose, []);
    ShortRead(cap, h2, a, b);
  }

  lemma ShortRead(cap: nat, h: Hist, a: byte, b: byte)
    requires cap > 1 && h.rx == Rx([[a, b]], [], 1, false, true) && h.done == []
    ensures var f := Step(TCP, cap, h, Receive(1, NoFault));
            f.rx == Rx([], [b], 0, false, true) && f.done == [Read(1, [a])] && Bytes(f.done) == [a]
  {
    assert Take([a, b], cap) == [a, b] && [a, b][..1] == [a] && [a, b][1..] == [b];
    assert [Read(1, [a])][..0] == [];
  }

  /** a is b with some bytes left out. */
  ghost predicate Within(a: seq<byte>, b: seq<byte>) {
    if a == [] then true
    else if b == [] then false
    else (a[0] == b[0] && Within(a[1..], b[1..])) || Within(a, b[1..])
  }

  lemma {:induction false} WithinAppend(a: seq<byte>, b: seq<byte>, c: seq<byte>)
    requires Within(a, b)
    ensures Within(a + c, b + c)
    decreases |b|
  {
    if b == [] {
      WithinSelf(c);
      assert a + c == c && b + c == c;
    } else {
      assert (b + c)[0] == b[0] && (b + c)[1..] == b[1..] + c;
      if a == [] {
        WithinAppend(a, b[1..], c);
      } else if a[0] == b[0] && Within(a[1..], b[1..]) {
        WithinAppend(a[1..], b[1..], c);
        assert (a + c)[0] == a[0] && (a + c)[1..] == a[1..] + c;
      } else {
        WithinAppend(a, b[1..], c);
      }
    }
  }

  lemma {:induction false} WithinSelf(a: seq<byte>)
    ensures Within(a, a)
  {
    if a != [] {
      WithinSelf(a[1..]);
    }
  }

  /** Cutting a piece x out of what is within b leaves something within b. */
  lemma {:induction false} WithinCut(a: seq<byte>, x: seq<byte>, c: seq<byte>, b: seq<byte>)
    requires Within(a + x + c, b)
    ensures Within(a + c, b)
    decreases |b|
  {
    var w := a + x + c;
    if a + c != [] && x != [] {
      if w[0] == b[0] && Within(w[1..], b[1..]) {
        if a == [] {
          assert w[1..] == [] + x[1..] + c;
          WithinCut([], x[1..], c, b[1..]);
        } else {
          assert w[1..] == a[1..] + x + c && (a + c)[1..] == a[1..] + c;
          WithinCut(a[1..], x, c, b[1..]);
        }
      } else {
        WithinCut(a, x, c, b[1..]);
      }
    } else if x == [] {
      assert w == a + c;
    }
  }

  lemma CloseWithin(cap: nat, h: Hist)
    requires Within(Total(h, cap), Joined(h.arrived, cap))
    ensures Within(Total(Step(TCP, cap, h, RemoteClose), cap), Joined(h.arrived, cap))
  {
    var queued := Joined(h.rx.queue, cap);
    assert Total(h, cap) == Bytes(h.done) + h.rx.left + queued;
    WithinCut(Bytes(h.done), h.rx.left, queued, Joined(h.arrived, cap));
    assert Total(Step(TCP, cap, h, RemoteClose), cap) == Bytes(h.done) + queued;
  }

  /** No step of any kind can put a byte where none was, or out of order. */
  lemma StepWithin(cap: nat, h: Hist, e: Event)
    requires cap > 0 && Within(Total(h, cap), Joined(h.arrived, cap))
    ensures var f := Step(TCP, cap, h, e);
            Within(Total(f, cap), Joined(f.arrived, cap))
  {
    match e
    case Arrive(segment) =>
      ArrivalExtends(cap, h, segment);
      WithinAppend(Total(h, cap), Joined(h.arrived, cap), Take(segment, cap));
    case Announce =>
    case Receive(size, fault) =>
      var a, x, c := RecvCuts(cap, h, size, fault);
      WithinCut(a, x, c, Joined(h.arrived, cap));
    case RemoteClose =>
      CloseWithin(cap, h);
    case Reopen(_, _) =>
  }

  /** Safety of the stream over every run, with any faults, sizes and closes: whatever was delivered
      or is still to come is the arrived stream with some bytes left out, never repeated, reordered
      or made up. */
  lemma {:induction false} StreamSafety(cap: nat, h: Hist, es: seq<Event>)
    requires cap > 0 && Within(Total(h, cap), Joined(h.arrived, cap))
    ensures var f := Run(TCP, cap, h, es);
            Within(Bytes(f.done) + (f.rx.left + Joined(f.rx.queue, cap)), Joined(f.arrived, cap))
    decreases |es|
  {
    if es != [] {
      StepWithin(cap, h, es[0]);
      StreamSafety(cap, Step(TCP, cap, h, es[0]), es[1..]);
    }
  }

  /** After reopening in an exact state the queue covers the credits unless it was emptied while some
      were outstanding. */
  lemma ReopenExactIff(cap: nat, h: Hist, emptied: bool, buffered: bool)
    requires OneToOne(h)
    ensures var f := Step(UDP, cap, h, Reopen(emptied, buffered));
            f.rx.pending <= |f.rx.queue| <==> !emptied || h.rx.pending == 0
  {
  }

  /** One such reopening: a credit is left, and nothing to fetch with it. */
  lemma ReopenLeavesCredit(cap: nat, a: seq<byte>)
    ensures var f := Run(UDP, cap, START, [Arrive(a), Announce, Reopen(true, true)]);
            f.rx.pending == 1 && f.rx.queue == []
  {
    var h1 := Step(UDP, cap, START, Arrive(a));
    var h2 := Step(UDP, cap, h1, Announce);
    assert [Arrive(a), Announce, Reopen(true, true)] == [Arrive(a)] + ([Announce] + ([Reopen(true, true)] + []));
    RunFirst(UDP, cap, START, Arrive(a), [Announce] + ([Reopen(true, true)] + []));
    RunFirst(UDP, cap, h1, Announce, [Reopen(true, true)] + []);
    RunFirst(UDP, cap, h2, Reopen(true, true), []);
  }
}
