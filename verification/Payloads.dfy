/** What the modem's log says about sends: which bytes it accepted for which socket. */
module Payloads {
  import opened Common
  import opened HexCodec
  import opened Modem
  import opened RxStream

  ghost function Repeat<T>(x: T, n: nat): seq<T> {
    if n == 0 then [] else Repeat(x, n - 1) + [x]
  }

  /** One command of a send, with its answer. */
  ghost function Packet(proto: Proto, id: int, text: seq<byte>, accepted: bool): Command {
    if proto.UDP? then SendUdp(id, text, accepted) else SendTcp(id, text, accepted)
  }

  /** The commands of a send: only the last can have been accepted. */
  ghost function Packets(proto: Proto, id: int, text: seq<byte>, tries: nat, accepted: bool): seq<Command> {
    if tries == 0 then []
    else Repeat(Packet(proto, id, text, false), tries - 1) + [Packet(proto, id, text, accepted)]
  }

  /** The bytes that the modem has accepted for a socket, in order: what the texts of the accepted sends decode
      to. */
  ghost function Payload(log: seq<Command>, proto: Proto, id: int): seq<byte> {
    Gathered(log, Parts(proto, id))
  }

  ghost function Parts(proto: Proto, id: int): Command -> seq<byte> {
    (c: Command) => PayloadOf(c, proto, id)
  }

  ghost function Gathered<C, T>(log: seq<C>, part: C -> seq<T>): seq<T> {
    if log == [] then [] else Gathered(log[..|log| - 1], part) + part(log[|log| - 1])
  }

  function PayloadOf(c: Command, proto: Proto, id: int): seq<byte> {
    match c
    case SendUdp(i, text, accepted) => if accepted && proto == UDP && i == id then Plain(text) else []
    case SendTcp(i, text, accepted) => if accepted && proto == TCP && i == id then Plain(text) else []
    case _ => []
  }

  function Plain(text: seq<byte>): seq<byte> {
    if Decode(text).Some? then Decode(text).value else []
  }

  /** A send command is of the record's kind, goes to its socket and carries data. */
  ghost predicate Addressed(c: Command, proto: Proto, id: int, data: seq<byte>) {
    && (c.SendUdp? ==> proto == UDP && c.id == id && Decode(c.text) == Some(data))
    && (c.SendTcp? ==> proto == TCP && c.id == id && Decode(c.text) == Some(data))
  }

  lemma {:induction false} GatheredJoined<C, T>(a: seq<C>, b: seq<C>, part: C -> seq<T>)
    ensures Gathered(a + b, part) == Gathered(a, part) + Gathered(b, part)
    decreases |b|
  {
    if b == [] {
      assert a + b == a;
    } else {
      assert (a + b)[..|a + b| - 1] == a + b[..|b| - 1];
      GatheredJoined(a, b[..|b| - 1], part);
    }
  }

  /** Commands that carry nothing. */
  lemma {:induction false} NothingGathered<C, T>(log: seq<C>, part: C -> seq<T>)
    requires forall c :: c in log ==> part(c) == []
    ensures Gathered(log, part) == []
    decreases |log|
  {
    if log != [] {
      assert log[|log| - 1] in log;
      NothingGathered(log[..|log| - 1], part);
    }
  }

  /** Of all that was appended, only the last part shows. */
  lemma LastGathered<C, T>(log: seq<C>, a: seq<C>, b: seq<C>, last: C, part: C -> seq<T>)
    requires forall c :: c in a || c in b ==> part(c) == []
    ensures Gathered(log + (a + (b + [last])), part) == Gathered(log, part) + part(last)
  {
    var more := a + (b + [last]);
    assert log + more == (log + (a + b)) + [last];
    assert ((log + (a + b)) + [last])[..|log| + |a + b|] == log + (a + b);
    GatheredJoined(log, a + b, part);
    NothingGathered(a + b, part);
  }

  lemma {:induction false} Repeated<T>(x: T, n: nat)
    ensures |Repeat(x, n)| == n && forall y :: y in Repeat(x, n) ==> y == x
  {
    if n > 0 {
      Repeated(x, n - 1);
    }
  }

  /** What one packet carries. */
  lemma PacketPayload(proto: Proto, id: int, text: seq<byte>, accepted: bool, data: seq<byte>, p: Proto, i: int)
    requires Decode(text) == Some(data)
    ensures Parts(p, i)(Packet(proto, id, text, accepted)) == if accepted && p == proto && i == id then data else []
    ensures Addressed(Packet(proto, id, text, accepted), proto, id, data)
  {
  }

  /** What the commands of a send carry, behind commands that are no sends: the data, for their own socket only,
      and only if the last of them was accepted. */
  lemma PacketsPayload(log: seq<Command>, pre: seq<Command>, proto: Proto, id: int, text: seq<byte>, tries: nat,
                       accepted: bool, data: seq<byte>, p: Proto, i: int)
    requires Decode(text) == Some(data) && tries > 0
    requires forall c :: c in pre ==> !c.SendUdp? && !c.SendTcp?
    ensures Payload(log + (pre + Packets(proto, id, text, tries, accepted)), p, i) ==
            Payload(log, p, i) + if accepted && p == proto && i == id then data else []
  {
    var refused, last := Repeat(Packet(proto, id, text, false), tries - 1), Packet(proto, id, text, accepted);
    Repeated(Packet(proto, id, text, false), tries - 1);
    PacketPayload(proto, id, text, false, data, p, i);
    PacketPayload(proto, id, text, accepted, data, p, i);
    LastGathered(log, pre, refused, last, Parts(p, i));
  }

  /** All that a send adds to the log. */
  lemma SendLog(log: seq<Command>, pre: seq<Command>, after: seq<Command>, proto: Proto, id: int, text: seq<byte>,
                tries: nat, accepted: bool, data: seq<byte>)
    requires Decode(text) == Some(data) && tries > 0
    requires forall c :: c in pre ==> !c.SendUdp? && !c.SendTcp?
    requires after == log + (pre + Packets(proto, id, text, tries, accepted))
    ensures log <= after && forall c :: c in after[|log|..] ==> Addressed(c, proto, id, data)
    ensures forall p, i :: Payload(after, p, i) ==
                           Payload(log, p, i) + if accepted && p == proto && i == id then data else []
  {
    forall p, i
      ensures Payload(after, p, i) == Payload(log, p, i) + if accepted && p == proto && i == id then data else []
    {
      PacketsPayload(log, pre, proto, id, text, tries, accepted, data, p, i);
    }
    var more := pre + Packets(proto, id, text, tries, accepted);
    assert after[|log|..] == more;
    Repeated(Packet(proto, id, text, false), tries - 1);
    forall c | c in more ensures Addressed(c, proto, id, data) {
      if c !in pre {
        PacketPayload(proto, id, text, false, data, proto, id);
        PacketPayload(proto, id, text, accepted, data, proto, id);
      }
    }
  }

  /** The same for a log in which a close and a creation may come first. */
  lemma SendLogOf(log: seq<Command>, a: seq<Command>, b: seq<Command>, reopens: bool, after: seq<Command>, proto: Proto,
                  id: int, text: seq<byte>, tries: nat, accepted: bool, data: seq<byte>)
    requires Decode(text) == Some(data) && tries > 0
    requires forall c :: c in a || c in b ==> !c.SendUdp? && !c.SendTcp?
    requires after == if reopens then log + a + b + Packets(proto, id, text, tries, accepted)
                      else log + Packets(proto, id, text, tries, accepted)
    ensures log <= after && forall c :: c in after[|log|..] ==> Addressed(c, proto, id, data)
    ensures forall p, i :: Payload(after, p, i) ==
                           Payload(log, p, i) + if accepted && p == proto && i == id then data else []
  {
    var packets := Packets(proto, id, text, tries, accepted);
    var pre := if reopens then a + b else [];
    assert after == log + (pre + packets);
    SendLog(log, pre, after, proto, id, text, tries, accepted, data);
  }
}
