/** The bounded-retry connect, against a modem that may answer anything. */
module TcpConnect {
  import opened Common
  import opened Modem

  const CONNECT_ATTEMPTS: nat := 2
  const RETRY_BACKOFF_MS: nat := 500
  const POLL_INTERVAL_MS: nat := 500
  const TIMEOUT_TLS_MS: nat := 65000
  const TIMEOUT_PLAIN_MS: nat := 15000

  /** What AT#TCPCONNECT? reports; anything else counts as unknown. */
  const CONNECTING: int := 4
  const CONNECTED: int := 5
  const CLOSING: int := 6

  function Timeout(tls: bool): nat {
    if tls then TIMEOUT_TLS_MS else TIMEOUT_PLAIN_MS
  }

  /** The last status seen; -1 before any. */
  ghost function LastStatus(t: seq<Action>): int {
    if t == [] then -1
    else match t[|t| - 1]
      case Query(status, _) => status
      case _ => LastStatus(t[..|t| - 1])
  }

  /** When it was seen. */
  ghost function LastTime(t: seq<Action>): nat {
    if t == [] then 0
    else match t[|t| - 1]
      case Query(_, at) => at
      case _ => LastTime(t[..|t| - 1])
  }

  /** When the wait under way is over: a wait lasts until the next connect. */
  ghost function WaitEnd(t: seq<Action>): Option<nat> {
    if t == [] then None
    else match t[|t| - 1]
      case Poll(ms, at) => Some(at + ms)
      case Connect => None
      case _ => WaitEnd(t[..|t| - 1])
  }

  /** A wait that has not seen the status change has been waited out. */
  ghost predicate WaitedOut(t: seq<Action>) {
    WaitEnd(t).Some? && LastStatus(t) == 4 ==> LastTime(t) >= WaitEnd(t).value
  }

  ghost function Queries(t: seq<Action>): nat {
    if t == [] then 0 else Queries(t[..|t| - 1]) + if t[|t| - 1].Query? then 1 else 0
  }

  ghost function Connects(t: seq<Action>): nat {
    if t == [] then 0 else Connects(t[..|t| - 1]) + if t[|t| - 1].Connect? then 1 else 0
  }

  ghost function Polls(t: seq<Action>): nat {
    if t == [] then 0 else Polls(t[..|t| - 1]) + if t[|t| - 1].Poll? then 1 else 0
  }

  /** Every action was allowed when it was taken. */
  ghost predicate Careful(t: seq<Action>, tls: bool) {
    t == [] || (Careful(t[..|t| - 1], tls) && Allowed(t[..|t| - 1], t[|t| - 1], tls))
  }

  /** No connect is issued before a status is known, nor while one is under way, standing or ending, and a
      second one only after a pause; waiting starts only on one under way, for a time that depends on TLS, and
      not before an earlier wait is over; a wait that is over has no further pause. */
  ghost predicate Allowed(t: seq<Action>, a: Action, tls: bool) {
    && (a.Connect? ==> Queries(t) > 0 && LastStatus(t) !in {4, 5, 6})
    && (a.Connect? && Connects(t) > 0 ==> t[|t| - 1] == Pause(500))
    && (a.Poll? ==> LastStatus(t) == 4 && WaitedOut(t) && a.ms == if tls then 65000 else 15000)
    && (a.Pause? ==> a.ms == 500 && (LastStatus(t) == 4 && WaitEnd(t).Some? ==> LastTime(t) < WaitEnd(t).value))
  }

  lemma Appended(t: seq<Action>, a: Action, tls: bool)
    ensures LastStatus(t + [a]) == if a.Query? then a.status else LastStatus(t)
    ensures LastTime(t + [a]) == if a.Query? then a.at else LastTime(t)
    ensures WaitEnd(t + [a]) == if a.Poll? then Some(a.at + a.ms) else if a.Connect? then None else WaitEnd(t)
    ensures Queries(t + [a]) == Queries(t) + if a.Query? then 1 else 0
    ensures Connects(t + [a]) == Connects(t) + if a.Connect? then 1 else 0
    ensures Polls(t + [a]) == Polls(t) + if a.Poll? then 1 else 0
    ensures Careful(t + [a], tls) <==> Careful(t, tls) && Allowed(t, a, tls)
  {
    assert (t + [a])[..|t|] == t;
  }

  /** What Careful says about one place of the trace. */
  lemma {:induction false} CarefulAt(t: seq<Action>, i: nat, tls: bool)
    requires Careful(t, tls) && i < |t|
    ensures t[i].Connect? ==> Queries(t[..i]) > 0 && LastStatus(t[..i]) !in {4, 5, 6}
    ensures t[i].Connect? && Connects(t[..i]) > 0 ==> i > 0 && t[i - 1] == Pause(500)
    ensures t[i].Poll? ==> LastStatus(t[..i]) == 4 && t[i].ms == if tls then 65000 else 15000
    ensures t[i].Poll? && WaitEnd(t[..i]).Some? ==> LastTime(t[..i]) >= WaitEnd(t[..i]).value
    ensures t[i].Pause? ==> t[i].ms == 500
    ensures t[i].Pause? && WaitEnd(t[..i]).Some? && LastStatus(t[..i]) == 4 ==> LastTime(t[..i]) < WaitEnd(t[..i]).value
  {
    if i < |t| - 1 {
      CarefulAt(t[..|t| - 1], i, tls);
      assert t[..|t| - 1][..i] == t[..i];
    }
  }

  /** A wait, seen in the trace: it begins at place i, no other begins and no connect is made up to place j, and
      the last status up to there is still 4. If it is over there, the last query came at least 65000 ms after it
      began with TLS, and 15000 ms without. */
  lemma {:induction false} WaitLasts(t: seq<Action>, i: nat, j: nat, tls: bool)
    requires Careful(t, tls) && i < j <= |t| && t[i].Poll? && LastStatus(t[..j]) == 4
    requires forall k :: i < k < j ==> !t[k].Poll? && !t[k].Connect?
    ensures WaitEnd(t[..j]) == Some(t[i].at + if tls then 65000 else 15000)
    ensures WaitedOut(t[..j]) <==> LastTime(t[..j]) >= t[i].at + if tls then 65000 else 15000
  {
    CarefulAt(t, i, tls);
    WaitBegun(t, i, j);
  }

  lemma {:induction false} WaitBegun(t: seq<Action>, i: nat, j: nat)
    requires i < j <= |t| && t[i].Poll? && forall k :: i < k < j ==> !t[k].Poll? && !t[k].Connect?
    ensures WaitEnd(t[..j]) == Some(t[i].at + t[i].ms)
    decreases j
  {
    assert t[..j][..j - 1] == t[..j - 1];
    if i < j - 1 {
      WaitBegun(t, i, j - 1);
    }
  }

  /** One query. In this and the next three methods base is what the modem had been asked before. */
  method Ask(modem: AtModem, tls: bool, ghost base: seq<Action>, ghost t0: seq<Action>)
    returns (status: int, ghost t: seq<Action>)
    requires Careful(t0, tls) && modem.actions == base + t0
    modifies modem`now, modem`actions
    ensures Careful(t, tls) && modem.actions == base + t && LastStatus(t) == status
    ensures LastTime(t) == modem.now >= old(modem.now) && WaitEnd(t) == WaitEnd(t0)
    ensures Queries(t) == Queries(t0) + 1 && Connects(t) == Connects(t0) && Polls(t) == Polls(t0)
  {
    status := modem.TcpStatus();
    t := t0 + [Query(status, modem.now)];
    Appended(t0, Query(status, modem.now), tls);
  }

  /** A pause. */
  method Rest(modem: AtModem, ms: nat, tls: bool, ghost base: seq<Action>, ghost t0: seq<Action>)
    returns (ghost t: seq<Action>)
    requires Careful(t0, tls) && Allowed(t0, Pause(ms), tls) && modem.actions == base + t0
    modifies modem`now, modem`actions
    ensures Careful(t, tls) && modem.actions == base + t && LastStatus(t) == LastStatus(t0)
    ensures LastTime(t) == LastTime(t0) && WaitEnd(t) == WaitEnd(t0)
    ensures Queries(t) == Queries(t0) && Connects(t) == Connects(t0) && Polls(t) == Polls(t0)
    ensures t != [] && t[|t| - 1] == Pause(ms) && modem.now >= old(modem.now) + ms
  {
    modem.Sleep(ms);
    t := t0 + [Pause(ms)];
    Appended(t0, Pause(ms), tls);
  }

  /** One AT#TCPCONNECT=. The status decides, whatever the command itself answered. */
  method Attempt(modem: AtModem, tls: bool, ghost base: seq<Action>, ghost t0: seq<Action>)
    returns (status: int, ghost t: seq<Action>)
    requires Careful(t0, tls) && Allowed(t0, Connect, tls) && modem.actions == base + t0
    modifies modem`now, modem`actions
    ensures Careful(t, tls) && modem.actions == base + t && LastStatus(t) == status && WaitEnd(t) == None
    ensures LastTime(t) == modem.now >= old(modem.now)
    ensures Queries(t) == Queries(t0) + 1 && Connects(t) == Connects(t0) + 1 && Polls(t) == Polls(t0)
  {
    modem.TcpConnect();
    t := t0 + [Connect];
    Appended(t0, Connect, tls);
    status, t := Ask(modem, tls, base, t);
  }

  /** The poll of a connect already under way: one pause and one query a round, until the status
      changes or the deadline passes. */
  method AwaitConnect(modem: AtModem, tls: bool, timeout: nat, status0: int, ghost base: seq<Action>,
                      ghost t0: seq<Action>)
    returns (status: int, ghost t: seq<Action>)
    requires Careful(t0, tls) && LastStatus(t0) == status0 == 4 && LastTime(t0) <= modem.now
    requires timeout == (if tls then 65000 else 15000) && WaitedOut(t0) && modem.actions == base + t0
    modifies modem`now, modem`actions
    ensures Careful(t, tls) && WaitedOut(t) && modem.actions == base + t && LastStatus(t) == status
    ensures Connects(t) == Connects(t0) && Polls(t) == Polls(t0) + 1 && LastTime(t) <= modem.now
    ensures Queries(t0) <= Queries(t) <= Queries(t0) + timeout / 500
    ensures status == 4 ==> modem.now >= old(modem.now) + timeout
  {
    ghost var start := modem.now;
    Appended(t0, Poll(timeout, start), tls);
    status, t := status0, t0 + [Poll(timeout, start)];
    var deadline := modem.Deadline(timeout);
    ghost var rounds := 0;
    while status == CONNECTING && modem.now < deadline
      invariant Careful(t, tls) && modem.actions == base + t && LastStatus(t) == status
      invariant Connects(t) == Connects(t0) && Polls(t) == Polls(t0) + 1
      invariant Queries(t) == Queries(t0) + rounds
      invariant WaitEnd(t) == Some(deadline) && LastTime(t) <= modem.now
      invariant rounds > 0 ==> LastTime(t) == modem.now
      invariant modem.now >= start + 500 * rounds && (rounds == 0 ==> modem.now == start)
      invariant 500 * rounds <= timeout
      decreases deadline - modem.now
    {
      t := Rest(modem, POLL_INTERVAL_MS, tls, base, t);
      status, t := Ask(modem, tls, base, t);
      rounds := rounds + 1;
    }
  }

  /** Brings a TCP connection up, or gives up. t is what it asked of the modem and the clock, and how it
      was answered. Over every sequence of answers and every clock that runs at least as fast as the
      pauses: it ends, it makes at most two attempts and never connects on a status that forbids it, it
      asks at most 1 + 2 * 130 times with TLS and 1 + 2 * 30 without, it reports a connection exactly when
      the last answer said so, and it gives up only on a socket that is closing or after both attempts; a
      connect already under way is given its full wait each time, and one that was under way from the start
      is given up only after twice 65 seconds with TLS and twice 15 without. */
  method Establish(modem: AtModem, tls: bool) returns (connected: bool, ghost t: seq<Action>)
    modifies modem`now, modem`actions
    ensures modem.actions == old(modem.actions) + t
    ensures Careful(t, tls) && WaitedOut(t) && Connects(t) + Polls(t) <= 2
    ensures 1 <= Queries(t) <= if tls then 1 + 2 * 130 else 1 + 2 * 30
    ensures connected <==> LastStatus(t) == 5
    ensures !connected ==> LastStatus(t) == 6 || Connects(t) + Polls(t) == 2
    ensures Connects(t) == 0 && LastStatus(t) == 4 ==>
              modem.now >= old(modem.now) + if tls then 2 * 65000 else 2 * 15000
  {
    ghost var base := modem.actions;
    var timeout := Timeout(tls);
    var status;
    status, t := Ask(modem, tls, base, []);
    connected := status == CONNECTED;
    var attempt := 0;
    while !connected && attempt < CONNECT_ATTEMPTS
      invariant 0 <= attempt <= 2
      invariant Careful(t, tls) && WaitedOut(t) && modem.actions == base + t && LastTime(t) <= modem.now
      invariant LastStatus(t) == status && (connected <==> status == 5)
      invariant Connects(t) + Polls(t) == attempt
      invariant Connects(t) > 0 && !connected && attempt < 2 ==> t[|t| - 1] == Pause(500)
      invariant Connects(t) == 0 && status == 4 ==> modem.now >= old(modem.now) + attempt * timeout
      invariant 1 <= Queries(t) <= 1 + attempt * (timeout / 500)
      decreases CONNECT_ATTEMPTS - attempt
    {
      if status == CLOSING {
        break;
      }
      if status == CONNECTING {
        status, t := AwaitConnect(modem, tls, timeout, status, base, t);
        connected := status == CONNECTED;
        attempt := attempt + 1;
        continue;
      }
      status, t := Attempt(modem, tls, base, t);
      connected := status == CONNECTED;
      if !connected && attempt + 1 < CONNECT_ATTEMPTS {
        t := Rest(modem, RETRY_BACKOFF_MS, tls, base, t);
      }
      attempt := attempt + 1;
    }
  }
}
